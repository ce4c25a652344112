/** 32-bit words as rows of bits and as numbers: what rotations, sums and accesses to memory do. */
module WordNumbers {
  import opened Bits
  import opened Words

  // The word in which only bit k is set.
  function BitAt(k: nat): (b: Word) {
    if k < 8 then BV(k) as Word
    else if k < 16 then (BV(k - 8) as Word) << 8
    else if k < 24 then (BV(k - 16) as Word) << 16
    else if k < 32 then (BV(k - 24) as Word) << 24
    else 0
  }

  function Meets(w: Word, b: Word): bool {
    w & b != 0
  }

  predicate BitIn(w: Word, k: nat) {
    Meets(w, BitAt(k))
  }

  lemma Masked0(w: Word, m: Byte)
    ensures ByteOf(w, 0) & m != 0 <==> w & (m as Word) != 0
  {
  }

  lemma Masked1(w: Word, m: Byte)
    ensures ByteOf(w, 1) & m != 0 <==> w & ((m as Word) << 8) != 0
  {
  }

  lemma Masked2(w: Word, m: Byte)
    ensures ByteOf(w, 2) & m != 0 <==> w & ((m as Word) << 16) != 0
  {
  }

  lemma Masked3(w: Word, m: Byte)
    ensures ByteOf(w, 3) & m != 0 <==> w & ((m as Word) << 24) != 0
  {
  }

  lemma BitOfByte0(w: Word, j: nat)
    requires j < 8
    ensures BitOf(ByteOf(w, 0), j) <==> BitIn(w, j)
  {
    calc {
      BitOf(ByteOf(w, 0), j);
      ByteOf(w, 0) & BV(j) != 0;
      { Masked0(w, BV(j)); }
      w & (BV(j) as Word) != 0;
      w & BitAt(j) != 0;
      BitIn(w, j);
    }
  }

  lemma BitOfByte1(w: Word, j: nat)
    requires j < 8
    ensures BitOf(ByteOf(w, 1), j) <==> BitIn(w, 8 + j)
  {
    calc {
      BitOf(ByteOf(w, 1), j);
      ByteOf(w, 1) & BV(j) != 0;
      { Masked1(w, BV(j)); }
      w & ((BV(j) as Word) << 8) != 0;
      w & BitAt(8 + j) != 0;
      BitIn(w, 8 + j);
    }
  }

  lemma BitOfByte2(w: Word, j: nat)
    requires j < 8
    ensures BitOf(ByteOf(w, 2), j) <==> BitIn(w, 16 + j)
  {
    calc {
      BitOf(ByteOf(w, 2), j);
      ByteOf(w, 2) & BV(j) != 0;
      { Masked2(w, BV(j)); }
      w & ((BV(j) as Word) << 16) != 0;
      w & BitAt(16 + j) != 0;
      BitIn(w, 16 + j);
    }
  }

  lemma BitOfByte3(w: Word, j: nat)
    requires j < 8
    ensures BitOf(ByteOf(w, 3), j) <==> BitIn(w, 24 + j)
  {
    calc {
      BitOf(ByteOf(w, 3), j);
      ByteOf(w, 3) & BV(j) != 0;
      { Masked3(w, BV(j)); }
      w & ((BV(j) as Word) << 24) != 0;
      w & BitAt(24 + j) != 0;
      BitIn(w, 24 + j);
    }
  }

  /** In memory, bit j of byte k is bit 8k + j of the word. */
  lemma BitOfByte(w: Word, k: nat, j: nat)
    requires k < 4 && j < 8
    ensures BitOf(ByteOf(w, k), j) <==> BitIn(w, 8 * k + j)
  {
    if k == 0 {
      BitOfByte0(w, j);
    } else if k == 1 {
      BitOfByte1(w, j);
    } else if k == 2 {
      BitOfByte2(w, j);
    } else {
      BitOfByte3(w, j);
    }
  }

  // --- rotation -----------------------------------------------------------------------------

  function Up(w: Word): Word {
    Rotl(w, 1)
  }

  // Rotation by fewer than 32 places.
  function RotlBy(w: Word, n: nat): Word {
    if n < 32 then Rotl(w, n as bv8) else w
  }

  lemma OneUp(w: Word, b: Word)
    ensures Meets(Up(w), Up(b)) <==> Meets(w, b)
  {
  }

  lemma BitUp(j: nat)
    requires j < 32
    ensures Up(BitAt(j)) == BitAt(NextPlace(j))
  {
  }

  lemma HighPart(w: Word, n: Byte)
    requires n < 31
    ensures (w << n) << 1 == w << (n + 1)
  {
  }

  lemma LowPart(w: Word, n: Byte)
    requires n < 31
    ensures w >> (32 - (n + 1)) == ((w >> (32 - n)) << 1) | ((w << n) >> 31)
    ensures (w >> (32 - n)) >> 31 == 0
  {
  }

  lemma UpOfParts(a: Word, b: Word)
    requires b >> 31 == 0
    ensures (a << 1) | ((b << 1) | (a >> 31)) == Up(a | b)
  {
  }

  lemma OnceMore(w: Word, n: Byte)
    requires n < 31
    ensures Rotl(w, n + 1) == Up(Rotl(w, n))
  {
    calc {
      Rotl(w, n + 1);
      (w << (n + 1)) | (w >> (32 - (n + 1)));
      { HighPart(w, n); LowPart(w, n); }
      ((w << n) << 1) | (((w >> (32 - n)) << 1) | ((w << n) >> 31));
      { LowPart(w, n); UpOfParts(w << n, w >> (32 - n)); }
      Up((w << n) | (w >> (32 - n)));
      Up(Rotl(w, n));
    }
  }

  lemma NextOctet(n: nat)
    requires n < 31
    ensures (n + 1) as bv8 == n as bv8 + 1 && n as bv8 < 31
  {
  }

  lemma Once(w: Word, n: nat)
    requires n < 31
    ensures RotlBy(w, n + 1) == Up(RotlBy(w, n))
  {
    NextOctet(n);
    OnceMore(w, n as bv8);
  }

  lemma NoneUp(w: Word)
    ensures RotlBy(w, 0) == w
  {
  }

  function NextPlace(j: nat): nat {
    if j == 31 then 0 else j + 1
  }

  function PlaceAfter(j: nat, n: nat): nat {
    if n == 0 then j else NextPlace(PlaceAfter(j, n - 1))
  }

  lemma {:induction false} PlaceIsRemainder(j: nat, n: nat)
    requires j < 32
    ensures PlaceAfter(j, n) == (j + n) % 32
    decreases n
  {
    if n > 0 {
      PlaceIsRemainder(j, n - 1);
      NextRemainder(j + (n - 1));
    }
  }

  lemma NextRemainder(k: nat)
    ensures (k + 1) % 32 == NextPlace(k % 32)
  {
  }

  // rot(w, n) applies up n times, and up takes bit(j) to the next one and keeps what meets.
  ghost predicate Turns<W(!new)>(up: W -> W, rot: (W, nat) -> W, meets: (W, W) -> bool, bit: nat -> W) {
    && (forall w {:trigger rot(w, 0)} :: rot(w, 0) == w)
    && (forall w, n: nat {:trigger rot(w, n)} :: n < 31 ==> rot(w, n + 1) == up(rot(w, n)))
    && (forall w, b {:trigger meets(w, b)} :: meets(up(w), up(b)) <==> meets(w, b))
    && (forall j: nat {:trigger bit(j)} :: j < 32 ==> up(bit(j)) == bit(NextPlace(j)))
  }

  lemma {:induction false} TurnsFar<W(!new)>(
    up: W -> W, rot: (W, nat) -> W, meets: (W, W) -> bool, bit: nat -> W, w: W, n: nat, j: nat)
    requires Turns(up, rot, meets, bit) && n < 32 && j < 32
    ensures PlaceAfter(j, n) < 32
    ensures meets(rot(w, n), bit(PlaceAfter(j, n))) <==> meets(w, bit(j))
    decreases n
  {
    if n == 0 {
      assert rot(w, 0) == w;
    } else {
      TurnsFar(up, rot, meets, bit, w, n - 1, j);
      TurnsOn(up, rot, meets, bit, w, n - 1, PlaceAfter(j, n - 1));
    }
  }

  lemma TurnsOn<W(!new)>(
    up: W -> W, rot: (W, nat) -> W, meets: (W, W) -> bool, bit: nat -> W, w: W, n: nat, i: nat)
    requires Turns(up, rot, meets, bit) && n < 31 && i < 32
    ensures meets(rot(w, n + 1), bit(NextPlace(i))) <==> meets(rot(w, n), bit(i))
  {
    assert meets(up(rot(w, n)), up(bit(i))) <==> meets(rot(w, n), bit(i));
  }

  lemma WordsTurn()
    ensures Turns(Up, RotlBy, Meets, BitAt)
  {
    forall w: Word
      ensures RotlBy(w, 0) == w
    {
      NoneUp(w);
    }
    forall w: Word, n: nat | n < 31
      ensures RotlBy(w, n + 1) == Up(RotlBy(w, n))
    {
      Once(w, n);
    }
    forall w: Word, b: Word
      ensures Meets(Up(w), Up(b)) <==> Meets(w, b)
    {
      OneUp(w, b);
    }
    forall j: nat | j < 32
      ensures Up(BitAt(j)) == BitAt(NextPlace(j))
    {
      BitUp(j);
    }
  }

  /** Rotation by n takes bit j to position (j + n) modulo 32. */
  lemma RotlMoves(w: Word, n: nat, j: nat)
    requires n < 32 && j < 32
    ensures BitIn(RotlBy(w, n), (j + n) % 32) <==> BitIn(w, j)
  {
    WordsTurn();
    TurnsFar(Up, RotlBy, Meets, BitAt, w, n, j);
    PlaceIsRemainder(j, n);
  }

  // --- numbers ------------------------------------------------------------------------------

  datatype Digits = Digits(d0: nat, d1: nat, d2: nat, d3: nat)

  function DigitsOf(w: Word): Digits {
    Digits(ByteOf(w, 0) as nat, ByteOf(w, 1) as nat, ByteOf(w, 2) as nat, ByteOf(w, 3) as nat)
  }

  // The number with these digits to the base 256, least significant one first.
  function Joined(d: Digits): nat {
    d.d0 + 0x100 * d.d1 + 0x1_0000 * d.d2 + 0x100_0000 * d.d3
  }

  // The bytes of a word in memory are its digits.
  function Number(w: Word): nat {
    Joined(DigitsOf(w))
  }

  /** Load reads these digits. */
  lemma NumberLoaded(b: seq<Byte>)
    requires |b| == 4
    ensures Number(Load(b)) == b[0] as nat + 0x100 * b[1] as nat + 0x1_0000 * b[2] as nat + 0x100_0000 * b[3] as nat
  {
    LoadedDigits(b);
  }

  lemma LoadedDigits(b: seq<Byte>)
    requires |b| == 4
    ensures DigitsOf(Load(b)) == Digits(b[0] as nat, b[1] as nat, b[2] as nat, b[3] as nat)
  {
    LoadBytes(b, 0);
    LoadBytes(b, 1);
    LoadBytes(b, 2);
    LoadBytes(b, 3);
  }

  lemma NextByte(b: Byte)
    ensures (b + 1) as nat == if b == 0xFF then 0 else b as nat + 1
    ensures b as nat < 256 && (b as nat == 255 <==> b == 0xFF) && (b as nat == 0 <==> b == 0)
  {
  }

  lemma Next0(w: Word)
    ensures ByteOf(w + 1, 0) == ByteOf(w, 0) + 1
    ensures ByteOf(w + 1, 1) == if ByteOf(w, 0) == 0xFF then ByteOf(w, 1) + 1 else ByteOf(w, 1)
  {
  }

  lemma Next2(w: Word)
    ensures ByteOf(w + 1, 2) ==
      if ByteOf(w, 0) == 0xFF && ByteOf(w, 1) == 0xFF then ByteOf(w, 2) + 1 else ByteOf(w, 2)
  {
  }

  lemma Next3(w: Word)
    ensures ByteOf(w + 1, 3) ==
      if ByteOf(w, 0) == 0xFF && ByteOf(w, 1) == 0xFF && ByteOf(w, 2) == 0xFF then ByteOf(w, 3) + 1 else ByteOf(w, 3)
  {
  }

  function Counted(d: Digits): Digits {
    if d.d0 < 255 then d.(d0 := d.d0 + 1)
    else if d.d1 < 255 then Digits(0, d.d1 + 1, d.d2, d.d3)
    else if d.d2 < 255 then Digits(0, 0, d.d2 + 1, d.d3)
    else if d.d3 < 255 then Digits(0, 0, 0, d.d3 + 1)
    else Digits(0, 0, 0, 0)
  }

  ghost predicate AreDigits(d: Digits) {
    d.d0 < 256 && d.d1 < 256 && d.d2 < 256 && d.d3 < 256
  }

  // What a sum leaves below m.
  function Below(n: nat, m: nat): nat {
    if n < m then n else n - m
  }

  lemma BelowIsRemainder(n: nat, m: nat)
    requires n < 2 * m
    ensures Below(n, m) == n % m
  {
    if n < m {
      assert n == 0 * m + n;
    } else {
      assert n == 1 * m + (n - m);
    }
  }

  lemma CountedNumber(d: Digits)
    requires AreDigits(d)
    ensures Joined(d) < 0x1_0000_0000 && Joined(Counted(d)) == Below(Joined(d) + 1, 0x1_0000_0000)
    ensures Joined(d) == 0 <==> d == Digits(0, 0, 0, 0)
  {
  }

  lemma CountedBytes(a0: Byte, a1: Byte, a2: Byte, a3: Byte, b0: Byte, b1: Byte, b2: Byte, b3: Byte)
    requires b0 == a0 + 1 && b1 == (if a0 == 0xFF then a1 + 1 else a1)
    requires b2 == if a0 == 0xFF && a1 == 0xFF then a2 + 1 else a2
    requires b3 == if a0 == 0xFF && a1 == 0xFF && a2 == 0xFF then a3 + 1 else a3
    ensures
      var d := Digits(a0 as nat, a1 as nat, a2 as nat, a3 as nat);
      AreDigits(d) && Digits(b0 as nat, b1 as nat, b2 as nat, b3 as nat) == Counted(d)
  {
    NextByte(a0);
    NextByte(a1);
    NextByte(a2);
    NextByte(a3);
  }

  lemma DigitsOfNext(w: Word)
    ensures AreDigits(DigitsOf(w)) && DigitsOf(Succ(w)) == Counted(DigitsOf(w))
  {
    Next0(w);
    Next2(w);
    Next3(w);
    CountedBytes(ByteOf(w, 0), ByteOf(w, 1), ByteOf(w, 2), ByteOf(w, 3),
                 ByteOf(w + 1, 0), ByteOf(w + 1, 1), ByteOf(w + 1, 2), ByteOf(w + 1, 3));
  }

  lemma ZeroDigits(w: Word)
    ensures DigitsOf(w) == Digits(0, 0, 0, 0) <==> w == 0
  {
    ZeroBytes(w);
    ZeroDigitsBy(ByteOf(w, 0), ByteOf(w, 1), ByteOf(w, 2), ByteOf(w, 3));
  }

  lemma ZeroDigitsBy(b0: Byte, b1: Byte, b2: Byte, b3: Byte)
    ensures Digits(b0 as nat, b1 as nat, b2 as nat, b3 as nat) == Digits(0, 0, 0, 0)
      <==> b0 == 0 && b1 == 0 && b2 == 0 && b3 == 0
  {
    NextByte(b0);
    NextByte(b1);
    NextByte(b2);
    NextByte(b3);
  }

  lemma ZeroBytes(w: Word)
    ensures ByteOf(w, 0) == 0 && ByteOf(w, 1) == 0 && ByteOf(w, 2) == 0 && ByteOf(w, 3) == 0 <==> w == 0
  {
  }

  function Plus(x: Word, y: Word): Word {
    x + y
  }

  function Succ(x: Word): Word {
    x + 1
  }

  function Pred(x: Word): Word {
    x - 1
  }

  // num counts up modulo m by succ, and plus is repeated succ.
  ghost predicate Counts<W(!new)>(num: W -> nat, plus: (W, W) -> W, succ: W -> W, pred: W -> W, zero: W, m: nat) {
    && (forall w {:trigger num(w)} :: num(w) < m && (num(w) == 0 <==> w == zero))
    && (forall w {:trigger succ(w)} :: num(succ(w)) == Below(num(w) + 1, m))
    && (forall w {:trigger pred(w)} :: succ(pred(w)) == w)
    && (forall x {:trigger plus(x, zero)} :: plus(x, zero) == x)
    && (forall x, y {:trigger plus(x, succ(y))} :: plus(x, succ(y)) == succ(plus(x, y)))
  }

  lemma {:induction false} SumCounts<W(!new)>(
    num: W -> nat, plus: (W, W) -> W, succ: W -> W, pred: W -> W, zero: W, m: nat, x: W, y: W)
    requires Counts(num, plus, succ, pred, zero, m)
    ensures num(plus(x, y)) == Below(num(x) + num(y), m)
    decreases num(y)
  {
    if y == zero {
      assert plus(x, zero) == x;
    } else {
      var p := pred(y);
      assert succ(p) == y;
      SumCounts(num, plus, succ, pred, zero, m, x, p);
    }
  }

  lemma SuccOfPred(x: Word)
    ensures Succ(Pred(x)) == x
  {
    calc {
      Succ(Pred(x));
      Pred(x) + 1;
      (x - 1) + 1;
      x;
    }
  }

  lemma PlusZero(x: Word)
    ensures Plus(x, 0) == x
  {
  }

  lemma PlusSucc(x: Word, y: Word)
    ensures Plus(x, Succ(y)) == Succ(Plus(x, y))
  {
    calc {
      Plus(x, Succ(y));
      x + Succ(y);
      x + (y + 1);
      (x + y) + 1;
      Succ(x + y);
      Succ(Plus(x, y));
    }
  }

  const ZERO := Digits(0, 0, 0, 0)

  // The same of digits.
  ghost predicate CountsDigits<W(!new)>(
    digits: W -> Digits, plus: (W, W) -> W, succ: W -> W, pred: W -> W, zero: W)
  {
    && (forall w {:trigger digits(w)} :: AreDigits(digits(w)) && (digits(w) == ZERO <==> w == zero))
    && (forall w {:trigger succ(w)} :: digits(succ(w)) == Counted(digits(w)))
    && (forall w {:trigger pred(w)} :: succ(pred(w)) == w)
    && (forall x {:trigger plus(x, zero)} :: plus(x, zero) == x)
    && (forall x, y {:trigger plus(x, succ(y))} :: plus(x, succ(y)) == succ(plus(x, y)))
  }

  lemma SumWraps(a: nat, b: nat, s: nat)
    requires a < 0x1_0000_0000 && b < 0x1_0000_0000 && s == Below(a + b, 0x1_0000_0000)
    ensures s == (a + b) % 0x1_0000_0000
  {
    BelowIsRemainder(a + b, 0x1_0000_0000);
  }

  lemma SumOfDigits<W(!new)>(
    digits: W -> Digits, plus: (W, W) -> W, succ: W -> W, pred: W -> W, zero: W, x: W, y: W)
    requires CountsDigits(digits, plus, succ, pred, zero)
    ensures Joined(digits(plus(x, y))) == (Joined(digits(x)) + Joined(digits(y))) % 0x1_0000_0000
  {
    var num := w => Joined(digits(w));
    forall w
      ensures num(w) < 0x1_0000_0000 && (num(w) == 0 <==> w == zero)
    {
      CountedNumber(digits(w));
    }
    forall w
      ensures num(succ(w)) == Below(num(w) + 1, 0x1_0000_0000)
    {
      CountedNumber(digits(w));
    }
    SumCounts(num, plus, succ, pred, zero, 0x1_0000_0000, x, y);
    SumWraps(num(x), num(y), num(plus(x, y)));
    assert num(plus(x, y)) == Joined(digits(plus(x, y)));
  }

  lemma WordsCount()
    ensures CountsDigits(DigitsOf, Plus, Succ, Pred, 0)
  {
    forall w: Word
      ensures AreDigits(DigitsOf(w)) && DigitsOf(Succ(w)) == Counted(DigitsOf(w))
    {
      DigitsOfNext(w);
    }
    forall w: Word
      ensures DigitsOf(w) == ZERO <==> w == 0
    {
      ZeroDigits(w);
    }
    forall x: Word
      ensures Succ(Pred(x)) == x
    {
      SuccOfPred(x);
    }
    forall x: Word
      ensures Plus(x, 0) == x
    {
      PlusZero(x);
    }
    forall x: Word, y: Word
      ensures Plus(x, Succ(y)) == Succ(Plus(x, y))
    {
      PlusSucc(x, y);
    }
  }

  /** Words are added modulo 2^32. */
  lemma NumberOfSum(x: Word, y: Word)
    ensures Number(Plus(x, y)) == (Number(x) + Number(y)) % 0x1_0000_0000
  {
    var a, b, s := DigitsAdded(x, y);
  }

  lemma DigitsAdded(x: Word, y: Word) returns (a: Digits, b: Digits, s: Digits)
    ensures a == DigitsOf(x) && b == DigitsOf(y) && s == DigitsOf(Plus(x, y))
    ensures Joined(s) == (Joined(a) + Joined(b)) % 0x1_0000_0000
  {
    var digits, plus, succ, pred, zero := CountersFor(x, y);
    a, b, s := digits(x), digits(y), digits(plus(x, y));
    SumOfDigits(digits, plus, succ, pred, zero, x, y);
  }

  // Operations that count, of which only this much is told.
  lemma CountersFor(x: Word, y: Word)
    returns (digits: Word -> Digits, plus: (Word, Word) -> Word, succ: Word -> Word, pred: Word -> Word, zero: Word)
    ensures CountsDigits(digits, plus, succ, pred, zero)
    ensures digits(x) == DigitsOf(x) && digits(y) == DigitsOf(y) && digits(plus(x, y)) == DigitsOf(Plus(x, y))
  {
    WordsCount();
    digits, plus, succ, pred, zero := DigitsOf, Plus, Succ, Pred, 0;
  }

  // --- bitwise choice -----------------------------------------------------------------------

  predicate Single(b: Word) {
    b != 0 && b & (b - 1) == 0
  }

  lemma BitIsSingle(k: nat)
    requires k < 32
    ensures Single(BitAt(k))
  {
  }

  function And(x: Word, y: Word): Word {
    x & y
  }

  function Or(x: Word, y: Word): Word {
    x | y
  }

  function Xor(x: Word, y: Word): Word {
    x ^ y
  }

  function Not(x: Word): Word {
    !x
  }

  lemma AndOfBit(x: Word, y: Word, b: Word)
    requires Single(b)
    ensures Meets(And(x, y), b) <==> Meets(x, b) && Meets(y, b)
  {
    BothMeet(x, y, b);
  }

  lemma BothMeet(x: Word, y: Word, b: Word)
    requires Single(b)
    ensures Meets(x & y, b) <==> Meets(x, b) && Meets(y, b)
  {
  }

  lemma XorOfBit(x: Word, y: Word, b: Word)
    requires Single(b)
    ensures Meets(Xor(x, y), b) <==> Meets(x, b) != Meets(y, b)
  {
    OneMeets(x, y, b);
  }

  lemma OneMeets(x: Word, y: Word, b: Word)
    requires Single(b)
    ensures Meets(x ^ y, b) <==> Meets(x, b) != Meets(y, b)
  {
  }

  lemma NotOfBit(x: Word, b: Word)
    requires Single(b)
    ensures Meets(Not(x), b) <==> !Meets(x, b)
  {
    NoneMeets(x, b);
  }

  lemma NoneMeets(x: Word, b: Word)
    requires Single(b)
    ensures Meets(!x, b) <==> !Meets(x, b)
  {
  }

  lemma OrOfBit(x: Word, y: Word, b: Word)
    ensures Meets(Or(x, y), b) <==> Meets(x, b) || Meets(y, b)
  {
    EitherMeets(x, y, b);
  }

  lemma EitherMeets(x: Word, y: Word, b: Word)
    ensures Meets(x | y, b) <==> Meets(x, b) || Meets(y, b)
  {
    calc {
      Meets(x | y, b);
      (x | y) & b != 0;
      { EitherParts(x, y, b); }
      (x & b) | (y & b) != 0;
      { NoneOfEither(x & b, y & b); }
      x & b != 0 || y & b != 0;
      Meets(x, b) || Meets(y, b);
    }
  }

  lemma EitherParts(x: Word, y: Word, b: Word)
    ensures (x | y) & b == (x & b) | (y & b)
  {
  }

  lemma NoneOfEither(p: Word, q: Word)
    ensures p | q == 0 <==> p == 0 && q == 0
  {
  }

  datatype Logic<!W> = Logic(and: (W, W) -> W, or: (W, W) -> W, xor: (W, W) -> W, not: W -> W)

  // The operations are those of the first 32 bits.
  ghost predicate Bitwise<W(!new)>(l: Logic<W>, bit: (W, nat) -> bool) {
    && (forall x, y, k: nat {:trigger bit(l.and(x, y), k)} | k < 32 ::
          (bit(l.and(x, y), k) <==> bit(x, k) && bit(y, k)))
    && (forall x, y, k: nat {:trigger bit(l.or(x, y), k)} | k < 32 ::
          (bit(l.or(x, y), k) <==> bit(x, k) || bit(y, k)))
    && (forall x, y, k: nat {:trigger bit(l.xor(x, y), k)} | k < 32 ::
          (bit(l.xor(x, y), k) <==> bit(x, k) != bit(y, k)))
    && (forall x, k: nat {:trigger bit(l.not(x), k)} | k < 32 :: (bit(l.not(x), k) <==> !bit(x, k)))
  }

  const WORD_LOGIC := Logic(And, Or, Xor, Not)

  lemma WordsAreBitwise()
    ensures Bitwise(WORD_LOGIC, BitIn)
  {
    forall x: Word, y: Word, k: nat | k < 32
      ensures BitIn(And(x, y), k) <==> BitIn(x, k) && BitIn(y, k)
    {
      BitIsSingle(k);
      AndOfBit(x, y, BitAt(k));
    }
    forall x: Word, y: Word, k: nat | k < 32
      ensures BitIn(Or(x, y), k) <==> BitIn(x, k) || BitIn(y, k)
    {
      OrOfBit(x, y, BitAt(k));
    }
    forall x: Word, y: Word, k: nat | k < 32
      ensures BitIn(Xor(x, y), k) <==> BitIn(x, k) != BitIn(y, k)
    {
      BitIsSingle(k);
      XorOfBit(x, y, BitAt(k));
    }
    forall x: Word, k: nat | k < 32
      ensures BitIn(Not(x), k) <==> !BitIn(x, k)
    {
      BitIsSingle(k);
      NotOfBit(x, BitAt(k));
    }
  }
}
