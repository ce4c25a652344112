/** The MD5 algorithm of RFC 1321, for arbitrary 32-bit operations and tables. */
module Rfc1321 {
  import opened Bits
  import opened Numbers

  // The registers A, B, C and D.
  datatype Regs<W> = Regs(a: W, b: W, c: W, d: W)

  // mix(r, ...) is F, G, H or I in round r + 1, and t(i) is T[i+1].
  datatype Ops<!W> = Ops(
    mix: (nat, W, W, W) -> W,
    add: (W, W) -> W,
    rot: (W, nat) -> W,
    t: nat -> W,
    load: (Byte, Byte, Byte, Byte) -> W)

  const STEPS: nat := 64

  // Section 3.4 lists the operations [abcd k s i]; these are k in rounds 2, 3 and 4.
  const INDICES2 := [1, 6, 11, 0, 5, 10, 15, 4, 9, 14, 3, 8, 13, 2, 7, 12]
  const INDICES3 := [5, 8, 11, 14, 1, 4, 7, 10, 13, 0, 3, 6, 9, 12, 15, 2]
  const INDICES4 := [0, 7, 14, 5, 12, 3, 10, 1, 8, 15, 6, 13, 4, 11, 2, 9]

  function Index(r: nat, p: nat): int
    requires p < 16
  {
    if r == 0 then p else if r == 1 then INDICES2[p] else if r == 2 then INDICES3[p] else INDICES4[p]
  }

  // s in round r + 1, which repeats every four operations.
  function Shift(r: nat, n: nat): nat
    requires n < 4
  {
    if r == 0 then [7, 12, 17, 22][n]
    else if r == 1 then [5, 9, 14, 20][n]
    else if r == 2 then [4, 11, 16, 23][n]
    else [6, 10, 15, 21][n]
  }

  function LinearIndex(r: nat, p: nat): nat {
    if r == 0 then p else if r == 1 then (1 + 5 * p) % 16 else if r == 2 then (5 + 3 * p) % 16 else (7 * p) % 16
  }

  lemma IndexIsLinear(r: nat, p: nat)
    requires p < 16
    ensures Index(r, p) == LinearIndex(r, p)
  {
    assert INDICES2[p] == (1 + 5 * p) % 16;
    assert INDICES3[p] == (5 + 3 * p) % 16;
    assert INDICES4[p] == (7 * p) % 16;
  }

  // Where round r + 1 reads word k.
  function Position(r: nat, k: nat): nat
  {
    if r == 0 then k % 16
    else if r == 1 then (13 * (k + 15)) % 16
    else if r == 2 then (11 * (k + 11)) % 16
    else (7 * k) % 16
  }

  lemma Remainder(a: int, q: int, r: int)
    requires a == 16 * q + r && 0 <= r < 16
    ensures a % 16 == r
  {
  }

  lemma Round2Inverse(k: nat, p: nat)
    requires k < 16 && p < 16
    ensures (1 + 5 * p) % 16 == k <==> p == (13 * (k + 15)) % 16
  {
    Remainder(13 * ((1 + 5 * p) % 16 + 15), 4 * p + 13 - 13 * ((1 + 5 * p) / 16), p);
    Remainder(1 + 5 * ((13 * (k + 15)) % 16), 4 * k + 61 - 5 * ((13 * (k + 15)) / 16), k);
  }

  lemma Round3Inverse(k: nat, p: nat)
    requires k < 16 && p < 16
    ensures (5 + 3 * p) % 16 == k <==> p == (11 * (k + 11)) % 16
  {
    Remainder(11 * ((5 + 3 * p) % 16 + 11), 2 * p + 11 - 11 * ((5 + 3 * p) / 16), p);
    Remainder(5 + 3 * ((11 * (k + 11)) % 16), 2 * k + 23 - 3 * ((11 * (k + 11)) / 16), k);
  }

  lemma Round4Inverse(k: nat, p: nat)
    requires k < 16 && p < 16
    ensures (7 * p) % 16 == k <==> p == (7 * k) % 16
  {
    Remainder(7 * ((7 * p) % 16), 3 * p - 7 * ((7 * p) / 16), p);
    Remainder(7 * ((7 * k) % 16), 3 * k - 7 * ((7 * k) / 16), k);
  }

  lemma LinearOnce(r: nat, k: nat, p: nat)
    requires k < 16 && p < 16
    ensures LinearIndex(r, p) < 16
    ensures LinearIndex(r, p) == k <==> p == Position(r, k)
  {
    if r == 1 {
      Round2Inverse(k, p);
    } else if r == 2 {
      Round3Inverse(k, p);
    } else if r > 2 {
      Round4Inverse(k, p);
    }
  }

  /** Every round reads each of the sixteen words exactly once. */
  lemma EachWordOnce(r: nat, k: nat, p: nat)
    requires k < 16 && p < 16
    ensures 0 <= Index(r, p) < 16
    ensures Index(r, p) == k <==> p == Position(r, k)
  {
    IndexIsLinear(r, p);
    LinearOnce(r, k, p);
  }

  function WordAt<W>(o: Ops<W>, block: seq<Byte>, k: nat): W
    requires |block| == 64 && k < 16
  {
    o.load(block[4 * k], block[4 * k + 1], block[4 * k + 2], block[4 * k + 3])
  }

  // The word that step i + 1 reads.
  function Input<W>(o: Ops<W>, block: seq<Byte>, i: nat): W
    requires |block| == 64
  {
    EachWordOnce(i / 16, 0, i % 16);
    WordAt(o, block, Index(i / 16, i % 16))
  }

  type Operation<!W> = (W, W, W, W) -> W

  // a = b + ((a + f(b,c,d) + x + t) <<< s)
  function OperationBy<W>(o: Ops<W>, r: nat, s: nat, x: W, t: W): Operation<W> {
    (a: W, b: W, c: W, d: W) => o.add(b, o.rot(o.add(o.add(o.add(a, o.mix(r, b, c, d)), x), t), s))
  }

  type Program<!W> = nat -> Operation<W>

  function ProgramOf<W>(o: Ops<W>, block: seq<Byte>): Program<W>
    requires |block| == 64
  {
    (i: nat) => OperationBy(o, i / 16, Shift(i / 16, i % 4), Input(o, block, i), o.t(i))
  }

  // [ABCD k s i], [DABC k s i], [CDAB k s i] and [BCDA k s i] in turn
  function Renamed<W>(n: nat, op: Operation<W>, q: Regs<W>): Regs<W> {
    if n % 4 == 0 then q.(a := op(q.a, q.b, q.c, q.d))
    else if n % 4 == 1 then q.(d := op(q.d, q.a, q.b, q.c))
    else if n % 4 == 2 then q.(c := op(q.c, q.d, q.a, q.b))
    else q.(b := op(q.b, q.c, q.d, q.a))
  }

  function Steps<W>(ops: Program<W>, n: nat, q: Regs<W>): Regs<W>
    decreases n, q
  {
    if n == 0 then q else Renamed(n - 1, ops(n - 1), Steps(ops, n - 1, q))
  }

  // One step with the registers handed on instead of renamed.
  function HandedOn<W>(op: Operation<W>, p: Regs<W>): Regs<W> {
    Regs(p.d, op(p.a, p.b, p.c, p.d), p.b, p.c)
  }

  function Rotating<W>(ops: Program<W>, n: nat, q: Regs<W>): Regs<W>
    decreases n, q
  {
    if n == 0 then q else HandedOn(ops(n - 1), Rotating(ops, n - 1, q))
  }

  function Turned<W>(n: nat, q: Regs<W>): Regs<W> {
    if n % 4 == 0 then q
    else if n % 4 == 1 then Regs(q.d, q.a, q.b, q.c)
    else if n % 4 == 2 then Regs(q.c, q.d, q.a, q.b)
    else Regs(q.b, q.c, q.d, q.a)
  }

  lemma TurnOnce<W>(n: nat, op: Operation<W>, q: Regs<W>)
    ensures HandedOn(op, Turned(n, q)) == Turned(n + 1, Renamed(n, op, q))
  {
    assert (n + 1) % 4 == if n % 4 == 3 then 0 else n % 4 + 1;
  }

  /** The steps of section 3.4, which rename the registers, are those of one shift register. */
  lemma {:induction false} RotatingIsTurned<W>(ops: Program<W>, n: nat, q: Regs<W>)
    ensures Rotating(ops, n, q) == Turned(n, Steps(ops, n, q))
    decreases n
  {
    if n > 0 {
      RotatingIsTurned(ops, n - 1, q);
      TurnOnce(n - 1, ops(n - 1), Steps(ops, n - 1, q));
    }
  }

  // One block: the four rounds and the final additions.
  function Compress<W>(o: Ops<W>, q: Regs<W>, block: seq<Byte>): Regs<W>
    requires |block| == 64
  {
    var p := Steps(ProgramOf(o, block), STEPS, q);
    Regs(o.add(q.a, p.a), o.add(q.b, p.b), o.add(q.c, p.c), o.add(q.d, p.d))
  }

  function Digest<W>(o: Ops<W>, q: Regs<W>, bytes: seq<Byte>): Regs<W>
    decreases |bytes|
  {
    if |bytes| < 64 then q else Digest(o, Compress(o, q, bytes[..64]), bytes[64..])
  }

  /** Whole blocks can be processed by any split of the input. */
  lemma {:induction false} DigestSplits<W>(o: Ops<W>, q: Regs<W>, a: seq<Byte>, b: seq<Byte>)
    requires |a| % 64 == 0
    ensures Digest(o, q, a + b) == Digest(o, Digest(o, q, a), b)
    decreases |a|
  {
    if |a| == 0 {
      assert a + b == b;
    } else {
      assert (a + b)[..64] == a[..64] && (a + b)[64..] == a[64..] + b;
      DigestSplits(o, Compress(o, q, a[..64]), a[64..], b);
    }
  }

  // --- running a block backwards ------------------------------------------------------------

  // Differences undo sums, and back(w, s) undoes rot(w, s).
  ghost predicate Undoes<W(!new)>(o: Ops<W>, sub: (W, W) -> W, back: (W, nat) -> W) {
    && (forall x, y {:trigger o.add(x, y)} :: sub(o.add(x, y), y) == x && sub(o.add(x, y), x) == y)
    && (forall w, s: nat {:trigger o.rot(w, s)} :: 0 < s < 32 ==> back(o.rot(w, s), s) == w)
  }

  // The register a from the result v of an operation and the other three registers.
  function UndoneBy<W>(o: Ops<W>, sub: (W, W) -> W, back: (W, nat) -> W, r: nat, s: nat, x: W, t: W): Operation<W> {
    (v: W, b: W, c: W, d: W) => sub(sub(sub(back(sub(v, b), s), t), x), o.mix(r, b, c, d))
  }

  lemma OperationUndone<W(!new)>(o: Ops<W>, sub: (W, W) -> W, back: (W, nat) -> W,
                                 r: nat, s: nat, x: W, t: W, a: W, b: W, c: W, d: W)
    requires Undoes(o, sub, back) && 0 < s < 32
    ensures UndoneBy(o, sub, back, r, s, x, t)(OperationBy(o, r, s, x, t)(a, b, c, d), b, c, d) == a
  {
    var m := o.mix(r, b, c, d);
    var u := o.add(o.add(o.add(a, m), x), t);
    assert sub(o.add(b, o.rot(u, s)), b) == o.rot(u, s);
  }

  function BackwardsOf<W>(o: Ops<W>, sub: (W, W) -> W, back: (W, nat) -> W, block: seq<Byte>): Program<W>
    requires |block| == 64
  {
    (i: nat) => UndoneBy(o, sub, back, i / 16, Shift(i / 16, i % 4), Input(o, block, i), o.t(i))
  }

  // The last n steps first.
  function StepsBack<W>(ops: Program<W>, n: nat, q: Regs<W>): Regs<W> {
    if n == 0 then q else StepsBack(ops, n - 1, Renamed(n - 1, ops(n - 1), q))
  }

  // Each operation of the one program is undone by that of the other.
  ghost predicate Unwinds<W(!new)>(undo: Program<W>, ops: Program<W>) {
    forall i: nat, a, b, c, d {:trigger ops(i)(a, b, c, d)} :: undo(i)(ops(i)(a, b, c, d), b, c, d) == a
  }

  lemma {:induction false} StepsUnwound<W(!new)>(undo: Program<W>, ops: Program<W>, n: nat, q: Regs<W>)
    requires Unwinds(undo, ops)
    ensures StepsBack(undo, n, Steps(ops, n, q)) == q
    decreases n
  {
    if n > 0 {
      var p := Steps(ops, n - 1, q);
      assert Renamed(n - 1, undo(n - 1), Renamed(n - 1, ops(n - 1), p)) == p;
      StepsUnwound(undo, ops, n - 1, q);
    }
  }

  lemma BackwardsUnwinds<W(!new)>(o: Ops<W>, sub: (W, W) -> W, back: (W, nat) -> W, block: seq<Byte>)
    requires |block| == 64 && Undoes(o, sub, back)
    ensures Unwinds(BackwardsOf(o, sub, back, block), ProgramOf(o, block))
  {
    var undo, ops := BackwardsOf(o, sub, back, block), ProgramOf(o, block);
    forall i: nat, a: W, b: W, c: W, d: W
      ensures undo(i)(ops(i)(a, b, c, d), b, c, d) == a
    {
      OperationUndone(o, sub, back, i / 16, Shift(i / 16, i % 4), Input(o, block, i), o.t(i), a, b, c, d);
    }
  }

  /** A compressed block without the state that was added to it, run backwards, gives that state. */
  lemma CompressUnwound<W(!new)>(o: Ops<W>, sub: (W, W) -> W, back: (W, nat) -> W, q: Regs<W>, block: seq<Byte>)
    requires |block| == 64 && Undoes(o, sub, back)
    ensures
      var c := Compress(o, q, block);
      StepsBack(BackwardsOf(o, sub, back, block), STEPS,
                Regs(sub(c.a, q.a), sub(c.b, q.b), sub(c.c, q.c), sub(c.d, q.d))) == q
  {
    BackwardsUnwinds(o, sub, back, block);
    StepsUnwound(BackwardsOf(o, sub, back, block), ProgramOf(o, block), STEPS, q);
  }

  // Section 2: the most significant bit of each byte comes first.
  function BitsOf(mem: seq<Byte>, n: nat): (bits: seq<bool>)
    requires n <= 8 * |mem|
    ensures |bits| == n
  {
    seq(n, i requires 0 <= i < n => BitOf(mem[i / 8], 7 - i % 8))
  }

  function ByteAt(bits: seq<bool>, j: nat): Byte
    requires 8 * j + 8 <= |bits|
  {
    FromBits(seq(8, k requires 0 <= k < 8 => bits[8 * j + 7 - k]))
  }

  function BytesOf(bits: seq<bool>): (b: seq<Byte>)
    ensures |b| == |bits| / 8
  {
    seq(|bits| / 8, j requires 0 <= j < |bits| / 8 => ByteAt(bits, j))
  }

  function FillLength(n: nat): nat {
    (959 - n % 512) % 512
  }

  lemma FilledLength(m: seq<bool>)
    ensures |Filled(m)| % 512 == 448
  {
  }

  // Section 3.1: a one bit, and zeros up to 448 modulo 512.
  function Filled(m: seq<bool>): seq<bool> {
    m + [true] + seq(FillLength(|m|), _ => false)
  }

  // Section 3.2: the low-order 64 bits of the length, low-order word and byte first.
  function LengthField(n: nat): (b: seq<Byte>)
    ensures |b| == 8
  {
    LittleEndian(n % 0x1_0000_0000_0000_0000, 8)
  }

  function Padded(m: seq<bool>): seq<bool> {
    Filled(m) + BitsOf(LengthField(|m|), 64)
  }

  function Md5<W>(o: Ops<W>, iv: Regs<W>, m: seq<bool>): Regs<W> {
    Digest(o, iv, BytesOf(Padded(m)))
  }
}
