/** The little-endian, table-driven CAST5 code. Its tables s5 to s8 hold the S-box words
    with their bytes swapped, so that key material keeps its byte order in memory. */
module Cast5 {
  import opened Bits
  import CastRounds
  import opened CastWords
  import opened KeySchedule
  import opened Words
  import opened Rfc2144

  // The 5-bit rotation that the round loop reads back.
  function Unpack(rotl: seq<Byte>, roth: seq<Byte>, i: nat): (r: Byte)
    requires |rotl| == 8 && |roth| == 2 && i < 16
  {
    (if roth[i / 8] & BV(i % 8) != 0 then 0x10 else 0x00) + Nibble(rotl, i)
  }

  function Nibble(rotl: seq<Byte>, i: nat): Byte
    requires |rotl| == 8 && i < 16
  {
    (if i % 2 == 1 then rotl[i / 2] >> 4 else rotl[i / 2]) & 0x0F
  }

  lemma UnpackIsRotation(rotl: seq<Byte>, roth: seq<Byte>, i: nat)
    requires |rotl| == 8 && |roth| == 2 && i < 16
    ensures Unpack(rotl, roth, i) < 32
  {
  }

  // Memory accesses of the code, least significant byte first.
  function LoadLittle(q: Quad<Byte>): Word {
    Load([q.b0, q.b1, q.b2, q.b3])
  }

  function StoreLittle(w: Word): Quad<Byte> {
    Quad(ByteOf(w, 0), ByteOf(w, 1), ByteOf(w, 2), ByteOf(w, 3))
  }

  // A line of cast5_init_rM keeps the last byte of the table words.
  function LastByte(a: Word, b: Word, c: Word, d: Word, e: Word): Byte {
    ByteOf(a, 3) ^ ByteOf(b, 3) ^ ByteOf(c, 3) ^ ByteOf(d, 3) ^ ByteOf(e, 3)
  }

  function Swapped(s: Byte -> Word): Byte -> Word {
    (x: Byte) => Swap(s(x))
  }

  // The operations of cast5_init_A with cast5_init_M, and with cast5_init_rM.
  function MaskOps(t: SBoxes): Ops<Byte, Word, Word> {
    Ops(LoadLittle, StoreLittle, Xor6, Xor5, Swapped(t.s5), Swapped(t.s6), Swapped(t.s7), Swapped(t.s8))
  }

  function RotationOps(t: SBoxes): Ops<Byte, Word, Byte> {
    Ops(LoadLittle, StoreLittle, Xor6, LastByte, Swapped(t.s5), Swapped(t.s6), Swapped(t.s7), Swapped(t.s8))
  }

  function Lowest(k: Word): Byte {
    ByteOf(k, 0)
  }

  lemma SwapOfLoad()
    ensures LooksUp(LoadQuad, LoadLittle, Swap)
  {
    forall q: Quad<Byte>
      ensures LoadLittle(q) == Swap(LoadQuad(q))
    {
      BigIsSwapped([q.b0, q.b1, q.b2, q.b3]);
      SwapTwice(LoadLittle(q));
    }
  }

  lemma SwapOfStore()
    ensures Stores(StoreQuad, StoreLittle, Swap)
  {
    forall w: Word
      ensures StoreLittle(Swap(w)) == StoreQuad(w)
    {
      SwapBytes(w, 0);
      SwapBytes(w, 1);
      SwapBytes(w, 2);
      SwapBytes(w, 3);
    }
  }

  ghost predicate Distributes<T(!new)>(f: T -> T, x: (T, T) -> T) {
    forall u, v {:trigger x(u, v)} :: f(x(u, v)) == x(f(u), f(v))
  }

  // x6 and x5 combine their arguments by x, one after the other.
  ghost predicate Chains<T(!new)>(x: (T, T) -> T, x6: (T, T, T, T, T, T) -> T, x5: (T, T, T, T, T) -> T) {
    && (forall a, b, c, d, e {:trigger x5(a, b, c, d, e)} :: x5(a, b, c, d, e) == x(x(x(x(a, b), c), d), e))
    && (forall w, a, b, c, d, e {:trigger x6(w, a, b, c, d, e)} ::
          x6(w, a, b, c, d, e) == x(x(x(x(x(w, a), b), c), d), e))
  }

  lemma ChainsDistribute<T(!new)>(f: T -> T, x: (T, T) -> T, x6: (T, T, T, T, T, T) -> T, x5: (T, T, T, T, T) -> T)
    requires Distributes(f, x) && Chains(x, x6, x5)
    ensures Combines6(x6, x6, f) && Combines5(x5, x5, f, f)
  {
  }

  lemma SwapDistributes()
    ensures Distributes(Swap, Xor2)
  {
    forall u: Word, v: Word
      ensures Swap(Xor2(u, v)) == Xor2(Swap(u), Swap(v))
    {
      SwapXor(u, v);
    }
  }

  lemma XorsChain()
    ensures Chains(Xor2, Xor6, Xor5)
  {
  }

  lemma SwapOfXors()
    ensures Combines6(Xor6, Xor6, Swap) && Combines5(Xor5, Xor5, Swap, Swap)
  {
    SwapDistributes();
    XorsChain();
    ChainsDistribute(Swap, Xor2, Xor6, Xor5);
  }

  lemma LowestOfXor2(u: Word, v: Word)
    ensures Lowest(Xor2(u, v)) == Lowest(u) ^ Lowest(v)
  {
  }

  lemma LowestOfXor5()
    ensures Combines5(Xor5, LastByte, Swap, Lowest)
  {
    forall a: Word, b: Word, c: Word, d: Word, e: Word
      ensures LastByte(Swap(a), Swap(b), Swap(c), Swap(d), Swap(e)) == Lowest(Xor5(a, b, c, d, e))
    {
      LowestOfFive(a, b, c, d, e);
    }
  }

  lemma LowestOfFive(a: Word, b: Word, c: Word, d: Word, e: Word)
    ensures LastByte(Swap(a), Swap(b), Swap(c), Swap(d), Swap(e)) == Lowest(Xor5(a, b, c, d, e))
  {
    SwapBytes(a, 3);
    SwapBytes(b, 3);
    SwapBytes(c, 3);
    SwapBytes(d, 3);
    SwapBytes(e, 3);
    LowestOfXor2(a, b);
    LowestOfXor2(Xor2(a, b), c);
    LowestOfXor2(Xor2(Xor2(a, b), c), d);
    LowestOfXor2(Xor2(Xor2(Xor2(a, b), c), d), e);
  }

  /** In memory the code works on the algorithm's bytes, with every word byte-swapped. */
  lemma MasksRepresent(t: SBoxes)
    ensures Represents(RfcOps(t), MaskOps(t), Swap, Swap)
  {
    SwapOfLoad();
    SwapOfStore();
    SwapOfXors();
  }

  lemma RotationsRepresent(t: SBoxes)
    ensures Represents(RfcOps(t), RotationOps(t), Swap, Lowest)
  {
    SwapOfLoad();
    SwapOfStore();
    SwapOfXors();
    LowestOfXor5();
  }

  // The high bits of four rotation bytes, gathered as in cast5_init_rM.
  function HighBits(t0: Byte, t1: Byte, t2: Byte, t3: Byte): Byte {
    ((((((((0 | (t0 & 0x10)) >> 1) | (t1 & 0x10)) >> 1) | (t2 & 0x10)) >> 1) | (t3 & 0x10)) >> 1)
  }

  lemma HighBit0(t0: Byte, t1: Byte, t2: Byte, t3: Byte)
    ensures HighBits(t0, t1, t2, t3) & 0x01 != 0 <==> t0 & 0x10 != 0
  {
  }

  lemma HighBit1(t0: Byte, t1: Byte, t2: Byte, t3: Byte)
    ensures HighBits(t0, t1, t2, t3) & 0x02 != 0 <==> t1 & 0x10 != 0
  {
  }

  lemma HighBit2(t0: Byte, t1: Byte, t2: Byte, t3: Byte)
    ensures HighBits(t0, t1, t2, t3) & 0x04 != 0 <==> t2 & 0x10 != 0
  {
  }

  lemma HighBit3(t0: Byte, t1: Byte, t2: Byte, t3: Byte)
    ensures HighBits(t0, t1, t2, t3) & 0x08 != 0 <==> t3 & 0x10 != 0
  {
  }

  lemma HighBitsFit(t0: Byte, t1: Byte, t2: Byte, t3: Byte)
    ensures HighBits(t0, t1, t2, t3) < 0x10
  {
  }

  // A bit group below 0x10, shifted by 4 for odd offsets, added to the high-bit byte.
  lemma GroupAdded(h: Byte, g: Byte, odd: bool, k: nat)
    requires g < 0x10 && k < 8
    ensures (h | (if odd then g << 4 else g)) & BV(k) != 0 <==>
      h & BV(k) != 0 || (odd && k >= 4 && g & BV(k - 4) != 0) || (!odd && k < 4 && g & BV(k) != 0)
  {
  }

  lemma LowNibble(l: Byte, u: Byte, v: Byte)
    requires l == 0
    ensures ((l | (u & 0x0F)) | (v << 4)) & 0x0F == u & 0x0F
  {
  }

  lemma HighNibble(l: Byte, u: Byte, v: Byte)
    requires l == 0
    ensures (((l | (u & 0x0F)) | (v << 4)) >> 4) & 0x0F == v & 0x0F
  {
  }

  lemma NibbleShift(v: Byte)
    ensures (v << 4) & 0xF0 == v << 4
  {
  }

  lemma FiveBits(t: Byte)
    ensures (if t & 0x10 != 0 then 0x10 else 0x00) + (t & 0x0F) == t & 0x1F
  {
  }

  lemma EmptyNibble(h: Byte, odd: bool, k: nat)
    requires k < 8 && (odd <==> k >= 4) && h & (if odd then 0xF0 else 0x0F) == 0
    ensures h & BV(k) == 0
  {
  }

  // Group o of four rotation keys is still empty.
  predicate Empty(rotl: seq<Byte>, roth: seq<Byte>, o: nat)
    requires |rotl| == 8 && |roth| == 2 && o < 4
  {
    && rotl[2 * o] == 0 && rotl[2 * o + 1] == 0
    && roth[o / 2] & (if o % 2 == 1 then 0xF0 else 0x0F) == 0
  }

  // Group o as cast5_init_rM packs it.
  function PackedHigh(roth: seq<Byte>, o: nat, g: Byte): seq<Byte>
    requires |roth| == 2 && o < 4
  {
    roth[o / 2 := roth[o / 2] | (if o % 2 == 1 then g << 4 else g)]
  }

  lemma UnpackHigh(roth: seq<Byte>, o: nat, g: Byte, i: nat)
    requires |roth| == 2 && o < 4 && g < 0x10 && i < 16
    ensures PackedHigh(roth, o, g)[i / 8] & BV(i % 8) != 0 <==>
      roth[i / 8] & BV(i % 8) != 0 || (i / 4 == o && g & BV(i % 4) != 0)
  {
    GroupAdded(roth[o / 2], g, o % 2 == 1, i % 8);
    PlaceInGroup(o, i);
  }

  lemma PlaceInGroup(o: nat, i: nat)
    ensures i / 4 == o <==> i / 8 == o / 2 && (o % 2 == 1 <==> i % 8 >= 4)
    ensures i % 4 == if i % 8 >= 4 then i % 8 - 4 else i % 8
  {
  }

  function PackedLow(rotl: seq<Byte>, o: nat, t0: Byte, t1: Byte, t2: Byte, t3: Byte): seq<Byte>
    requires |rotl| == 8 && o < 4
  {
    rotl[2 * o := (rotl[2 * o] | (t0 & 0x0F)) | ((t1 << 4) & 0xF0)]
        [2 * o + 1 := (rotl[2 * o + 1] | (t2 & 0x0F)) | (t3 << 4)]
  }

  function Pick4(t0: Byte, t1: Byte, t2: Byte, t3: Byte, j: nat): Byte {
    if j == 0 then t0 else if j == 1 then t1 else if j == 2 then t2 else t3
  }

  lemma UnpackLow(rotl: seq<Byte>, o: nat, t0: Byte, t1: Byte, t2: Byte, t3: Byte, j: nat)
    requires |rotl| == 8 && o < 4 && rotl[2 * o] == 0 && rotl[2 * o + 1] == 0 && j < 4
    ensures Nibble(PackedLow(rotl, o, t0, t1, t2, t3), 4 * o + j) == Pick4(t0, t1, t2, t3, j) & 0x0F
  {
    if j < 2 {
      NibbleShift(t1);
      LowNibble(rotl[2 * o], t0, t1);
      HighNibble(rotl[2 * o], t0, t1);
    } else {
      LowNibble(rotl[2 * o + 1], t2, t3);
      HighNibble(rotl[2 * o + 1], t2, t3);
    }
  }

  lemma HighOf(t0: Byte, t1: Byte, t2: Byte, t3: Byte, j: nat)
    requires j < 4
    ensures HighBits(t0, t1, t2, t3) & BV(j) != 0 <==> Pick4(t0, t1, t2, t3, j) & 0x10 != 0
  {
    if j == 0 {
      HighBit0(t0, t1, t2, t3);
    } else if j == 1 {
      HighBit1(t0, t1, t2, t3);
    } else if j == 2 {
      HighBit2(t0, t1, t2, t3);
    } else {
      HighBit3(t0, t1, t2, t3);
    }
  }

  lemma UnpackGroup(rotl: seq<Byte>, roth: seq<Byte>, o: nat, t0: Byte, t1: Byte, t2: Byte, t3: Byte, j: nat)
    requires |rotl| == 8 && |roth| == 2 && o < 4 && Empty(rotl, roth, o) && j < 4
    ensures Unpack(PackedLow(rotl, o, t0, t1, t2, t3), PackedHigh(roth, o, HighBits(t0, t1, t2, t3)), 4 * o + j)
         == Pick4(t0, t1, t2, t3, j) & 0x1F
  {
    var i := 4 * o + j;
    assert i / 8 == o / 2 && i % 8 == 4 * (o % 2) + j && i / 4 == o && i % 4 == j;
    HighBitsFit(t0, t1, t2, t3);
    UnpackHigh(roth, o, HighBits(t0, t1, t2, t3), i);
    EmptyNibble(roth[o / 2], o % 2 == 1, i % 8);
    HighOf(t0, t1, t2, t3, j);
    UnpackLow(rotl, o, t0, t1, t2, t3, j);
    FiveBits(Pick4(t0, t1, t2, t3, j));
  }

  lemma UnpackDependsOn(rotl: seq<Byte>, roth: seq<Byte>, rotl': seq<Byte>, roth': seq<Byte>, i: nat)
    requires |rotl| == |rotl'| == 8 && |roth| == |roth'| == 2 && i < 16
    requires rotl'[i / 2] == rotl[i / 2] && (roth'[i / 8] & BV(i % 8) != 0 <==> roth[i / 8] & BV(i % 8) != 0)
    ensures Unpack(rotl', roth', i) == Unpack(rotl, roth, i)
  {
  }

  lemma UnpackOther(rotl: seq<Byte>, roth: seq<Byte>, o: nat, t0: Byte, t1: Byte, t2: Byte, t3: Byte, g: Byte, i: nat)
    requires |rotl| == 8 && |roth| == 2 && o < 4 && i < 16 && i / 4 != o && g < 0x10
    ensures Unpack(PackedLow(rotl, o, t0, t1, t2, t3), PackedHigh(roth, o, g), i) == Unpack(rotl, roth, i)
  {
    UnpackHigh(roth, o, g, i);
    assert i / 2 != 2 * o && i / 2 != 2 * o + 1;
    UnpackDependsOn(rotl, roth, PackedLow(rotl, o, t0, t1, t2, t3), PackedHigh(roth, o, g), i);
  }

  // The round loop reads the low five bits of the keys h from the first o groups; the other
  // groups are still empty.
  ghost predicate Filled(rotl: seq<Byte>, roth: seq<Byte>, o: nat, h: nat -> Word)
    requires |rotl| == 8 && |roth| == 2 && o <= 4
  {
    && (forall i :: 0 <= i < 4 * o ==> Unpack(rotl, roth, i) == Low5(h(i)))
    && (forall p :: o <= p < 4 ==> Empty(rotl, roth, p))
  }

  lemma NothingPacked(rotl: seq<Byte>, roth: seq<Byte>, h: nat -> Word)
    requires |rotl| == 8 && |roth| == 2
    requires (forall i :: 0 <= i < 8 ==> rotl[i] == 0) && roth[0] == 0 && roth[1] == 0
    ensures Filled(rotl, roth, 0, h)
  {
  }

  lemma PickedKey(t0: Byte, t1: Byte, t2: Byte, t3: Byte, k0: Word, k1: Word, k2: Word, k3: Word, k: Word, j: nat)
    requires j < 4 && t0 == ByteOf(k0, 0) && t1 == ByteOf(k1, 0) && t2 == ByteOf(k2, 0) && t3 == ByteOf(k3, 0)
    requires k == if j == 0 then k0 else if j == 1 then k1 else if j == 2 then k2 else k3
    ensures Pick4(t0, t1, t2, t3, j) & 0x1F == Low5(k)
  {
  }

  lemma FilledUnpack(rotl: seq<Byte>, roth: seq<Byte>, o: nat, t0: Byte, t1: Byte, t2: Byte, t3: Byte,
                     h: nat -> Word, i: nat)
    requires |rotl| == 8 && |roth| == 2 && o < 4 && Filled(rotl, roth, o, h) && i < 4 * o + 4
    requires t0 == ByteOf(h(4 * o), 0) && t1 == ByteOf(h(4 * o + 1), 0)
    requires t2 == ByteOf(h(4 * o + 2), 0) && t3 == ByteOf(h(4 * o + 3), 0)
    ensures Unpack(PackedLow(rotl, o, t0, t1, t2, t3), PackedHigh(roth, o, HighBits(t0, t1, t2, t3)), i) == Low5(h(i))
  {
    var g := HighBits(t0, t1, t2, t3);
    if i < 4 * o {
      HighBitsFit(t0, t1, t2, t3);
      UnpackOther(rotl, roth, o, t0, t1, t2, t3, g, i);
    } else {
      var j := i - 4 * o;
      UnpackGroup(rotl, roth, o, t0, t1, t2, t3, j);
      assert h(i) == h(4 * o + j);
      PickedKey(t0, t1, t2, t3, h(4 * o), h(4 * o + 1), h(4 * o + 2), h(4 * o + 3), h(i), j);
    }
  }

  lemma FilledEmpty(rotl: seq<Byte>, roth: seq<Byte>, o: nat, t0: Byte, t1: Byte, t2: Byte, t3: Byte, g: Byte, p: nat)
    requires |rotl| == 8 && |roth| == 2 && o < p < 4 && Empty(rotl, roth, p) && g < 0x10
    ensures Empty(PackedLow(rotl, o, t0, t1, t2, t3), PackedHigh(roth, o, g), p)
  {
    if p / 2 == o / 2 {
      EmptyStays(roth[o / 2], g, o % 2 == 1);
    }
  }

  lemma FilledOneMore(rotl: seq<Byte>, roth: seq<Byte>, o: nat, t0: Byte, t1: Byte, t2: Byte, t3: Byte, h: nat -> Word)
    requires |rotl| == 8 && |roth| == 2 && o < 4 && Filled(rotl, roth, o, h)
    requires t0 == ByteOf(h(4 * o), 0) && t1 == ByteOf(h(4 * o + 1), 0)
    requires t2 == ByteOf(h(4 * o + 2), 0) && t3 == ByteOf(h(4 * o + 3), 0)
    ensures Filled(PackedLow(rotl, o, t0, t1, t2, t3), PackedHigh(roth, o, HighBits(t0, t1, t2, t3)), o + 1, h)
  {
    var g := HighBits(t0, t1, t2, t3);
    HighBitsFit(t0, t1, t2, t3);
    forall i | 0 <= i < 4 * o + 4
      ensures Unpack(PackedLow(rotl, o, t0, t1, t2, t3), PackedHigh(roth, o, g), i) == Low5(h(i))
    {
      FilledUnpack(rotl, roth, o, t0, t1, t2, t3, h, i);
    }
    forall p | o + 1 <= p < 4
      ensures Empty(PackedLow(rotl, o, t0, t1, t2, t3), PackedHigh(roth, o, g), p)
    {
      FilledEmpty(rotl, roth, o, t0, t1, t2, t3, g, p);
    }
  }

  lemma EmptyStays(h: Byte, g: Byte, odd: bool)
    requires g < 0x10 && h & (if odd then 0x0F else 0xF0) == 0
    ensures (h | (if odd then g << 4 else g)) & (if odd then 0x0F else 0xF0) == 0
  {
  }

  // The key, filled up with zeros.
  method KeyBytes(key: seq<Byte>) returns (x: array<Byte>)
    requires |key| <= 16
    ensures fresh(x) && x.Length == 16 && BlockIn(x) == KeyBlock(key)
  {
    x := new Byte[16](_ => 0);
    for i := 0 to |key|
      invariant forall k :: 0 <= k < i ==> x[k] == key[k]
      invariant forall k :: i <= k < 16 ==> x[k] == 0
    {
      x[i] := key[i];
    }
    assert x[..] == Padded(key);
  }

  function Later(k: nat -> Word): (h: nat -> Word)
    ensures forall i: nat :: h(i) == k(16 + i)
  {
    (i: nat) => k(16 + i)
  }

  lemma RotationGroup(groups: nat -> Quad<Byte>, k: nat -> Word, h: nat -> Word, n: nat)
    requires n < 4 && GroupsHold(groups, Lowest, k) && forall i :: 0 <= i < 16 ==> h(i) == k(16 + i)
    ensures groups(n + 4) == Quad(Lowest(h(4 * n)), Lowest(h(4 * n + 1)), Lowest(h(4 * n + 2)), Lowest(h(4 * n + 3)))
  {
    var group := groups(n + 4);
    assert Pick(group, 0) == Lowest(k(4 * (n + 4))) && Pick(group, 1) == Lowest(k(4 * (n + 4) + 1));
    assert Pick(group, 2) == Lowest(k(4 * (n + 4) + 2)) && Pick(group, 3) == Lowest(k(4 * (n + 4) + 3));
  }

  lemma AllUnpacked(rotl: seq<Byte>, roth: seq<Byte>, k: nat -> Word, h: nat -> Word)
    requires |rotl| == 8 && |roth| == 2 && Filled(rotl, roth, 4, h) && forall i: nat :: h(i) == k(16 + i)
    ensures forall i :: 0 <= i < 16 ==> Unpack(rotl, roth, i) == RotationKeys(k)(i)
  {
    forall i | 0 <= i < 16
      ensures Unpack(rotl, roth, i) == RotationKeys(k)(i)
    {
      assert h(i) == k(16 + i);
    }
  }

  // cast5_f1 to f3 on words in memory.
  function CodeCipher(t: SBoxes): Cipher {
    (i: nat, d: Word, m: Word, r: Rotation) => CastRounds.CodeF(WordMachine(), RoundTables(t), i, d, m, r)
  }

  class Context {
    const t: SBoxes
    const mask: array<Word>
    const rotl: array<Byte>
    const roth: array<Byte>
    var shortkey: bool

    ghost predicate Valid()
      reads this
    {
      mask.Length == 16 && rotl.Length == 8 && roth.Length == 2
      && rotl != roth
    }

    constructor (t: SBoxes)
      ensures Valid() && this.t == t && fresh(mask) && fresh(rotl) && fresh(roth)
    {
      this.t := t;
      mask := new Word[16](_ => 0);
      rotl := new Byte[8](_ => 0);
      roth := new Byte[2](_ => 0);
      shortkey := false;
    }

    // The packing of four rotation bytes, the low bytes of h(4n) .. h(4n+3), into group n.
    method PackGroup(n: nat, t: Quad<Byte>, ghost h: nat -> Word)
      requires Valid() && n < 4 && Filled(rotl[..], roth[..], n, h)
      requires t == Quad(Lowest(h(4 * n)), Lowest(h(4 * n + 1)), Lowest(h(4 * n + 2)), Lowest(h(4 * n + 3)))
      modifies rotl, roth
      ensures Filled(rotl[..], roth[..], n + 1, h)
    {
      var low := PackedLow(rotl[..], n, t.b0, t.b1, t.b2, t.b3);
      var high := PackedHigh(roth[..], n, HighBits(t.b0, t.b1, t.b2, t.b3));
      FilledOneMore(rotl[..], roth[..], n, t.b0, t.b1, t.b2, t.b3, h);
      rotl[2 * n], rotl[2 * n + 1] := low[2 * n], low[2 * n + 1];
      roth[n / 2] := high[n / 2];
      assert rotl[..] == low && roth[..] == high;
    }

    method ClearRotations(ghost h: nat -> Word)
      requires Valid()
      modifies rotl, roth
      ensures Filled(rotl[..], roth[..], 0, h)
    {
      for i := 0 to 8
        invariant forall k :: 0 <= k < i ==> rotl[k] == 0
      {
        rotl[i] := 0;
      }
      roth[0], roth[1] := 0, 0;
      NothingPacked(rotl[..], roth[..], h);
    }

    // The second half of cast5_init packs the rotations of K17 .. K32.
    method InitRotations(o: Ops<Byte, Word, Byte>, x: array<Byte>, z: array<Byte>,
                         ghost blocks: nat -> Block<Byte>, ghost groups: nat -> Quad<Byte>,
                         ghost k: nat -> Word, ghost h: nat -> Word)
      requires Valid() && x.Length == z.Length == 16 && x != z
      requires x != rotl && x != roth && z != rotl && z != roth
      requires Traces(o, blocks, groups) && BlockIn(x) == blocks(4)
      requires GroupsHold(groups, Lowest, k) && forall i :: 0 <= i < 16 ==> h(i) == k(16 + i)
      modifies rotl, roth, x, z
      ensures Filled(rotl[..], roth[..], 4, h)
    {
      ClearRotations(h);
      var src, dest := x, z;
      for n := 0 to 4
        invariant (src == x && dest == z) || (src == z && dest == x)
        invariant BlockIn(src) == blocks(n + 4)
        invariant Filled(rotl[..], roth[..], n, h)
      {
        PackNext(o, n, dest, src, blocks, groups, k, h);
        src, dest := dest, src;
      }
    }

    // A step of the schedule, and the four rotations it gives.
    method PackNext(o: Ops<Byte, Word, Byte>, n: nat, dest: array<Byte>, src: array<Byte>,
                    ghost blocks: nat -> Block<Byte>, ghost groups: nat -> Quad<Byte>,
                    ghost k: nat -> Word, ghost h: nat -> Word)
      requires Valid() && n < 4 && src.Length == dest.Length == 16 && src != dest
      requires src != rotl && src != roth && dest != rotl && dest != roth
      requires Traces(o, blocks, groups) && BlockIn(src) == blocks(n + 4)
      requires GroupsHold(groups, Lowest, k) && forall i :: 0 <= i < 16 ==> h(i) == k(16 + i)
      requires Filled(rotl[..], roth[..], n, h)
      modifies rotl, roth, dest
      ensures BlockIn(dest) == blocks(n + 5) && Filled(rotl[..], roth[..], n + 1, h)
    {
      var group := ScheduleStep(o, n + 4, dest, src, blocks, groups);
      RotationGroup(groups, k, h, n);
      PackGroup(n, group, h);
    }

    // The second half of cast5_init: the round loop reads back the rotations of K17 .. K32.
    method FillRotations(r: Ops<Byte, Word, Byte>, x: array<Byte>, z: array<Byte>,
                         ghost blocks: nat -> Block<Byte>, ghost rg: nat -> Quad<Byte>, ghost k: nat -> Word)
      requires Valid() && x.Length == z.Length == 16 && x != z
      requires x != rotl && x != roth && z != rotl && z != roth
      requires Traces(r, blocks, rg) && GroupsHold(rg, Lowest, k) && BlockIn(x) == blocks(4)
      modifies rotl, roth, x, z
      ensures forall i :: 0 <= i < 16 ==> Unpack(rotl[..], roth[..], i) == RotationKeys(k)(i)
    {
      ghost var h := Later(k);
      InitRotations(r, x, z, blocks, rg, k, h);
      AllUnpacked(rotl[..], roth[..], k, h);
    }

    // The round loop finds the round keys km and kr in this context.
    ghost predicate Keyed(km: nat -> Word, kr: nat -> Rotation)
      reads this, mask, rotl, roth
    {
      && Valid()
      && (forall i :: 0 <= i < 16 ==> mask[i] == Swap(km(i)))
      && (forall i :: 0 <= i < 16 ==> Unpack(rotl[..], roth[..], i) == kr(i))
    }

    // cast5_init with the memory operations m and r, whose schedule runs through the given
    // blocks and keys.
    method InitWith(m: Ops<Byte, Word, Word>, r: Ops<Byte, Word, Byte>, key: seq<Byte>, keylength: nat,
                    ghost blocks: nat -> Block<Byte>, ghost mg: nat -> Quad<Word>, ghost rg: nat -> Quad<Byte>,
                    ghost k: nat -> Word)
      requires Valid() && keylength <= 128 && keylength / 8 <= |key|
      requires blocks(0) == KeyBlock(key[..keylength / 8])
      requires Traces(m, blocks, mg) && Traces(r, blocks, rg)
      requires GroupsHold(mg, Swap, k) && GroupsHold(rg, Lowest, k)
      modifies this, mask, rotl, roth
      ensures Valid() && shortkey == (keylength <= 80)
      ensures Keyed(k, RotationKeys(k))
    {
      shortkey := keylength <= 80;
      var x := KeyBytes(key[..keylength / 8]);
      var z := new Byte[16](_ => 0);
      FillMasks(m, x, z, blocks, mg, k);
      FillRotations(r, x, z, blocks, rg, k);
    }

    // The first half of cast5_init: the masks are K1 .. K16, byte-swapped.
    method FillMasks(m: Ops<Byte, Word, Word>, x: array<Byte>, z: array<Byte>,
                     ghost blocks: nat -> Block<Byte>, ghost mg: nat -> Quad<Word>, ghost k: nat -> Word)
      requires Valid() && x.Length == z.Length == 16 && x != z
      requires Traces(m, blocks, mg) && GroupsHold(mg, Swap, k) && BlockIn(x) == blocks(0)
      modifies mask, x, z
      ensures BlockIn(x) == blocks(4) && forall i :: 0 <= i < 16 ==> mask[i] == Swap(k(i))
    {
      InitMasks(m, mask, x, z, blocks, mg);
      ByGroups(mask, mg, k);
    }

    /** cast5_init: afterwards the round loop finds exactly the round keys of RFC 2144. */
    method Init(key: seq<Byte>, keylength: nat)
      requires Valid() && keylength <= 128 && keylength / 8 <= |key|
      modifies this, mask, rotl, roth
      ensures Keyed(RoundKeys(t, key[..keylength / 8]), RotationKeys(RoundKeys(t, key[..keylength / 8])))
      ensures Valid() && shortkey == (keylength <= 80) && (if shortkey then 12 else 16) == Rounds(keylength)
    {
      ghost var blocks, mg, rg, k := ScheduleOf(t, key[..keylength / 8]);
      InitWith(MaskOps(t), RotationOps(t), key, keylength, blocks, mg, rg, k);
    }

    // The masking and rotation key of round i, read back.
    method ReadKeys(i: nat, ghost km: nat -> Word, ghost kr: nat -> Rotation) returns (m: Word, r: Rotation)
      requires i < 16 && Keyed(km, kr)
      ensures m == km(i) && r == kr(i)
    {
      UnpackIsRotation(rotl[..], roth[..], i);
      SwapTwice(km(i));
      m, r := Swap(mask[i]), Unpack(rotl[..], roth[..], i);
    }

    // One round: CHANGE_ENDIAN32 around the round function.
    method RoundStep(f: Cipher, i: nat, l: Word, r: Word, ghost p: Halves,
                     ghost km: nat -> Word, ghost kr: nat -> Rotation) returns (l': Word, r': Word, ghost y: Word)
      requires i < 16 && Keyed(km, kr) && Stands(l, r, p)
      ensures y == f(i, p.r, km(i), kr(i))
      ensures l' == r && Swap(r') == p.l ^ y
    {
      var m, k := ReadKeys(i, km, kr);
      var d := f(i, Swap(r), m, k);
      y := d;
      l' := r;
      r' := XorSwapped(l, d, p.l);
    }

    method Encrypt(f: Cipher, block: array<Byte>,
                   ghost round: RoundFunction, ghost km: nat -> Word, ghost kr: nat -> Rotation)
      requires Keyed(km, kr) && Computes(f, km, kr, round)
      requires block.Length == 8 && block != rotl && block != roth
      modifies block
      ensures block[..] == Joined(Network(round, if shortkey then 12 else 16, Split(old(block[..]))))
    {
      var l, r := Load(block[0..4]), Load(block[4..8]);
      ghost var p := Split(block[..]);
      ghost var q := p;
      var rounds := if shortkey then 12 else 16;
      LoadIsSplit(block[..]);
      for i := 0 to rounds
        invariant Stands(l, r, q) && q == Network(round, i, p)
      {
        ghost var y;
        l, r, y := RoundStep(f, i, l, r, q, km, kr);
        RoundFrom(f, km, kr, round, i, q, y);
        q := round(i, q);
      }
      PutHalves(block, r, l, q);
    }

    method Decrypt(f: Cipher, block: array<Byte>,
                   ghost round: RoundFunction, ghost km: nat -> Word, ghost kr: nat -> Rotation)
      requires Keyed(km, kr) && Computes(f, km, kr, round)
      requires block.Length == 8 && block != rotl && block != roth
      modifies block
      ensures block[..] == Joined(ReverseNetwork(round, if shortkey then 12 else 16, Split(old(block[..]))))
    {
      var l, r := Load(block[0..4]), Load(block[4..8]);
      ghost var q := Split(block[..]);
      ghost var p := q;
      var rounds := if shortkey then 12 else 16;
      LoadIsSplit(block[..]);
      var i := rounds - 1;
      while i >= 0
        invariant -1 <= i < 16
        invariant Stands(l, r, q)
        invariant ReverseNetwork(round, i + 1, q) == ReverseNetwork(round, rounds, p)
      {
        ghost var y;
        l, r, y := RoundStep(f, i, l, r, q, km, kr);
        RoundFrom(f, km, kr, round, i, q, y);
        q := round(i, q);
        i := i - 1;
      }
      PutHalves(block, r, l, q);
    }

    /** cast5_enc computes the ciphertext block of RFC 2144. */
    method Enc(block: array<Byte>, ghost km: nat -> Word, ghost kr: nat -> Rotation)
      requires Keyed(km, kr) && block.Length == 8 && block != rotl && block != roth
      modifies block
      ensures block[..] == EncryptBlock(CastF(t), km, kr, if shortkey then 12 else 16, old(block[..]))
    {
      CodeComputes(t, km, kr, RoundOf(CastF(t), km, kr));
      Encrypt(CodeCipher(t), block, RoundOf(CastF(t), km, kr), km, kr);
    }

    /** cast5_dec runs the rounds in reverse order. */
    method Dec(block: array<Byte>, ghost km: nat -> Word, ghost kr: nat -> Rotation)
      requires Keyed(km, kr) && block.Length == 8 && block != rotl && block != roth
      modifies block
      ensures block[..] == DecryptBlock(CastF(t), km, kr, if shortkey then 12 else 16, old(block[..]))
    {
      CodeComputes(t, km, kr, RoundOf(CastF(t), km, kr));
      Decrypt(CodeCipher(t), block, RoundOf(CastF(t), km, kr), km, kr);
    }
  }

  ghost predicate Computes(f: Cipher, km: nat -> Word, kr: nat -> Rotation, round: RoundFunction) {
    forall i: nat, p {:trigger Round(f, km, kr, i, p)} :: round(i, p) == Round(f, km, kr, i, p)
  }

  lemma CodeComputes(t: SBoxes, km: nat -> Word, kr: nat -> Rotation, round: RoundFunction)
    requires round == RoundOf(CastF(t), km, kr)
    ensures Computes(CodeCipher(t), km, kr, round)
  {
    WordsAreLawful();
    forall i: nat, p: Halves
      ensures round(i, p) == Round(CodeCipher(t), km, kr, i, p)
    {
      CodeRound(t, km, kr, i, p);
    }
  }

  lemma CodeRound(t: SBoxes, km: nat -> Word, kr: nat -> Rotation, i: nat, p: Halves)
    requires CastRounds.Lawful(WordMachine())
    ensures RoundOf(CastF(t), km, kr)(i, p) == Round(CodeCipher(t), km, kr, i, p)
  {
    var y := CodeCipher(t)(i, p.r, km(i), kr(i));
    CastRounds.CodeIsCast(WordMachine(), RoundTables(t), i, p.r, km(i), kr(i));
    RoundGives(CodeCipher(t), km, kr, i, p, y);
    RoundGives(CastF(t), km, kr, i, p, y);
  }

  // The words l and r hold the halves p, byte-swapped.
  ghost predicate Stands(l: Word, r: Word, p: Halves) {
    Swap(l) == p.l && Swap(r) == p.r
  }

  // r = l ^ CHANGE_ENDIAN32(y)
  method XorSwapped(l: Word, y: Word, ghost pl: Word) returns (r: Word)
    requires Swap(l) == pl
    ensures Swap(r) == pl ^ y
  {
    r := l ^ Swap(y);
  }

  lemma RoundFrom(f: Cipher, km: nat -> Word, kr: nat -> Rotation, round: RoundFunction, i: nat, p: Halves, y: Word)
    requires Computes(f, km, kr, round) && y == f(i, p.r, km(i), kr(i))
    ensures round(i, p) == Halves(p.r, p.l ^ y)
  {
    RoundOnce(f, km, kr, round, i, p);
    RoundGives(f, km, kr, i, p, y);
  }

  lemma RoundOnce(f: Cipher, km: nat -> Word, kr: nat -> Rotation, round: RoundFunction, i: nat, p: Halves)
    requires Computes(f, km, kr, round)
    ensures round(i, p) == Round(f, km, kr, i, p)
  {
  }

  lemma RoundGives(f: Cipher, km: nat -> Word, kr: nat -> Rotation, i: nat, p: Halves, y: Word)
    requires y == f(i, p.r, km(i), kr(i))
    ensures Round(f, km, kr, i, p) == Halves(p.r, p.l ^ y)
  {
  }

  // The blocks and keys a key runs through.
  lemma ScheduleOf(t: SBoxes, key: seq<Byte>)
    returns (blocks: nat -> Block<Byte>, mg: nat -> Quad<Word>, rg: nat -> Quad<Byte>, k: nat -> Word)
    requires |key| <= 16
    ensures blocks(0) == KeyBlock(key)
    ensures Traces(MaskOps(t), blocks, mg) && Traces(RotationOps(t), blocks, rg)
    ensures GroupsHold(mg, Swap, k) && GroupsHold(rg, Lowest, k)
    ensures k == RoundKeys(t, key)
  {
    var o, b := RfcOps(t), KeyBlock(key);
    MasksRepresent(t);
    RotationsRepresent(t);
    k := RoundKeys(t, key);
    blocks, mg, rg := ScheduleBy(o, MaskOps(t), RotationOps(t), Swap, Swap, Lowest, b, k);
  }

  lemma ByGroups(m: array<Word>, mg: nat -> Quad<Word>, km: nat -> Word)
    requires m.Length == 16 && GroupsHold(mg, Swap, km)
    requires forall n :: 0 <= n < 4 ==> QuadIn(m, 4 * n) == mg(n)
    ensures forall i :: 0 <= i < 16 ==> m[i] == Swap(km(i))
  {
    forall i | 0 <= i < 16
      ensures m[i] == Swap(km(i))
    {
      assert QuadIn(m, 4 * (i / 4)) == mg(i / 4);
      assert Pick(mg(i / 4), i % 4) == Swap(km(4 * (i / 4) + i % 4));
    }
  }

  lemma LoadIsSplit(b: seq<Byte>)
    requires |b| == 8
    ensures Stands(Load(b[0..4]), Load(b[4..8]), Split(b))
  {
    BigIsSwapped(b[0..4]);
    BigIsSwapped(b[4..8]);
  }

  // The two words written back.
  method PutHalves(block: array<Byte>, w0: Word, w1: Word, ghost p: Halves)
    requires block.Length == 8 && Stands(w1, w0, p)
    modifies block
    ensures block[..] == Joined(p)
  {
    SwapTwice(w0);
    SwapTwice(w1);
    StoreBigIsSwapped(p.r);
    StoreBigIsSwapped(p.l);
    PutQuad(block, 0, StoreLittle(w0));
    PutQuad(block, 4, StoreLittle(w1));
  }
}
