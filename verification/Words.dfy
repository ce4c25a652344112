/** 32-bit words and the bytes a little-endian machine stores them in. */
module Words {
  import opened Bits

  type Word = bv32

  // Byte k of a word in memory.
  function ByteOf(w: Word, k: nat): (b: Byte)
    requires k < 4
  {
    if k == 0 then (w & 0xFF) as bv8
    else if k == 1 then ((w >> 8) & 0xFF) as bv8
    else if k == 2 then ((w >> 16) & 0xFF) as bv8
    else (w >> 24) as bv8
  }

  // The word stored as four bytes, least significant one first.
  function Load(b: seq<Byte>): (w: Word)
    requires |b| == 4
  {
    (b[0] as bv32) | ((b[1] as bv32) << 8) | ((b[2] as bv32) << 16) | ((b[3] as bv32) << 24)
  }

  function Store(w: Word): (b: seq<Byte>)
    ensures |b| == 4
  {
    [ByteOf(w, 0), ByteOf(w, 1), ByteOf(w, 2), ByteOf(w, 3)]
  }

  // The word that four bytes denote most significant one first.
  function LoadBig(b: seq<Byte>): (w: Word)
    requires |b| == 4
  {
    Load([b[3], b[2], b[1], b[0]])
  }

  function StoreBig(w: Word): (b: seq<Byte>)
    ensures |b| == 4
  {
    [ByteOf(w, 3), ByteOf(w, 2), ByteOf(w, 1), ByteOf(w, 0)]
  }

  // CHANGE_ENDIAN32
  function Swap(w: Word): Word {
    (w << 24) | (w >> 24) | ((w & 0xFF00) << 8) | ((w & 0xFF0000) >> 8)
  }

  // ROTL32. On 32-bit words a shift by 32 leaves nothing, so a rotation by 0 changes nothing.
  function Rotl(w: Word, n: Byte): Word
    requires n <= 32
  {
    (w << n) | (w >> (32 - n))
  }

  lemma StoreLoad(w: Word)
    ensures Load(Store(w)) == w
  {
  }

  lemma LoadBytes(b: seq<Byte>, k: nat)
    requires |b| == 4 && k < 4
    ensures ByteOf(Load(b), k) == b[k]
  {
  }

  lemma LoadStore(b: seq<Byte>)
    requires |b| == 4
    ensures Store(Load(b)) == b
  {
    LoadBytes(b, 0);
    LoadBytes(b, 1);
    LoadBytes(b, 2);
    LoadBytes(b, 3);
  }

  lemma SwapTwice(w: Word)
    ensures Swap(Swap(w)) == w
  {
  }

  lemma SwapXor(v: Word, w: Word)
    ensures Swap(v ^ w) == Swap(v) ^ Swap(w)
  {
  }

  lemma SwapBytes(w: Word, k: nat)
    requires k < 4
    ensures ByteOf(Swap(w), k) == ByteOf(w, 3 - k)
  {
  }

  lemma BigIsSwapped(b: seq<Byte>)
    requires |b| == 4
    ensures LoadBig(b) == Swap(Load(b))
  {
  }

  lemma StoreBigIsSwapped(w: Word)
    ensures StoreBig(w) == Store(Swap(w))
  {
    SwapBytes(w, 0);
    SwapBytes(w, 1);
    SwapBytes(w, 2);
    SwapBytes(w, 3);
  }

  lemma XorTwice(v: Word, w: Word)
    ensures (v ^ w) ^ w == v
  {
  }
}
