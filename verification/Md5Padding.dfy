/** The end of a message as md5_lastBlock pads it, against sections 3.1 and 3.2 of RFC 1321. */
module Md5Padding {
  import opened Bits
  import opened Numbers
  import opened Rfc1321

  function Zeros(n: nat): (z: seq<Byte>)
    ensures |z| == n
  {
    seq(n, _ => 0)
  }

  // The last byte of a message of n bits with the padding bit in it.
  function Marked(data: seq<Byte>, n: nat): Byte
    requires n <= 8 * |data|
  {
    if n % 8 != 0 then data[n / 8] | BV(7 - n % 8) else BV(7)
  }

  // A length field that does not fit behind the padding bit needs one more block.
  function Gap(n: nat): nat {
    var l := n % 512 / 8;
    if l + 8 >= 64 then 119 - l else 55 - l
  }

  function CodeFilled(data: seq<Byte>, n: nat): seq<Byte>
    requires n <= 8 * |data|
  {
    data[..n / 8] + [Marked(data, n)] + Zeros(Gap(n))
  }

  // All blocks that reach md5_nextBlock.
  function CodePadded(data: seq<Byte>, n: nat): seq<Byte>
    requires n <= 8 * |data|
  {
    CodeFilled(data, n) + CodeField(n)
  }

  // The bits of the last byte behind the padding bit are zero.
  predicate CleanEnd(data: seq<Byte>, n: nat)
    requires n <= 8 * |data|
  {
    n % 8 != 0 ==> forall k: nat :: k < 7 - n % 8 ==> !BitOf(data[n / 8], k)
  }

  lemma SameBits(b: Byte, c: Byte)
    requires forall k: nat :: k < 8 ==> BitOf(b, k) == BitOf(c, k)
    ensures b == c
  {
    FromToBits(b);
    FromToBits(c);
    assert ToBits(b) == ToBits(c);
  }

  lemma BitsOfMark(b: Byte, j: nat, k: nat)
    requires j < 8 && k < 8
    ensures BitOf(b | BV(j), k) <==> k == j || BitOf(b, k)
  {
    SetBit(b, j, k);
  }

  lemma BitsOfOne(j: nat, k: nat)
    requires j < 8 && k < 8
    ensures BitOf(BV(j), k) <==> k == j
  {
  }

  lemma NoBits(k: nat)
    requires k < 8
    ensures !BitOf(0, k)
  {
  }

  // The code computes the length in 32 bits.
  function CodeField(n: nat): (b: seq<Byte>)
    ensures |b| == 8
  {
    LittleEndian(n % 0x1_0000_0000, 8)
  }

  predicate ShortLength(n: nat) {
    n % 0x1_0000_0000_0000_0000 < 0x1_0000_0000
  }

  lemma FieldIsRight(n: nat)
    ensures CodeField(n) == LengthField(n) <==> ShortLength(n)
  {
    var v, w := n % 0x1_0000_0000, n % 0x1_0000_0000_0000_0000;
    assert w % 0x1_0000_0000 == v;
    if LittleEndian(v, 8) == LittleEndian(w, 8) {
      EightBytes();
      LittleEndianIsOneToOne(v, w, 8);
    }
  }

  lemma EightBytes()
    ensures Power256(8) == 0x1_0000_0000_0000_0000
  {
    assert Power256(4) == 0x1_0000_0000;
  }

  lemma BytesOfParts(x: seq<bool>, y: seq<bool>)
    requires |x| % 8 == 0
    ensures BytesOf(x + y) == BytesOf(x) + BytesOf(y)
  {
    var n := |x| / 8;
    assert |x| == 8 * n;
    forall j | 0 <= j < |x + y| / 8
      ensures BytesOf(x + y)[j] == (BytesOf(x) + BytesOf(y))[j]
    {
      if j < n {
        SameByte(x + y, j, x, j);
      } else {
        SameByte(x + y, j, y, j - n);
      }
    }
  }

  lemma SameByte(x: seq<bool>, i: nat, y: seq<bool>, j: nat)
    requires 8 * i + 8 <= |x| && 8 * j + 8 <= |y|
    requires x[8 * i..8 * i + 8] == y[8 * j..8 * j + 8]
    ensures ByteAt(x, i) == ByteAt(y, j)
  {
    forall k: nat | k < 8
      ensures BitOf(ByteAt(x, i), k) == BitOf(ByteAt(y, j), k)
    {
      ByteOfBits(x, i, k);
      ByteOfBits(y, j, k);
      assert x[8 * i..8 * i + 8][7 - k] == y[8 * j..8 * j + 8][7 - k];
    }
    SameBits(ByteAt(x, i), ByteAt(y, j));
  }

  lemma ByteOfBits(bits: seq<bool>, j: nat, k: nat)
    requires 8 * j + 8 <= |bits| && k < 8
    ensures BitOf(ByteAt(bits, j), k) == bits[8 * j + 7 - k]
  {
  }

  lemma BytesOfBits(mem: seq<Byte>)
    ensures BytesOf(BitsOf(mem, 8 * |mem|)) == mem
  {
    var bits := BitsOf(mem, 8 * |mem|);
    forall j | 0 <= j < |mem|
      ensures BytesOf(bits)[j] == mem[j]
    {
      WholeByte(mem, 8 * |mem|, bits, j);
    }
  }

  lemma BitInMemory(mem: seq<Byte>, n: nat, j: nat, k: nat)
    requires n <= 8 * |mem| && k < 8 && 8 * j + 7 - k < n
    ensures BitsOf(mem, n)[8 * j + 7 - k] == BitOf(mem[j], k)
  {
    var i := 8 * j + 7 - k;
    assert i / 8 == j && i % 8 == 7 - k;
  }

  lemma WholeByte(mem: seq<Byte>, n: nat, bits: seq<bool>, j: nat)
    requires n <= 8 * |mem| && 8 * j + 8 <= n <= |bits| && bits[..n] == BitsOf(mem, n)
    ensures ByteAt(bits, j) == mem[j]
  {
    forall k: nat | k < 8
      ensures BitOf(ByteAt(bits, j), k) == BitOf(mem[j], k)
    {
      ByteOfBits(bits, j, k);
      BitInMemory(mem, n, j, k);
      assert bits[8 * j + 7 - k] == bits[..n][8 * j + 7 - k];
    }
    SameBits(ByteAt(bits, j), mem[j]);
  }

  lemma FilledBit(m: seq<bool>, i: nat)
    requires i < |Filled(m)|
    ensures Filled(m)[i] == if i < |m| then m[i] else i == |m|
  {
  }

  lemma MarkInside(m: seq<bool>)
    ensures 8 * (|m| / 8) + 8 <= |Filled(m)|
  {
    FilledLength(m);
    NextMultiple(|m|, |Filled(m)|);
  }

  lemma NextMultiple(n: nat, z: nat)
    requires z % 512 == 448 && n < z
    ensures 8 * (n / 8) + 8 <= z
  {
    var q, k := z / 512, n / 8;
    assert z == 512 * q + 448 && n == 8 * k + n % 8;
    assert 8 * k < 8 * (64 * q + 56);
  }

  lemma MarkedBit(data: seq<Byte>, n: nat, k: nat)
    requires n <= 8 * |data| && k < 8
    ensures 8 * (n / 8) + 8 <= |Filled(BitsOf(data, n))|
    ensures BitOf(ByteAt(Filled(BitsOf(data, n)), n / 8), k)
      <==> if k > 7 - n % 8 then BitOf(data[n / 8], k) else k == 7 - n % 8
  {
    var m := BitsOf(data, n);
    MarkInside(m);
    ByteOfBits(Filled(m), n / 8, k);
    FilledBit(m, 8 * (n / 8) + 7 - k);
    if k > 7 - n % 8 {
      BitInMemory(data, n, n / 8, k);
    }
  }

  lemma BitOfMarked(data: seq<Byte>, n: nat, k: nat)
    requires n <= 8 * |data| && k < 8
    ensures BitOf(Marked(data, n), k) <==> k == 7 - n % 8 || (n % 8 != 0 && BitOf(data[n / 8], k))
  {
    BitsOfOne(7, k);
    if n % 8 != 0 {
      BitsOfMark(data[n / 8], 7 - n % 8, k);
    }
  }

  lemma MarkedDiffers(data: seq<Byte>, n: nat, k: nat)
    requires n <= 8 * |data| && k < 8
    ensures 8 * (n / 8) + 8 <= |Filled(BitsOf(data, n))|
    ensures BitOf(ByteAt(Filled(BitsOf(data, n)), n / 8), k) != BitOf(Marked(data, n), k)
      <==> k < 7 - n % 8 && n % 8 != 0 && BitOf(data[n / 8], k)
  {
    MarkedBit(data, n, k);
    BitOfMarked(data, n, k);
  }

  // The byte that holds the padding bit.
  lemma MarkedByte(data: seq<Byte>, n: nat)
    requires n <= 8 * |data|
    ensures 8 * (n / 8) + 8 <= |Filled(BitsOf(data, n))|
    ensures ByteAt(Filled(BitsOf(data, n)), n / 8) == Marked(data, n) <==> CleanEnd(data, n)
  {
    MarkInside(BitsOf(data, n));
    var byte, mark := ByteAt(Filled(BitsOf(data, n)), n / 8), Marked(data, n);
    if CleanEnd(data, n) {
      forall k: nat | k < 8
        ensures BitOf(byte, k) == BitOf(mark, k)
      {
        MarkedDiffers(data, n, k);
      }
      SameBits(byte, mark);
    } else {
      var k: nat :| k < 7 - n % 8 && BitOf(data[n / 8], k);
      MarkedDiffers(data, n, k);
    }
  }

  lemma ZeroByte(m: seq<bool>, j: nat)
    requires |m| / 8 < j && 8 * j + 8 <= |Filled(m)|
    ensures ByteAt(Filled(m), j) == 0
  {
    forall k: nat | k < 8
      ensures BitOf(ByteAt(Filled(m), j), k) == BitOf(0, k)
    {
      ByteOfBits(Filled(m), j, k);
      FilledBit(m, 8 * j + 7 - k);
      NoBits(k);
    }
    SameBits(ByteAt(Filled(m), j), 0);
  }

  lemma FillAndGap(n: nat)
    ensures n + 1 + FillLength(n) == 8 * (n / 8 + 1 + Gap(n))
  {
    var r := n % 512;
    var l, k := r / 8, r % 8;
    assert n == 8 * (n / 8) + k by {
      assert n == 512 * (n / 512) + r && r == 8 * l + k;
      assert n / 8 == 64 * (n / 512) + l;
    }
    assert FillLength(n) == if r < 448 then 447 - r else 959 - r;
  }

  lemma FilledSize(data: seq<Byte>, n: nat)
    requires n <= 8 * |data|
    ensures |Filled(BitsOf(data, n))| == 8 * |CodeFilled(data, n)|
  {
    FillAndGap(n);
  }

  lemma FilledBytes(data: seq<Byte>, n: nat, j: nat)
    requires n <= 8 * |data| && j < |CodeFilled(data, n)| && j != n / 8
    ensures 8 * j + 8 <= |Filled(BitsOf(data, n))|
    ensures ByteAt(Filled(BitsOf(data, n)), j) == CodeFilled(data, n)[j]
  {
    var m := BitsOf(data, n);
    FilledSize(data, n);
    if j < n / 8 {
      assert Filled(m)[..n] == m;
      WholeByte(data, n, Filled(m), j);
    } else {
      ZeroByte(m, j);
    }
  }

  lemma FilledAlike(data: seq<Byte>, n: nat)
    requires n <= 8 * |data|
    ensures |BytesOf(Filled(BitsOf(data, n)))| == |CodeFilled(data, n)|
    ensures BytesOf(Filled(BitsOf(data, n))) == CodeFilled(data, n) <==> CleanEnd(data, n)
  {
    var rfc, code := BytesOf(Filled(BitsOf(data, n))), CodeFilled(data, n);
    FilledSize(data, n);
    forall j: nat | j < |code| && j != n / 8
      ensures rfc[j] == code[j]
    {
      FilledBytes(data, n, j);
    }
    MarkedByte(data, n);
    assert rfc[n / 8] == ByteAt(Filled(BitsOf(data, n)), n / 8) && code[n / 8] == Marked(data, n);
  }

  lemma FieldBehind(filled: seq<bool>, field: seq<Byte>)
    requires |filled| % 512 == 448 && |field| == 8
    ensures BytesOf(filled + BitsOf(field, 64)) == BytesOf(filled) + field
  {
    assert |filled| == 8 * (64 * (|filled| / 512) + 56);
    BytesOfParts(filled, BitsOf(field, 64));
    BytesOfBits(field);
  }

  lemma PaddedBytes(m: seq<bool>)
    ensures BytesOf(Padded(m)) == BytesOf(Filled(m)) + LengthField(|m|)
  {
    FilledLength(m);
    FieldBehind(Filled(m), LengthField(|m|));
  }

  /** The code's padding is that of RFC 1321 exactly when the bits behind the message in its
      last byte are zero and its length, as a 64-bit number, fits in 32 bits. */
  lemma PaddingIsRfc(data: seq<Byte>, n: nat)
    requires n <= 8 * |data|
    ensures CodePadded(data, n) == BytesOf(Padded(BitsOf(data, n))) <==> CleanEnd(data, n) && ShortLength(n)
  {
    var m := BitsOf(data, n);
    PaddedBytes(m);
    FilledAlike(data, n);
    FieldIsRight(n);
    SameEnds(CodeFilled(data, n), BytesOf(Filled(m)), CodeField(n), LengthField(n));
  }

  lemma SameEnds<T>(a: seq<T>, b: seq<T>, x: seq<T>, y: seq<T>)
    requires |a| == |b|
    ensures a + x == b + y <==> a == b && x == y
  {
    if a + x == b + y {
      assert a == (a + x)[..|a|] && b == (b + y)[..|b|];
      assert x == (a + x)[|a|..] && y == (b + y)[|b|..];
    }
  }

  /** A one-bit message in a byte of ones is padded differently. */
  lemma UncleanEndIsPaddedDifferently()
    ensures CodePadded([0xFF], 1) != BytesOf(Padded(BitsOf([0xFF], 1)))
  {
    assert BitOf(0xFF, 0);
    PaddingIsRfc([0xFF], 1);
  }
}
