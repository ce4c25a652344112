/** Numbers in binary, in bytes and in pages. */
module Numbers {
  import opened Bits

  // The n low binary digits of v, least significant one first.
  function Binary(v: nat, n: nat): (d: seq<bool>)
    ensures |d| == n
    decreases n, v
  {
    if n == 0 then [] else [v % 2 == 1] + Binary(v / 2, n - 1)
  }

  function Value(d: seq<bool>): nat {
    if |d| == 0 then 0 else (if d[0] then 1 else 0) + 2 * Value(d[1..])
  }

  function Power2(n: nat): nat {
    if n == 0 then 1 else 2 * Power2(n - 1)
  }

  lemma {:induction false} ValueOfBinary(v: nat, n: nat)
    requires v < Power2(n)
    ensures Value(Binary(v, n)) == v
    decreases n
  {
    if n > 0 {
      ValueOfBinary(v / 2, n - 1);
      assert Binary(v, n)[1..] == Binary(v / 2, n - 1);
    }
  }

  // The byte of value v modulo 256.
  function ByteFor(v: nat): Byte {
    FromBits(Binary(v % 256, 8))
  }

  function ByteValue(b: Byte): nat {
    Value(ToBits(b))
  }

  lemma ValueOfByte(v: nat)
    ensures ByteValue(ByteFor(v)) == v % 256
  {
    var d := Binary(v % 256, 8);
    assert ToBits(FromBits(d)) == d;
    assert Power2(8) == 256;
    ValueOfBinary(v % 256, 8);
  }

  lemma SumOfBits(b: Byte)
    ensures b as nat ==
      (if b & 0x01 != 0 then 1 else 0) + (if b & 0x02 != 0 then 2 else 0)
      + (if b & 0x04 != 0 then 4 else 0) + (if b & 0x08 != 0 then 8 else 0)
      + (if b & 0x10 != 0 then 16 else 0) + (if b & 0x20 != 0 then 32 else 0)
      + (if b & 0x40 != 0 then 64 else 0) + (if b & 0x80 != 0 then 128 else 0)
  {
  }

  lemma ValueFrom(bits: seq<bool>, k: nat)
    requires k < |bits|
    ensures Value(bits[k..]) == (if bits[k] then 1 else 0) + 2 * Value(bits[k + 1..])
  {
    assert bits[k..][1..] == bits[k + 1..];
  }

  lemma ValueOfFour(bits: seq<bool>, k: nat)
    requires k + 4 <= |bits|
    ensures Value(bits[k..]) ==
      (if bits[k] then 1 else 0) + (if bits[k + 1] then 2 else 0) + (if bits[k + 2] then 4 else 0)
      + (if bits[k + 3] then 8 else 0) + 16 * Value(bits[k + 4..])
  {
    ValueFrom(bits, k);
    ValueFrom(bits, k + 1);
    ValueFrom(bits, k + 2);
    ValueFrom(bits, k + 3);
  }

  lemma ValueOfEight(bits: seq<bool>)
    requires |bits| == 8
    ensures Value(bits) ==
      (if bits[0] then 1 else 0) + (if bits[1] then 2 else 0) + (if bits[2] then 4 else 0)
      + (if bits[3] then 8 else 0) + (if bits[4] then 16 else 0) + (if bits[5] then 32 else 0)
      + (if bits[6] then 64 else 0) + (if bits[7] then 128 else 0)
  {
    assert bits[0..] == bits && bits[8..] == [];
    ValueOfFour(bits, 0);
    ValueOfFour(bits, 4);
  }

  lemma ValueIsNumber(b: Byte)
    ensures ByteValue(b) == b as nat
  {
    SumOfBits(b);
    ValueOfEight(ToBits(b));
  }

  // v modulo 256^n, least significant byte first.
  function LittleEndian(v: nat, n: nat): (b: seq<Byte>)
    ensures |b| == n
    decreases n, v
  {
    if n == 0 then [] else [ByteFor(v)] + LittleEndian(v / 256, n - 1)
  }

  function Power256(n: nat): nat {
    if n == 0 then 1 else 256 * Power256(n - 1)
  }

  lemma {:induction false} LittleEndianIsOneToOne(v: nat, w: nat, n: nat)
    requires LittleEndian(v, n) == LittleEndian(w, n) && v < Power256(n) && w < Power256(n)
    ensures v == w
    decreases n
  {
    if n > 0 {
      var a, b := LittleEndian(v, n), LittleEndian(w, n);
      assert a[0] == b[0] && a[1..] == b[1..];
      ValueOfByte(v);
      ValueOfByte(w);
      LittleEndianIsOneToOne(v / 256, w / 256, n - 1);
    }
  }

  // The number in two bytes.
  function Value16(b0: Byte, b1: Byte): nat {
    ByteValue(b0) + 256 * ByteValue(b1)
  }

  lemma ValueOf16(v: nat)
    requires v < 0x1_0000
    ensures var b := LittleEndian(v, 2); Value16(b[0], b[1]) == v
  {
    TwoBytes(v);
    ValueOfTwo(v, ByteFor(v), ByteFor(v / 256));
  }

  lemma ValueOfTwo(v: nat, b0: Byte, b1: Byte)
    requires v < 0x1_0000 && b0 == ByteFor(v) && b1 == ByteFor(v / 256)
    ensures Value16(b0, b1) == v
  {
    ValueOfByte(v);
    ValueOfByte(v / 256);
    assert v / 256 % 256 == v / 256 && v % 256 + 256 * (v / 256) == v;
  }

  lemma TwoBytes(v: nat)
    ensures var b := LittleEndian(v, 2); b[0] == ByteFor(v) && b[1] == ByteFor(v / 256)
  {
    var b, c := LittleEndian(v, 2), LittleEndian(v / 256, 1);
    assert b == [ByteFor(v)] + c && c == [ByteFor(v / 256)] + LittleEndian(v / 256 / 256, 0);
  }

  /** The first byte of page k, for pages of size p. */
  function PageStart(k: nat, p: nat): nat {
    k * p
  }

  // The number of pages that n bytes touch.
  function Pages(n: nat, p: nat): nat
    requires p > 0
  {
    if n == 0 then 0 else (n - 1) / p + 1
  }

  lemma PagesHold(n: nat, p: nat)
    requires p > 0
    ensures n <= PageStart(Pages(n, p), p) < n + p
  {
    if n > 0 {
      assert n - 1 == (n - 1) / p * p + (n - 1) % p;
    }
  }

  lemma {:induction false} PagesInOrder(j: nat, k: nat, p: nat)
    requires j < k
    ensures PageStart(j, p) + p <= PageStart(k, p)
    decreases k
  {
    assert PageStart(k, p) == PageStart(k - 1, p) + p;
    if j < k - 1 {
      PagesInOrder(j, k - 1, p);
    }
  }

  lemma SamePage(j: nat, k: nat, p: nat)
    requires p > 0
    ensures PageStart(j, p) < PageStart(k, p) <==> j < k
    ensures PageStart(j, p) == PageStart(k, p) <==> j == k
  {
    if j < k {
      PagesInOrder(j, k, p);
    } else if k < j {
      PagesInOrder(k, j, p);
    }
  }

  lemma ModIsUnique(x: nat, n: nat, k: nat, r: nat)
    requires r < n && x == k * n + r
    ensures x % n == r
  {
    var q := x / n;
    assert x == q * n + x % n;
    if q < k {
      PagesInOrder(q, k, n);
    } else if q > k {
      PagesInOrder(k, q, n);
    }
  }

  lemma ModNext(x: nat, n: nat)
    requires n > 0
    ensures (x + 1) % n == if x % n + 1 == n then 0 else x % n + 1
  {
    var k, r := x / n, x % n;
    assert x == k * n + r;
    if r + 1 == n {
      assert x + 1 == (k + 1) * n;
      ModIsUnique(x + 1, n, k + 1, 0);
    } else {
      ModIsUnique(x + 1, n, k, r + 1);
    }
  }
}
