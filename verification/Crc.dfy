/** The Dallas CRC-8 that guards ROM codes, flash file headers and the EEPROM configuration. */
module Crc {
  import opened BitMachines
  import opened Bits

  // The shift register of polynomial x^8 + x^5 + x^4 + 1, fed one bit.
  function Feed(crc: Byte, bit: bool): (r: Byte) {
    if (crc & 1 != 0) != bit then (crc >> 1) ^ 0x8C else crc >> 1
  }

  function FeedAll(crc: Byte, bits: seq<bool>): Byte {
    Run(Feed, crc, bits)
  }

  // A record travels byte by byte, least significant bit first.
  function RecordBits(data: seq<Byte>): (bits: seq<bool>)
    ensures |bits| == 8 * |data|
  {
    if |data| == 0 then [] else ToBits(data[0]) + RecordBits(data[1..])
  }

  function Checksum(data: seq<Byte>): Byte {
    FeedAll(0, RecordBits(data))
  }

  // d shifted right n times.
  function ShiftedRight(d: Byte, n: nat): Byte {
    if n == 0 then d else ShiftedRight(d, n - 1) >> 1
  }

  lemma ShiftedBits(d: Byte)
    ensures forall k :: 0 <= k < 8 ==> (ShiftedRight(d, k) & 1 != 0) == BitOf(d, k)
    ensures ShiftedRight(d, 8) == 0
  {
    assert ShiftedRight(d, 1) == d >> 1;
    assert ShiftedRight(d, 2) == d >> 2;
    assert ShiftedRight(d, 3) == d >> 3;
    assert ShiftedRight(d, 4) == d >> 4;
    assert ShiftedRight(d, 5) == d >> 5;
    assert ShiftedRight(d, 6) == d >> 6;
    assert ShiftedRight(d, 7) == d >> 7;
  }

  lemma ShiftBothFeeds(crc: Byte, data: Byte)
    ensures (if (crc ^ data) & 1 != 0 then (crc >> 1) ^ 0x8C else crc >> 1) == Feed(crc, data & 1 != 0)
  {
  }

  // The image writer's form: register and data are shifted side by side.
  method CrcUpdate(crc: Byte, data: Byte) returns (r: Byte)
    ensures r == FeedAll(crc, ToBits(data))
  {
    r := crc;
    var d := data;
    ShiftedBits(data);
    for i := 0 to 8
      invariant r == FeedAll(crc, ToBits(data)[..i]) && d == ShiftedRight(data, i)
    {
      ShiftBothFeeds(r, d);
      RunOneMore(Feed, crc, ToBits(data), i);
      r := if (r ^ d) & 1 != 0 then (r >> 1) ^ 0x8C else r >> 1;
      d := d >> 1;
    }
    assert ToBits(data)[..8] == ToBits(data);
  }

  function ShiftOut(x: Byte): Byte {
    if x & 1 != 0 then (x >> 1) ^ 0x8C else x >> 1
  }

  lemma MixedInFeeds(x: Byte, r: Byte, d: Byte)
    requires x == r ^ d
    ensures ShiftOut(x) == Feed(r, d & 1 != 0) ^ (d >> 1)
  {
  }

  // After i bits of data: the register fed with them, and what is left of data.
  ghost predicate FedSoFar(crc: Byte, data: Byte, i: nat, fed: Byte, rest: Byte) {
    i <= 8 && fed == FeedAll(crc, ToBits(data)[..i]) && rest == ShiftedRight(data, i)
  }

  lemma FedOneMore(crc: Byte, data: Byte, i: nat, fed: Byte, rest: Byte)
    requires i < 8 && FedSoFar(crc, data, i, fed, rest)
    ensures FedSoFar(crc, data, i + 1, Feed(fed, rest & 1 != 0), rest >> 1)
  {
    ShiftedBits(data);
    RunOneMore(Feed, crc, ToBits(data), i);
  }

  lemma FedEntirely(crc: Byte, data: Byte, fed: Byte, rest: Byte)
    requires FedSoFar(crc, data, 8, fed, rest)
    ensures rest == 0 && fed == FeedAll(crc, ToBits(data))
  {
    ShiftedBits(data);
    assert ToBits(data)[..8] == ToBits(data);
  }

  // The library's form, _crc_ibutton_update: the data byte is mixed in before the shifts.
  method IButtonUpdate(crc: Byte, data: Byte) returns (r: Byte)
    ensures r == FeedAll(crc, ToBits(data))
  {
    r := crc ^ data;
    ghost var fed, rest := crc, data;
    for i := 0 to 8
      invariant r == fed ^ rest && FedSoFar(crc, data, i, fed, rest)
    {
      MixedInFeeds(r, fed, rest);
      FedOneMore(crc, data, i, fed, rest);
      fed, rest := Feed(fed, rest & 1 != 0), rest >> 1;
      r := ShiftOut(r);
    }
    FedEntirely(crc, data, fed, rest);
  }

  lemma ChecksumOneMore(data: seq<Byte>, n: nat)
    requires n < |data|
    ensures Checksum(data[..n + 1]) == FeedAll(Checksum(data[..n]), ToBits(data[n]))
  {
    assert data[..n + 1] == data[..n] + [data[n]];
    RecordSplits(data[..n], [data[n]]);
    assert RecordBits([data[n]]) == ToBits(data[n]);
    RunSplits(Feed, 0, RecordBits(data[..n]), ToBits(data[n]));
  }

  lemma {:induction false} RecordSplits(a: seq<Byte>, b: seq<Byte>)
    ensures RecordBits(a + b) == RecordBits(a) + RecordBits(b)
  {
    if |a| == 0 {
      assert a + b == b;
    } else {
      assert (a + b)[1..] == a[1..] + b;
      RecordSplits(a[1..], b);
    }
  }

  method CrcCalc(data: seq<Byte>) returns (crc: Byte)
    ensures crc == Checksum(data)
  {
    crc := 0;
    for i := 0 to |data|
      invariant crc == Checksum(data[..i])
    {
      crc := CrcUpdate(crc, data[i]);
      ChecksumOneMore(data, i);
    }
    assert data[..|data|] == data;
  }

  // crc_checksum and eeprom_get_chksum.
  method CrcChecksum(data: array<Byte>, length: nat) returns (crc: Byte)
    requires length <= data.Length && length < 256
    ensures crc == Checksum(data[..length])
  {
    crc := 0;
    for i := 0 to length
      invariant crc == Checksum(data[..i])
    {
      crc := IButtonUpdate(crc, data[i]);
      ChecksumOneMore(data[..], i);
      assert data[..][..i] == data[..i] && data[..][..i + 1] == data[..i + 1];
    }
  }

  function Unfeed(r: Byte, bit: bool): Byte {
    if r & 0x80 != 0 then ((r ^ 0x8C) << 1) | (if bit then 0 else 1)
    else (r << 1) | (if bit then 1 else 0)
  }

  /** For each bit fed, the register moves by a bijection. */
  lemma FeedIsBijective(c: Byte, bit: bool)
    ensures Unfeed(Feed(c, bit), bit) == c && Feed(Unfeed(c, bit), bit) == c
  {
  }

  lemma FeedIsReversible()
    ensures Reversible(Feed)
  {
    forall x: Byte, y: Byte, b: bool | Feed(x, b) == Feed(y, b)
      ensures x == y
    {
      FeedIsBijective(x, b);
      FeedIsBijective(y, b);
    }
  }

  // One step apart: the difference of two registers after feeding each a bit.
  function Apart(delta: Byte, differ: bool): Byte {
    Feed(delta, differ)
  }

  lemma DifferenceMoves(x: Byte, y: Byte, a: bool, b: bool)
    ensures Feed(x, a) ^ Feed(y, b) == Apart(x ^ y, a != b)
  {
  }

  // A difference of at least _BV(n) keeps at least _BV(n - 1), whatever is fed.
  lemma DifferencePersists(x: Byte, y: Byte, n: nat, a: bool, b: bool)
    requires 1 <= n < 8 && x ^ y >= BV(n)
    ensures Feed(x, a) ^ Feed(y, b) >= BV(n - 1)
  {
    DifferenceMoves(x, y, a, b);
  }

  lemma {:induction false} FarIsSeparate(x: Byte, y: Byte, n: nat)
    requires n < 8 && x ^ y >= BV(n)
    ensures Separate(Feed, x, y, n)
    decreases n
  {
    if n == 0 {
      ApartAtAll(x, y);
    } else {
      forall a: bool, b: bool
        ensures Separate(Feed, Feed(x, a), Feed(y, b), n - 1)
      {
        DifferencePersists(x, y, n, a, b);
        FarIsSeparate(Feed(x, a), Feed(y, b), n - 1);
      }
    }
  }

  lemma ApartAtAll(x: Byte, y: Byte)
    requires x ^ y >= BV(0)
    ensures x != y
  {
  }

  // Two different bits send any register to two that differ in the highest bit.
  lemma FirstDifference(x: Byte, a: bool, n: nat)
    requires n < 8
    ensures Feed(x, a) ^ Feed(x, !a) >= BV(n)
  {
  }

  lemma BitSeparates(x: Byte, a: bool, n: nat)
    requires n < 8
    ensures Separate(Feed, Feed(x, a), Feed(x, !a), n)
  {
    FirstDifference(x, a, n);
    FarIsSeparate(Feed(x, a), Feed(x, !a), n);
  }

  lemma FeedBranches()
    ensures Branching(Feed, 8)
  {
    forall x: Byte, n: nat | n < 8
      ensures Separate(Feed, Feed(x, false), Feed(x, true), n)
      ensures Separate(Feed, Feed(x, true), Feed(x, false), n)
    {
      BitSeparates(x, false, n);
      BitSeparates(x, true, n);
    }
  }

  /** Every burst of up to eight wrong bits changes the checksum, wherever it lies. */
  lemma BurstIsDetected(a: seq<bool>, b: seq<bool>, k: nat, n: nat)
    requires n <= 8 && k + n <= |a| == |b|
    requires a[..k] == b[..k] && a[k + n..] == b[k + n..] && a != b
    ensures FeedAll(0, a) != FeedAll(0, b)
  {
    FeedIsReversible();
    FeedBranches();
    BurstLeadsApart(Feed, 8, 0, a, b, k, n);
  }

  /** Nine bits are too many: the generator itself goes unnoticed. */
  lemma NineBitsCanEscape()
    ensures var e := [true, false, false, true, true, false, false, false, true];
      FeedAll(0, e) == FeedAll(0, seq(9, _ => false)) == 0
  {
    var e, z := [true, false, false, true, true, false, false, false, true], seq(9, _ => false);
    RunOneMore(Feed, 0, e, 8);
    RunOneMore(Feed, 0, e, 7);
    RunOneMore(Feed, 0, e, 6);
    RunOneMore(Feed, 0, e, 5);
    RunOneMore(Feed, 0, e, 4);
    RunOneMore(Feed, 0, e, 3);
    RunOneMore(Feed, 0, e, 2);
    RunOneMore(Feed, 0, e, 1);
    RunOneMore(Feed, 0, e, 0);
    assert e[..9] == e;
    ZerosStay(z);
  }

  lemma {:induction false} ZerosStay(z: seq<bool>)
    requires forall k :: 0 <= k < |z| ==> !z[k]
    ensures FeedAll(0, z) == 0
  {
    if |z| > 0 {
      ZerosStay(z[1..]);
    }
  }

  /** Two records of any equal length that differ in exactly one byte never share a checksum. */
  lemma OneByteIsDetected(a: seq<Byte>, b: seq<Byte>, k: nat)
    requires k < |a| == |b| && a[..k] == b[..k] && a[k + 1..] == b[k + 1..] && a[k] != b[k]
    ensures Checksum(a) != Checksum(b)
  {
    RecordAround(a, k);
    RecordAround(b, k);
    FromToBits(a[k]);
    FromToBits(b[k]);
    var ra, rb := RecordBits(a), RecordBits(b);
    assert ra[8 * k..8 * k + 8] == ToBits(a[k]) && rb[8 * k..8 * k + 8] == ToBits(b[k]);
    BurstIsDetected(ra, rb, 8 * k, 8);
  }

  lemma RecordAround(a: seq<Byte>, k: nat)
    requires k < |a|
    ensures RecordBits(a) == RecordBits(a[..k]) + ToBits(a[k]) + RecordBits(a[k + 1..])
  {
    var rest := a[k..];
    RecordSplits(a[..k], rest);
    FirstOfRecord(rest);
    assert a == a[..k] + rest && rest[1..] == a[k + 1..];
  }

  lemma FirstOfRecord(a: seq<Byte>)
    requires |a| > 0
    ensures RecordBits(a) == ToBits(a[0]) + RecordBits(a[1..])
  {
  }

  /** A record followed by one more byte checks out to zero exactly if that byte is its checksum. */
  lemma RecordAndItsChecksum(data: seq<Byte>, crc: Byte)
    ensures Checksum(data + [crc]) == 0 <==> crc == Checksum(data)
  {
    var c := Checksum(data);
    ChecksumOneMore(data + [crc], |data|);
    assert (data + [crc])[..|data|] == data && (data + [crc])[..|data| + 1] == data + [crc];
    OwnBitsGiveZero(c);
    FeedBranches();
    WindowIsInjective(Feed, 8, c, ToBits(c), ToBits(crc));
    FromToBits(c);
    FromToBits(crc);
  }

  lemma OwnBitsGiveZero(c: Byte)
    ensures FeedAll(c, ToBits(c)) == 0
  {
    ShiftedBits(c);
    OwnBits(c, 8);
    assert ToBits(c)[..8] == ToBits(c);
  }

  lemma {:induction false} OwnBits(c: Byte, n: nat)
    requires n <= 8
    requires forall k :: 0 <= k < 8 ==> (ShiftedRight(c, k) & 1 != 0) == BitOf(c, k)
    ensures FeedAll(c, ToBits(c)[..n]) == ShiftedRight(c, n)
  {
    if n > 0 {
      OwnBits(c, n - 1);
      RunOneMore(Feed, c, ToBits(c), n - 1);
    }
  }
}
