/** Bytes and their bits, numbered from the least significant one as `_BV` does. */
module Bits {

  type Byte = bv8

  // The value of the macro _BV(k).
  function BV(k: nat): (b: Byte)
    requires k < 8
  {
    if k == 0 then 0x01
    else if k == 1 then 0x02
    else if k == 2 then 0x04
    else if k == 3 then 0x08
    else if k == 4 then 0x10
    else if k == 5 then 0x20
    else if k == 6 then 0x40
    else 0x80
  }

  predicate BitOf(b: Byte, k: nat)
    requires k < 8
  {
    b & BV(k) != 0
  }

  lemma SetBit(b: Byte, k: nat, j: nat)
    requires k < 8 && j < 8
    ensures BitOf(b | BV(k), j) <==> j == k || BitOf(b, j)
    ensures BitOf(b & !BV(k), j) <==> j != k && BitOf(b, j)
  {
  }

  // `|= _BV(k)` and `&= ~_BV(k)`.
  function WithBit(b: Byte, k: nat, v: bool): (r: Byte)
    requires k < 8
    ensures forall j :: 0 <= j < 8 ==> BitOf(r, j) == if j == k then v else BitOf(b, j)
  {
    assert forall j {:trigger BitOf(b, j)} :: 0 <= j < 8 ==>
        BitOf(b | BV(k), j) == (j == k || BitOf(b, j)) && BitOf(b & !BV(k), j) == (j != k && BitOf(b, j)) by {
      forall j | 0 <= j < 8
        ensures BitOf(b | BV(k), j) == (j == k || BitOf(b, j)) && BitOf(b & !BV(k), j) == (j != k && BitOf(b, j))
      {
        SetBit(b, k, j);
      }
    }
    if v then b | BV(k) else b & !BV(k)
  }

  // The byte whose bit k is bits[k].
  function FromBits(bits: seq<bool>): (b: Byte)
    requires |bits| == 8
    ensures forall k :: 0 <= k < 8 ==> BitOf(b, k) == bits[k]
  {
    (if bits[0] then 0x01 else 0) | (if bits[1] then 0x02 else 0)
    | (if bits[2] then 0x04 else 0) | (if bits[3] then 0x08 else 0)
    | (if bits[4] then 0x10 else 0) | (if bits[5] then 0x20 else 0)
    | (if bits[6] then 0x40 else 0) | (if bits[7] then 0x80 else 0)
  }

  function ToBits(b: Byte): (bits: seq<bool>)
    ensures |bits| == 8 && forall k :: 0 <= k < 8 ==> bits[k] == BitOf(b, k)
  {
    seq(8, k requires 0 <= k < 8 => BitOf(b, k))
  }

  lemma FromToBits(b: Byte)
    ensures FromBits(ToBits(b)) == b
  {
    var c := FromBits(ToBits(b));
    assert forall k :: 0 <= k < 8 ==> BitOf(c, k) == BitOf(b, k);
    assert BitOf(c, 0) == BitOf(b, 0) && BitOf(c, 1) == BitOf(b, 1) && BitOf(c, 2) == BitOf(b, 2)
        && BitOf(c, 3) == BitOf(b, 3) && BitOf(c, 4) == BitOf(b, 4) && BitOf(c, 5) == BitOf(b, 5)
        && BitOf(c, 6) == BitOf(b, 6) && BitOf(c, 7) == BitOf(b, 7);
  }
}
