/** core/crypto/md5.c: MD5 over bytes in memory. */
module Md5 {
  import opened Bits
  import opened Md5Padding
  import opened Numbers
  import opened Rfc1321
  import opened WordNumbers
  import opened Words

  function F(x: Word, y: Word, z: Word): Word {
    (x & y) | (!x & z)
  }

  function G(x: Word, y: Word, z: Word): Word {
    (x & z) | (!z & y)
  }

  function H(x: Word, y: Word, z: Word): Word {
    x ^ y ^ z
  }

  function I(x: Word, y: Word, z: Word): Word {
    y ^ (x | !z)
  }

  function Mix(r: nat, x: Word, y: Word, z: Word): Word {
    if r == 0 then F(x, y, z) else if r == 1 then G(x, y, z) else if r == 2 then H(x, y, z) else I(x, y, z)
  }

  function LoadFour(b0: Byte, b1: Byte, b2: Byte, b3: Byte): Word {
    Load([b0, b1, b2, b3])
  }

  // A 32-bit processor's operations with any table T.
  function WordOps(t: nat -> Word): Ops<Word> {
    Ops(Mix, Plus, RotlBy, t, LoadFour)
  }

  const IV := Regs(0x67452301 as Word, 0xefcdab89 as Word, 0x98badcfe as Word, 0x10325476 as Word)

  function RegsIn<W>(a: array<W>): Regs<W>
    requires a.Length == 4
    reads a
  {
    Regs(a[0], a[1], a[2], a[3])
  }

  /** md5_core on the register that operation n of a row writes, at index 4 - n. */
  method Core<W>(o: Ops<W>, a: array<W>, at: nat, block: array<Byte>, off: nat, k: nat, s: nat, i: nat, fi: nat,
                 ghost op: Operation<W>)
    requires a.Length == 4 && off + 64 <= block.Length && k < 16
    requires a as object != block as object && 1 <= at <= 4
    requires op == OperationBy(o, fi, s, WordAt(o, block[off..off + 64], k), o.t(i))
    modifies a
    ensures RegsIn(a) == Renamed(4 - at, op, old(RegsIn(a)))
  {
    var p := at % 4;
    var word := o.load(block[off + 4 * k], block[off + 4 * k + 1], block[off + 4 * k + 2], block[off + 4 * k + 3]);
    var t := o.add(o.add(o.add(a[p], o.mix(fi, a[(p + 1) % 4], a[(p + 2) % 4], a[(p + 3) % 4])), word), o.t(i));
    a[p] := o.add(a[(p + 1) % 4], o.rot(t, s));
  }

  // The word that round r + 1 reads in pass n of row m; & 0xf is the remainder modulo 16.
  function CodeIndex(r: nat, m: nat, n: nat): int {
    if r == 0 then m * 4 + n
    else if r == 1 then (1 + m * 4 + n * 5) % 16
    else if r == 2 then (5 - m * 4 + n * 3) % 16
    else (0 - m * 4 + n * 7) % 16
  }

  /** The masked index formulas give the indices that RFC 1321 lists. */
  lemma CodeIndexIsIndex(r: nat, m: nat, n: nat)
    requires m < 4 && n < 4
    ensures CodeIndex(r, m, n) == Index(r, 4 * m + n)
  {
    IndexIsLinear(r, 4 * m + n);
    CodeIndexIsLinear(r, m, n);
  }

  lemma CodeIndexIsLinear(r: nat, m: nat, n: nat)
    requires m < 4 && n < 4
    ensures CodeIndex(r, m, n) == LinearIndex(r, 4 * m + n)
  {
    if r == 1 {
      Remainder(1 + 5 * (4 * m + n), m + (1 + m * 4 + n * 5) / 16, (1 + m * 4 + n * 5) % 16);
    } else if r == 2 {
      Remainder(5 + 3 * (4 * m + n), m + (5 - m * 4 + n * 3) / 16, (5 - m * 4 + n * 3) % 16);
    } else if r > 2 {
      Remainder(7 * (4 * m + n), 2 * m + (0 - m * 4 + n * 7) / 16, (0 - m * 4 + n * 7) % 16);
    }
  }

  lemma OperationInRow<W>(o: Ops<W>, block: seq<Byte>, r: nat, m: nat, n: nat, i: nat)
    requires |block| == 64 && m < 4 && n < 4 && i == 16 * r + 4 * m + n
    ensures 0 <= CodeIndex(r, m, n) < 16
    ensures ProgramOf(o, block)(i) == OperationBy(o, r, Shift(r, n), WordAt(o, block, CodeIndex(r, m, n)), o.t(i))
  {
    assert i / 16 == r && i % 16 == 4 * m + n && i % 4 == n;
    CodeIndexIsIndex(r, m, n);
    EachWordOnce(r, 0, 4 * m + n);
  }

  // The tables of the code.
  const S1T := [7, 12, 17, 22]
  const S2T := [5, 9, 14, 20]
  const S3T := [4, 11, 16, 23]
  const S4T := [6, 10, 15, 21]

  function CodeShift(r: nat, n: nat): nat
    requires n < 4
  {
    if r == 0 then S1T[n] else if r == 1 then S2T[n] else if r == 2 then S3T[n] else S4T[n]
  }

  /** They hold the rotations that RFC 1321 lists. */
  lemma SameShift(r: nat, n: nat)
    requires n < 4
    ensures CodeShift(r, n) == Shift(r, n)
  {
  }

  // The arguments of a call of md5_core.
  method Arguments<W>(r: nat, m: nat, n: nat, ghost i: nat, ghost o: Ops<W>, ghost bytes: seq<Byte>)
    returns (k: nat, s: nat)
    requires |bytes| == 64 && m < 4 && n < 4 && i == 16 * r + 4 * m + n
    ensures k < 16
    ensures ProgramOf(o, bytes)(i) == OperationBy(o, r, s, WordAt(o, bytes, k), o.t(i))
  {
    OperationInRow(o, bytes, r, m, n, i);
    SameShift(r, n);
    k, s := CodeIndex(r, m, n), CodeShift(r, n);
  }

  method Pass<W>(o: Ops<W>, a: array<W>, block: array<Byte>, off: nat, r: nat, m: nat, n: nat, i: nat,
                 ghost op: Operation<W>)
    requires a.Length == 4 && off + 64 <= block.Length && m < 4 && n < 4 && i == 16 * r + 4 * m + n
    requires a as object != block as object && op == ProgramOf(o, block[off..off + 64])(i)
    modifies a
    ensures RegsIn(a) == Renamed(n, op, old(RegsIn(a)))
  {
    var k, s := Arguments(r, m, n, i, o, block[off..off + 64]);
    Core(o, a, 4 - n, block, off, k, s, i, r, op);
  }

  // n passes of the row that begins with operation first.
  ghost function PassesOf<W>(ops: Program<W>, first: nat, n: nat, q: Regs<W>): Regs<W> {
    if n == 0 then q else Renamed(n - 1, ops(first + n - 1), PassesOf(ops, first, n - 1, q))
  }

  lemma {:induction false} PassesAreSteps<W>(ops: Program<W>, first: nat, n: nat, q: Regs<W>)
    requires n <= 4 && first % 4 == 0
    ensures PassesOf(ops, first, n, Steps(ops, first, q)) == Steps(ops, first + n, q)
    decreases n
  {
    if n > 0 {
      PassesAreSteps(ops, first, n - 1, q);
      assert (first + n - 1) % 4 == n - 1;
    }
  }

  lemma RowIsSteps<W>(ops: Program<W>, r: nat, m: nat, first: nat, q: Regs<W>)
    requires first == 16 * r + 4 * m
    ensures PassesOf(ops, first, 4, Steps(ops, first, q)) == Steps(ops, first + 4, q)
  {
    assert first % 4 == 0;
    PassesAreSteps(ops, first, 4, q);
  }

  method PassInRow<W>(o: Ops<W>, a: array<W>, block: array<Byte>, off: nat, r: nat, m: nat, n: nat, first: nat,
                      ghost ops: Program<W>, ghost q: Regs<W>, ghost bytes: seq<Byte>)
    requires a.Length == 4 && off + 64 <= block.Length && m < 4 && n < 4 && first == 16 * r + 4 * m
    requires a as object != block as object && block[off..off + 64] == bytes
    requires ops == ProgramOf(o, bytes) && RegsIn(a) == PassesOf(ops, first, n, q)
    modifies a
    ensures RegsIn(a) == PassesOf(ops, first, n + 1, q) && block[off..off + 64] == bytes
  {
    Pass(o, a, block, off, r, m, n, first + n, ops(first + n));
  }

  // The inner loop of a nest.
  method Passes<W>(o: Ops<W>, a: array<W>, block: array<Byte>, off: nat, r: nat, m: nat, first: nat,
                   ghost ops: Program<W>, ghost q: Regs<W>, ghost bytes: seq<Byte>)
    requires a.Length == 4 && off + 64 <= block.Length && m < 4 && first == 16 * r + 4 * m
    requires a as object != block as object && block[off..off + 64] == bytes
    requires ops == ProgramOf(o, bytes) && RegsIn(a) == q
    modifies a
    ensures RegsIn(a) == PassesOf(ops, first, 4, q) && block[off..off + 64] == bytes
  {
    for n := 0 to 4
      invariant RegsIn(a) == PassesOf(ops, first, n, q) && block[off..off + 64] == bytes
    {
      PassInRow(o, a, block, off, r, m, n, first, ops, q, bytes);
    }
  }

  method Row<W>(o: Ops<W>, a: array<W>, block: array<Byte>, off: nat, r: nat, m: nat, first: nat,
                ghost ops: Program<W>, ghost q: Regs<W>, ghost bytes: seq<Byte>)
    requires a.Length == 4 && off + 64 <= block.Length && m < 4 && first == 16 * r + 4 * m
    requires a as object != block as object && block[off..off + 64] == bytes
    requires ops == ProgramOf(o, bytes) && RegsIn(a) == Steps(ops, first, q)
    modifies a
    ensures RegsIn(a) == Steps(ops, first + 4, q) && block[off..off + 64] == bytes
  {
    RowIsSteps(ops, r, m, first, q);
    Passes(o, a, block, off, r, m, first, ops, Steps(ops, first, q), bytes);
  }

  /** One of the four loop nests of md5_nextBlock. */
  method Round<W>(o: Ops<W>, a: array<W>, block: array<Byte>, off: nat, r: nat, ghost ops: Program<W>, ghost q: Regs<W>)
    requires a.Length == 4 && off + 64 <= block.Length
    requires a as object != block as object
    requires ops == ProgramOf(o, block[off..off + 64]) && RegsIn(a) == Steps(ops, 16 * r, q)
    modifies a
    ensures RegsIn(a) == Steps(ops, 16 * r + 16, q)
  {
    var i := 16 * r;
    ghost var bytes := block[off..off + 64];
    for m := 0 to 4
      invariant i == 16 * r + 4 * m
      invariant RegsIn(a) == Steps(ops, i, q) && block[off..off + 64] == bytes
    {
      Row(o, a, block, off, r, m, i, ops, q, bytes);
      i := i + 4;
    }
  }

  type Uint32 = n: nat | n < 0x1_0000_0000

  function Wrap(n: nat): Uint32 {
    n % 0x1_0000_0000
  }

  lemma JoinSlices<T>(h: seq<T>, s: seq<T>, i: nat, j: nat, k: nat)
    requires i <= j <= k <= |s|
    ensures h + s[i..j] + s[j..k] == h + s[i..k]
  {
  }

  lemma JoinPrefix<T>(h: seq<T>, s: seq<T>, i: nat, j: nat)
    requires i <= j <= |s|
    ensures h + s[..i] + s[i..j] == h + s[..j]
  {
  }

  lemma WrapNext(n: nat)
    ensures Wrap(Wrap(n) + 1) == Wrap(n + 1)
  {
  }

  // The length field, computed as (counter * 512) + length in 32 bits.
  function Field(counter: Uint32, len: nat): (b: seq<Byte>)
    ensures |b| == 8
  {
    LittleEndian(Wrap(counter * 512 + len), 8)
  }

  lemma FieldIsCodeField(p: nat, len: nat)
    ensures Field(Wrap(p), len) == CodeField(512 * p + len)
  {
    assert Wrap(Wrap(p) * 512 + len) == Wrap(512 * p + len);
  }

  class Context<W> {
    const o: Ops<W>
    const iv: Regs<W>
    const a: array<W>
    var counter: Uint32
    ghost var hashed: seq<Byte>

    // The number of blocks hashed.
    ghost var blocks: nat

    ghost predicate Hashing()
      reads this, a
    {
      a.Length == 4 && |hashed| == 64 * blocks && RegsIn(a) == Digest(o, iv, hashed)
    }

    ghost predicate Valid()
      reads this, a
    {
      Hashing() && counter == Wrap(blocks)
    }

    // The digest of the first n bits of the data, padded; this is their MD5 wherever the padding
    // is the standard's.
    ghost predicate HoldsDigest(data: seq<Byte>, n: nat)
      reads this, a
    {
      && a.Length == 4 && n <= 8 * |data| && RegsIn(a) == Digest(o, iv, CodePadded(data, n))
      && (CleanEnd(data, n) && ShortLength(n) ==> RegsIn(a) == Md5(o, iv, BitsOf(data, n)))
    }

    /** md5_init */
    constructor (o: Ops<W>, iv: Regs<W>)
      ensures Valid() && hashed == [] && fresh(a) && this.o == o && this.iv == iv
    {
      this.o, this.iv := o, iv;
      a := new W[4][iv.a, iv.b, iv.c, iv.d];
      counter := 0;
      hashed, blocks := [], 0;
    }

    // The loops and additions of md5_nextBlock.
    method Absorb(block: array<Byte>, off: nat)
      requires a.Length == 4 && off + 64 <= block.Length && a as object != block as object
      modifies a
      ensures RegsIn(a) == Compress(o, old(RegsIn(a)), block[off..off + 64])
    {
      var r := new W[4][a[0], a[1], a[2], a[3]];
      ghost var q, ops := RegsIn(a), ProgramOf(o, block[off..off + 64]);
      for f := 0 to 4
        invariant RegsIn(r) == Steps(ops, 16 * f, q)
        invariant a[..] == old(a[..]) && block[..] == old(block[..])
      {
        Round(o, r, block, off, f, ops, q);
      }
      a[0] := o.add(a[0], r[0]);
      a[1] := o.add(a[1], r[1]);
      a[2] := o.add(a[2], r[2]);
      a[3] := o.add(a[3], r[3]);
    }

    // md5_nextBlock, whatever the counter stands at.
    method AddBlock(block: array<Byte>, off: nat)
      requires Hashing() && off + 64 <= block.Length && a as object != block as object
      modifies this`counter, this`hashed, this`blocks, a
      ensures Hashing() && hashed == old(hashed) + block[off..off + 64] && blocks == old(blocks) + 1
      ensures counter == Wrap(old(counter) + 1)
    {
      ghost var bytes := block[off..off + 64];
      ghost var h, n := hashed + bytes, blocks + 1;
      DigestOfNext(o, iv, hashed, blocks, bytes);
      Absorb(block, off);
      hashed, blocks, counter := h, n, (counter + 1) % 0x1_0000_0000;
    }

    /** md5_nextBlock */
    method NextBlock(block: array<Byte>, off: nat)
      requires Hashing() && off + 64 <= block.Length && a as object != block as object
      modifies this`counter, this`hashed, this`blocks, a
      ensures Hashing() && hashed == old(hashed) + block[off..off + 64] && blocks == old(blocks) + 1
      ensures counter == Wrap(old(counter) + 1)
      ensures old(Valid()) ==> Valid()
    {
      WrapNext(blocks);
      AddBlock(block, off);
    }

    // The loop at the head of md5_lastBlock.
    method WholeBlocks(block: array<Byte>, at: nat, length: nat) returns (off: nat, len: nat)
      requires Valid() && at + (length + 7) / 8 <= block.Length && a as object != block as object
      modifies this`counter, this`hashed, this`blocks, a
      ensures Valid() && len < 512 && blocks >= old(blocks)
      ensures length == len + 512 * (blocks - old(blocks)) && off == at + 64 * (blocks - old(blocks))
      ensures hashed == old(hashed) + block[at..off]
    {
      off, len := at, length;
      ghost var mem, h := block[..], hashed;
      while len >= 512
        invariant Valid() && blocks >= old(blocks)
        invariant length == len + 512 * (blocks - old(blocks)) && off == at + 64 * (blocks - old(blocks))
        invariant block[..] == mem && off <= |mem| && hashed == h + mem[at..off]
      {
        assert off + 64 <= at + (length + 7) / 8;
        NextBlock(block, off);
        JoinSlices(h, mem, at, off, off + 64);
        WrapNext(blocks - 1);
        len := len - 512;
        off := off + 64;
      }
    }

    // A block that does not count.
    method ExtraBlock(b: array<Byte>)
      requires Hashing() && b.Length == 64 && a as object != b as object
      modifies this`counter, this`hashed, this`blocks, a
      ensures Hashing() && hashed == old(hashed) + old(b[..]) && counter == old(counter)
    {
      assert b[0..64] == b[..];
      NextBlock(b, 0);
      counter := (counter - 1) % 0x1_0000_0000;
    }

    method FinalBlock(b: array<Byte>, len: nat)
      requires Hashing() && b.Length == 64 && a as object != b as object
      modifies this`counter, this`hashed, this`blocks, a, b
      ensures Hashing() && hashed == old(hashed) + (old(b[..56]) + Field(old(counter), len))
      ensures counter == Wrap(old(counter) + 1)
    {
      PutField(b, Field(counter, len));
      assert b[0..64] == b[..];
      NextBlock(b, 0);
    }

    // The rest of md5_lastBlock.
    method Finish(block: array<Byte>, off: nat, len: nat)
      requires Valid() && len < 512 && off + (len + 7) / 8 <= block.Length && a as object != block as object
      modifies this`counter, this`hashed, this`blocks, a
      ensures Hashing()
      ensures hashed == Ending(old(hashed), old(counter), block[off..off + (len + 7) / 8], len)
      ensures counter == Wrap(old(counter) + 1)
    {
      ghost var tail := block[off..off + (len + 7) / 8];
      var b := MarkedBlock(block, off, len);
      if len / 8 + 8 >= 64 {
        EndingTwo(hashed, counter, tail, len, b[..]);
        ExtraBlock(b);
        b := new Byte[64](_ => 0);
        assert b[..56] == Zeros(56);
      } else {
        EndingOne(hashed, counter, tail, len, b[..]);
        assert b[..][..56] == b[..56];
      }
      FinalBlock(b, len);
    }

    method LastBlocks(block: array<Byte>, at: nat, length: nat, ghost data: seq<Byte>, ghost n: nat)
      requires Valid() && at + (length + 7) / 8 <= block.Length && a as object != block as object
      requires data == hashed + block[at..at + (length + 7) / 8] && n == 8 * |hashed| + length
      modifies this`counter, this`hashed, this`blocks, a
      ensures Hashing() && n <= 8 * |data| && hashed == CodePadded(data, n)
    {
      ghost var h, p, mem := hashed, blocks, block[..];
      var off, len := WholeBlocks(block, at, length);
      ghost var tail := WholeThenRest(h, p, mem, at, length, data, n, hashed, blocks, off, len);
      Finish(block, off, len);
    }

    /** md5_lastBlock hashes the blocks so far and the given bits, padded; this is the MD5 of
        the whole message wherever that padding is the standard's. */
    method LastBlock(block: array<Byte>, at: nat, length: nat)
      requires Valid() && length < 0x1_0000 && at + (length + 7) / 8 <= block.Length
      requires a as object != block as object
      modifies this`counter, this`hashed, this`blocks, a
      ensures HoldsDigest(old(hashed) + block[at..at + (length + 7) / 8], 8 * |old(hashed)| + length)
    {
      ghost var mem, size := block[..], (length + 7) / 8;
      LastDigest(block, at, length, hashed + mem[at..at + size], 8 * |hashed| + length);
      assert block[..] == mem;
    }

    method LastDigest(block: array<Byte>, at: nat, length: nat, ghost data: seq<Byte>, ghost n: nat)
      requires Valid() && at + (length + 7) / 8 <= block.Length && a as object != block as object
      requires data == hashed + block[at..at + (length + 7) / 8] && n == 8 * |hashed| + length
      modifies this`counter, this`hashed, this`blocks, a
      ensures HoldsDigest(data, n)
    {
      LastBlocks(block, at, length, data, n);
      RightDigest(o, iv, data, n);
    }

    // Blocks hashed one after the other.
    method Stream(block: array<Byte>, k: nat)
      requires Valid() && 64 * k <= block.Length && a as object != block as object
      modifies this`counter, this`hashed, this`blocks, a
      ensures Valid() && hashed == old(hashed) + block[..64 * k]
    {
      ghost var mem, h := block[..], hashed;
      for i := 0 to k
        invariant Valid() && block[..] == mem && 64 * i <= |mem| && hashed == h + mem[0..64 * i]
      {
        NextBlock(block, 64 * i);
        JoinSlices(h, mem, 0, 64 * i, 64 * i + 64);
      }
    }

    /** However many blocks are passed one by one before md5_lastBlock gets the rest, the result
        is that of the whole message. */
    method HashMessage(block: array<Byte>, k: nat, length: nat)
      requires Valid() && length < 0x1_0000 && 64 * k + (length + 7) / 8 <= block.Length
      requires a as object != block as object
      modifies this`counter, this`hashed, this`blocks, a
      ensures HoldsDigest(old(hashed) + block[..64 * k + (length + 7) / 8], 8 * |old(hashed)| + 512 * k + length)
    {
      ghost var mem, size := block[..], (length + 7) / 8;
      HashAll(block, k, length, hashed + mem[..64 * k + size], 8 * |hashed| + 512 * k + length);
      assert block[..] == mem;
    }

    method HashAll(block: array<Byte>, k: nat, length: nat, ghost data: seq<Byte>, ghost n: nat)
      requires Valid() && 64 * k + (length + 7) / 8 <= block.Length && a as object != block as object
      requires data == hashed + block[..64 * k + (length + 7) / 8] && n == 8 * |hashed| + 512 * k + length
      modifies this`counter, this`hashed, this`blocks, a
      ensures HoldsDigest(data, n)
    {
      JoinPrefix(hashed, block[..], 64 * k, 64 * k + (length + 7) / 8);
      Stream(block, k);
      LastDigest(block, 64 * k, length, data, n);
    }
  }

  lemma WholeMessage<T>(h: seq<T>, mem: seq<T>, at: nat, off: nat, length: nat, len: nat, j: nat)
    requires length == len + 512 * j && off == at + 64 * j && at + (length + 7) / 8 <= |mem|
    ensures off + (len + 7) / 8 == at + (length + 7) / 8
    ensures h + mem[at..off] + mem[off..off + (len + 7) / 8] == h + mem[at..at + (length + 7) / 8]
  {
    assert (length + 7) / 8 == (len + 7) / 8 + 64 * j;
  }

  // What is left once the whole blocks are hashed, and the padded message it ends.
  lemma WholeThenRest(h: seq<Byte>, p: nat, mem: seq<Byte>, at: nat, length: nat, data: seq<Byte>, n: nat,
                      done: seq<Byte>, q: nat, off: nat, len: nat) returns (tail: seq<Byte>)
    requires |h| == 64 * p && |done| == 64 * q && q >= p && len < 512 && at + (length + 7) / 8 <= |mem|
    requires data == h + mem[at..at + (length + 7) / 8] && n == 8 * |h| + length
    requires length == len + 512 * (q - p) && off == at + 64 * (q - p) && done == h + mem[at..off]
    ensures off + (len + 7) / 8 <= |mem| && tail == mem[off..off + (len + 7) / 8]
    ensures n <= 8 * |data| && CodePadded(data, n) == Ending(done, Wrap(q), tail, len)
  {
    WholeMessage(h, mem, at, off, length, len, q - p);
    tail := mem[off..off + (len + 7) / 8];
    CodePaddedInParts(data, done, tail, q, len);
  }

  lemma DigestOfNext<W>(o: Ops<W>, iv: Regs<W>, h: seq<Byte>, n: nat, bytes: seq<Byte>)
    requires |h| == 64 * n && |bytes| == 64
    ensures |h + bytes| == 64 * (n + 1) && Digest(o, iv, h + bytes) == Compress(o, Digest(o, iv, h), bytes)
  {
    DigestOneMore(o, iv, h, bytes);
  }

  lemma RightDigest<W>(o: Ops<W>, iv: Regs<W>, data: seq<Byte>, n: nat)
    requires n <= 8 * |data|
    ensures CleanEnd(data, n) && ShortLength(n) ==> Digest(o, iv, CodePadded(data, n)) == Md5(o, iv, BitsOf(data, n))
  {
    PaddingIsRfc(data, n);
  }

  // All blocks, given those before the last bytes.
  ghost function Ending(done: seq<Byte>, counter: Uint32, tail: seq<Byte>, len: nat): seq<Byte>
    requires len <= 8 * |tail|
  {
    done + (tail[..len / 8] + [Marked(tail, len)] + Zeros(Gap(len)) + Field(counter, len))
  }

  lemma EndingOne(done: seq<Byte>, counter: Uint32, tail: seq<Byte>, len: nat, first: seq<Byte>)
    requires len < 448 && len <= 8 * |tail|
    requires first == tail[..len / 8] + [Marked(tail, len)] + Zeros(63 - len / 8)
    ensures Ending(done, counter, tail, len) == done + (first[..56] + Field(counter, len))
  {
    GapInOneBlock(len);
    CutZeros(tail[..len / 8], Marked(tail, len), len / 8);
  }

  lemma GapInOneBlock(len: nat)
    requires len < 448
    ensures len / 8 < 56 && Gap(len) == 55 - len / 8
  {
    assert len % 512 == len;
  }

  lemma CutZeros(t: seq<Byte>, mark: Byte, k: nat)
    requires |t| == k < 56
    ensures (t + [mark] + Zeros(63 - k))[..56] == t + [mark] + Zeros(55 - k)
  {
  }

  lemma EndingTwo(done: seq<Byte>, counter: Uint32, tail: seq<Byte>, len: nat, first: seq<Byte>)
    requires 448 <= len < 512 && len <= 8 * |tail|
    requires first == tail[..len / 8] + [Marked(tail, len)] + Zeros(63 - len / 8)
    ensures Ending(done, counter, tail, len) == done + first + (Zeros(56) + Field(counter, len))
  {
    GapInTwoBlocks(len);
    SplitGap(63 - len / 8, Gap(len));
    Regrouped(done, tail[..len / 8] + [Marked(tail, len)], Zeros(63 - len / 8), Zeros(56), Field(counter, len));
  }

  lemma GapInTwoBlocks(len: nat)
    requires 448 <= len < 512
    ensures 56 <= len / 8 < 64 && Gap(len) == 119 - len / 8
  {
    assert len % 512 == len;
  }

  lemma SplitGap(n: nat, gap: nat)
    requires gap == n + 56
    ensures Zeros(n) + Zeros(56) == Zeros(gap)
  {
  }

  lemma Regrouped<T>(d: seq<T>, x: seq<T>, y: seq<T>, z: seq<T>, f: seq<T>)
    ensures d + (x + y) + (z + f) == d + (x + (y + z) + f)
  {
  }

  lemma LastPart(p: nat, len: nat)
    requires len < 512
    ensures (512 * p + len) / 8 == 64 * p + len / 8
    ensures (512 * p + len) % 8 == len % 8
    ensures Gap(512 * p + len) == Gap(len)
  {
    assert (512 * p + len) % 512 == len % 512;
  }

  lemma SameMark(done: seq<Byte>, tail: seq<Byte>, p: nat, len: nat)
    requires |done| == 64 * p && len < 512 && |tail| == (len + 7) / 8
    ensures Marked(done + tail, 512 * p + len) == Marked(tail, len)
  {
    LastPart(p, len);
  }

  lemma CodePaddedInParts(data: seq<Byte>, done: seq<Byte>, tail: seq<Byte>, p: nat, len: nat)
    requires |done| == 64 * p && len < 512 && |tail| == (len + 7) / 8 && data == done + tail
    ensures CodePadded(data, 512 * p + len) == Ending(done, Wrap(p), tail, len)
  {
    var n, mark, field := 512 * p + len, Marked(tail, len), Field(Wrap(p), len);
    LastPart(p, len);
    SameMark(done, tail, p, len);
    FieldIsCodeField(p, len);
    assert data[..n / 8] == done + tail[..len / 8];
    assert CodePadded(data, n) == done + tail[..len / 8] + [mark] + Zeros(Gap(len)) + field;
    Associates(done, tail[..len / 8], [mark], Zeros(Gap(len)), field);
  }

  lemma Associates<T>(a: seq<T>, b: seq<T>, c: seq<T>, d: seq<T>, e: seq<T>)
    ensures a + b + c + d + e == a + (b + c + d + e)
  {
  }

  lemma FOf(x: Word, y: Word, z: Word)
    ensures F(x, y, z) == Or(And(x, y), And(Not(x), z))
  {
    calc {
      F(x, y, z);
      (x & y) | (!x & z);
      Or(x & y, !x & z);
      Or(And(x, y), !x & z);
      Or(And(x, y), And(!x, z));
      Or(And(x, y), And(Not(x), z));
    }
  }

  lemma GOf(x: Word, y: Word, z: Word)
    ensures G(x, y, z) == Or(And(x, z), And(Not(z), y))
  {
    calc {
      G(x, y, z);
      (x & z) | (!z & y);
      Or(x & z, !z & y);
      Or(And(x, z), !z & y);
      Or(And(x, z), And(!z, y));
      Or(And(x, z), And(Not(z), y));
    }
  }

  lemma HOf(x: Word, y: Word, z: Word)
    ensures H(x, y, z) == Xor(Xor(x, y), z)
  {
    calc {
      H(x, y, z);
      x ^ y ^ z;
      Xor(x ^ y, z);
      Xor(Xor(x, y), z);
    }
  }

  lemma IOf(x: Word, y: Word, z: Word)
    ensures I(x, y, z) == Xor(y, Or(x, Not(z)))
  {
    calc {
      I(x, y, z);
      y ^ (x | !z);
      y ^ (x | Not(z));
      y ^ Or(x, Not(z));
      Xor(y, Or(x, Not(z)));
    }
  }

  // Section 3.4 of RFC 1321: in each bit position F and G are conditionals, H is the parity, and I
  // is y exclusive-or the disjunction of x and not z.
  ghost predicate Mixes<W(!new)>(mix: (nat, W, W, W) -> W, bit: (W, nat) -> bool) {
    && (forall x, y, z, k: nat {:trigger bit(mix(0, x, y, z), k)} | k < 32 ::
          (bit(mix(0, x, y, z), k) <==> if bit(x, k) then bit(y, k) else bit(z, k)))
    && (forall x, y, z, k: nat {:trigger bit(mix(1, x, y, z), k)} | k < 32 ::
          (bit(mix(1, x, y, z), k) <==> if bit(z, k) then bit(x, k) else bit(y, k)))
    && (forall x, y, z, k: nat {:trigger bit(mix(2, x, y, z), k)} | k < 32 ::
          (bit(mix(2, x, y, z), k) <==> (bit(x, k) != bit(y, k)) != bit(z, k)))
    && (forall x, y, z, k: nat {:trigger bit(mix(3, x, y, z), k)} | k < 32 ::
          (bit(mix(3, x, y, z), k) <==> bit(y, k) != (bit(x, k) || !bit(z, k))))
  }

  // F, G, H and I in terms of a logic.
  ghost predicate Composed<W(!new)>(l: Logic<W>, mix: (nat, W, W, W) -> W) {
    && (forall x, y, z {:trigger mix(0, x, y, z)} :: mix(0, x, y, z) == l.or(l.and(x, y), l.and(l.not(x), z)))
    && (forall x, y, z {:trigger mix(1, x, y, z)} :: mix(1, x, y, z) == l.or(l.and(x, z), l.and(l.not(z), y)))
    && (forall x, y, z {:trigger mix(2, x, y, z)} :: mix(2, x, y, z) == l.xor(l.xor(x, y), z))
    && (forall x, y, z {:trigger mix(3, x, y, z)} :: mix(3, x, y, z) == l.xor(y, l.or(x, l.not(z))))
  }

  lemma ComposedMixes<W(!new)>(l: Logic<W>, mix: (nat, W, W, W) -> W, bit: (W, nat) -> bool)
    requires Bitwise(l, bit) && Composed(l, mix)
    ensures Mixes(mix, bit)
  {
  }

  lemma MixIsComposed()
    ensures Composed(WORD_LOGIC, Mix)
  {
    forall x: Word, y: Word, z: Word
      ensures Mix(0, x, y, z) == Or(And(x, y), And(Not(x), z))
    {
      FOf(x, y, z);
    }
    forall x: Word, y: Word, z: Word
      ensures Mix(1, x, y, z) == Or(And(x, z), And(Not(z), y))
    {
      GOf(x, y, z);
    }
    forall x: Word, y: Word, z: Word
      ensures Mix(2, x, y, z) == Xor(Xor(x, y), z)
    {
      HOf(x, y, z);
    }
    forall x: Word, y: Word, z: Word
      ensures Mix(3, x, y, z) == Xor(y, Or(x, Not(z)))
    {
      IOf(x, y, z);
    }
  }

  ghost predicate Sums(add: (Word, Word) -> Word) {
    forall x, y {:trigger add(x, y)} :: Number(add(x, y)) == (Number(x) + Number(y)) % 0x1_0000_0000
  }

  ghost predicate Rotates(rot: (Word, nat) -> Word) {
    forall w, s: nat, k: nat {:trigger rot(w, s), BitIn(w, k)} | s < 32 && k < 32 ::
      (BitIn(rot(w, s), (k + s) % 32) <==> BitIn(w, k))
  }

  ghost predicate Reads(load: (Byte, Byte, Byte, Byte) -> Word) {
    forall b0, b1, b2, b3 {:trigger load(b0, b1, b2, b3)} :: Number(load(b0, b1, b2, b3)) ==
      b0 as nat + 0x100 * b1 as nat + 0x1_0000 * b2 as nat + 0x100_0000 * b3 as nat
  }

  // The operations that RFC 1321 calls for, bit by bit and as numbers.
  ghost predicate Performs(o: Ops<Word>, t: nat -> Word) {
    o.t == t && Mixes(o.mix, BitIn) && Sums(o.add) && Rotates(o.rot) && Reads(o.load)
  }

  lemma MixPerforms()
    ensures Mixes(Mix, BitIn)
  {
    WordsAreBitwise();
    MixIsComposed();
    ComposedMixes(WORD_LOGIC, Mix, BitIn);
  }

  lemma SumsPerform()
    ensures Sums(Plus)
  {
    forall x: Word, y: Word {:trigger Plus(x, y)}
      ensures Number(Plus(x, y)) == (Number(x) + Number(y)) % 0x1_0000_0000
    {
      NumberOfSum(x, y);
    }
  }

  lemma RotationsPerform()
    ensures Rotates(RotlBy)
  {
    forall w: Word, s: nat, k: nat {:trigger RotlBy(w, s), BitIn(w, k)} | s < 32 && k < 32
      ensures BitIn(RotlBy(w, s), (k + s) % 32) <==> BitIn(w, k)
    {
      RotlMoves(w, s, k);
    }
  }

  lemma LoadPerforms()
    ensures Reads(LoadFour)
  {
    forall b0: Byte, b1: Byte, b2: Byte, b3: Byte {:trigger LoadFour(b0, b1, b2, b3)}
      ensures Number(LoadFour(b0, b1, b2, b3)) ==
        b0 as nat + 0x100 * b1 as nat + 0x1_0000 * b2 as nat + 0x100_0000 * b3 as nat
    {
      NumberLoaded([b0, b1, b2, b3]);
    }
  }

  /** The code's operations are those. */
  lemma WordOpsPerform(t: nat -> Word)
    ensures Performs(WordOps(t), t)
  {
    MixPerforms();
    SumsPerform();
    RotationsPerform();
    LoadPerforms();
  }

  // --- backwards ----------------------------------------------------------------------------

  function Minus(x: Word, y: Word): Word {
    x - y
  }

  function RotlBack(w: Word, s: nat): Word {
    if 0 < s < 32 then RotlBy(w, 32 - s) else w
  }

  lemma RotatedBack(w: Word, s: Byte)
    requires 0 < s < 32
    ensures Rotl(Rotl(w, s), 32 - s) == w
  {
  }

  lemma OctetOfRest(s: nat)
    requires 0 < s < 32
    ensures (32 - s) as bv8 == 32 - s as bv8 && 0 < s as bv8 < 32
  {
  }

  lemma BackOfRotl(w: Word, s: nat)
    requires 0 < s < 32
    ensures RotlBack(RotlBy(w, s), s) == w
  {
    OctetOfRest(s);
    RotatedBack(w, s as bv8);
  }

  lemma Taken(x: Word, y: Word)
    ensures (x + y) - y == x && (x + y) - x == y
  {
  }

  lemma MinusLast(x: Word, y: Word)
    ensures Minus(Plus(x, y), y) == x
  {
    calc {
      Minus(Plus(x, y), y);
      Minus(x + y, y);
      (x + y) - y;
      { Taken(x, y); }
      x;
    }
  }

  lemma MinusFirst(x: Word, y: Word)
    ensures Minus(Plus(x, y), x) == y
  {
    calc {
      Minus(Plus(x, y), x);
      Minus(x + y, x);
      (x + y) - x;
      { Taken(x, y); }
      y;
    }
  }

  lemma WordsUndo(t: nat -> Word)
    ensures Undoes(WordOps(t), Minus, RotlBack)
  {
    forall x: Word, y: Word {:trigger Plus(x, y)}
      ensures Minus(Plus(x, y), y) == x && Minus(Plus(x, y), x) == y
    {
      MinusLast(x, y);
      MinusFirst(x, y);
    }
    forall w: Word, s: nat {:trigger RotlBy(w, s)} | 0 < s < 32
      ensures RotlBack(RotlBy(w, s), s) == w
    {
      BackOfRotl(w, s);
    }
  }

  /** A block that md5_nextBlock compressed can be run backwards: without the state that was added
      it gives that state. */
  lemma BlockUnwound(t: nat -> Word, q: Regs<Word>, block: seq<Byte>)
    requires |block| == 64
    ensures
      var c := Compress(WordOps(t), q, block);
      StepsBack(BackwardsOf(WordOps(t), Minus, RotlBack, block), STEPS,
                Regs(Minus(c.a, q.a), Minus(c.b, q.b), Minus(c.c, q.c), Minus(c.d, q.d))) == q
  {
    WordsUndo(t);
    CompressUnwound(WordOps(t), Minus, RotlBack, q, block);
  }

  /** The initial registers in memory (section 3.3 of RFC 1321, low-order bytes first). */
  lemma InitialBytes()
    ensures Store(IV.a) == [0x01, 0x23, 0x45, 0x67] && Store(IV.b) == [0x89, 0xAB, 0xCD, 0xEF]
    ensures Store(IV.c) == [0xFE, 0xDC, 0xBA, 0x98] && Store(IV.d) == [0x76, 0x54, 0x32, 0x10]
  {
  }

  /** md5_init on a 32-bit machine with the table t. */
  method Init(t: nat -> Word) returns (c: Context<Word>)
    ensures c.Valid() && fresh(c) && fresh(c.a)
    ensures c.o == WordOps(t) && Performs(c.o, t) && c.iv == IV && c.hashed == []
  {
    WordOpsPerform(t);
    c := new Context(WordOps(t), IV);
  }

  // The last bytes of the message, the padding bit and zeros.
  method MarkedBlock(block: array<Byte>, off: nat, len: nat) returns (b: array<Byte>)
    requires len < 512 && off + (len + 7) / 8 <= block.Length
    ensures fresh(b) && b.Length == 64
    ensures var tail := block[off..off + (len + 7) / 8];
      b[..] == tail[..len / 8] + [Marked(tail, len)] + Zeros(63 - len / 8)
  {
    b := new Byte[64](_ => 0);
    var l := len / 8;
    for i := 0 to l
      invariant b[..] == block[off..off + i] + Zeros(64 - i)
    {
      b[i] := block[off + i];
    }
    b[l] := if len % 8 != 0 then block[off + l] | BV(7 - len % 8) else BV(7);
  }

  method PutField(b: array<Byte>, field: seq<Byte>)
    requires b.Length == 64 && |field| == 8
    modifies b
    ensures b[..] == old(b[..56]) + field
  {
    for i := 0 to 8
      invariant b[..56 + i] == old(b[..56]) + field[..i]
    {
      b[56 + i] := field[i];
    }
  }

  lemma DigestOneMore<W>(o: Ops<W>, q: Regs<W>, bytes: seq<Byte>, block: seq<Byte>)
    requires |bytes| % 64 == 0 && |block| == 64
    ensures Digest(o, q, bytes + block) == Compress(o, Digest(o, q, bytes), block)
  {
    DigestSplits(o, q, bytes, block);
    assert block[..64] == block;
  }
}
