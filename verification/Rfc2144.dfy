/** The CAST-128 algorithm of RFC 2144, on bytes in network order, for arbitrary S-boxes. */
module Rfc2144 {
  import opened Bits
  import CastRounds
  import opened KeySchedule
  import opened WordNumbers
  import opened Words

  datatype SBoxes = SBoxes(
    s1: Byte -> Word, s2: Byte -> Word, s3: Byte -> Word, s4: Byte -> Word,
    s5: Byte -> Word, s6: Byte -> Word, s7: Byte -> Word, s8: Byte -> Word)

  type Rotation = r: Byte | r < 32

  function Minus(x: Word, y: Word): Word {
    x - y
  }

  function RotlOctet(w: Word, r: Byte): Word {
    if r < 32 then Rotl(w, r) else w
  }

  function ByteAt(w: Word, k: nat): Byte {
    if k < 4 then ByteOf(w, k) else 0
  }

  // The operations of 32-bit words.
  function WordMachine(): CastRounds.Machine<Byte, Word> {
    CastRounds.Machine(Plus, Minus, Xor2, RotlOctet, 0, ByteAt)
  }

  function RoundTables(t: SBoxes): CastRounds.Tables<Byte, Word> {
    CastRounds.Tables(t.s1, t.s2, t.s3, t.s4)
  }

  // Section 2.4: words are read and written most significant byte first.
  function LoadQuad(q: Quad<Byte>): Word {
    LoadBig([q.b0, q.b1, q.b2, q.b3])
  }

  function StoreQuad(w: Word): Quad<Byte> {
    Quad(ByteOf(w, 3), ByteOf(w, 2), ByteOf(w, 1), ByteOf(w, 0))
  }

  function Xor2(u: Word, v: Word): Word {
    u ^ v
  }

  function Xor5(a: Word, b: Word, c: Word, d: Word, e: Word): Word {
    Xor2(Xor2(Xor2(Xor2(a, b), c), d), e)
  }

  function Xor6(w: Word, a: Word, b: Word, c: Word, d: Word, e: Word): Word {
    Xor2(Xor2(Xor2(Xor2(Xor2(w, a), b), c), d), e)
  }

  function RfcOps(t: SBoxes): Ops<Byte, Word, Word> {
    Ops(LoadQuad, StoreQuad, Xor6, Xor5, t.s5, t.s6, t.s7, t.s8)
  }

  // A key of up to 16 bytes is filled up with zeros (section 2.5).
  function Padded(key: seq<Byte>): (p: seq<Byte>)
    requires |key| <= 16
    ensures |p| == 16 && p[..|key|] == key && forall i :: |key| <= i < 16 ==> p[i] == 0
  {
    key + seq(16 - |key|, _ => 0)
  }

  function KeyBlock(key: seq<Byte>): Block<Byte>
    requires |key| <= 16
  {
    BlockOf(Padded(key))
  }

  function Low5(k: Word): Rotation {
    ByteOf(k, 0) & 0x1F
  }

  // K1 .. K32; the masking keys Km1 .. Km16 are K1 .. K16.
  function RoundKeys(t: SBoxes, key: seq<Byte>): nat -> Word
    requires |key| <= 16
  {
    (i: nat) => RoundKey(RfcOps(t), KeyBlock(key), i)
  }

  // The rotation keys Kr1 .. Kr16 are the five low bits of K17 .. K32.
  function RotationKeys(k: nat -> Word): nat -> Rotation {
    (i: nat) => Low5(k(16 + i))
  }

  // Section 2.5: keys of up to 80 bits use 12 rounds.
  function Rounds(keyBits: nat): nat {
    if keyBits <= 80 then 12 else 16
  }

  datatype Halves = Halves(l: Word, r: Word)

  // The round functions as the rounds call them: number, data, masking and rotation key.
  type Cipher = (nat, Word, Word, Rotation) -> Word

  function CastF(t: SBoxes): Cipher {
    (i: nat, d: Word, m: Word, r: Rotation) => CastRounds.F(WordMachine(), RoundTables(t), i, d, m, r)
  }

  // Section 2: L_i = R_(i-1), R_i = L_(i-1) ^ f(R_(i-1), Km_i, Kr_i).
  function Round(f: Cipher, km: nat -> Word, kr: nat -> Rotation, i: nat, p: Halves): Halves {
    Halves(p.r, p.l ^ f(i, p.r, km(i), kr(i)))
  }

  type RoundFunction = (nat, Halves) -> Halves

  function RoundOf(f: Cipher, km: nat -> Word, kr: nat -> Rotation): RoundFunction {
    (i: nat, p: Halves) => Round(f, km, kr, i, p)
  }

  function Network(round: RoundFunction, n: nat, p: Halves): Halves {
    if n == 0 then p else round(n - 1, Network(round, n - 1, p))
  }

  function Split(block: seq<Byte>): Halves
    requires |block| == 8
  {
    Halves(LoadBig(block[0..4]), LoadBig(block[4..8]))
  }

  // The ciphertext is R16 followed by L16.
  function Joined(p: Halves): (block: seq<Byte>)
    ensures |block| == 8
  {
    StoreBig(p.r) + StoreBig(p.l)
  }

  function EncryptBlock(f: Cipher, km: nat -> Word, kr: nat -> Rotation, n: nat, block: seq<Byte>): (c: seq<Byte>)
    requires |block| == 8
    ensures |c| == 8
  {
    Joined(Network(RoundOf(f, km, kr), n, Split(block)))
  }

  // Decryption uses the round keys in reverse order.
  function ReverseNetwork(round: RoundFunction, n: nat, p: Halves): Halves {
    if n == 0 then p else ReverseNetwork(round, n - 1, round(n - 1, p))
  }

  function DecryptBlock(f: Cipher, km: nat -> Word, kr: nat -> Rotation, n: nat, block: seq<Byte>): (c: seq<Byte>)
    requires |block| == 8
    ensures |c| == 8
  {
    Joined(ReverseNetwork(RoundOf(f, km, kr), n, Split(block)))
  }

  function Flip(p: Halves): Halves {
    Halves(p.r, p.l)
  }

  /** The first n rounds use the first n masking and rotation keys and no others. */
  lemma {:induction false} KeysInOrder(f: Cipher, km: nat -> Word, kr: nat -> Rotation,
                                       km': nat -> Word, kr': nat -> Rotation, n: nat, p: Halves)
    requires forall i :: 0 <= i < n ==> km(i) == km'(i) && kr(i) == kr'(i)
    ensures Network(RoundOf(f, km, kr), n, p) == Network(RoundOf(f, km', kr'), n, p)
    decreases n
  {
    if n > 0 {
      KeysInOrder(f, km, kr, km', kr', n - 1, p);
    }
  }

  lemma HalvesOf(p: Halves)
    ensures Joined(p)[..4] == StoreBig(p.r) && Joined(p)[4..] == StoreBig(p.l)
    ensures LoadBig(Joined(p)[..4]) == p.r && LoadBig(Joined(p)[4..]) == p.l
  {
    LoadStoreBig(p.r);
    LoadStoreBig(p.l);
  }

  /** In bytes: no rounds exchange the halves of the block, and one round more exchanges the halves of
      the result and combines the new first half with the round function of the new second one. */
  lemma OneRoundMore(f: Cipher, km: nat -> Word, kr: nat -> Rotation, n: nat, block: seq<Byte>)
    requires |block| == 8
    ensures EncryptBlock(f, km, kr, 0, block) == block[4..] + block[..4]
    ensures
      var c, d := EncryptBlock(f, km, kr, n, block), EncryptBlock(f, km, kr, n + 1, block);
      && d[4..] == c[..4]
      && LoadBig(d[..4]) == LoadBig(c[4..]) ^ f(n, LoadBig(c[..4]), km(n), kr(n))
  {
    var p := Network(RoundOf(f, km, kr), n, Split(block));
    HalvesOf(p);
    HalvesOf(Round(f, km, kr, n, p));
    StoreLoadBig(block[0..4]);
    StoreLoadBig(block[4..8]);
  }

  // Any round undoes itself once the halves are exchanged.
  ghost predicate Involutive(round: RoundFunction) {
    forall i, p :: round(i, Flip(round(i, p))) == Flip(p)
  }

  lemma RoundsAreInvolutive(f: Cipher, km: nat -> Word, kr: nat -> Rotation)
    ensures Involutive(RoundOf(f, km, kr))
  {
    forall i: nat, p: Halves
      ensures Round(f, km, kr, i, Flip(Round(f, km, kr, i, p))) == Flip(p)
    {
      XorTwice(p.l, f(i, p.r, km(i), kr(i)));
    }
  }

  lemma {:induction false} ReverseUndoes(round: RoundFunction, n: nat, p: Halves)
    requires Involutive(round)
    ensures ReverseNetwork(round, n, Flip(Network(round, n, p))) == Flip(p)
  {
    if n > 0 {
      ReverseUndoes(round, n - 1, p);
      assert round(n - 1, Flip(round(n - 1, Network(round, n - 1, p)))) == Flip(Network(round, n - 1, p));
    }
  }

  lemma {:induction false} NetworkUndoes(round: RoundFunction, n: nat, p: Halves)
    requires Involutive(round)
    ensures Network(round, n, Flip(ReverseNetwork(round, n, p))) == Flip(p)
    decreases n
  {
    if n > 0 {
      NetworkUndoes(round, n - 1, round(n - 1, p));
      assert round(n - 1, Flip(round(n - 1, p))) == Flip(p);
    }
  }

  lemma SplitJoined(p: Halves)
    ensures Split(Joined(p)) == Flip(p)
  {
    var b := Joined(p);
    assert b[0..4] == StoreBig(p.r) && b[4..8] == StoreBig(p.l);
    LoadStoreBig(p.r);
    LoadStoreBig(p.l);
  }

  lemma LoadStoreBig(w: Word)
    ensures LoadBig(StoreBig(w)) == w
  {
    StoreLoad(w);
  }

  lemma JoinedSplit(block: seq<Byte>)
    requires |block| == 8
    ensures Joined(Flip(Split(block))) == block
  {
    StoreLoadBig(block[0..4]);
    StoreLoadBig(block[4..8]);
    assert block == block[0..4] + block[4..8];
  }

  lemma StoreLoadBig(b: seq<Byte>)
    requires |b| == 4
    ensures StoreBig(LoadBig(b)) == b
  {
    LoadStore([b[3], b[2], b[1], b[0]]);
  }

  /** Decryption undoes encryption and encryption undoes decryption, for every block, any
      number of rounds, any keys and any S-boxes. */
  lemma InverseOfEachOther(f: Cipher, km: nat -> Word, kr: nat -> Rotation, n: nat, block: seq<Byte>)
    requires |block| == 8
    ensures DecryptBlock(f, km, kr, n, EncryptBlock(f, km, kr, n, block)) == block
    ensures EncryptBlock(f, km, kr, n, DecryptBlock(f, km, kr, n, block)) == block
  {
    var round, p := RoundOf(f, km, kr), Split(block);
    RoundsAreInvolutive(f, km, kr);
    SplitJoined(Network(round, n, p));
    ReverseUndoes(round, n, p);
    SplitJoined(ReverseNetwork(round, n, p));
    NetworkUndoes(round, n, p);
    JoinedSplit(block);
  }
}
