/** The key schedule of CAST-128 (RFC 2144, section 2.4), for any representation of bytes,
    words and keys, next to the table-driven code that computes it in memory. */
module KeySchedule {

  datatype Quad<B> = Quad(b0: B, b1: B, b2: B, b3: B)

  // The bytes x0 .. xF.
  datatype Block<B> = Block(
    x0: B, x1: B, x2: B, x3: B, x4: B, x5: B, x6: B, x7: B,
    x8: B, x9: B, xA: B, xB: B, xC: B, xD: B, xE: B, xF: B)

  // How words are read from memory, written to it and combined by exclusive-or; key is what
  // a key keeps of the exclusive-or of five table words.
  datatype Ops<!B, !W, !K> = Ops(
    load: Quad<B> -> W, store: W -> Quad<B>,
    xor: (W, W, W, W, W, W) -> W,
    key: (W, W, W, W, W) -> K,
    s5: B -> W, s6: B -> W, s7: B -> W, s8: B -> W)
  {
    function Mix(w: Quad<B>, a: W, b: W, c: W, d: W, e: W): Quad<B> {
      store(xor(load(w), a, b, c, d, e))
    }
  }

  function Concat<B>(a: Quad<B>, b: Quad<B>, c: Quad<B>, d: Quad<B>): Block<B> {
    Block(a.b0, a.b1, a.b2, a.b3, b.b0, b.b1, b.b2, b.b3, c.b0, c.b1, c.b2, c.b3, d.b0, d.b1, d.b2, d.b3)
  }

  function StepA<B, W, K>(o: Ops<B, W, K>, x: Block<B>): Block<B> {
    var z0 := o.Mix(Quad(x.x0, x.x1, x.x2, x.x3), o.s5(x.xD), o.s6(x.xF), o.s7(x.xC), o.s8(x.xE), o.s7(x.x8));
    var z4 := o.Mix(Quad(x.x8, x.x9, x.xA, x.xB), o.s5(z0.b0), o.s6(z0.b2), o.s7(z0.b1), o.s8(z0.b3), o.s8(x.xA));
    var z8 := o.Mix(Quad(x.xC, x.xD, x.xE, x.xF), o.s5(z4.b3), o.s6(z4.b2), o.s7(z4.b1), o.s8(z4.b0), o.s5(x.x9));
    var zC := o.Mix(Quad(x.x4, x.x5, x.x6, x.x7), o.s5(z8.b2), o.s6(z8.b1), o.s7(z8.b3), o.s8(z8.b0), o.s6(x.xB));
    Concat(z0, z4, z8, zC)
  }

  function StepB<B, W, K>(o: Ops<B, W, K>, z: Block<B>): Block<B> {
    var x0 := o.Mix(Quad(z.x8, z.x9, z.xA, z.xB), o.s5(z.x5), o.s6(z.x7), o.s7(z.x4), o.s8(z.x6), o.s7(z.x0));
    var x4 := o.Mix(Quad(z.x0, z.x1, z.x2, z.x3), o.s5(x0.b0), o.s6(x0.b2), o.s7(x0.b1), o.s8(x0.b3), o.s8(z.x2));
    var x8 := o.Mix(Quad(z.x4, z.x5, z.x6, z.x7), o.s5(x4.b3), o.s6(x4.b2), o.s7(x4.b1), o.s8(x4.b0), o.s5(z.x1));
    var xC := o.Mix(Quad(z.xC, z.xD, z.xE, z.xF), o.s5(x8.b2), o.s6(x8.b1), o.s7(x8.b3), o.s8(x8.b0), o.s6(z.x3));
    Concat(x0, x4, x8, xC)
  }

  // The keys taken after the steps A, B, A, B.
  function Keys1<B, W, K>(o: Ops<B, W, K>, z: Block<B>): Quad<K> {
    Quad(o.key(o.s5(z.x8), o.s6(z.x9), o.s7(z.x7), o.s8(z.x6), o.s5(z.x2)),
         o.key(o.s5(z.xA), o.s6(z.xB), o.s7(z.x5), o.s8(z.x4), o.s6(z.x6)),
         o.key(o.s5(z.xC), o.s6(z.xD), o.s7(z.x3), o.s8(z.x2), o.s7(z.x9)),
         o.key(o.s5(z.xE), o.s6(z.xF), o.s7(z.x1), o.s8(z.x0), o.s8(z.xC)))
  }

  function Keys2<B, W, K>(o: Ops<B, W, K>, x: Block<B>): Quad<K> {
    Quad(o.key(o.s5(x.x3), o.s6(x.x2), o.s7(x.xC), o.s8(x.xD), o.s5(x.x8)),
         o.key(o.s5(x.x1), o.s6(x.x0), o.s7(x.xE), o.s8(x.xF), o.s6(x.xD)),
         o.key(o.s5(x.x7), o.s6(x.x6), o.s7(x.x8), o.s8(x.x9), o.s7(x.x3)),
         o.key(o.s5(x.x5), o.s6(x.x4), o.s7(x.xA), o.s8(x.xB), o.s8(x.x7)))
  }

  function Keys3<B, W, K>(o: Ops<B, W, K>, z: Block<B>): Quad<K> {
    Quad(o.key(o.s5(z.x3), o.s6(z.x2), o.s7(z.xC), o.s8(z.xD), o.s5(z.x9)),
         o.key(o.s5(z.x1), o.s6(z.x0), o.s7(z.xE), o.s8(z.xF), o.s6(z.xC)),
         o.key(o.s5(z.x7), o.s6(z.x6), o.s7(z.x8), o.s8(z.x9), o.s7(z.x2)),
         o.key(o.s5(z.x5), o.s6(z.x4), o.s7(z.xA), o.s8(z.xB), o.s8(z.x6)))
  }

  function Keys4<B, W, K>(o: Ops<B, W, K>, x: Block<B>): Quad<K> {
    Quad(o.key(o.s5(x.x8), o.s6(x.x9), o.s7(x.x7), o.s8(x.x6), o.s5(x.x3)),
         o.key(o.s5(x.xA), o.s6(x.xB), o.s7(x.x5), o.s8(x.x4), o.s6(x.x7)),
         o.key(o.s5(x.xC), o.s6(x.xD), o.s7(x.x3), o.s8(x.x2), o.s7(x.x8)),
         o.key(o.s5(x.xE), o.s6(x.xF), o.s7(x.x1), o.s8(x.x0), o.s8(x.xD)))
  }

  // Step n of the schedule: A and B in turn.
  function StepBlock<B, W, K>(o: Ops<B, W, K>, n: nat, x: Block<B>): Block<B> {
    if n % 2 == 0 then StepA(o, x) else StepB(o, x)
  }

  function StepKeys<B, W, K>(o: Ops<B, W, K>, n: nat, q: Block<B>): Quad<K> {
    if n % 4 == 0 then Keys1(o, q)
    else if n % 4 == 1 then Keys2(o, q)
    else if n % 4 == 2 then Keys3(o, q)
    else Keys4(o, q)
  }

  type Stepper<!T> = (nat, T) -> T

  function Iterated<T>(step: Stepper<T>, x: T, n: nat): T {
    if n == 0 then x else step(n - 1, Iterated(step, x, n - 1))
  }

  function StepsOf<B, W, K>(o: Ops<B, W, K>): Stepper<Block<B>> {
    (n: nat, x: Block<B>) => StepBlock(o, n, x)
  }

  function BlockAfter<B, W, K>(o: Ops<B, W, K>, x: Block<B>, n: nat): Block<B> {
    Iterated(StepsOf(o), x, n)
  }

  // K(4n+1) .. K(4n+4)
  function KeyGroup<B, W, K>(o: Ops<B, W, K>, x: Block<B>, n: nat): Quad<K> {
    StepKeys(o, n, BlockAfter(o, x, n + 1))
  }

  // K(i+1)
  function RoundKey<B, W, K>(o: Ops<B, W, K>, x: Block<B>, i: nat): K {
    Pick(KeyGroup(o, x, i / 4), i % 4)
  }

  function Pick<T>(q: Quad<T>, j: nat): T
    requires j < 4
  {
    if j == 0 then q.b0 else if j == 1 then q.b1 else if j == 2 then q.b2 else q.b3
  }

  // The operations c represent words by f and keys by g of what the operations o use.
  ghost predicate Represents<B(!new), W(!new), V, K, L>(o: Ops<B, W, K>, c: Ops<B, V, L>, f: W -> V, g: K -> L) {
    && LooksUp(o.s5, c.s5, f) && LooksUp(o.s6, c.s6, f) && LooksUp(o.s7, c.s7, f) && LooksUp(o.s8, c.s8, f)
    && LooksUp(o.load, c.load, f)
    && Stores(o.store, c.store, f)
    && Combines6(o.xor, c.xor, f)
    && Combines5(o.key, c.key, f, g)
  }

  ghost predicate LooksUp<X(!new), W, V>(s: X -> W, s': X -> V, f: W -> V) {
    forall x {:trigger s(x)} :: s'(x) == f(s(x))
  }

  ghost predicate Stores<W(!new), V, Y>(s: W -> Y, s': V -> Y, f: W -> V) {
    forall w {:trigger s(w)} :: s'(f(w)) == s(w)
  }

  ghost predicate Combines6<W(!new), V>(x: (W, W, W, W, W, W) -> W, x': (V, V, V, V, V, V) -> V, f: W -> V) {
    forall w, a, b, c, d, e {:trigger x(w, a, b, c, d, e)} ::
      x'(f(w), f(a), f(b), f(c), f(d), f(e)) == f(x(w, a, b, c, d, e))
  }

  ghost predicate Combines5<W(!new), V, K, L>(x: (W, W, W, W, W) -> K, x': (V, V, V, V, V) -> L, f: W -> V, g: K -> L) {
    forall a, b, c, d, e {:trigger x(a, b, c, d, e)} :: x'(f(a), f(b), f(c), f(d), f(e)) == g(x(a, b, c, d, e))
  }

  lemma SameStep<B(!new), W(!new), V, K, L>(o: Ops<B, W, K>, c: Ops<B, V, L>, f: W -> V, g: K -> L, n: nat, x: Block<B>)
    requires Represents(o, c, f, g)
    ensures StepBlock(c, n, x) == StepBlock(o, n, x)
  {
  }

  lemma SameKeys<B(!new), W(!new), V, K, L>(o: Ops<B, W, K>, c: Ops<B, V, L>, f: W -> V, g: K -> L, n: nat, q: Block<B>)
    requires Represents(o, c, f, g)
    ensures var k, l := StepKeys(o, n, q), StepKeys(c, n, q);
      l == Quad(g(k.b0), g(k.b1), g(k.b2), g(k.b3))
  {
  }

  lemma {:induction false} SameIterated<T(!new)>(s: Stepper<T>, t: Stepper<T>, x: T, n: nat)
    requires forall i, y :: t(i, y) == s(i, y)
    ensures Iterated(t, x, n) == Iterated(s, x, n)
  {
    if n > 0 {
      SameIterated(s, t, x, n - 1);
    }
  }

  lemma SameBlocks<B(!new), W(!new), V, K, L>(
    o: Ops<B, W, K>, c: Ops<B, V, L>, f: W -> V, g: K -> L, x: Block<B>, n: nat)
    requires Represents(o, c, f, g)
    ensures BlockAfter(c, x, n) == BlockAfter(o, x, n)
  {
    forall i: nat, y: Block<B>
      ensures StepsOf(c)(i, y) == StepsOf(o)(i, y)
    {
      SameStep(o, c, f, g, i, y);
    }
    SameIterated(StepsOf(o), StepsOf(c), x, n);
  }

  /** A change of representation carries over to every round key. */
  lemma SameRoundKeys<B(!new), W(!new), V, K, L>(
    o: Ops<B, W, K>, c: Ops<B, V, L>, f: W -> V, g: K -> L, x: Block<B>, i: nat)
    requires Represents(o, c, f, g)
    ensures RoundKey(c, x, i) == g(RoundKey(o, x, i))
  {
    var n := i / 4;
    SameBlocks(o, c, f, g, x, n + 1);
    SameKeys(o, c, f, g, n, BlockAfter(o, x, n + 1));
  }

  function BlockOf<B>(s: seq<B>): Block<B>
    requires |s| == 16
  {
    Block(s[0], s[1], s[2], s[3], s[4], s[5], s[6], s[7], s[8], s[9], s[10], s[11], s[12], s[13], s[14], s[15])
  }

  // The same sixteen bytes in memory.
  function BlockIn<B>(a: array<B>): (b: Block<B>)
    requires a.Length == 16
    reads a
    ensures b == BlockOf(a[..])
  {
    Block(a[0], a[1], a[2], a[3], a[4], a[5], a[6], a[7], a[8], a[9], a[10], a[11], a[12], a[13], a[14], a[15])
  }

  function QuadIn<B>(a: array<B>, k: nat): Quad<B>
    requires k + 4 <= a.Length
    reads a
  {
    Quad(a[k], a[k + 1], a[k + 2], a[k + 3])
  }

  // k ^ mask, where the mask is 8 in mode b.
  function Ix(k: nat, bmode: bool): (j: nat)
    requires k < 16
    ensures j < 16 && (k % 4 == 0 ==> j <= 12)
  {
    if !bmode then k else if k < 8 then k + 8 else k - 8
  }

  // The table nmt, or no permutation.
  function Nx(k: nat, nmode: bool): (j: nat)
    requires k < 16
    ensures j < 16
  {
    if !nmode then k
    else if k < 4 then 0xB - k
    else if k < 8 then 0x13 - k
    else if k < 12 then 0xB - k
    else 0x13 - k
  }

  // The table xmt.
  function Xx(k: nat, nmode: bool, xmode: bool): (j: nat)
    requires k < 4
    ensures j < 16
  {
    if xmode == nmode then
      if xmode then (if k == 0 then 0x9 else if k == 1 then 0xC else if k == 2 then 0x2 else 0x6)
      else (if k == 0 then 0x2 else if k == 1 then 0x6 else if k == 2 then 0x9 else 0xC)
    else
      if xmode then (if k == 0 then 0x3 else if k == 1 then 0x7 else if k == 2 then 0x8 else 0xD)
      else (if k == 0 then 0x8 else if k == 1 then 0xD else if k == 2 then 0x3 else 0x7)
  }

  // The modes in which cast5_init_M and cast5_init_rM are called after step n.
  predicate NMode(n: nat) {
    n % 4 == 1 || n % 4 == 2
  }

  predicate XMode(n: nat) {
    n % 4 == 2 || n % 4 == 3
  }

  method PutQuad<B>(dest: array<B>, off: nat, q: Quad<B>)
    requires off + 4 <= dest.Length
    modifies dest
    ensures QuadIn(dest, off) == q
    ensures forall i :: 0 <= i < dest.Length && !(off <= i < off + 4) ==> dest[i] == old(dest[i])
  {
    dest[off], dest[off + 1], dest[off + 2], dest[off + 3] := q.b0, q.b1, q.b2, q.b3;
  }

  /** cast5_init_A: the two steps, told apart by a mask on the source indices. */
  method InitA<B, W, K>(o: Ops<B, W, K>, dest: array<B>, src: array<B>, bmode: bool)
    requires dest.Length == src.Length == 16 && dest != src
    modifies dest
    ensures BlockIn(dest) == StepBlock(o, if bmode then 1 else 0, BlockIn(src))
  {
    var z := o.Mix(QuadIn(src, Ix(0x0, bmode)), o.s5(src[Ix(0xD, bmode)]), o.s6(src[Ix(0xF, bmode)]),
                   o.s7(src[Ix(0xC, bmode)]), o.s8(src[Ix(0xE, bmode)]), o.s7(src[Ix(0x8, bmode)]));
    PutQuad(dest, 0x0, z);
    z := o.Mix(QuadIn(src, Ix(0x8, bmode)), o.s5(dest[0x0]), o.s6(dest[0x2]),
               o.s7(dest[0x1]), o.s8(dest[0x3]), o.s8(src[Ix(0xA, bmode)]));
    PutQuad(dest, 0x4, z);
    z := o.Mix(QuadIn(src, Ix(0xC, bmode)), o.s5(dest[0x7]), o.s6(dest[0x6]),
               o.s7(dest[0x5]), o.s8(dest[0x4]), o.s5(src[Ix(0x9, bmode)]));
    PutQuad(dest, 0x8, z);
    z := o.Mix(QuadIn(src, Ix(0x4, bmode)), o.s5(dest[0xA]), o.s6(dest[0x9]),
               o.s7(dest[0xB]), o.s8(dest[0x8]), o.s6(src[Ix(0xB, bmode)]));
    PutQuad(dest, 0xC, z);
  }

  // Line j of cast5_init_M and cast5_init_rM.
  function Line<B, W, K>(o: Ops<B, W, K>, s: seq<B>, nmode: bool, xmode: bool, j: nat): K
    requires |s| == 16 && j < 4
  {
    var last := s[Xx(j, nmode, xmode)];
    o.key(o.s5(s[Nx(8 + 2 * j, nmode)]), o.s6(s[Nx(9 + 2 * j, nmode)]),
          o.s7(s[Nx(7 - 2 * j, nmode)]), o.s8(s[Nx(6 - 2 * j, nmode)]),
          if j == 0 then o.s5(last) else if j == 1 then o.s6(last) else if j == 2 then o.s7(last) else o.s8(last))
  }

  /** The index tables select the bytes that the unrolled schedule names. */
  lemma LinesAreKeys<B, W, K>(o: Ops<B, W, K>, s: seq<B>, n: nat)
    requires |s| == 16
    ensures StepKeys(o, n, BlockOf(s)) ==
      Quad(Line(o, s, NMode(n), XMode(n), 0), Line(o, s, NMode(n), XMode(n), 1),
           Line(o, s, NMode(n), XMode(n), 2), Line(o, s, NMode(n), XMode(n), 3))
  {
    if n % 4 == 0 {
    } else if n % 4 == 1 {
    } else if n % 4 == 2 {
    } else {
    }
  }

  method KeyLines<B, W, K>(o: Ops<B, W, K>, src: array<B>, nmode: bool, xmode: bool, ghost n: nat) returns (k: Quad<K>)
    requires src.Length == 16 && nmode == NMode(n) && xmode == XMode(n)
    ensures k == StepKeys(o, n, BlockIn(src))
  {
    LinesAreKeys(o, src[..], n);
    k := Quad(Line(o, src[..], nmode, xmode, 0), Line(o, src[..], nmode, xmode, 1),
              Line(o, src[..], nmode, xmode, 2), Line(o, src[..], nmode, xmode, 3));
  }

  // blocks(n+1) is the block after step n, and groups(n) are the keys taken from it.
  ghost predicate Trace<B, W, K>(o: Ops<B, W, K>, blocks: nat -> Block<B>, groups: nat -> Quad<K>, n: nat) {
    && blocks(n + 1) == StepBlock(o, n, blocks(n))
    && groups(n) == StepKeys(o, n, blocks(n + 1))
  }

  ghost predicate Traces<B, W, K>(o: Ops<B, W, K>, blocks: nat -> Block<B>, groups: nat -> Quad<K>) {
    forall n: nat :: Trace(o, blocks, groups, n)
  }

  // Step n of the schedule, and the keys cast5_init_M or cast5_init_rM takes after it.
  method ScheduleStep<B, W, K>(o: Ops<B, W, K>, n: nat, dest: array<B>, src: array<B>,
                               ghost blocks: nat -> Block<B>, ghost groups: nat -> Quad<K>) returns (k: Quad<K>)
    requires src.Length == dest.Length == 16 && src != dest
    requires Traces(o, blocks, groups) && BlockIn(src) == blocks(n)
    modifies dest
    ensures BlockIn(dest) == blocks(n + 1)
    ensures k == groups(n)
  {
    assert Trace(o, blocks, groups, n);
    InitA(o, dest, src, n % 2 == 1);
    k := KeyLines(o, dest, NMode(n), XMode(n), n);
  }

  /** The first half of cast5_init fills the masks with K1 .. K16, four after each step. */
  method InitMasks<B, W, K>(o: Ops<B, W, K>, mask: array<K>, x: array<B>, z: array<B>,
                            ghost blocks: nat -> Block<B>, ghost groups: nat -> Quad<K>)
    requires mask.Length == 16 && x.Length == z.Length == 16 && x != z
    requires mask as object != x as object && mask as object != z as object
    requires Traces(o, blocks, groups) && BlockIn(x) == blocks(0)
    modifies mask, x, z
    ensures forall n :: 0 <= n < 4 ==> QuadIn(mask, 4 * n) == groups(n)
    ensures BlockIn(x) == blocks(4)
  {
    var src, dest := x, z;
    for n := 0 to 4
      invariant if n % 2 == 0 then src == x && dest == z else src == z && dest == x
      invariant BlockIn(src) == blocks(n)
      invariant forall p :: 0 <= p < n ==> QuadIn(mask, 4 * p) == groups(p)
    {
      MaskGroup(o, n, mask, dest, src, blocks, groups);
      src, dest := dest, src;
    }
  }

  // A step of the schedule, and the four masks it gives.
  method MaskGroup<B, W, K>(o: Ops<B, W, K>, n: nat, mask: array<K>, dest: array<B>, src: array<B>,
                            ghost blocks: nat -> Block<B>, ghost groups: nat -> Quad<K>)
    requires n < 4 && mask.Length == 16 && src.Length == dest.Length == 16 && src != dest
    requires mask as object != src as object && mask as object != dest as object
    requires Traces(o, blocks, groups) && BlockIn(src) == blocks(n)
    requires forall p :: 0 <= p < n ==> QuadIn(mask, 4 * p) == groups(p)
    modifies mask, dest
    ensures BlockIn(dest) == blocks(n + 1)
    ensures forall p :: 0 <= p <= n ==> QuadIn(mask, 4 * p) == groups(p)
  {
    var k := ScheduleStep(o, n, dest, src, blocks, groups);
    PutQuad(mask, 4 * n, k);
  }

  lemma TraceOfSchedule<B, W, K>(o: Ops<B, W, K>, b: Block<B>, n: nat)
    ensures BlockAfter(o, b, n + 1) == StepBlock(o, n, BlockAfter(o, b, n))
    ensures KeyGroup(o, b, n) == StepKeys(o, n, BlockAfter(o, b, n + 1))
  {
  }

  lemma TracesOfSchedule<B, W, K>(o: Ops<B, W, K>, b: Block<B>, blocks: nat -> Block<B>, groups: nat -> Quad<K>)
    requires forall n: nat {:trigger BlockAfter(o, b, n)} :: blocks(n) == BlockAfter(o, b, n)
    requires forall n: nat {:trigger KeyGroup(o, b, n)} :: groups(n) == KeyGroup(o, b, n)
    ensures Traces(o, blocks, groups)
  {
    forall n: nat
      ensures Trace(o, blocks, groups, n)
    {
      TraceOfSchedule(o, b, n);
    }
  }

  // The groups hold the keys k in the representation g.
  ghost predicate GroupsHold<K, L>(groups: nat -> Quad<L>, g: K -> L, k: nat -> K) {
    forall n: nat, j: nat :: j < 4 ==> Pick(groups(n), j) == g(k(4 * n + j))
  }

  // The blocks and keys of the schedule o in the representations m and r.
  lemma ScheduleBy<B(!new), W(!new), V, K, L, M>(
    o: Ops<B, W, K>, m: Ops<B, V, L>, r: Ops<B, V, M>, f: W -> V, g: K -> L, e: K -> M, b: Block<B>, k: nat -> K)
    returns (blocks: nat -> Block<B>, mg: nat -> Quad<L>, rg: nat -> Quad<M>)
    requires Represents(o, m, f, g) && Represents(o, r, f, e)
    requires forall i: nat {:trigger RoundKey(o, b, i)} :: k(i) == RoundKey(o, b, i)
    ensures blocks(0) == b
    ensures Traces(m, blocks, mg) && Traces(r, blocks, rg)
    ensures GroupsHold(mg, g, k) && GroupsHold(rg, e, k)
  {
    blocks := (n: nat) => BlockAfter(o, b, n);
    mg := GroupsBy(o, m, f, g, b, k, blocks);
    rg := GroupsBy(o, r, f, e, b, k, blocks);
  }

  lemma GroupsBy<B(!new), W(!new), V, K, L>(
    o: Ops<B, W, K>, c: Ops<B, V, L>, f: W -> V, g: K -> L, b: Block<B>, k: nat -> K, blocks: nat -> Block<B>)
    returns (groups: nat -> Quad<L>)
    requires Represents(o, c, f, g)
    requires forall i: nat {:trigger RoundKey(o, b, i)} :: k(i) == RoundKey(o, b, i)
    requires forall n: nat {:trigger BlockAfter(o, b, n)} :: blocks(n) == BlockAfter(o, b, n)
    ensures Traces(c, blocks, groups) && GroupsHold(groups, g, k)
  {
    groups := (n: nat) => KeyGroup(c, b, n);
    forall n: nat
      ensures blocks(n) == BlockAfter(c, b, n)
    {
      SameBlocks(o, c, f, g, b, n);
    }
    TracesOfSchedule(c, b, blocks, groups);
    GroupsOfKeys(o, c, f, g, b, k, groups);
  }

  lemma GroupsOfKeys<B(!new), W(!new), V, K, L>(
    o: Ops<B, W, K>, c: Ops<B, V, L>, f: W -> V, g: K -> L, b: Block<B>, k: nat -> K, groups: nat -> Quad<L>)
    requires Represents(o, c, f, g)
    requires forall i: nat {:trigger RoundKey(o, b, i)} :: k(i) == RoundKey(o, b, i)
    requires forall n: nat {:trigger KeyGroup(c, b, n)} :: groups(n) == KeyGroup(c, b, n)
    ensures GroupsHold(groups, g, k)
  {
    forall n: nat, j: nat | j < 4
      ensures Pick(groups(n), j) == g(k(4 * n + j))
    {
      SameRoundKeys(o, c, f, g, b, 4 * n + j);
      GroupAndPlace(n, j);
      assert groups(n) == KeyGroup(c, b, n);
    }
  }

  lemma GroupAndPlace(n: nat, j: nat)
    requires j < 4
    ensures (4 * n + j) / 4 == n && (4 * n + j) % 4 == j
  {
  }
}
