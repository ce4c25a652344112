/** The round functions of CAST-128, those of core/crypto/cast5.c, and the laws that tell them
    apart, over any words with sums, differences, exclusive-or and rotations. */
module CastRounds {

  datatype Machine<!B, !W> = Machine(
    add: (W, W) -> W, sub: (W, W) -> W, xor: (W, W) -> W, rot: (W, B) -> W, zero: W,
    byte: (W, nat) -> B)

  // The S-boxes of the rounds.
  datatype Tables<!B, !W> = Tables(s1: B -> W, s2: B -> W, s3: B -> W, s4: B -> W)

  // RFC 2144, section 2.2: the word whose bytes are looked up, by type.
  function Index1<B, W>(o: Machine<B, W>, d: W, m: W, r: B): W {
    o.rot(o.add(m, d), r)
  }

  function Index2<B, W>(o: Machine<B, W>, d: W, m: W, r: B): W {
    o.rot(o.xor(m, d), r)
  }

  function Index3<B, W>(o: Machine<B, W>, d: W, m: W, r: B): W {
    o.rot(o.sub(m, d), r)
  }

  // What becomes of the four table words.
  function Mix1<B, W>(o: Machine<B, W>, a: W, b: W, c: W, e: W): W {
    o.add(o.sub(o.xor(a, b), c), e)
  }

  function Mix2<B, W>(o: Machine<B, W>, a: W, b: W, c: W, e: W): W {
    o.xor(o.add(o.sub(a, b), c), e)
  }

  function Mix3<B, W>(o: Machine<B, W>, a: W, b: W, c: W, e: W): W {
    o.sub(o.xor(o.add(a, b), c), e)
  }

  type Mixer<!W> = (W, W, W, W) -> W

  // The most significant byte goes to S1, the next ones to S2, S3 and S4.
  function LookedUp<B, W>(o: Machine<B, W>, t: Tables<B, W>, mix: Mixer<W>, i: W): W {
    mix(t.s1(o.byte(i, 3)), t.s2(o.byte(i, 2)), t.s3(o.byte(i, 1)), t.s4(o.byte(i, 0)))
  }

  function F1<B, W>(o: Machine<B, W>, t: Tables<B, W>, d: W, m: W, r: B): W {
    LookedUp(o, t, (a, b, c, e) => Mix1(o, a, b, c, e), Index1(o, d, m, r))
  }

  function F2<B, W>(o: Machine<B, W>, t: Tables<B, W>, d: W, m: W, r: B): W {
    LookedUp(o, t, (a, b, c, e) => Mix2(o, a, b, c, e), Index2(o, d, m, r))
  }

  function F3<B, W>(o: Machine<B, W>, t: Tables<B, W>, d: W, m: W, r: B): W {
    LookedUp(o, t, (a, b, c, e) => Mix3(o, a, b, c, e), Index3(o, d, m, r))
  }

  // Round i + 1 uses type 1, 2, 3, 1, 2, 3, ...
  function F<B, W>(o: Machine<B, W>, t: Tables<B, W>, i: nat, d: W, m: W, r: B): W {
    if i % 3 == 0 then F1(o, t, d, m, r) else if i % 3 == 1 then F2(o, t, d, m, r) else F3(o, t, d, m, r)
  }

  // --- the code -----------------------------------------------------------------------------

  // Where the bytes of the rotated word lie in memory.
  const IA := 3
  const IB := 2
  const IC := 1
  const ID := 0

  function CodeF1<B, W>(o: Machine<B, W>, t: Tables<B, W>, d: W, m: W, r: B): W {
    var x := o.rot(o.add(d, m), r);
    o.add(o.sub(o.xor(t.s1(o.byte(x, IA)), t.s2(o.byte(x, IB))), t.s3(o.byte(x, IC))), t.s4(o.byte(x, ID)))
  }

  function CodeF2<B, W>(o: Machine<B, W>, t: Tables<B, W>, d: W, m: W, r: B): W {
    var x := o.rot(o.xor(d, m), r);
    o.xor(o.add(o.sub(t.s1(o.byte(x, IA)), t.s2(o.byte(x, IB))), t.s3(o.byte(x, IC))), t.s4(o.byte(x, ID)))
  }

  function CodeF3<B, W>(o: Machine<B, W>, t: Tables<B, W>, d: W, m: W, r: B): W {
    var x := o.rot(o.sub(m, d), r);
    o.sub(o.xor(o.add(t.s1(o.byte(x, IA)), t.s2(o.byte(x, IB))), t.s3(o.byte(x, IC))), t.s4(o.byte(x, ID)))
  }

  function CodeF<B, W>(o: Machine<B, W>, t: Tables<B, W>, i: nat, d: W, m: W, r: B): W {
    [CodeF1(o, t, d, m, r), CodeF2(o, t, d, m, r), CodeF3(o, t, d, m, r)][i % 3]
  }

  ghost predicate Commutes<W(!new)>(f: (W, W) -> W) {
    forall x, y {:trigger f(x, y)} :: f(x, y) == f(y, x)
  }

  ghost predicate Associates<W(!new)>(f: (W, W) -> W) {
    forall x, y, z {:trigger f(x, f(y, z))} :: f(x, f(y, z)) == f(f(x, y), z)
  }

  ghost predicate HasZero<W(!new)>(f: (W, W) -> W, zero: W) {
    forall x {:trigger f(x, zero)} :: f(x, zero) == x
  }

  ghost predicate Cancels<W(!new)>(f: (W, W) -> W, zero: W) {
    forall x {:trigger f(x, x)} :: f(x, x) == zero
  }

  ghost predicate TakesSums<W(!new)>(sub: (W, W) -> W, add: (W, W) -> W) {
    forall x, y, z {:trigger sub(x, add(y, z))} :: sub(x, add(y, z)) == sub(sub(x, y), z)
  }

  ghost predicate TakesFromSums<W(!new)>(sub: (W, W) -> W, add: (W, W) -> W) {
    forall x, y, z {:trigger sub(add(x, y), z)} :: sub(add(x, y), z) == add(sub(x, z), y)
  }

  ghost predicate Undone<W(!new)>(sub: (W, W) -> W, add: (W, W) -> W) {
    forall x, y {:trigger add(sub(x, y), y)} :: add(sub(x, y), y) == x
  }

  // Sums, differences and exclusive-or are what they should be.
  ghost predicate Lawful<B, W(!new)>(o: Machine<B, W>) {
    && Commutes(o.add) && Associates(o.add) && HasZero(o.add, o.zero)
    && Commutes(o.xor) && Associates(o.xor) && HasZero(o.xor, o.zero) && Cancels(o.xor, o.zero)
    && TakesSums(o.sub, o.add) && TakesFromSums(o.sub, o.add) && Undone(o.sub, o.add) && HasZero(o.sub, o.zero)
  }

  /** In every round the code computes the round function of the algorithm. */
  lemma CodeIsCast<B, W(!new)>(o: Machine<B, W>, t: Tables<B, W>, i: nat, d: W, m: W, r: B)
    requires Commutes(o.add) && Commutes(o.xor)
    ensures CodeF(o, t, i, d, m, r) == F(o, t, i, d, m, r)
  {
    assert o.add(d, m) == o.add(m, d) && o.xor(d, m) == o.xor(m, d);
  }

  /** Rounds 1, 2, 3, 4, ... use the functions of type 1, 2, 3, 1, ... */
  lemma RoundTypes<B, W>(o: Machine<B, W>, t: Tables<B, W>, i: nat, d: W, m: W, r: B)
    ensures F(o, t, 0, d, m, r) == F1(o, t, d, m, r)
    ensures F(o, t, 1, d, m, r) == F2(o, t, d, m, r)
    ensures F(o, t, 2, d, m, r) == F3(o, t, d, m, r)
    ensures F(o, t, i + 3, d, m, r) == F(o, t, i, d, m, r)
  {
    assert (i + 3) % 3 == i % 3;
  }

  // --- which table entries are read ---------------------------------------------------------

  // The two sets of tables agree on the entries for the bytes of the word.
  ghost predicate AgreeAt<B, W>(o: Machine<B, W>, t: Tables<B, W>, t': Tables<B, W>, i: W) {
    && t.s1(o.byte(i, 3)) == t'.s1(o.byte(i, 3)) && t.s2(o.byte(i, 2)) == t'.s2(o.byte(i, 2))
    && t.s3(o.byte(i, 1)) == t'.s3(o.byte(i, 1)) && t.s4(o.byte(i, 0)) == t'.s4(o.byte(i, 0))
  }

  /** S-box 1 to 4 is looked up by byte 3 to 0 of the rotated sum, exclusive-or or difference, and
      nothing else of the tables counts. */
  lemma OnlyTheseEntries<B, W>(o: Machine<B, W>, t: Tables<B, W>, t': Tables<B, W>, d: W, m: W, r: B)
    ensures AgreeAt(o, t, t', o.rot(o.add(m, d), r)) ==> F1(o, t, d, m, r) == F1(o, t', d, m, r)
    ensures AgreeAt(o, t, t', o.rot(o.xor(m, d), r)) ==> F2(o, t, d, m, r) == F2(o, t', d, m, r)
    ensures AgreeAt(o, t, t', o.rot(o.sub(m, d), r)) ==> F3(o, t, d, m, r) == F3(o, t', d, m, r)
  {
  }

  lemma SumTogether<W(!new)>(add: (W, W) -> W, sub: (W, W) -> W, d: W, m: W, u: W)
    requires Associates(add) && Undone(sub, add)
    ensures add(sub(m, u), add(u, d)) == add(m, d)
  {
    assert add(sub(m, u), u) == m;
  }

  lemma XorTogether<W(!new)>(xor: (W, W) -> W, zero: W, d: W, m: W, u: W)
    requires Associates(xor) && HasZero(xor, zero) && Cancels(xor, zero)
    ensures xor(xor(m, u), xor(u, d)) == xor(m, d)
  {
    assert xor(m, xor(u, u)) == xor(xor(m, u), u);
  }

  lemma DifferenceTogether<W(!new)>(add: (W, W) -> W, sub: (W, W) -> W, d: W, m: W, u: W)
    requires TakesSums(sub, add) && TakesFromSums(sub, add) && Undone(sub, add)
    ensures sub(add(m, u), add(d, u)) == sub(m, d)
  {
    var x := sub(m, d);
    assert sub(add(m, u), d) == add(x, u);
    assert sub(add(x, u), u) == add(sub(x, u), u) == x;
  }

  /** Data and masking key only count through their sum, exclusive-or or difference. */
  lemma OnlyTogether<B, W(!new)>(o: Machine<B, W>, t: Tables<B, W>, d: W, m: W, r: B, u: W)
    requires Lawful(o)
    ensures F1(o, t, o.add(u, d), o.sub(m, u), r) == F1(o, t, d, m, r)
    ensures F2(o, t, o.xor(u, d), o.xor(m, u), r) == F2(o, t, d, m, r)
    ensures F3(o, t, o.add(d, u), o.add(m, u), r) == F3(o, t, d, m, r)
  {
    SumTogether(o.add, o.sub, d, m, u);
    XorTogether(o.xor, o.zero, d, m, u);
    DifferenceTogether(o.add, o.sub, d, m, u);
    SameIndices(o, t, d, m, r, o.add(u, d), o.sub(m, u), o.xor(u, d), o.xor(m, u), o.add(d, u), o.add(m, u));
  }

  lemma SameIndices<B, W>(o: Machine<B, W>, t: Tables<B, W>, d: W, m: W, r: B,
                          d1: W, m1: W, d2: W, m2: W, d3: W, m3: W)
    requires o.add(m1, d1) == o.add(m, d) && o.xor(m2, d2) == o.xor(m, d) && o.sub(m3, d3) == o.sub(m, d)
    ensures F1(o, t, d1, m1, r) == F1(o, t, d, m, r)
    ensures F2(o, t, d2, m2, r) == F2(o, t, d, m, r)
    ensures F3(o, t, d3, m3, r) == F3(o, t, d, m, r)
  {
  }

  // --- how the table entries count ----------------------------------------------------------

  // Every word of the table with u added, or combined with u by exclusive-or, or zero.
  function Added<B, W>(o: Machine<B, W>, s: B -> W, u: W): B -> W {
    (x: B) => o.add(s(x), u)
  }

  function Xored<B, W>(o: Machine<B, W>, s: B -> W, u: W): B -> W {
    (x: B) => o.xor(s(x), u)
  }

  function Zero<B, W>(o: Machine<B, W>): B -> W {
    (x: B) => o.zero
  }

  lemma AddedLate<B, W(!new)>(o: Machine<B, W>, x: W, y: W, u: W)
    requires Lawful(o)
    ensures o.add(o.add(x, u), y) == o.add(o.add(x, y), u)
    ensures o.sub(o.add(x, u), y) == o.add(o.sub(x, y), u)
    ensures o.xor(o.xor(x, u), y) == o.xor(o.xor(x, y), u)
    ensures o.add(o.sub(x, u), y) == o.sub(o.add(x, y), u)
  {
    calc {
      o.add(o.add(x, u), y);
      o.add(y, o.add(x, u));
      o.add(o.add(y, x), u);
      o.add(o.add(x, y), u);
    }
    calc {
      o.xor(o.xor(x, u), y);
      o.xor(y, o.xor(x, u));
      o.xor(o.xor(y, x), u);
      o.xor(o.xor(x, y), u);
    }
  }

  lemma Mix1Laws<B, W(!new)>(o: Machine<B, W>, a: W, b: W, c: W, e: W, u: W)
    requires Lawful(o)
    ensures Mix1(o, a, b, c, o.add(e, u)) == o.add(Mix1(o, a, b, c, e), u)
    ensures Mix1(o, a, b, o.add(c, u), e) == o.sub(Mix1(o, a, b, c, e), u)
    ensures Mix1(o, o.xor(a, u), b, o.zero, o.zero) == o.xor(Mix1(o, a, b, o.zero, o.zero), u)
    ensures Mix1(o, a, o.xor(b, u), o.zero, o.zero) == o.xor(Mix1(o, a, b, o.zero, o.zero), u)
    ensures Mix1(o, o.zero, o.zero, o.zero, o.zero) == o.zero
  {
    AddedLate(o, o.sub(o.xor(a, b), c), e, u);
    AddedLate(o, a, b, u);
  }

  lemma Mix2Laws<B, W(!new)>(o: Machine<B, W>, a: W, b: W, c: W, e: W, u: W)
    requires Lawful(o)
    ensures Mix2(o, a, b, c, o.xor(e, u)) == o.xor(Mix2(o, a, b, c, e), u)
    ensures Mix2(o, a, b, o.add(c, u), o.zero) == o.add(Mix2(o, a, b, c, o.zero), u)
    ensures Mix2(o, a, o.add(b, u), c, o.zero) == o.sub(Mix2(o, a, b, c, o.zero), u)
    ensures Mix2(o, o.add(a, u), b, c, o.zero) == o.add(Mix2(o, a, b, c, o.zero), u)
    ensures Mix2(o, o.zero, o.zero, o.zero, o.zero) == o.zero
  {
    AddedLate(o, o.sub(a, b), c, u);
    AddedLate(o, a, b, u);
  }

  lemma Mix3Laws<B, W(!new)>(o: Machine<B, W>, a: W, b: W, c: W, e: W, u: W)
    requires Lawful(o)
    ensures Mix3(o, a, b, c, o.add(e, u)) == o.sub(Mix3(o, a, b, c, e), u)
    ensures Mix3(o, a, b, o.xor(c, u), o.zero) == o.xor(Mix3(o, a, b, c, o.zero), u)
    ensures Mix3(o, a, o.add(b, u), o.zero, o.zero) == o.add(Mix3(o, a, b, o.zero, o.zero), u)
    ensures Mix3(o, o.add(a, u), b, o.zero, o.zero) == o.add(Mix3(o, a, b, o.zero, o.zero), u)
    ensures Mix3(o, o.zero, o.zero, o.zero, o.zero) == o.zero
  {
    AddedLate(o, a, b, u);
  }

  /** Type 1: adding to S4 adds, adding to S3 subtracts, and without them S1 and S2 count by
      exclusive-or. */
  lemma Type1<B, W(!new)>(o: Machine<B, W>, t: Tables<B, W>, d: W, m: W, r: B, u: W)
    requires Lawful(o)
    ensures F1(o, t.(s4 := Added(o, t.s4, u)), d, m, r) == o.add(F1(o, t, d, m, r), u)
    ensures F1(o, t.(s3 := Added(o, t.s3, u)), d, m, r) == o.sub(F1(o, t, d, m, r), u)
    ensures
      var z := t.(s3 := Zero(o), s4 := Zero(o));
      && F1(o, z.(s1 := Xored(o, z.s1, u)), d, m, r) == o.xor(F1(o, z, d, m, r), u)
      && F1(o, z.(s2 := Xored(o, z.s2, u)), d, m, r) == o.xor(F1(o, z, d, m, r), u)
      && F1(o, z.(s1 := Zero(o), s2 := Zero(o)), d, m, r) == o.zero
  {
    var i := Index1(o, d, m, r);
    Mix1Laws(o, t.s1(o.byte(i, 3)), t.s2(o.byte(i, 2)), t.s3(o.byte(i, 1)), t.s4(o.byte(i, 0)), u);
  }

  /** Type 2: S4 counts by exclusive-or, and without it adding to S1 and S3 adds and adding to S2
      subtracts. */
  lemma Type2<B, W(!new)>(o: Machine<B, W>, t: Tables<B, W>, d: W, m: W, r: B, u: W)
    requires Lawful(o)
    ensures F2(o, t.(s4 := Xored(o, t.s4, u)), d, m, r) == o.xor(F2(o, t, d, m, r), u)
    ensures
      var z := t.(s4 := Zero(o));
      && F2(o, z.(s3 := Added(o, z.s3, u)), d, m, r) == o.add(F2(o, z, d, m, r), u)
      && F2(o, z.(s2 := Added(o, z.s2, u)), d, m, r) == o.sub(F2(o, z, d, m, r), u)
      && F2(o, z.(s1 := Added(o, z.s1, u)), d, m, r) == o.add(F2(o, z, d, m, r), u)
      && F2(o, z.(s1 := Zero(o), s2 := Zero(o), s3 := Zero(o)), d, m, r) == o.zero
  {
    var i := Index2(o, d, m, r);
    Mix2Laws(o, t.s1(o.byte(i, 3)), t.s2(o.byte(i, 2)), t.s3(o.byte(i, 1)), t.s4(o.byte(i, 0)), u);
  }

  /** Type 3: adding to S4 subtracts, without it S3 counts by exclusive-or, and without both adding
      to S1 and S2 adds. */
  lemma Type3<B, W(!new)>(o: Machine<B, W>, t: Tables<B, W>, d: W, m: W, r: B, u: W)
    requires Lawful(o)
    ensures F3(o, t.(s4 := Added(o, t.s4, u)), d, m, r) == o.sub(F3(o, t, d, m, r), u)
    ensures
      var y := t.(s4 := Zero(o));
      F3(o, y.(s3 := Xored(o, y.s3, u)), d, m, r) == o.xor(F3(o, y, d, m, r), u)
    ensures
      var z := t.(s3 := Zero(o), s4 := Zero(o));
      && F3(o, z.(s2 := Added(o, z.s2, u)), d, m, r) == o.add(F3(o, z, d, m, r), u)
      && F3(o, z.(s1 := Added(o, z.s1, u)), d, m, r) == o.add(F3(o, z, d, m, r), u)
      && F3(o, z.(s1 := Zero(o), s2 := Zero(o)), d, m, r) == o.zero
  {
    var i := Index3(o, d, m, r);
    Mix3Laws(o, t.s1(o.byte(i, 3)), t.s2(o.byte(i, 2)), t.s3(o.byte(i, 1)), t.s4(o.byte(i, 0)), u);
  }
}
