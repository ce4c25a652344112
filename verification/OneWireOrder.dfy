/** The set of ROM codes as a binary trie, read from the least significant bit on, and the
    walk through it that one search pass takes. */
module OneWireOrder {
  import opened OneWireBus

  // d comes before e in LSB-first lexicographic order, deciding at bit p.
  predicate LessAt(d: Code, e: Code, p: nat)
    requires p < 64
  {
    d[..p] == e[..p] && !d[p] && e[p]
  }

  predicate Less(d: Code, e: Code) {
    LessFrom(d, e, 0)
  }

  predicate LessFrom(d: Code, e: Code, n: nat)
    requires n <= 64
    decreases 64 - n
  {
    n < 64 && if d[n] == e[n] then LessFrom(d, e, n + 1) else e[n]
  }

  // Some code in D continues the prefix p with bit b.
  predicate Branch(D: set<Code>, p: seq<bool>, b: bool) {
    exists d :: d in D && p + [b] <= d
  }

  function Matching(D: set<Code>, p: seq<bool>): set<Code> {
    set d | d in D && p <= d
  }

  // The bit a search pass chooses after prefix p, given the code and the discrepancy index
  // of the previous pass.
  function Pick(D: set<Code>, prev: Code, last: int, p: seq<bool>): bool
    requires |p| < 64
  {
    if Branch(D, p, false) && Branch(D, p, true) then
      if |p| == last then true else if |p| > last then false else prev[|p|]
    else
      Branch(D, p, true)
  }

  function Walk(D: set<Code>, prev: Code, last: int, p: seq<bool>): (code: Code)
    requires |p| <= 64
    ensures p <= code
    decreases 64 - |p|
  {
    if |p| == 64 then p else Walk(D, prev, last, p + [Pick(D, prev, last, p)])
  }

  // The deepest position below n where c took the zero branch although D has a one branch,
  // or -1.
  function DiscrepancyBelow(D: set<Code>, c: seq<bool>, n: nat): (k: int)
    requires n <= |c|
    ensures -1 <= k < n
    ensures k >= 0 ==> !c[k] && Branch(D, c[..k], true)
  {
    if n == 0 then -1
    else if !c[n - 1] && Branch(D, c[..n - 1], true) then n - 1
    else DiscrepancyBelow(D, c, n - 1)
  }

  lemma {:induction false} DeepestDiscrepancy(D: set<Code>, c: seq<bool>, n: nat, j: nat)
    requires j < n <= |c| && !c[j] && Branch(D, c[..j], true)
    ensures j <= DiscrepancyBelow(D, c, n)
  {
    if j < n - 1 {
      DeepestDiscrepancy(D, c, n - 1, j);
    }
  }

  function LastDiscrepancy(D: set<Code>, c: Code): (k: int)
    ensures -1 <= k < 64
  {
    DiscrepancyBelow(D, c, 64)
  }

  lemma {:induction false} FirstDifference(d: Code, e: Code, n: nat) returns (p: nat)
    requires n <= 64 && d[..n] == e[..n] && d != e
    ensures n <= p < 64 && d[..p] == e[..p] && d[p] != e[p]
    decreases 64 - n
  {
    assert d == d[..64] && e == e[..64];
    if d[n] != e[n] {
      p := n;
    } else {
      assert d[..n + 1] == d[..n] + [d[n]] && e[..n + 1] == e[..n] + [e[n]];
      p := FirstDifference(d, e, n + 1);
    }
  }

  // Less means: equal up to some bit, and smaller there.
  lemma {:induction false} AtIsLess(d: Code, e: Code, p: nat, n: nat := 0)
    requires n <= p < 64 && LessAt(d, e, p)
    ensures LessFrom(d, e, n)
    decreases p - n
  {
    if n < p {
      assert d[n] == d[..p][n] == e[..p][n] == e[n];
      AtIsLess(d, e, p, n + 1);
    }
  }

  lemma {:induction false} LessIsAt(d: Code, e: Code, n: nat := 0) returns (p: nat)
    requires n <= 64 && LessFrom(d, e, n) && d[..n] == e[..n]
    ensures p < 64 && LessAt(d, e, p)
    decreases 64 - n
  {
    if d[n] == e[n] {
      assert d[..n + 1] == d[..n] + [d[n]] && e[..n + 1] == e[..n] + [e[n]];
      p := LessIsAt(d, e, n + 1);
    } else {
      p := n;
    }
  }

  lemma {:induction false} LessIsStrict(d: Code, e: Code, n: nat := 0)
    requires n <= 64 && LessFrom(d, e, n)
    ensures !LessFrom(e, d, n) && d != e
    decreases 64 - n
  {
    if d[n] == e[n] {
      LessIsStrict(d, e, n + 1);
    }
  }

  lemma {:induction false} LessIsTransitive(d: Code, e: Code, f: Code, n: nat := 0)
    requires n <= 64 && LessFrom(d, e, n) && LessFrom(e, f, n)
    ensures LessFrom(d, f, n)
    decreases 64 - n
  {
    if d[n] == e[n] == f[n] {
      LessIsTransitive(d, e, f, n + 1);
    }
  }

  // A prefix present in D continues with the bit picked.
  lemma PickStaysInside(D: set<Code>, prev: Code, last: int, p: seq<bool>)
    requires |p| < 64 && Matching(D, p) != {}
    ensures Branch(D, p, Pick(D, prev, last, p))
    ensures Matching(D, p + [Pick(D, prev, last, p)]) != {}
  {
    var d :| d in Matching(D, p);
    assert p + [d[|p|]] <= d;
    assert Branch(D, p, d[|p|]);
    var b := Pick(D, prev, last, p);
    assert Branch(D, p, b);
    var e :| e in D && p + [b] <= e;
    assert e in Matching(D, p + [b]);
  }

  lemma {:induction false} WalkStaysInside(D: set<Code>, prev: Code, last: int, p: seq<bool>)
    requires |p| <= 64 && Matching(D, p) != {}
    ensures Walk(D, prev, last, p) in D
    decreases 64 - |p|
  {
    if |p| == 64 {
      var d :| d in Matching(D, p);
      assert d == p;
    } else {
      PickStaysInside(D, prev, last, p);
      WalkStaysInside(D, prev, last, p + [Pick(D, prev, last, p)]);
    }
  }

  // What the walk picked at each position, read off its result.
  lemma {:induction false} WalkPicks(D: set<Code>, prev: Code, last: int, p: seq<bool>, k: nat)
    requires |p| <= k < 64
    ensures var c := Walk(D, prev, last, p); c[k] == Pick(D, prev, last, c[..k])
    decreases 64 - |p|
  {
    var c := Walk(D, prev, last, p);
    if |p| == k {
      assert p + [Pick(D, prev, last, p)] <= c;
      assert c[..k] == p;
    } else {
      WalkPicks(D, prev, last, p + [Pick(D, prev, last, p)], k);
    }
  }

  // Below `last` the walk repeats the previous code, and at `last` it turns to the one branch.
  lemma OneMoreBit(c: Code, n: nat)
    requires 0 < n <= 64
    ensures c[..n] == c[..n - 1] + [c[n - 1]] <= c
  {
  }

  lemma {:induction false} WalkRepeats(D: set<Code>, prev: Code, last: nat, n: nat)
    requires prev in D && last < 64 && !prev[last] && Branch(D, prev[..last], true)
    requires n <= last
    ensures Walk(D, prev, last, [])[..n] == prev[..n]
  {
    var c := Walk(D, prev, last, []);
    if n > 0 {
      WalkRepeats(D, prev, last, n - 1);
      WalkPicks(D, prev, last, [], n - 1);
      OneMoreBit(prev, n);
      OneMoreBit(c, n);
      assert Branch(D, prev[..n - 1], prev[n - 1]);
    }
  }

  // From position n > last on, the walk follows the smallest codes with its own prefix.
  lemma WalkIsLeast(D: set<Code>, prev: Code, last: int, n: nat, d: Code)
    requires d in D && last < n <= 64
    requires var c := Walk(D, prev, last, []); c in D && c[..n] == d[..n]
    ensures var c := Walk(D, prev, last, []); c == d || Less(c, d)
  {
    var c := Walk(D, prev, last, []);
    if c != d {
      var p := FirstDifference(c, d, n);
      WalkPicks(D, prev, last, [], p);
      assert d[..p] + [d[p]] <= d && c[..p] + [c[p]] <= c;
      assert Branch(D, c[..p], true) && Branch(D, c[..p], false);
      AtIsLess(c, d, p);
    }
  }

  /** With no previous code the pass finds the smallest code of D. */
  lemma FirstPassFindsLeast(D: set<Code>, prev: Code, d: Code)
    requires d in D
    ensures var c := Walk(D, prev, -1, []); c in D && (c == d || Less(c, d))
  {
    assert [] <= d && d in Matching(D, []);
    WalkStaysInside(D, prev, -1, []);
    WalkIsLeast(D, prev, -1, 0, d);
  }

  // A later pass turns to the one branch at the last discrepancy.
  lemma NextPassTurns(D: set<Code>, prev: Code)
    requires prev in D && LastDiscrepancy(D, prev) >= 0
    ensures var last := LastDiscrepancy(D, prev);
      var c := Walk(D, prev, last, []);
      c in D && c[..last] == prev[..last] && c[last] && !prev[last]
  {
    var last := LastDiscrepancy(D, prev);
    assert [] <= prev && prev in Matching(D, []);
    WalkStaysInside(D, prev, last, []);
    WalkRepeats(D, prev, last, last);
    WalkPicks(D, prev, last, [], last);
    assert prev[..last] + [false] <= prev;
    assert Branch(D, prev[..last], false);
  }

  // A code that leaves prev for a one branch above the last discrepancy also passes c.
  lemma LeavesAbove(prev: Code, c: Code, d: Code, last: nat, p: nat)
    requires p < last < 64 && LessAt(prev, d, p) && c[..last] == prev[..last]
    ensures Less(c, d)
  {
    assert c[..p] == c[..last][..p] == prev[..last][..p] == prev[..p];
    assert c[p] == c[..last][p] == prev[..last][p] == prev[p];
    AtIsLess(c, d, p);
  }

  lemma NothingInBetween(D: set<Code>, prev: Code, d: Code)
    requires prev in D && LastDiscrepancy(D, prev) >= 0
    requires d in D && Less(prev, d)
    ensures var c := Walk(D, prev, LastDiscrepancy(D, prev), []); d == c || Less(c, d)
  {
    var last := LastDiscrepancy(D, prev);
    NextPassTurns(D, prev);
    var p := LessIsAt(prev, d);
    assert Branch(D, prev[..p], true) by {
      assert d[..p] + [true] <= d;
    }
    DeepestDiscrepancy(D, prev, 64, p);
    var c := Walk(D, prev, last, []);
    if p < last {
      LeavesAbove(prev, c, d, last, p);
    } else {
      assert c[..last + 1] == c[..last] + [c[last]];
      assert d[..last + 1] == d[..last] + [d[last]];
      WalkIsLeast(D, prev, last, last + 1, d);
    }
  }

  /** A later pass finds the immediate successor of the previous code in D. */
  lemma NextPassFindsSuccessor(D: set<Code>, prev: Code)
    requires prev in D && LastDiscrepancy(D, prev) >= 0
    ensures var c := Walk(D, prev, LastDiscrepancy(D, prev), []);
      c in D && Less(prev, c) && forall d :: d in D && Less(prev, d) ==> d == c || Less(c, d)
  {
    var last := LastDiscrepancy(D, prev);
    NextPassTurns(D, prev);
    AtIsLess(prev, Walk(D, prev, last, []), last);
    forall d | d in D && Less(prev, d)
      ensures var c := Walk(D, prev, last, []); d == c || Less(c, d)
    {
      NothingInBetween(D, prev, d);
    }
  }

  /** A code with no recorded discrepancy is the greatest code of D, and only that one has none. */
  lemma NoDiscrepancyIffGreatest(D: set<Code>, prev: Code)
    requires prev in D
    ensures LastDiscrepancy(D, prev) < 0 <==> forall d :: d in D ==> d == prev || Less(d, prev)
  {
    if LastDiscrepancy(D, prev) < 0 {
      forall d | d in D
        ensures d == prev || Less(d, prev)
      {
        if d != prev {
          var p := FirstDifference(d, prev, 0);
          var q := prev[..p];
          assert d[p] ==> q + [true] <= d;
          assert d[p] ==> Branch(D, q, true);
          assert !d[p] by {
            if d[p] {
              DeepestDiscrepancy(D, prev, 64, p);
            }
          }
          AtIsLess(d, prev, p);
        }
      }
    } else {
      NextPassFindsSuccessor(D, prev);
      LessIsStrict(prev, Walk(D, prev, LastDiscrepancy(D, prev), []));
    }
  }
}
