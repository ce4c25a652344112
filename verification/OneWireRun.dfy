/** A whole discovery run: one first pass and further passes until none is left. */
module OneWireRun {
  import opened OneWireBus
  import opened OneWireOrder

  function Later(D: set<Code>, c: Code): set<Code> {
    set d | d in D && Less(c, d)
  }

  function Zero(): (c: Code)
    ensures forall k :: 0 <= k < 64 ==> !c[k]
  {
    seq(64, _ => false)
  }

  function First(D: set<Code>): (c: Code)
    requires D != {}
    ensures c in D
  {
    LeastIsInside(D);
    Least(D)
  }

  function Least(D: set<Code>): Code {
    Walk(D, Zero(), -1, [])
  }

  lemma LeastIsInside(D: set<Code>)
    requires D != {}
    ensures Least(D) in D
  {
    var some :| some in D;
    FirstPassFindsLeast(D, Zero(), some);
  }

  lemma FirstIsLeast(D: set<Code>)
    requires D != {}
    ensures forall d :: d in D ==> d == Least(D) || Less(Least(D), d)
  {
    forall d | d in D
      ensures d == Least(D) || Less(Least(D), d)
    {
      FirstPassFindsLeast(D, Zero(), d);
    }
  }

  function Next(D: set<Code>, c: Code): Code {
    Walk(D, c, LastDiscrepancy(D, c), [])
  }

  lemma NextLeavesFewer(D: set<Code>, c: Code)
    requires c in D && LastDiscrepancy(D, c) >= 0
    ensures Next(D, c) in Later(D, c)
    ensures Later(D, c) == {Next(D, c)} + Later(D, Next(D, c))
    ensures Later(D, Next(D, c)) < Later(D, c)
  {
    var e := Next(D, c);
    NextPassFindsSuccessor(D, c);
    forall d | d in Later(D, e)
      ensures d in Later(D, c)
    {
      LessIsTransitive(c, e, d);
    }
    NotBelowItself(e);
  }

  // The codes reported from code c on.
  function Passes(D: set<Code>, c: Code): (codes: seq<Code>)
    requires c in D
    ensures |codes| > 0 && codes[0] == c
    decreases Later(D, c)
  {
    if LastDiscrepancy(D, c) < 0 then [c]
    else NextLeavesFewer(D, c); [c] + Passes(D, Next(D, c))
  }

  // The codes from position n of a run on, when the n-th one is c.
  lemma PassesUnfold(D: set<Code>, c: Code, all: seq<Code>, n: nat)
    requires c in D && n < |all| && Passes(D, c) == all[n..]
    ensures all[n] == c
    ensures LastDiscrepancy(D, c) < 0 ==> n + 1 == |all|
    ensures LastDiscrepancy(D, c) >= 0 ==>
      n + 1 < |all| && Next(D, c) in D && Passes(D, Next(D, c)) == all[n + 1..]
  {
    assert all[n] == all[n..][0];
    assert all[n + 1..] == all[n..][1..];
    if LastDiscrepancy(D, c) >= 0 {
      NextLeavesFewer(D, c);
    }
  }

  predicate Ascending(codes: seq<Code>) {
    forall i, j :: 0 <= i < j < |codes| ==> Less(codes[i], codes[j])
  }

  function Elements(codes: seq<Code>): set<Code> {
    set d | d in codes
  }

  lemma NothingLaterThanLast(D: set<Code>, c: Code)
    requires c in D && LastDiscrepancy(D, c) < 0
    ensures Later(D, c) == {}
  {
    NoDiscrepancyIffGreatest(D, c);
    forall d | d in D
      ensures !Less(c, d)
    {
      if Less(c, d) {
        LessIsStrict(c, d);
      }
    }
  }

  lemma AscendingFrom(c: Code, rest: seq<Code>)
    requires Ascending(rest) && forall d :: d in rest ==> Less(c, d)
    ensures Ascending([c] + rest)
    ensures Elements([c] + rest) == {c} + Elements(rest)
  {
    var codes := [c] + rest;
    forall i, j | 0 <= i < j < |codes|
      ensures Less(codes[i], codes[j])
    {
      assert codes[j] == rest[j - 1];
      assert i > 0 ==> codes[i] == rest[i - 1];
    }
  }

  lemma {:induction false} NotBelowItself(c: Code, n: nat := 0)
    requires n <= 64
    ensures !LessFrom(c, c, n)
    decreases 64 - n
  {
    if n < 64 {
      NotBelowItself(c, n + 1);
    }
  }

  ghost predicate Enumerates(D: set<Code>, c: Code, codes: seq<Code>) {
    Ascending(codes) && Elements(codes) == {c} + Later(D, c) && |codes| == 1 + |Later(D, c)|
  }

  lemma EnumerateLast(D: set<Code>, c: Code)
    requires c in D && LastDiscrepancy(D, c) < 0
    ensures Enumerates(D, c, [c])
  {
    NothingLaterThanLast(D, c);
    assert Elements([c]) == {c};
  }

  lemma EnumerateOneMore(D: set<Code>, c: Code, rest: seq<Code>)
    requires c in D && LastDiscrepancy(D, c) >= 0
    requires Next(D, c) in D && Enumerates(D, Next(D, c), rest)
    ensures Enumerates(D, c, [c] + rest)
  {
    var e := Next(D, c);
    NextLeavesFewer(D, c);
    forall d | d in rest
      ensures Less(c, d)
    {
      assert d in Elements(rest);
    }
    AscendingFrom(c, rest);
    NotBelowItself(e);
    assert e !in Later(D, e);
  }

  lemma {:induction false} PassesEnumerate(D: set<Code>, c: Code)
    requires c in D
    ensures Enumerates(D, c, Passes(D, c))
    decreases Later(D, c)
  {
    if LastDiscrepancy(D, c) < 0 {
      EnumerateLast(D, c);
    } else {
      NextLeavesFewer(D, c);
      PassesEnumerate(D, Next(D, c));
      EnumerateOneMore(D, c, Passes(D, Next(D, c)));
    }
  }

  /** The run over a fixed non-empty bus reports every device exactly once, in increasing
      LSB-first order, and no other code. */
  lemma RunIsComplete(D: set<Code>)
    requires D != {}
    ensures var codes := Passes(D, First(D));
      Ascending(codes) && Elements(codes) == D && |codes| == |D|
  {
    var c := First(D);
    PassesEnumerate(D, c);
    FirstAndLater(D, c);
  }

  lemma FirstAndLater(D: set<Code>, c: Code)
    requires D != {} && c == First(D)
    ensures c in D && c !in Later(D, c) && D == {c} + Later(D, c)
  {
    FirstIsLeast(D);
    NotBelowItself(c);
  }

  lemma AscendingHasNoDuplicates(codes: seq<Code>, i: nat, j: nat)
    requires Ascending(codes) && i < j < |codes|
    ensures codes[i] != codes[j]
  {
    LessIsStrict(codes[i], codes[j]);
  }
}
