/** The walk of compare_label in protocols/mdns_sd/mdns_sd.c through any message, and when it ends. */
module CompareWalk {
  import opened DnsNames
  import opened Numbers

  // At a place in the message with what is left of the text, or done, or led out of the message.
  datatype Walk = At(pos: nat, data: seq<Octet>) | Says(r: bool) | Outside

  // The condition at the end of the loop.
  function Next(m: seq<Octet>, pos: nat, data: seq<Octet>): Walk {
    if pos >= |m| then Outside else if m[pos] == 0 then Says(true) else At(pos, data)
  }

  // One pass of the loop; the length of a label of the text is kept in an octet.
  function Pass(m: seq<Octet>, pos: nat, data: seq<Octet>): Walk {
    if pos >= |m| then Outside
    else if m[pos] >= 64 then
      if pos + 1 >= |m| then Outside else Next(m, Target(m[pos], m[pos + 1]), data)
    else
      var n, len := m[pos] as int, CutLength(data);
      if len != n then Says(false)
      else if pos + 1 + n > |m| then Outside
      else Compared(m, pos + 1 + n, m[pos + 1..pos + 1 + n] == data[..len], data)
  }

  // Behind a label that is the first one of the text or not.
  function Compared(m: seq<Octet>, next: nat, same: bool, data: seq<Octet>): Walk {
    if !same then Says(false)
    else if FirstDot(data) == |data| then Says(true)
    else Next(m, next, data[CutLength(data) + 1..])
  }

  function Passes(m: seq<Octet>, w: Walk, n: nat): Walk
    decreases n
  {
    if n == 0 || !w.At? then w else Passes(m, Pass(m, w.pos, w.data), n - 1)
  }

  lemma {:induction false} PassesInParts(m: seq<Octet>, w: Walk, i: nat, j: nat)
    ensures Passes(m, w, i + j) == Passes(m, Passes(m, w, i), j)
    decreases i
  {
    if i > 0 && w.At? {
      PassesInParts(m, Pass(m, w.pos, w.data), i - 1, j);
    }
  }

  lemma StillWalking(m: seq<Octet>, w: Walk, i: nat, n: nat)
    requires i <= n && Passes(m, w, n).At?
    ensures Passes(m, w, i).At?
  {
    PassesInParts(m, w, i, n - i);
  }

  lemma SameAnswer(m: seq<Octet>, w: Walk, i: nat, j: nat)
    requires !Passes(m, w, i).At? && !Passes(m, w, j).At?
    ensures Passes(m, w, i) == Passes(m, w, j)
  {
    if i <= j {
      PassesInParts(m, w, i, j - i);
    } else {
      PassesInParts(m, w, j, i - j);
    }
  }

  ghost predicate Diverges(m: seq<Octet>, w: Walk) {
    forall n: nat :: Passes(m, w, n).At?
  }

  // The walk comes back to where it was without having used a label of the text in between.
  ghost predicate Revisits(m: seq<Octet>, w: Walk, i: nat, j: nat) {
    i < j && Passes(m, w, i).At? && Passes(m, w, j) == Passes(m, w, i)
  }

  lemma {:induction false} RoundAgain(m: seq<Octet>, w: Walk, i: nat, j: nat, n: nat)
    requires Revisits(m, w, i, j)
    ensures Passes(m, w, i + n).At?
    decreases n
  {
    PassesInParts(m, w, i, n);
    if n >= j - i {
      RoundAgain(m, w, i, j, n - (j - i));
      PassesInParts(m, w, i, n - (j - i));
      PassesInParts(m, w, j, n - (j - i));
    } else {
      PassesInParts(m, w, i + n, j - i - n);
    }
  }

  lemma RevisitingDiverges(m: seq<Octet>, w: Walk, i: nat, j: nat)
    requires Revisits(m, w, i, j)
    ensures Diverges(m, w)
  {
    forall n: nat
      ensures Passes(m, w, n).At?
    {
      RoundAgain(m, w, i, j, n);
      StillWalking(m, w, n, i + n);
    }
  }

  lemma {:induction false} TextOnlyShrinks(m: seq<Octet>, w: Walk, n: nat)
    requires w.At? && Passes(m, w, n).At? && (n > 0 ==> w.pos < |m|)
    ensures |Passes(m, w, n).data| <= |w.data|
    ensures n > 0 && m[w.pos] < 64 ==> |Passes(m, w, n).data| < |w.data|
    decreases n
  {
    if n > 0 {
      StillWalking(m, w, 1, n);
      TextOnlyShrinks(m, Pass(m, w.pos, w.data), n - 1);
    }
  }

  /** Only pointers are passed on the way back, so it is these that run in a circle. */
  lemma OnlyPointersBetween(m: seq<Octet>, w: Walk, i: nat, j: nat, k: nat)
    requires Revisits(m, w, i, j) && i <= k < j
    ensures Passes(m, w, k).At? && Passes(m, w, k).pos < |m| && m[Passes(m, w, k).pos] >= 64
  {
    var u, v := Passes(m, w, i), Passes(m, w, k);
    StillWalking(m, w, k, j);
    InParts(m, w, i, k, u, v);
    InParts(m, w, k, j, v, u);
    NoLabelOnTheWay(m, u, v, k - i, j - k);
  }

  lemma InParts(m: seq<Octet>, w: Walk, i: nat, j: nat, u: Walk, v: Walk)
    requires i <= j && Passes(m, w, i) == u && Passes(m, w, j) == v
    ensures Passes(m, u, j - i) == v
  {
    PassesInParts(m, w, i, j - i);
  }

  lemma NoLabelOnTheWay(m: seq<Octet>, u: Walk, v: Walk, n: nat, k: nat)
    requires u.At? && v.At? && k > 0 && Passes(m, u, n) == v && Passes(m, v, k) == u
    ensures v.pos < |m| && m[v.pos] >= 64
  {
    StillWalking(m, v, 1, k);
    StillWalking(m, u, if n > 0 then 1 else 0, n);
    TextOnlyShrinks(m, u, n);
    TextOnlyShrinks(m, v, k);
  }

  // Inside the message, with an end of the text.
  ghost predicate Within(m: seq<Octet>, text: seq<Octet>, w: Walk) {
    w.At? && w.pos < |m| && |w.data| <= |text| && w.data == text[|text| - |w.data|..]
  }

  lemma PassStaysWithin(m: seq<Octet>, text: seq<Octet>, w: Walk, v: Walk)
    requires Within(m, text, w) && v == Pass(m, w.pos, w.data) && v.At?
    ensures Within(m, text, v)
  {
    if m[w.pos] < 64 {
      EndOfEnd(text, w.data, CutLength(w.data) + 1);
    }
  }

  lemma EndOfEnd<T>(s: seq<T>, t: seq<T>, i: nat)
    requires |t| <= |s| && t == s[|s| - |t|..] && i <= |t|
    ensures t[i..] == s[|s| - |t[i..]|..]
  {
  }

  lemma {:induction false} PassesStayWithin(m: seq<Octet>, text: seq<Octet>, w: Walk, n: nat)
    requires Within(m, text, w) && Passes(m, w, n).At?
    ensures Within(m, text, Passes(m, w, n))
    decreases n
  {
    if n > 0 {
      var v := Pass(m, w.pos, w.data);
      StillWalking(m, w, 1, n);
      PassStaysWithin(m, text, w, v);
      PassesStayWithin(m, text, v, n - 1);
    }
  }

  // A number for each state within.
  function Code(size: nat, w: Walk): nat
    requires w.At?
  {
    PageStart(|w.data|, size) + w.pos
  }

  // So many states there are.
  function States(m: seq<Octet>, text: seq<Octet>): nat {
    PageStart(|text| + 1, |m|)
  }

  lemma CodesDiffer(m: seq<Octet>, text: seq<Octet>, v: Walk, w: Walk)
    requires Within(m, text, v) && Within(m, text, w)
    ensures Code(|m|, v) < States(m, text)
    ensures Code(|m|, v) == Code(|m|, w) ==> v == w
  {
    PagesInOrder(|v.data|, |text| + 1, |m|);
    if |v.data| < |w.data| {
      PagesInOrder(|v.data|, |w.data|, |m|);
    } else if |w.data| < |v.data| {
      PagesInOrder(|w.data|, |v.data|, |m|);
    }
  }

  lemma {:induction false} Below(n: nat) returns (s: set<nat>)
    ensures |s| == n && forall i: nat :: i in s <==> i < n
  {
    if n == 0 {
      s := {};
    } else {
      s := Below(n - 1);
      s := s + {n - 1};
    }
  }

  lemma {:induction false} SubsetIsSmaller(a: set<nat>, b: set<nat>)
    requires a <= b
    ensures |a| <= |b|
    decreases |a|
  {
    if a != {} {
      var x :| x in a;
      SubsetIsSmaller(a - {x}, b - {x});
    }
  }

  lemma {:induction false} Distinct(s: seq<nat>) returns (c: set<nat>)
    requires forall i, j :: 0 <= i < j < |s| ==> s[i] != s[j]
    ensures |c| == |s| && forall x :: x in c <==> x in s
  {
    if |s| == 0 {
      c := {};
    } else {
      var n := |s| - 1;
      c := Distinct(s[..n]);
      assert s == s[..n] + [s[n]];
      c := c + {s[n]};
    }
  }

  // More numbers below n than n are not all different.
  lemma Pigeonhole(s: seq<nat>, n: nat) returns (i: nat, j: nat)
    requires |s| > n && forall k :: 0 <= k < |s| ==> s[k] < n
    ensures i < j < |s| && s[i] == s[j]
  {
    if i', j' :| 0 <= i' < j' < |s| && s[i'] == s[j'] {
      i, j := i', j';
    } else {
      var c := Distinct(s);
      var b := Below(n);
      SubsetIsSmaller(c, b);
    }
  }

  lemma LongWalkRevisits(m: seq<Octet>, text: seq<Octet>, w: Walk) returns (i: nat, j: nat)
    requires Within(m, text, w) && Passes(m, w, States(m, text)).At?
    ensures Revisits(m, w, i, j)
  {
    var n := States(m, text);
    forall k: nat | k <= n
      ensures Within(m, text, Passes(m, w, k)) && Code(|m|, Passes(m, w, k)) < n
    {
      StillWalking(m, w, k, n);
      PassesStayWithin(m, text, w, k);
      CodesDiffer(m, text, Passes(m, w, k), w);
    }
    var codes := seq(n + 1, k requires 0 <= k <= n => Code(|m|, Passes(m, w, k)));
    i, j := Pigeonhole(codes, n);
    CodesDiffer(m, text, Passes(m, w, i), Passes(m, w, j));
  }

  /** compare_label runs forever exactly if it comes back to a place with the same rest of the text. */
  lemma DivergesIffRevisits(m: seq<Octet>, at: nat, text: seq<Octet>)
    requires at < |m|
    ensures Diverges(m, At(at, text)) <==> exists i, j :: Revisits(m, At(at, text), i, j)
  {
    var w := At(at, text);
    assert text[0..] == text;
    if Diverges(m, w) {
      var i, j := LongWalkRevisits(m, text, w);
      assert Revisits(m, w, i, j);
    }
    if i: nat, j: nat :| Revisits(m, w, i, j) {
      RevisitingDiverges(m, w, i, j);
    }
  }

  /** And exactly if it is not done after as many passes as there are places and rests of the text. */
  lemma DivergesIffStillWalking(m: seq<Octet>, at: nat, text: seq<Octet>)
    requires at < |m|
    ensures Diverges(m, At(at, text)) <==> Passes(m, At(at, text), States(m, text)).At?
  {
    var w := At(at, text);
    assert text[0..] == text;
    if Passes(m, w, States(m, text)).At? {
      var i, j := LongWalkRevisits(m, text, w);
      RevisitingDiverges(m, w, i, j);
    }
  }
}
