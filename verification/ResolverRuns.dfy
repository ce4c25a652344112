/** Runs of protocols/dns/resolv.c: queries, polls and replies, in any order, from resolv_init on. */
module ResolverRuns {
  import opened DnsNames
  import opened Numbers
  import opened Options
  import opened ResolverSpec

  // The table, the calls of callbacks so far, and the callbacks passed so far.
  datatype Snapshot = Snapshot(es: seq<Entry>, seqno: nat, log: seq<Call>, issued: set<nat>)

  // What a reply says: a failure, nothing of use, or an address.
  datatype Outcome = Failed(err: nat) | Silent | Told(address: Address)

  datatype Event =
    | Queried(name: seq<Octet>, callback: Option<nat>, slot: nat)
    | Aged
    | Replied(slot: nat, outcome: Outcome)

  function Age(seqno: nat, e: Entry): int {
    seqno - e.seqno
  }

  // The slot a new query takes: the first unused one, or else the first of the greatest age;
  // ages that are not positive do not count, and without any it is slot 0.
  ghost predicate Chosen(es: seq<Entry>, seqno: nat, i: nat) {
    && i < |es|
    && if exists j :: 0 <= j < |es| && es[j].state.Unused?
       then es[i].state.Unused? && forall j :: 0 <= j < i ==> !es[j].state.Unused?
       else
         && (forall j :: 0 <= j < |es| ==> Age(seqno, es[j]) <= Age(seqno, es[i]) || Age(seqno, es[j]) <= 0)
         && (forall j :: 0 <= j < i ==> Age(seqno, es[j]) < Age(seqno, es[i]))
         && (Age(seqno, es[i]) <= 0 ==> i == 0)
  }

  /** While the sequence number has not wrapped, a query takes the slot of an oldest one. */
  lemma OldestIsChosen(es: seq<Entry>, seqno: nat, i: nat)
    requires Chosen(es, seqno, i)
    requires forall j :: 0 <= j < |es| ==> !es[j].state.Unused? && es[j].seqno <= seqno
    ensures forall j :: 0 <= j < |es| ==> es[i].seqno <= es[j].seqno
  {
    forall j | 0 <= j < |es|
      ensures es[i].seqno <= es[j].seqno
    {
      assert Age(seqno, es[j]) >= 0;
    }
  }

  // --- the steps ----------------------------------------------------------------------------

  // The slot keeps its address, its timer and its count of retries.
  function AfterQuery(s: Snapshot, name: seq<Octet>, callback: Option<nat>, i: nat): Snapshot
    requires i < |s.es|
  {
    Snapshot(s.es[i := s.es[i].(name := name, state := New, seqno := s.seqno, callback := callback)],
             (s.seqno + 1) % 256, s.log, s.issued + if callback.Some? then {callback.value} else {})
  }

  function AfterPoll(s: Snapshot): Snapshot {
    var p := Poll(s.es, s.log, 0);
    s.(es := p.es, log := p.log)
  }

  // A reply only counts for a slot that waits for one.
  predicate Awaited(s: Snapshot, i: nat) {
    i < |s.es| && s.es[i].state.Asking?
  }

  function AfterReply(s: Snapshot, i: nat, o: Outcome): Snapshot {
    if !Awaited(s, i) then s
    else
      var e := s.es[i];
      match o
      case Failed(err) =>
        s.(es := s.es[i := e.(state := Error, err := err)], log := Called(s.log, e.callback, None))
      case Silent =>
        s.(es := s.es[i := e.(state := Done, err := 0)])
      case Told(a) =>
        s.(es := s.es[i := e.(state := Done, err := 0, ipaddr := a)], log := Called(s.log, e.callback, Some(a)))
  }

  // No callback is passed with two queries.
  ghost predicate Step(s: Snapshot, e: Event, t: Snapshot) {
    match e
    case Queried(name, callback, i) =>
      && |name| < 32 && Chosen(s.es, s.seqno, i) && (callback.Some? ==> callback.value !in s.issued)
      && t == AfterQuery(s, name, callback, i)
    case Aged => t == AfterPoll(s)
    case Replied(i, o) => t == AfterReply(s, i, o)
  }

  ghost predicate Sound(s: Snapshot) {
    && s.seqno < 256 && AllOk(s.es) && Once(s.es, s.log)
    && forall c: nat :: Fired(s.log, c) || WaitsIn(s.es, c) ==> c in s.issued
  }

  lemma StillIssued(es: seq<Entry>, log: seq<Call>, es': seq<Entry>, log': seq<Call>, issued: set<nat>)
    requires FairStep(es, log, es', log')
    requires forall c: nat :: Fired(log, c) || WaitsIn(es, c) ==> c in issued
    ensures forall c: nat :: Fired(log', c) || WaitsIn(es', c) ==> c in issued
  {
    forall c: nat | Fired(log', c)
      ensures c in issued
    {
      var j :| 0 <= j < |log'| && log'[j].c == c;
      if j < |log| {
        assert log[j].c == c;
      }
    }
  }

  lemma FinishedIsOnce(es: seq<Entry>, log: seq<Call>, i: nat, f: Entry, call: Option<Option<Address>>,
                       issued: set<nat>)
    requires Once(es, log) && i < |es| && es[i].Pending() && !f.Pending()
    requires forall c: nat :: Fired(log, c) || WaitsIn(es, c) ==> c in issued
    ensures
      var log' := if call.None? then log else Called(log, es[i].callback, call.value);
      Once(es[i := f], log') && forall c: nat :: Fired(log', c) || WaitsIn(es[i := f], c) ==> c in issued
  {
    var fs := es[i := f];
    var e := es[i];
    if call.Some? && e.callback.Some? {
      LoggedOnce(log, e.callback.value, call.value);
      assert Waiting(es[i], e.callback.value);
      assert !Fired(log, e.callback.value);
    }
    assert forall k :: 0 <= k < |fs| && k != i ==> fs[k] == es[k];
    forall k, c: nat | 0 <= k < |fs| && Waiting(fs[k], c)
      ensures k != i && Waiting(es[k], c) && !Fired(log, c) && e.callback != Some(c)
    {
      assert k != i && fs[k] == es[k];
      assert e.callback == Some(c) ==> Waiting(es[i], c);
    }
    forall c: nat | WaitsIn(fs, c)
      ensures WaitsIn(es, c)
    {
      var k :| 0 <= k < |fs| && Waiting(fs[k], c);
      assert Waiting(es[k], c);
    }
  }

  lemma NewIsOnce(es: seq<Entry>, log: seq<Call>, i: nat, e: Entry)
    requires Once(es, log) && i < |es| && e.Pending()
    requires e.callback.Some? ==> !Fired(log, e.callback.value) && !WaitsIn(es, e.callback.value)
    ensures Once(es[i := e], log)
    ensures forall c: nat :: WaitsIn(es[i := e], c) ==> WaitsIn(es, c) || e.callback == Some(c)
  {
    var fs := es[i := e];
    forall c: nat | WaitsIn(fs, c)
      ensures WaitsIn(es, c) || e.callback == Some(c)
    {
      var k :| 0 <= k < |fs| && Waiting(fs[k], c);
      assert k != i ==> Waiting(es[k], c);
    }
    forall k, c: nat | 0 <= k < |fs| && Waiting(fs[k], c)
      ensures !Fired(log, c)
    {
      assert k != i ==> Waiting(es[k], c);
    }
    forall j, k, c: nat | 0 <= j < k < |fs| && Waiting(fs[j], c)
      ensures !Waiting(fs[k], c)
    {
      assert j != i ==> Waiting(es[j], c);
      assert k != i ==> fs[k] == es[k];
      assert k == i ==> Waiting(fs[k], c) ==> e.callback == Some(c);
    }
  }

  lemma QueryIsSound(s: Snapshot, name: seq<Octet>, callback: Option<nat>, i: nat)
    requires Sound(s) && |name| < 32 && i < |s.es| && (callback.Some? ==> callback.value !in s.issued)
    ensures Sound(AfterQuery(s, name, callback, i))
  {
    NewIsOnce(s.es, s.log, i, AfterQuery(s, name, callback, i).es[i]);
  }

  lemma PollIsSound(s: Snapshot)
    requires Sound(s)
    ensures Sound(AfterPoll(s))
  {
    var t := AfterPoll(s);
    PollTakesEnergy(s.es, s.log, 0);
    PollIsFair(s.es, s.log, 0);
    StillIssued(s.es, s.log, t.es, t.log, s.issued);
  }

  lemma ReplyIsSound(s: Snapshot, i: nat, o: Outcome)
    requires Sound(s)
    ensures Sound(AfterReply(s, i, o))
  {
    if Awaited(s, i) {
      var f := AfterReply(s, i, o).es[i];
      var call := match o case Failed(_) => Some(None) case Silent => None case Told(a) => Some(Some(a));
      assert s.es[i].Ok() && f.Ok();
      FinishedIsOnce(s.es, s.log, i, f, call, s.issued);
    }
  }

  lemma StepIsSound(s: Snapshot, e: Event, t: Snapshot)
    requires Sound(s) && Step(s, e, t)
    ensures Sound(t) && |t.es| == |s.es| && s.issued <= t.issued
  {
    match e
    case Queried(name, callback, i) => QueryIsSound(s, name, callback, i);
    case Aged => PollIsSound(s);
    case Replied(i, o) => ReplyIsSound(s, i, o);
  }

  // --- callbacks that are never called ------------------------------------------------------

  // The callback was passed, but was not called and no longer waits.
  ghost predicate Lost(s: Snapshot, c: nat) {
    c in s.issued && !Fired(s.log, c) && !WaitsIn(s.es, c)
  }

  // A query takes the slot in which the callback waits, or a reply without an address and
  // without an error comes for it.
  ghost predicate Loses(s: Snapshot, e: Event, c: nat) {
    match e
    case Queried(_, _, i) => i < |s.es| && Waiting(s.es[i], c)
    case Aged => false
    case Replied(i, o) => o.Silent? && Awaited(s, i) && Waiting(s.es[i], c)
  }

  lemma WaitsAfter(es: seq<Entry>, i: nat, e: Entry, c: nat)
    requires i < |es|
    ensures WaitsIn(es[i := e], c) <==> Waiting(e, c) || exists k :: 0 <= k < |es| && k != i && Waiting(es[k], c)
  {
    var fs := es[i := e];
    assert forall k :: 0 <= k < |es| && k != i ==> fs[k] == es[k];
    assert fs[i] == e;
  }

  lemma FiredAfter(log: seq<Call>, callback: Option<nat>, address: Option<Address>, c: nat)
    ensures Fired(Called(log, callback, address), c) <==> Fired(log, c) || callback == Some(c)
  {
    if callback.Some? {
      LoggedOnce(log, callback.value, address);
    }
  }

  lemma QueryLoses(s: Snapshot, name: seq<Octet>, callback: Option<nat>, i: nat, c: nat)
    requires Sound(s) && i < |s.es| && (callback.Some? ==> callback.value !in s.issued) && c in s.issued
    ensures Lost(AfterQuery(s, name, callback, i), c) <==> Lost(s, c) || Waiting(s.es[i], c)
  {
    var t := AfterQuery(s, name, callback, i);
    WaitsAfter(s.es, i, t.es[i], c);
    assert !Waiting(t.es[i], c);
    if Waiting(s.es[i], c) {
      assert !Fired(s.log, c);
    }
  }

  lemma PollLosesNone(s: Snapshot, c: nat)
    requires Sound(s) && c in s.issued
    ensures Lost(AfterPoll(s), c) <==> Lost(s, c)
  {
    var t := AfterPoll(s);
    PollIsFair(s.es, s.log, 0);
    if Fired(s.log, c) {
      var j :| 0 <= j < |s.log| && s.log[j].c == c;
      assert t.log[j].c == c;
    }
    if Fired(t.log, c) {
      var j :| 0 <= j < |t.log| && t.log[j].c == c;
      assert j < |s.log| ==> s.log[j].c == c;
    }
  }

  lemma ReplyLoses(s: Snapshot, i: nat, o: Outcome, c: nat)
    requires Sound(s) && c in s.issued
    ensures Lost(AfterReply(s, i, o), c) <==> Lost(s, c) || Loses(s, Replied(i, o), c)
  {
    if Awaited(s, i) {
      var e, t := s.es[i], AfterReply(s, i, o);
      WaitsAfter(s.es, i, t.es[i], c);
      match o
      case Failed(_) => FiredAfter(s.log, e.callback, None, c);
      case Silent =>
      case Told(a) => FiredAfter(s.log, e.callback, Some(a), c);
      if Waiting(e, c) {
        assert !Fired(s.log, c);
      }
    }
  }

  /** A step loses a callback exactly if it is one of those two, and none that is lost comes back. */
  lemma StepLoses(s: Snapshot, e: Event, t: Snapshot, c: nat)
    requires Sound(s) && Step(s, e, t) && c in s.issued
    ensures Lost(t, c) <==> Lost(s, c) || Loses(s, e, c)
  {
    match e
    case Queried(name, callback, i) => QueryLoses(s, name, callback, i, c);
    case Aged => PollLosesNone(s, c);
    case Replied(i, o) => ReplyLoses(s, i, o, c);
  }

  /** Left alone for 30 polls per entry, every callback passed so far is called by then, unless
      it is lost. */
  lemma CalledUnlessLost(s: Snapshot, c: nat, n: nat)
    requires Sound(s) && c in s.issued && n >= 30 * |s.es|
    ensures Fired(Polls(s.es, s.log, n).log, c) <==> !Lost(s, c)
  {
    var l := Polls(s.es, s.log, n).log;
    WaitingCallbacksAreCalled(s.es, s.log, n);
    assert l == s.log + l[|s.log|..];
    FiredInEither(s.log, l[|s.log|..], c);
  }

  lemma FiredInEither(a: seq<Call>, b: seq<Call>, c: nat)
    ensures Fired(a + b, c) <==> Fired(a, c) || Fired(b, c)
  {
    var l := a + b;
    if Fired(l, c) {
      var j :| 0 <= j < |l| && l[j].c == c;
      assert if j < |a| then a[j] == l[j] else b[j - |a|] == l[j];
    }
    if Fired(a, c) {
      var j :| 0 <= j < |a| && a[j].c == c;
      assert l[j].c == c;
    }
    if Fired(b, c) {
      var j :| 0 <= j < |b| && b[j].c == c;
      assert l[|a| + j].c == c;
    }
  }

  // --- runs ---------------------------------------------------------------------------------

  // The table after resolv_init on zeroed memory.
  function Initial(n: nat): Snapshot {
    Snapshot(seq(n, _ => Entry(Done, 0, 0, 0, 0, [], [0, 0, 0, 0], None)), 0, [], {})
  }

  ghost predicate IsRun(n: nat, ss: seq<Snapshot>, evs: seq<Event>) {
    && 1 <= n < 256 && |ss| == |evs| + 1 && ss[0] == Initial(n)
    && forall k :: 0 <= k < |evs| ==> Step(ss[k], evs[k], ss[k + 1])
  }

  /** In every run, no callback is called twice and none that waits has been called. */
  lemma {:induction false} RunIsSound(n: nat, ss: seq<Snapshot>, evs: seq<Event>, k: nat)
    requires IsRun(n, ss, evs) && k <= |evs|
    ensures Sound(ss[k]) && |ss[k].es| == n
    decreases k
  {
    if k > 0 {
      RunIsSound(n, ss, evs, k - 1);
      StepIsSound(ss[k - 1], evs[k - 1], ss[k]);
    }
  }

  /** A lost callback is not called in any later state. */
  lemma {:induction false} LostIsNeverCalled(n: nat, ss: seq<Snapshot>, evs: seq<Event>, j: nat, k: nat, c: nat)
    requires IsRun(n, ss, evs) && j <= k <= |evs| && Lost(ss[j], c)
    ensures Lost(ss[k], c) && !Fired(ss[k].log, c)
    decreases k
  {
    if j < k {
      LostIsNeverCalled(n, ss, evs, j, k - 1, c);
      RunIsSound(n, ss, evs, k - 1);
      StepLoses(ss[k - 1], evs[k - 1], ss[k], c);
    }
  }

  // In no run is the callback called once the run has come to this state.
  ghost predicate NeverCalledFrom(n: nat, s: Snapshot, c: nat) {
    forall ss: seq<Snapshot>, evs: seq<Event>, j, k
      | IsRun(n, ss, evs) && 0 <= j <= k <= |evs| && ss[j] == s
      :: !Fired(ss[k].log, c)
  }

  lemma LostForever(n: nat, s: Snapshot, c: nat)
    requires Lost(s, c)
    ensures NeverCalledFrom(n, s, c)
  {
    forall ss: seq<Snapshot>, evs: seq<Event>, j, k | IsRun(n, ss, evs) && 0 <= j <= k <= |evs| && ss[j] == s
      ensures !Fired(ss[k].log, c)
    {
      LostIsNeverCalled(n, ss, evs, j, k, c);
    }
  }

  // The queries among the first k events.
  function Made(evs: seq<Event>, k: nat): nat
    requires k <= |evs|
  {
    if k == 0 then 0 else Made(evs, k - 1) + if evs[k - 1].Queried? then 1 else 0
  }

  // The slot of query m, counted from 0, in a table of n entries.
  function SlotOf(m: nat, n: nat): nat
    requires n > 0
  {
    if m == 0 then 0 else (m - 1) % n
  }

  // The stamp of slot j after q queries: the last of them that took it, or 0.
  function StampOf(q: nat, n: nat, j: nat): int
    requires n > 0
  {
    var r := SlotOf(q, n);
    if q == 0 then 0 else if j < r then q - r + j else if q > n then q - r + j - n else 0
  }

  lemma NextSlot(q: nat, n: nat)
    requires n > 0
    ensures SlotOf(q, n) < n
    ensures SlotOf(q + 1, n) == if q == 0 || SlotOf(q, n) + 1 == n then 0 else SlotOf(q, n) + 1
    ensures 1 <= q < n ==> SlotOf(q, n) == q - 1
  {
    if q > 0 {
      ModNext(q - 1, n);
      if q < n {
        ModIsUnique(q - 1, n, 0, q - 1);
      }
    }
  }

  lemma StampAfter(q: nat, n: nat, j: nat)
    requires n > 0 && j < n
    ensures StampOf(q + 1, n, j) == if j == SlotOf(q, n) then q else StampOf(q, n, j)
  {
    NextSlot(q, n);
    if q >= n {
      LongEnough(q, n);
    }
  }

  lemma LongEnough(q: nat, n: nat)
    requires n > 0 && q >= 1
    ensures q == n ==> SlotOf(q, n) == n - 1
  {
    if q == n {
      ModIsUnique(q - 1, n, 0, n - 1);
    }
  }

  // The table after q queries since resolv_init.
  ghost predicate Stamped(es: seq<Entry>, q: nat, n: nat) {
    && n > 0 && |es| == n
    && forall j :: 0 <= j < n ==> !es[j].state.Unused? && es[j].seqno == StampOf(q, n, j)
  }

  lemma StampedChoice(es: seq<Entry>, q: nat, n: nat, i: nat)
    requires Stamped(es, q, n) && Chosen(es, q, i)
    ensures i == SlotOf(q, n)
  {
    var r := SlotOf(q, n);
    NextSlot(q, n);
    if q == 0 {
      assert Age(q, es[i]) == 0;
    } else {
      assert Age(q, es[r]) == q - StampOf(q, n, r) > 0;
      assert Age(q, es[i]) == q - StampOf(q, n, i);
    }
  }

  lemma QueryStamps(s: Snapshot, name: seq<Octet>, callback: Option<nat>, i: nat, q: nat, n: nat)
    requires q < 256 && Stamped(s.es, q, n) && s.seqno == q && i == SlotOf(q, n) < n
    ensures Stamped(AfterQuery(s, name, callback, i).es, q + 1, n)
  {
    var t := AfterQuery(s, name, callback, i);
    forall j | 0 <= j < n
      ensures t.es[j].seqno == StampOf(q + 1, n, j) && !t.es[j].state.Unused?
    {
      StampAfter(q, n, j);
    }
  }

  lemma PollKeepsStamps(s: Snapshot, q: nat, n: nat)
    requires Sound(s) && Stamped(s.es, q, n)
    ensures Stamped(AfterPoll(s).es, q, n)
  {
    var t := AfterPoll(s);
    PollTakesEnergy(s.es, s.log, 0);
    forall j | 0 <= j < n
      ensures t.es[j].seqno == s.es[j].seqno && !t.es[j].state.Unused?
    {
      assert Ages(s.es[j], t.es[j]);
    }
  }

  lemma ReplyKeepsStamps(s: Snapshot, i: nat, o: Outcome, q: nat, n: nat)
    requires Stamped(s.es, q, n)
    ensures Stamped(AfterReply(s, i, o).es, q, n)
  {
  }

  lemma StepKeepsStamps(s: Snapshot, e: Event, t: Snapshot, q: nat, n: nat)
    requires Sound(s) && Step(s, e, t) && q <= 256 && Stamped(s.es, q, n) && s.seqno == q % 256
    requires e.Queried? ==> q < 256
    ensures Stamped(t.es, if e.Queried? then q + 1 else q, n)
    ensures t.seqno == (if e.Queried? then q + 1 else q) % 256
    ensures e.Queried? ==> e.slot == SlotOf(q, n)
  {
    match e
    case Queried(name, callback, i) =>
      StampedChoice(s.es, q, n, i);
      QueryStamps(s, name, callback, i, q, n);
    case Aged => PollKeepsStamps(s, q, n);
    case Replied(i, o) => ReplyKeepsStamps(s, i, o, q, n);
  }

  lemma {:induction false} MadeGrows(evs: seq<Event>, j: nat, k: nat)
    requires j <= k <= |evs|
    ensures Made(evs, j) <= Made(evs, k)
    ensures j < k && evs[j].Queried? ==> Made(evs, j) < Made(evs, k)
    decreases k
  {
    if j < k {
      MadeGrows(evs, j, k - 1);
    }
  }

  /** From resolv_init on, up to the wrap of the sequence number, queries go round the slots,
      but for the first two, which share slot 0. */
  lemma {:induction false} RunIsStamped(n: nat, ss: seq<Snapshot>, evs: seq<Event>, k: nat)
    requires IsRun(n, ss, evs) && k <= |evs| && Made(evs, k) <= 256
    ensures Stamped(ss[k].es, Made(evs, k), n) && ss[k].seqno == Made(evs, k) % 256
    decreases k
  {
    if k > 0 {
      var q := Made(evs, k - 1);
      RunIsStamped(n, ss, evs, k - 1);
      RunIsSound(n, ss, evs, k - 1);
      assert Made(evs, k) == if evs[k - 1].Queried? then q + 1 else q;
      StepKeepsStamps(ss[k - 1], evs[k - 1], ss[k], q, n);
    }
  }

  lemma SlotsGoRound(n: nat, ss: seq<Snapshot>, evs: seq<Event>, k: nat)
    requires IsRun(n, ss, evs) && k < |evs| && evs[k].Queried? && Made(evs, k) < 256
    ensures evs[k].slot == SlotOf(Made(evs, k), n)
  {
    RunIsStamped(n, ss, evs, k);
    RunIsSound(n, ss, evs, k);
    StepKeepsStamps(ss[k], evs[k], ss[k + 1], Made(evs, k), n);
  }

  // The query after m that takes the same slot.
  function NextInSlot(m: nat, n: nat): nat {
    if m == 0 then 1 else m + n
  }

  lemma StampInOwnSlot(q: nat, n: nat)
    requires n > 0
    ensures StampOf(q, n, SlotOf(q, n)) == if q > n then q - n else 0
  {
  }

  lemma SlotAfterRound(m: nat, n: nat)
    requires n > 0 && m > 0
    ensures SlotOf(m + n, n) == SlotOf(m, n)
  {
    var k, r := (m - 1) / n, (m - 1) % n;
    assert m - 1 == k * n + r;
    assert m - 1 + n == (k + 1) * n + r;
    ModIsUnique(m - 1 + n, n, k + 1, r);
  }

  /** Of the queries behind m the first one in the same slot is that one. */
  lemma NextInSlotIsNext(m: nat, q: nat, n: nat)
    requires n > 0 && m < q
    ensures SlotOf(NextInSlot(m, n), n) == SlotOf(m, n)
    ensures StampOf(q, n, SlotOf(q, n)) == m && SlotOf(q, n) == SlotOf(m, n) <==> q == NextInSlot(m, n)
  {
    StampInOwnSlot(q, n);
    if m > 0 {
      SlotAfterRound(m, n);
    } else {
      NextSlot(q, n);
      NextSlot(0, n);
      LongEnough(q, n);
    }
  }

  // A callback waits only in the slot its query took, as long as that keeps its stamp.
  ghost predicate WaitsOnlyIn(s: Snapshot, c: nat, i: nat, stamp: nat) {
    forall j :: 0 <= j < |s.es| && Waiting(s.es[j], c) ==> j == i && s.es[j].seqno == stamp
  }

  lemma StepKeepsPlace(s: Snapshot, e: Event, t: Snapshot, c: nat, i: nat, stamp: nat)
    requires Sound(s) && Step(s, e, t) && c in s.issued && WaitsOnlyIn(s, c, i, stamp)
    ensures WaitsOnlyIn(t, c, i, stamp)
  {
    if e.Aged? {
      PollTakesEnergy(s.es, s.log, 0);
    }
    forall j | 0 <= j < |t.es| && Waiting(t.es[j], c)
      ensures j == i && t.es[j].seqno == stamp
    {
      if e.Aged? {
        assert Ages(s.es[j], t.es[j]);
      }
      assert Waiting(s.es[j], c);
    }
  }

  lemma {:induction false} QueryKeepsPlace(n: nat, ss: seq<Snapshot>, evs: seq<Event>, a: nat, k: nat, c: nat)
    requires IsRun(n, ss, evs) && a < k <= |evs| && evs[a].Queried? && evs[a].callback == Some(c)
    ensures c in ss[k].issued && WaitsOnlyIn(ss[k], c, evs[a].slot, ss[a].seqno)
    decreases k
  {
    RunIsSound(n, ss, evs, k - 1);
    if k == a + 1 {
      assert !WaitsIn(ss[a].es, c);
    } else {
      QueryKeepsPlace(n, ss, evs, a, k - 1, c);
      StepIsSound(ss[k - 1], evs[k - 1], ss[k]);
      StepKeepsPlace(ss[k - 1], evs[k - 1], ss[k], c, evs[a].slot, ss[a].seqno);
    }
  }

  /** After the query a with the callback c, event b loses the callback: it is still pending, and
      the event is the next query in its slot, or a reply to it without an error or an address. */
  ghost predicate LosesQuery(n: nat, ss: seq<Snapshot>, evs: seq<Event>, a: nat, b: nat, c: nat)
    requires n > 0 && a < b < |evs| && |ss| == |evs| + 1 && evs[a].Queried?
  {
    var i := evs[a].slot;
    && i < |ss[b].es| && Waiting(ss[b].es[i], c)
    && match evs[b]
       case Queried(_, _, _) => Made(evs, b) == NextInSlot(Made(evs, a), n)
       case Aged => false
       case Replied(j, o) => j == i && o.Silent? && ss[b].es[i].state.Asking?
  }

  // The slot that query a takes, and the stamp it finds there.
  lemma QueryGoes(n: nat, ss: seq<Snapshot>, evs: seq<Event>, a: nat)
    requires IsRun(n, ss, evs) && a < |evs| && evs[a].Queried? && Made(evs, a) < 256
    ensures
      var q := Made(evs, a);
      && evs[a].slot == SlotOf(q, n) < n && ss[a].seqno == q && |ss[a].es| == n
      && ss[a].es[evs[a].slot].seqno == StampOf(q, n, SlotOf(q, n))
  {
    RunIsStamped(n, ss, evs, a);
    SlotsGoRound(n, ss, evs, a);
    NextSlot(Made(evs, a), n);
  }

  lemma LosesByNumber(n: nat, ss: seq<Snapshot>, evs: seq<Event>, a: nat, b: nat, c: nat)
    requires IsRun(n, ss, evs) && a < b < |evs| && evs[a].Queried? && evs[a].callback == Some(c)
    requires evs[b].Queried? ==> Made(evs, b) < 256
    requires Made(evs, a) < 256
    ensures Loses(ss[b], evs[b], c) <==> LosesQuery(n, ss, evs, a, b, c)
  {
    QueryKeepsPlace(n, ss, evs, a, b, c);
    QueryGoes(n, ss, evs, a);
    if evs[b].Queried? {
      QueryGoes(n, ss, evs, b);
      MadeGrows(evs, a, b);
      NextInSlotIsNext(Made(evs, a), Made(evs, b), n);
    } else {
      RunIsSound(n, ss, evs, b);
    }
  }

  ghost predicate LostOnTheWay(n: nat, ss: seq<Snapshot>, evs: seq<Event>, a: nat, k: nat, c: nat)
    requires n > 0 && a < k <= |evs| && |ss| == |evs| + 1 && evs[a].Queried?
  {
    exists b :: a < b < k && LosesQuery(n, ss, evs, a, b, c)
  }

  lemma LostOnTheWayOneMore(n: nat, ss: seq<Snapshot>, evs: seq<Event>, a: nat, k: nat, c: nat)
    requires n > 0 && a < k < |evs| && |ss| == |evs| + 1 && evs[a].Queried?
    ensures LostOnTheWay(n, ss, evs, a, k + 1, c)
      <==> LostOnTheWay(n, ss, evs, a, k, c) || LosesQuery(n, ss, evs, a, k, c)
  {
  }

  lemma LostOneMore(n: nat, ss: seq<Snapshot>, evs: seq<Event>, a: nat, k: nat, c: nat)
    requires IsRun(n, ss, evs) && a < k < |evs| && evs[a].Queried? && evs[a].callback == Some(c)
    requires Made(evs, k + 1) <= 256
    ensures Lost(ss[k + 1], c) <==> Lost(ss[k], c) || LosesQuery(n, ss, evs, a, k, c)
  {
    MadeGrows(evs, k, k + 1);
    MadeGrows(evs, a, k);
    RunIsSound(n, ss, evs, k);
    QueryKeepsPlace(n, ss, evs, a, k, c);
    StepLoses(ss[k], evs[k], ss[k + 1], c);
    LosesByNumber(n, ss, evs, a, k, c);
  }

  lemma NewlyWaits(n: nat, ss: seq<Snapshot>, evs: seq<Event>, a: nat, c: nat)
    requires IsRun(n, ss, evs) && a < |evs| && evs[a].Queried? && evs[a].callback == Some(c)
    ensures !Lost(ss[a + 1], c)
  {
    assert Waiting(ss[a + 1].es[evs[a].slot], c);
  }

  /** A callback is lost, and so never called, exactly if one of these events came: query m, the
      first one after it that takes its slot being query m + n, or query 1 after query 0. */
  lemma {:induction false} LostIff(n: nat, ss: seq<Snapshot>, evs: seq<Event>, a: nat, k: nat, c: nat)
    requires IsRun(n, ss, evs) && a < k <= |evs| && evs[a].Queried? && evs[a].callback == Some(c)
    requires Made(evs, k) <= 256
    ensures Lost(ss[k], c) <==> LostOnTheWay(n, ss, evs, a, k, c)
    decreases k
  {
    if k == a + 1 {
      NewlyWaits(n, ss, evs, a, c);
    } else {
      MadeGrows(evs, k - 1, k);
      LostIff(n, ss, evs, a, k - 1, c);
      LostOneMore(n, ss, evs, a, k - 1, c);
      LostOnTheWayOneMore(n, ss, evs, a, k - 1, c);
    }
  }

  // Event b loses the callback while it waits in the slot of query a.
  ghost predicate LosesInSlot(ss: seq<Snapshot>, evs: seq<Event>, a: nat, b: nat, c: nat)
    requires a < b < |evs| && |ss| == |evs| + 1 && evs[a].Queried?
  {
    var i := evs[a].slot;
    && i < |ss[b].es| && Waiting(ss[b].es[i], c)
    && match evs[b]
       case Queried(_, _, j) => j == i
       case Aged => false
       case Replied(j, o) => j == i && o.Silent? && ss[b].es[i].state.Asking?
  }

  lemma LosesBySlot(n: nat, ss: seq<Snapshot>, evs: seq<Event>, a: nat, b: nat, c: nat)
    requires IsRun(n, ss, evs) && a < b < |evs| && evs[a].Queried? && evs[a].callback == Some(c)
    ensures Loses(ss[b], evs[b], c) <==> LosesInSlot(ss, evs, a, b, c)
  {
    QueryKeepsPlace(n, ss, evs, a, b, c);
    RunIsSound(n, ss, evs, b);
  }

  ghost predicate LostInSlot(ss: seq<Snapshot>, evs: seq<Event>, a: nat, k: nat, c: nat)
    requires a < k <= |evs| && |ss| == |evs| + 1 && evs[a].Queried?
  {
    exists b :: a < b < k && LosesInSlot(ss, evs, a, b, c)
  }

  /** In runs of any length: a callback is lost exactly if, while it waited, a query took the slot
      of its query or an answer without error and address came for it. */
  lemma {:induction false} LostInSlotIff(n: nat, ss: seq<Snapshot>, evs: seq<Event>, a: nat, k: nat, c: nat)
    requires IsRun(n, ss, evs) && a < k <= |evs| && evs[a].Queried? && evs[a].callback == Some(c)
    ensures Lost(ss[k], c) <==> LostInSlot(ss, evs, a, k, c)
    decreases k
  {
    if k == a + 1 {
      NewlyWaits(n, ss, evs, a, c);
    } else {
      LostInSlotIff(n, ss, evs, a, k - 1, c);
      LostBySlot(n, ss, evs, a, k - 1, c);
      LostInSlotOneMore(ss, evs, a, k - 1, c);
    }
  }

  lemma LostBySlot(n: nat, ss: seq<Snapshot>, evs: seq<Event>, a: nat, k: nat, c: nat)
    requires IsRun(n, ss, evs) && a < k < |evs| && evs[a].Queried? && evs[a].callback == Some(c)
    ensures Lost(ss[k + 1], c) <==> Lost(ss[k], c) || LosesInSlot(ss, evs, a, k, c)
  {
    RunIsSound(n, ss, evs, k);
    QueryKeepsPlace(n, ss, evs, a, k, c);
    StepLoses(ss[k], evs[k], ss[k + 1], c);
    LosesBySlot(n, ss, evs, a, k, c);
  }

  lemma LostInSlotOneMore(ss: seq<Snapshot>, evs: seq<Event>, a: nat, k: nat, c: nat)
    requires a < k < |evs| && |ss| == |evs| + 1 && evs[a].Queried?
    ensures LostInSlot(ss, evs, a, k + 1, c) <==> LostInSlot(ss, evs, a, k, c) || LosesInSlot(ss, evs, a, k, c)
  {
  }

  // --- addresses ----------------------------------------------------------------------------

  // The first entry that resolv_lookup takes for the name.
  ghost predicate Found(es: seq<Entry>, name: seq<Octet>, i: nat) {
    && i < |es| && es[i].state.Done? && es[i].name == name
    && forall j :: 0 <= j < i ==> !(es[j].state.Done? && es[j].name == name)
  }

  // The last query in slot i among the first k events is a.
  ghost predicate LastQuery(evs: seq<Event>, i: nat, a: nat, k: nat) {
    && a < k <= |evs| && evs[a].Queried? && evs[a].slot == i
    && forall b :: a < b < k ==> !(evs[b].Queried? && evs[b].slot == i)
  }

  // What is in the slot of query a since then: a done entry was ended by the reply b, and has
  // the address of that reply, or else the one it had when the query took the slot.
  ghost predicate EndedBy(ss: seq<Snapshot>, evs: seq<Event>, i: nat, a: nat, k: nat, b: nat)
    requires a < |ss| && k < |ss| == |evs| + 1
  {
    && a < b < k && evs[b].Replied? && evs[b].slot == i && Awaited(ss[b], i)
    && i < |ss[k].es| && i < |ss[a].es| && !evs[b].outcome.Failed?
    && ss[k].es[i].ipaddr == if evs[b].outcome.Told? then evs[b].outcome.address else ss[a].es[i].ipaddr
  }

  ghost predicate HeldBy(ss: seq<Snapshot>, evs: seq<Event>, i: nat, a: nat, k: nat)
    requires a < k < |ss| == |evs| + 1 && evs[a].Queried?
  {
    && i < |ss[a].es| == |ss[k].es| && ss[k].es[i].name == evs[a].name && !ss[k].es[i].state.Unused?
    && (ss[k].es[i].Pending() ==> ss[k].es[i].ipaddr == ss[a].es[i].ipaddr)
    && (ss[k].es[i].state.Done? ==> exists b :: EndedBy(ss, evs, i, a, k, b))
  }

  lemma HeldOn(n: nat, ss: seq<Snapshot>, evs: seq<Event>, i: nat, a: nat, k: nat)
    requires IsRun(n, ss, evs) && a < k < |evs| && evs[a].Queried? && HeldBy(ss, evs, i, a, k)
    requires !(evs[k].Queried? && evs[k].slot == i)
    ensures HeldBy(ss, evs, i, a, k + 1)
  {
    var e, f := ss[k].es[i], ss[k + 1].es[i];
    RunIsSound(n, ss, evs, k);
    if evs[k].Aged? {
      PollTakesEnergy(ss[k].es, ss[k].log, 0);
      assert Ages(e, f);
    }
    if f.state.Done? {
      if e.state.Done? {
        assert f == e;
        var b :| EndedBy(ss, evs, i, a, k, b);
        assert EndedBy(ss, evs, i, a, k + 1, b);
      } else {
        assert EndedBy(ss, evs, i, a, k + 1, k);
      }
    }
  }

  lemma {:induction false} SlotIsHeld(n: nat, ss: seq<Snapshot>, evs: seq<Event>, i: nat, a: nat, k: nat)
    requires IsRun(n, ss, evs) && LastQuery(evs, i, a, k)
    ensures HeldBy(ss, evs, i, a, k)
    decreases k
  {
    if k == a + 1 {
      RunIsSound(n, ss, evs, a);
    } else {
      SlotIsHeld(n, ss, evs, i, a, k - 1);
      HeldOn(n, ss, evs, i, a, k - 1);
    }
  }

  lemma {:induction false} NeverQueried(n: nat, ss: seq<Snapshot>, evs: seq<Event>, i: nat, k: nat)
    requires IsRun(n, ss, evs) && k <= |evs| && i < n
    requires forall b :: 0 <= b < k ==> !(evs[b].Queried? && evs[b].slot == i)
    ensures |ss[k].es| == n && ss[k].es[i] == ss[0].es[i]
    decreases k
  {
    RunIsSound(n, ss, evs, k);
    if k > 0 {
      NeverQueried(n, ss, evs, i, k - 1);
      if evs[k - 1].Aged? {
        RunIsSound(n, ss, evs, k - 1);
        PollTakesEnergy(ss[k - 1].es, ss[k - 1].log, 0);
        assert Ages(ss[k - 1].es[i], ss[k].es[i]);
      }
    }
  }

  lemma {:induction false} FindLastQuery(evs: seq<Event>, i: nat, k: nat) returns (a: Option<nat>)
    requires k <= |evs|
    ensures a.Some? ==> LastQuery(evs, i, a.value, k)
    ensures a.None? ==> forall b :: 0 <= b < k ==> !(evs[b].Queried? && evs[b].slot == i)
    decreases k
  {
    if k == 0 {
      a := None;
    } else if evs[k - 1].Queried? && evs[k - 1].slot == i {
      a := Some(k - 1);
    } else {
      a := FindLastQuery(evs, i, k - 1);
    }
  }

  /** What resolv_lookup finds in any state of any run: the slot's last query a was for that name
      and was ended by a reply, and the address is that of the reply exactly if it carried one;
      otherwise it is the address left there by earlier queries. Only the empty name is also
      found in slots that were never used. */
  lemma LookupMeans(n: nat, ss: seq<Snapshot>, evs: seq<Event>, k: nat, name: seq<Octet>, i: nat)
    returns (a: Option<nat>)
    requires IsRun(n, ss, evs) && k <= |evs| && Found(ss[k].es, name, i)
    ensures a.Some? ==>
      && LastQuery(evs, i, a.value, k) && evs[a.value].name == name
      && exists b :: EndedBy(ss, evs, i, a.value, k, b)
    ensures a.None? ==> name == [] && ss[k].es[i].ipaddr == [0, 0, 0, 0]
  {
    RunIsSound(n, ss, evs, k);
    a := FindLastQuery(evs, i, k);
    if a.Some? {
      SlotIsHeld(n, ss, evs, i, a.value, k);
    } else {
      NeverQueried(n, ss, evs, i, k);
    }
  }

  // A query, the poll that sends its question, and the reply, in slot 0.
  lemma OneRound(s: Snapshot, name: seq<Octet>, o: Outcome) returns (t1: Snapshot, t2: Snapshot, t3: Snapshot)
    requires Chosen(s.es, s.seqno, 0) && |name| < 32 && !o.Failed?
    ensures Step(s, Queried(name, None, 0), t1) && Step(t1, Aged, t2) && Step(t2, Replied(0, o), t3)
    ensures t3.seqno == (s.seqno + 1) % 256 && |t3.es| == |s.es| && t3.es[1..] == s.es[1..]
    ensures t3.es[0].state.Done? && t3.es[0].name == name && t3.es[0].seqno == s.seqno
    ensures t3.es[0].ipaddr == if o.Told? then o.address else s.es[0].ipaddr
  {
    t1 := AfterQuery(s, name, None, 0);
    t2 := AfterPoll(t1);
    assert t1.es[0].state.New? && t2.es == [Asked(t1.es[0])] + t1.es[1..];
    t3 := AfterReply(t2, 0, o);
  }

  /** In a table of any size, the address of one host is found under the name of another. */
  lemma StaleAddressIsFound(n: nat, first: seq<Octet>, second: seq<Octet>, a: Address)
    returns (ss: seq<Snapshot>, evs: seq<Event>)
    requires 1 <= n < 256 && |first| < 32 && |second| < 32
    ensures evs ==
      [Queried(first, None, 0), Aged, Replied(0, Told(a)), Queried(second, None, 0), Aged, Replied(0, Silent)]
    ensures IsRun(n, ss, evs) && Found(ss[6].es, second, 0) && ss[6].es[0].ipaddr == a
  {
    evs := [Queried(first, None, 0), Aged, Replied(0, Told(a)), Queried(second, None, 0), Aged, Replied(0, Silent)];
    var s0 := Initial(n);
    var s1, s2, s3 := OneRound(s0, first, Told(a));
    SecondTakesFirstSlot(n, s3.es);
    var s4, s5, s6 := OneRound(s3, second, Silent);
    ss := [s0, s1, s2, s3, s4, s5, s6];
  }

  lemma SecondTakesFirstSlot(n: nat, es: seq<Entry>)
    requires 1 <= n < 256 && |es| == n && es[1..] == Initial(n).es[1..] && es[0].state.Done? && es[0].seqno == 0
    ensures Chosen(es, 1, 0)
  {
    assert forall j :: 1 <= j < n ==> es[j] == es[1..][j - 1] == Initial(n).es[j];
  }
}
