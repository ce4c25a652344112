/** The name table of protocols/dns/resolv.c: what a poll does to it, and how long a query lasts. */
module ResolverSpec {
  import opened DnsNames
  import opened Options

  datatype State = Unused | New | Asking | Done | Error

  // A callback stands for the query it was passed with.
  datatype Entry = Entry(
    state: State, tmr: nat, retries: nat, seqno: nat, err: nat,
    name: seq<Octet>, ipaddr: Address, callback: Option<nat>)
  {
    predicate Pending() {
      state.New? || state.Asking?
    }

    predicate Ok() {
      && seqno < 256 && |name| < 32
      && (state.Asking? ==> retries < MAX_RETRIES && 1 <= tmr <= if retries == 0 then 1 else retries)
    }

    // The polls after which the entry has failed.
    function Energy(): nat {
      if state.New? then 30 else if state.Asking? then tmr + Waits(retries) else 0
    }
  }

  const MAX_RETRIES: nat := 8

  // retries + 1, ..., 7 added up
  function Waits(retries: nat): nat
    decreases MAX_RETRIES - retries
  {
    if retries + 1 >= MAX_RETRIES then 0 else retries + 1 + Waits(retries + 1)
  }

  // A call of the callback c, with an address or NULL.
  datatype Call = Call(c: nat, address: Option<Address>)

  function Called(log: seq<Call>, callback: Option<nat>, address: Option<Address>): seq<Call> {
    if callback.None? then log else log + [Call(callback.value, address)]
  }

  function Asked(e: Entry): Entry {
    e.(state := Asking, tmr := 1, retries := 0)
  }

  // uint8_t arithmetic
  function Less(tmr: nat): nat {
    (tmr + 255) % 256
  }

  datatype Polled = Polled(es: seq<Entry>, log: seq<Call>, sent: Option<nat>)

  // resolv_periodic from an entry on; at most one question is sent.
  function Poll(es: seq<Entry>, log: seq<Call>, i: nat): (p: Polled)
    ensures |p.es| == |es|
    decreases |es|
  {
    if |es| == 0 then Polled(es, log, None)
    else
      var e := es[0];
      if e.state.New? then Polled([Asked(e)] + es[1..], log, Some(i))
      else if !e.state.Asking? then Behind(e, Poll(es[1..], log, i + 1))
      else if Less(e.tmr) != 0 then Behind(e.(tmr := Less(e.tmr)), Poll(es[1..], log, i + 1))
      else if e.retries + 1 == MAX_RETRIES then
        Behind(e.(state := Error, tmr := 0, retries := MAX_RETRIES),
               Poll(es[1..], Called(log, e.callback, None), i + 1))
      else Polled([e.(tmr := e.retries + 1, retries := e.retries + 1)] + es[1..], log, Some(i))
  }

  function Behind(e: Entry, p: Polled): (q: Polled)
    ensures |q.es| == |p.es| + 1
  {
    p.(es := [e] + p.es)
  }

  predicate AllOk(es: seq<Entry>) {
    forall i :: 0 <= i < |es| ==> es[i].Ok()
  }

  predicate AnyPending(es: seq<Entry>) {
    exists i :: 0 <= i < |es| && es[i].Pending()
  }

  function Total(es: seq<Entry>): nat {
    if |es| == 0 then 0 else es[0].Energy() + Total(es[1..])
  }

  lemma PendingHasEnergy(e: Entry)
    requires e.Ok()
    ensures e.Energy() <= 30
    ensures e.Energy() >= 1 <==> e.Pending()
  {
    WaitsBound(e.retries);
  }

  lemma WaitsBound(retries: nat)
    ensures Waits(0) == 28
    ensures 1 <= retries < MAX_RETRIES ==> retries + Waits(retries) <= 28
  {
    assert Waits(7) == 0 && Waits(6) == 7 && Waits(5) == 13 && Waits(4) == 18;
    assert Waits(3) == 22 && Waits(2) == 25 && Waits(1) == 27 && Waits(0) == 28;
  }

  lemma {:induction false} TotalBound(es: seq<Entry>)
    requires AllOk(es)
    ensures Total(es) <= 30 * |es|
    ensures AnyPending(es) ==> Total(es) >= 1
    decreases |es|
  {
    if |es| > 0 {
      PendingHasEnergy(es[0]);
      TotalBound(es[1..]);
      assert forall i :: 1 <= i < |es| ==> es[i] == es[1..][i - 1];
    }
  }

  // What one poll may do to an entry: a pending one stays so or fails, any other stays as it is.
  ghost predicate Ages(e: Entry, f: Entry) {
    && f.Ok() && f.callback == e.callback && f.name == e.name && f.seqno == e.seqno && f.ipaddr == e.ipaddr
    && (if e.Pending() then f.Pending() || f.state.Error? else f == e)
  }

  lemma {:induction false} OneAges(e: Entry)
    requires e.Ok()
    ensures e.state.New? ==> Ages(e, Asked(e)) && Asked(e).Energy() < e.Energy()
    ensures e.state.Asking? && Less(e.tmr) != 0 ==>
      var f := e.(tmr := Less(e.tmr)); Ages(e, f) && f.Energy() < e.Energy()
    ensures e.state.Asking? && Less(e.tmr) == 0 && e.retries + 1 == MAX_RETRIES ==>
      var f := e.(state := Error, tmr := 0, retries := MAX_RETRIES); Ages(e, f) && f.Energy() < e.Energy()
    ensures e.state.Asking? && Less(e.tmr) == 0 && e.retries + 1 < MAX_RETRIES ==>
      var f := e.(tmr := e.retries + 1, retries := e.retries + 1); Ages(e, f) && f.Energy() < e.Energy()
  {
    WaitsBound(e.retries);
    assert Waits(e.retries) == if e.retries + 1 >= MAX_RETRIES then 0 else e.retries + 1 + Waits(e.retries + 1);
  }

  ghost predicate AllAge(es: seq<Entry>, fs: seq<Entry>) {
    |fs| == |es| && forall k :: 0 <= k < |es| ==> Ages(es[k], fs[k])
  }

  lemma AgesBehind(e: Entry, rest: seq<Entry>, f: Entry, rest': seq<Entry>)
    requires Ages(e, f) && AllAge(rest, rest')
    requires f.Energy() <= e.Energy() && Total(rest') <= Total(rest)
    requires AnyPending(rest) ==> Total(rest') < Total(rest) || f.Energy() < e.Energy()
    requires e.Pending() ==> f.Energy() < e.Energy()
    ensures AllAge([e] + rest, [f] + rest')
    ensures Total([f] + rest') <= Total([e] + rest)
    ensures AnyPending([e] + rest) ==> Total([f] + rest') < Total([e] + rest)
  {
    var es, fs := [e] + rest, [f] + rest';
    assert es[1..] == rest && fs[1..] == rest';
    assert forall k :: 1 <= k < |es| ==> es[k] == rest[k - 1];
  }

  /** A poll takes energy from the table while anything is pending. */
  lemma {:induction false} PollTakesEnergy(es: seq<Entry>, log: seq<Call>, i: nat)
    requires AllOk(es)
    ensures AllAge(es, Poll(es, log, i).es)
    ensures Total(Poll(es, log, i).es) <= Total(es)
    ensures AnyPending(es) ==> Total(Poll(es, log, i).es) < Total(es)
    decreases |es|
  {
    if |es| > 0 {
      var e, rest, p := es[0], es[1..], Poll(es, log, i);
      OneAges(e);
      assert es == [e] + rest;
      if e.state.New? || (e.state.Asking? && Less(e.tmr) == 0 && e.retries + 1 < MAX_RETRIES) {
        assert AllAge(rest, rest);
        AgesBehind(e, rest, p.es[0], rest);
      } else {
        var log' := if e.state.Asking? && Less(e.tmr) == 0 then Called(log, e.callback, None) else log;
        PollTakesEnergy(rest, log', i + 1);
        AgesBehind(e, rest, p.es[0], Poll(rest, log', i + 1).es);
      }
    }
  }

  function Polls(es: seq<Entry>, log: seq<Call>, n: nat): (p: Polled)
    ensures |p.es| == |es|
  {
    if n == 0 then Polled(es, log, None)
    else
      var p := Polls(es, log, n - 1);
      Poll(p.es, p.log, 0)
  }

  lemma PendingBefore(es: seq<Entry>, fs: seq<Entry>)
    requires AllAge(es, fs) && AnyPending(fs)
    ensures AnyPending(es)
  {
    var k :| 0 <= k < |fs| && fs[k].Pending();
    assert Ages(es[k], fs[k]);
    assert es[k].Pending();
  }

  lemma AgesTwice(es: seq<Entry>, fs: seq<Entry>, gs: seq<Entry>)
    requires AllAge(es, fs) && AllAge(fs, gs)
    ensures AllAge(es, gs)
  {
    forall k | 0 <= k < |es|
      ensures Ages(es[k], gs[k])
    {
      assert Ages(es[k], fs[k]) && Ages(fs[k], gs[k]);
    }
  }

  lemma {:induction false} PollsAge(es: seq<Entry>, log: seq<Call>, n: nat)
    requires AllOk(es)
    ensures var p := Polls(es, log, n);
      && AllOk(p.es) && AllAge(es, p.es)
      && (AnyPending(p.es) ==> Total(p.es) + n <= Total(es))
      && Total(p.es) <= Total(es)
  {
    if n > 0 {
      var p, q := Polls(es, log, n - 1), Polls(es, log, n);
      PollsAge(es, log, n - 1);
      PollTakesEnergy(p.es, p.log, 0);
      if AnyPending(q.es) {
        PendingBefore(p.es, q.es);
      }
      AgesTwice(es, p.es, q.es);
    }
  }

  /** Without replies and new queries, 30 polls per entry see every pending query fail. */
  lemma QueriesExpire(es: seq<Entry>, log: seq<Call>, n: nat, k: nat)
    requires AllOk(es) && n >= 30 * |es| && k < |es|
    ensures var f := Polls(es, log, n).es[k];
      if es[k].Pending() then f.state.Error? else f == es[k]
  {
    var p := Polls(es, log, n);
    PollsAge(es, log, n);
    TotalBound(es);
    TotalBound(p.es);
    assert !AnyPending(p.es);
    assert Ages(es[k], p.es[k]);
  }

  // The polls at which a query that is alone in the table asks, and the one at which it fails.
  const TIMES := [1, 2, 3, 5, 8, 12, 17, 23, 30]

  // The query between asking for the time r, counted from zero, and what comes next.
  function AfterAsking(e: Entry, n: nat, r: nat): Entry
    requires r < 8 && n <= TIMES[r + 1]
  {
    e.(state := Asking, retries := r, tmr := TIMES[r + 1] - n)
  }

  // The same n polls from the beginning.
  ghost predicate AskedUntil(e: Entry, log: seq<Call>, n: nat, p: Polled) {
    if n == 0 then p == Polled([e], log, None)
    else if n >= 30 then
      p == Polled([e.(state := Error, tmr := 0, retries := 8)], Called(log, e.callback, None), None)
    else exists r: nat | r < 8 && TIMES[r] <= n < TIMES[r + 1] ::
           p == Polled([AfterAsking(e, n, r)], log, if n == TIMES[r] then Some(0) else None)
  }

  // A poll of a table with one entry.
  lemma PollOfOne(e: Entry, log: seq<Call>)
    ensures
      var p := Poll([e], log, 0);
      if e.state.New? then p == Polled([Asked(e)], log, Some(0))
      else if !e.state.Asking? then p == Polled([e], log, None)
      else if Less(e.tmr) != 0 then p == Polled([e.(tmr := Less(e.tmr))], log, None)
      else if e.retries + 1 == MAX_RETRIES then
        p == Polled([e.(state := Error, tmr := 0, retries := MAX_RETRIES)], Called(log, e.callback, None), None)
      else p == Polled([e.(tmr := e.retries + 1, retries := e.retries + 1)], log, Some(0))
  {
    var rest: seq<Entry> := [e][1..];
    assert rest == [] && forall f: Entry :: [f] + rest == [f];
  }

  lemma PollWhileAsking(e: Entry, log: seq<Call>, n: nat, r: nat)
    requires r < 8 && TIMES[r] <= n < TIMES[r + 1]
    ensures AskedUntil(e, log, n + 1, Poll([AfterAsking(e, n, r)], log, 0))
  {
    var f := AfterAsking(e, n, r);
    NextTime(r);
    PollOfOne(f, log);
    if n + 1 < TIMES[r + 1] {
      assert f.(tmr := Less(f.tmr)) == AfterAsking(e, n + 1, r);
    } else if r < 7 {
      assert f.(tmr := r + 1, retries := r + 1) == AfterAsking(e, n + 1, r + 1);
    }
  }

  lemma OnePoll(e: Entry, log: seq<Call>, n: nat, p: Polled)
    requires e.state.New? && AskedUntil(e, log, n, p)
    ensures AskedUntil(e, log, n + 1, Poll(p.es, p.log, 0))
  {
    if n == 0 {
      PollOfOne(e, log);
      assert Asked(e) == AfterAsking(e, 1, 0);
    } else if n < 30 {
      var r: nat :| r < 8 && TIMES[r] <= n < TIMES[r + 1] &&
        p == Polled([AfterAsking(e, n, r)], log, if n == TIMES[r] then Some(0) else None);
      PollWhileAsking(e, log, n, r);
    } else {
      PollOfOne(p.es[0], p.log);
    }
  }

  lemma NextTime(r: nat)
    requires r < 8
    ensures 1 <= TIMES[r] < TIMES[r + 1] <= 30 && (r == 7 <==> TIMES[r + 1] == 30)
    ensures r < 7 ==> TIMES[r + 2] == TIMES[r + 1] + r + 1
  {
  }

  lemma {:induction false} PollsOfOne(e: Entry, log: seq<Call>, n: nat)
    requires e.state.New?
    ensures AskedUntil(e, log, n, Polls([e], log, n))
    decreases n
  {
    if n > 0 {
      PollsOfOne(e, log, n - 1);
      OnePoll(e, log, n - 1, Polls([e], log, n - 1));
    }
  }

  /** A query alone in the table asks at the polls 1, 2, 3, 5, 8, 12, 17 and 23, and at the 30th poll
      it fails and its callback is called with NULL. */
  lemma LoneQuery(e: Entry, log: seq<Call>, n: nat)
    requires e.state.New?
    ensures
      var p := Polls([e], log, n);
      && (p.sent == Some(0) <==> n in [1, 2, 3, 5, 8, 12, 17, 23])
      && p.es[0].state == (if n == 0 then New else if n < 30 then Asking else Error)
      && p.log == if n < 30 then log else Called(log, e.callback, None)
  {
    PollsOfOne(e, log, n);
    if 0 < n < 30 {
      var r: nat :| r < 8 && TIMES[r] <= n < TIMES[r + 1] &&
        Polls([e], log, n) == Polled([AfterAsking(e, n, r)], log, if n == TIMES[r] then Some(0) else None);
      OnlyTimes(n, r);
    }
  }

  lemma OnlyTimes(n: nat, r: nat)
    requires r < 8 && TIMES[r] <= n < TIMES[r + 1]
    ensures n == TIMES[r] <==> n in [1, 2, 3, 5, 8, 12, 17, 23]
  {
    if n in [1, 2, 3, 5, 8, 12, 17, 23] {
      var k :| 0 <= k < 8 && TIMES[k] == n;
      TimesRise(k, r);
      TimesRise(r, k);
    } else {
      assert TIMES[r] in [1, 2, 3, 5, 8, 12, 17, 23];
    }
  }

  lemma TimesRise(j: nat, k: nat)
    requires k < 8
    ensures j < k ==> TIMES[j + 1] <= TIMES[k]
  {
  }

  ghost predicate Fired(log: seq<Call>, c: nat) {
    exists j :: 0 <= j < |log| && log[j].c == c
  }

  predicate Waiting(e: Entry, c: nat) {
    e.Pending() && e.callback == Some(c)
  }

  // No callback was called twice, and none that waits was called or waits twice.
  ghost predicate Once(es: seq<Entry>, log: seq<Call>) {
    && (forall j, k :: 0 <= j < k < |log| ==> log[j].c != log[k].c)
    && (forall k, c :: 0 <= k < |es| && Waiting(es[k], c) ==> !Fired(log, c))
    && (forall j, k, c :: 0 <= j < k < |es| && Waiting(es[j], c) ==> !Waiting(es[k], c))
  }

  ghost predicate WaitsIn(es: seq<Entry>, c: nat) {
    exists k :: 0 <= k < |es| && Waiting(es[k], c)
  }

  // A poll calls only callbacks that wait, and with NULL.
  ghost predicate CallsWaiting(es: seq<Entry>, log: seq<Call>, log': seq<Call>) {
    && log <= log'
    && forall j :: |log| <= j < |log'| ==> log'[j].address == None && WaitsIn(es, log'[j].c)
  }

  lemma LoggedOnce(log: seq<Call>, c: nat, address: Option<Address>)
    ensures forall d :: Fired(log + [Call(c, address)], d) <==> Fired(log, d) || d == c
  {
    var log' := log + [Call(c, address)];
    forall d
      ensures Fired(log', d) <==> Fired(log, d) || d == c
    {
      if Fired(log, d) {
        var j :| 0 <= j < |log| && log[j].c == d;
        assert log'[j].c == d;
      }
      if d == c {
        assert log'[|log|].c == d;
      }
    }
  }

  lemma CalledOnce(e: Entry, rest: seq<Entry>, log: seq<Call>, address: Option<Address>)
    requires Once([e] + rest, log) && e.Pending()
    ensures Once(rest, Called(log, e.callback, address))
    ensures e.callback.Some? ==> !WaitsIn(rest, e.callback.value)
  {
    var es := [e] + rest;
    TailOnce(e, rest, log);
    if e.callback.Some? {
      var c := e.callback.value;
      LoggedOnce(log, c, address);
      assert Waiting(es[0], c);
      assert !Fired(log, c);
      assert forall k :: 0 <= k < |rest| ==> rest[k] == es[k + 1];
    }
  }

  lemma TailOnce(e: Entry, rest: seq<Entry>, log: seq<Call>)
    requires Once([e] + rest, log)
    ensures Once(rest, log)
  {
    var es := [e] + rest;
    assert forall k :: 0 <= k < |rest| ==> rest[k] == es[k + 1];
  }

  lemma HeadOnce(e: Entry, rest: seq<Entry>, log: seq<Call>, c: nat)
    requires Once([e] + rest, log) && Waiting(e, c)
    ensures !Fired(log, c) && !WaitsIn(rest, c)
  {
    var es := [e] + rest;
    assert Waiting(es[0], c);
    assert forall k :: 0 <= k < |rest| ==> rest[k] == es[k + 1];
  }

  lemma BehindOnce(e: Entry, es: seq<Entry>, log: seq<Call>)
    requires Once(es, log)
    requires forall c :: Waiting(e, c) ==> !Fired(log, c) && !WaitsIn(es, c)
    ensures Once([e] + es, log)
  {
    var all := [e] + es;
    assert forall k :: 1 <= k < |all| ==> all[k] == es[k - 1];
    forall j, k, c | 0 <= j < k < |all| && Waiting(all[j], c)
      ensures !Waiting(all[k], c)
    {
      if j == 0 {
        assert !WaitsIn(es, c);
      }
    }
  }

  // What a poll of the entries es with the log so far leads to.
  ghost predicate FairStep(es: seq<Entry>, log: seq<Call>, es': seq<Entry>, log': seq<Call>) {
    && |es'| == |es| && Once(es', log') && CallsWaiting(es, log, log')
    && (forall c :: WaitsIn(es', c) ==> WaitsIn(es, c))
    && (forall c :: WaitsIn(es, c) ==> WaitsIn(es', c) || Fired(log', c))
  }

  lemma WaitsInBoth(e: Entry, rest: seq<Entry>, c: nat)
    ensures WaitsIn([e] + rest, c) <==> Waiting(e, c) || WaitsIn(rest, c)
  {
    var es := [e] + rest;
    assert es[0] == e && forall k :: 1 <= k < |es| ==> es[k] == rest[k - 1];
    if WaitsIn(rest, c) {
      var k :| 0 <= k < |rest| && Waiting(rest[k], c);
      assert Waiting(es[k + 1], c);
    }
  }

  lemma NothingHappens(es: seq<Entry>, log: seq<Call>)
    requires Once(es, log)
    ensures FairStep(es, log, es, log)
  {
  }

  // An entry that goes on waiting, or not, before a step of the others.
  lemma KeptBehind(e: Entry, f: Entry, rest: seq<Entry>, log: seq<Call>, rest': seq<Entry>, log': seq<Call>)
    requires Once([e] + rest, log) && FairStep(rest, log, rest', log')
    requires e.Pending() == f.Pending() && e.callback == f.callback
    ensures FairStep([e] + rest, log, [f] + rest', log')
  {
    forall c | Waiting(f, c)
      ensures !Fired(log', c) && !WaitsIn(rest', c)
    {
      HeadOnce(e, rest, log, c);
    }
    BehindOnce(f, rest', log');
    forall c
      ensures WaitsIn([e] + rest, c) <==> Waiting(e, c) || WaitsIn(rest, c)
      ensures WaitsIn([f] + rest', c) <==> Waiting(f, c) || WaitsIn(rest', c)
    {
      WaitsInBoth(e, rest, c);
      WaitsInBoth(f, rest', c);
    }
  }

  lemma FailedBehind(e: Entry, f: Entry, rest: seq<Entry>, log: seq<Call>, rest': seq<Entry>, log': seq<Call>)
    requires Once([e] + rest, log) && e.Pending() && !f.Pending()
    requires FairStep(rest, Called(log, e.callback, None), rest', log')
    ensures FairStep([e] + rest, log, [f] + rest', log')
  {
    var mid := Called(log, e.callback, None);
    BehindOnce(f, rest', log');
    forall c
      ensures WaitsIn([e] + rest, c) <==> Waiting(e, c) || WaitsIn(rest, c)
      ensures WaitsIn([f] + rest', c) <==> Waiting(f, c) || WaitsIn(rest', c)
    {
      WaitsInBoth(e, rest, c);
      WaitsInBoth(f, rest', c);
    }
    forall c | Waiting(e, c)
      ensures Fired(log', c)
    {
      assert mid[|log|].c == c;
      assert log'[|log|] == mid[|log|];
    }
    forall j | |log| <= j < |log'|
      ensures log'[j].address == None && WaitsIn([e] + rest, log'[j].c)
    {
      if j < |mid| {
        assert log'[j] == mid[j] && Waiting(e, mid[j].c);
      }
    }
  }

  /** A poll calls the callbacks of the entries that fail, with NULL, and no callback twice. */
  lemma {:induction false} PollIsFair(es: seq<Entry>, log: seq<Call>, i: nat)
    requires AllOk(es) && Once(es, log)
    ensures FairStep(es, log, Poll(es, log, i).es, Poll(es, log, i).log)
    decreases |es|
  {
    if |es| == 0 {
      NothingHappens(es, log);
    } else {
      var e, rest, p := es[0], es[1..], Poll(es, log, i);
      assert es == [e] + rest;
      TailOnce(e, rest, log);
      if e.state.Asking? && Less(e.tmr) == 0 && e.retries + 1 == MAX_RETRIES {
        CalledOnce(e, rest, log, None);
        var mid := Called(log, e.callback, None);
        PollIsFair(rest, mid, i + 1);
        FailedBehind(e, p.es[0], rest, log, Poll(rest, mid, i + 1).es, p.log);
      } else if e.state.New? || (e.state.Asking? && Less(e.tmr) == 0) {
        NothingHappens(rest, log);
        KeptBehind(e, p.es[0], rest, log, rest, log);
      } else {
        PollIsFair(rest, log, i + 1);
        KeptBehind(e, p.es[0], rest, log, Poll(rest, log, i + 1).es, p.log);
      }
    }
  }

  lemma {:induction false} PollsAreFair(es: seq<Entry>, log: seq<Call>, n: nat)
    requires AllOk(es) && Once(es, log)
    ensures FairStep(es, log, Polls(es, log, n).es, Polls(es, log, n).log)
    decreases n
  {
    if n == 0 {
      NothingHappens(es, log);
    } else {
      var p, q := Polls(es, log, n - 1), Polls(es, log, n);
      PollsAreFair(es, log, n - 1);
      PollsAge(es, log, n - 1);
      PollIsFair(p.es, p.log, 0);
      assert forall c :: Fired(p.log, c) ==> Fired(q.log, c) by {
        forall c | Fired(p.log, c)
          ensures Fired(q.log, c)
        {
          var j :| 0 <= j < |p.log| && p.log[j].c == c;
          assert q.log[j].c == c;
        }
      }
    }
  }

  /** Each waiting callback has then been called, once and with NULL, and no other has. */
  lemma WaitingCallbacksAreCalled(es: seq<Entry>, log: seq<Call>, n: nat)
    requires AllOk(es) && Once(es, log) && n >= 30 * |es|
    ensures var l := Polls(es, log, n).log;
      && log <= l && (forall j, k :: 0 <= j < k < |l| ==> l[j].c != l[k].c)
      && (forall j :: |log| <= j < |l| ==> l[j].address == None)
      && (forall c :: WaitsIn(es, c) <==> Fired(l[|log|..], c))
  {
    var p := Polls(es, log, n);
    PollsAreFair(es, log, n);
    forall c
      ensures WaitsIn(es, c) <==> Fired(p.log[|log|..], c)
    {
      if WaitsIn(es, c) {
        var i :| 0 <= i < |es| && Waiting(es[i], c);
        forall k | 0 <= k < |es|
          ensures !Waiting(p.es[k], c)
        {
          QueriesExpire(es, log, n, k);
        }
        assert !WaitsIn(p.es, c) && !Fired(log, c);
        var j :| 0 <= j < |p.log| && p.log[j].c == c;
        assert j >= |log|;
        assert p.log[|log|..][j - |log|].c == c;
      }
      if Fired(p.log[|log|..], c) {
        var j :| 0 <= j < |p.log[|log|..]| && p.log[|log|..][j].c == c;
        assert p.log[j + |log|].c == c;
      }
    }
  }
}
