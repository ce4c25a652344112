/** The address table of protocols/uip/uip_arp.c against a plain map from addresses to hardware addresses. */
module ArpTable {

  import opened Options

  // An address in its two 16-bit halves.
  datatype Ip = Ip(hi: nat, lo: nat)
  {
    predicate Regular() {
      hi != 0 && lo != 0
    }
  }

  const UNUSED := Ip(0, 0)

  datatype Entry<Mac> = Entry(ip: Ip, mac: Mac, time: nat)

  const MAXAGE := 120

  // Tick counts are octets, but they are subtracted as wider numbers.
  function Age<Mac>(now: nat, e: Entry<Mac>): int {
    now - e.time
  }

  // The first entry for an address, or the size of the table.
  function First<Mac>(es: seq<Entry<Mac>>, ip: Ip): (i: nat)
    ensures i <= |es| && (i < |es| ==> es[i].ip == ip)
    ensures forall j :: 0 <= j < i ==> es[j].ip != ip
  {
    if |es| == 0 || es[0].ip == ip then 0
    else
      var i := First(es[1..], ip);
      assert forall j :: 1 <= j < 1 + i ==> es[j].ip == es[1..][j - 1].ip;
      1 + i
  }

  // uip_arp_lookup
  function Lookup<Mac>(es: seq<Entry<Mac>>, ip: Ip): Option<Mac> {
    var i := First(es, ip);
    if i < |es| then Some(es[i].mac) else None
  }

  // The choice among the first n entries when none is unused.
  function Oldest<Mac>(es: seq<Entry<Mac>>, now: nat, n: nat): (c: nat)
    requires 1 <= |es| && n <= |es|
    ensures c < |es|
  {
    if n == 0 then 0
    else
      var c := Oldest(es, now, n - 1);
      if Age(now, es[n - 1]) > PositiveAge(now, es[c]) then n - 1 else c
  }

  function PositiveAge<Mac>(now: nat, e: Entry<Mac>): nat {
    if Age(now, e) > 0 then Age(now, e) else 0
  }

  // The entry that uip_arp_update fills; it only looks for addresses whose halves are both
  // not zero.
  function Slot<Mac>(es: seq<Entry<Mac>>, now: nat, ip: Ip): (i: nat)
    requires 1 <= |es|
    ensures i < |es|
  {
    if ip.Regular() && First(es, ip) < |es| then First(es, ip)
    else if First(es, UNUSED) < |es| then First(es, UNUSED)
    else Oldest(es, now, |es|)
  }

  function Updated<Mac>(es: seq<Entry<Mac>>, now: nat, ip: Ip, mac: Mac): (fs: seq<Entry<Mac>>)
    requires 1 <= |es|
    ensures |fs| == |es|
  {
    es[Slot(es, now, ip) := Entry(ip, mac, now)]
  }

  lemma {:induction false} OldestIsOldest<Mac>(es: seq<Entry<Mac>>, now: nat, n: nat, j: nat)
    requires 1 <= |es| && j < n <= |es|
    ensures Age(now, es[j]) <= PositiveAge(now, es[Oldest(es, now, n)])
  {
    if j < n - 1 {
      OldestIsOldest(es, now, n - 1, j);
    }
  }

  /** An evicted entry is one of the oldest while no stamp is ahead of the clock. */
  lemma EvictedIsOldest<Mac>(es: seq<Entry<Mac>>, now: nat, ip: Ip, j: nat)
    requires j < |es| && First(es, UNUSED) == |es| && !(ip.Regular() && First(es, ip) < |es|)
    requires forall k :: 0 <= k < |es| ==> es[k].time <= now
    ensures es[Slot(es, now, ip)].time <= es[j].time
  {
    OldestIsOldest(es, now, |es|, j);
  }

  // At most one entry for every address whose halves are both not zero.
  predicate Unique<Mac>(es: seq<Entry<Mac>>) {
    forall i, j :: 0 <= i < j < |es| && es[i].ip.Regular() ==> es[i].ip != es[j].ip
  }

  lemma FirstIs<Mac>(es: seq<Entry<Mac>>, ip: Ip, i: nat)
    requires i <= |es| && (i < |es| ==> es[i].ip == ip)
    requires forall j :: 0 <= j < i ==> es[j].ip != ip
    ensures First(es, ip) == i
  {
  }

  /** An update keeps entries unique. */
  lemma UniqueIsKept<Mac>(es: seq<Entry<Mac>>, now: nat, ip: Ip, mac: Mac)
    requires 1 <= |es| && Unique(es)
    ensures Unique(Updated(es, now, ip, mac))
  {
    var s := Slot(es, now, ip);
    if ip.Regular() {
      forall j | 0 <= j < |es| && j != s
        ensures es[j].ip != ip
      {
        var f := First(es, ip);
        assert f < |es| ==> s == f && es[f].ip == ip;
      }
    }
  }

  /** After an update a lookup finds the new hardware address exactly when the address has no
      zero half, or no other entry for it comes before the one filled, or that one agrees. */
  lemma LookupAfterUpdate<Mac>(es: seq<Entry<Mac>>, now: nat, ip: Ip, mac: Mac)
    requires 1 <= |es| && ip != UNUSED
    ensures Lookup(Updated(es, now, ip, mac), ip) == Some(mac)
      <==> ip.Regular() || First(es, ip) >= Slot(es, now, ip) || Lookup(es, ip) == Some(mac)
  {
    var s, f, fs := Slot(es, now, ip), First(es, ip), Updated(es, now, ip, mac);
    if f < s {
      FirstIs(fs, ip, f);
    } else {
      FirstIs(fs, ip, s);
    }
  }

  /** An address with a zero half can be found with an old hardware address. */
  lemma ZeroHalfIsFoundStale()
    ensures
      var es := Updated([Entry(Ip(10, 0), 'a', 0), Entry(UNUSED, 'z', 0)], 1, Ip(10, 0), 'b');
      Lookup(es, Ip(10, 0)) == Some('a') && es[0].ip == es[1].ip
  {
    var es := [Entry(Ip(10, 0), 'a', 0), Entry(UNUSED, 'z', 0)];
    FirstIs(es, UNUSED, 1);
    FirstIs(es, Ip(10, 0), 0);
    LookupAfterUpdate(es, 1, Ip(10, 0), 'b');
    FirstIs(Updated(es, 1, Ip(10, 0), 'b'), Ip(10, 0), 0);
  }

  /** Lookups of other addresses are unchanged but for the one evicted, which is gone. */
  lemma OthersAreKept<Mac>(es: seq<Entry<Mac>>, now: nat, ip: Ip, mac: Mac, other: Ip)
    requires 1 <= |es| && Unique(es) && other != ip && other != UNUSED
    ensures
      var s := Slot(es, now, ip);
      && (other != es[s].ip ==> Lookup(Updated(es, now, ip, mac), other) == Lookup(es, other))
      && (other == es[s].ip && other.Regular() ==> Lookup(Updated(es, now, ip, mac), other) == None)
      && (other == es[s].ip ==> First(es, UNUSED) == |es| && (ip.Regular() ==> First(es, ip) == |es|))
  {
    var s, f, fs := Slot(es, now, ip), First(es, other), Updated(es, now, ip, mac);
    if other != es[s].ip {
      FirstIs(fs, other, f);
    } else if other.Regular() {
      assert forall j :: 0 <= j < |es| && j != s ==> es[j].ip != other;
      FirstIs(fs, other, |fs|);
    }
  }

  // uip_arp_timer at the new tick count
  predicate Expired<Mac>(now: nat, e: Entry<Mac>) {
    e.ip != UNUSED && Age(now, e) >= MAXAGE
  }

  function Aged<Mac>(es: seq<Entry<Mac>>, now: nat): (fs: seq<Entry<Mac>>)
    ensures |fs| == |es|
    ensures forall i :: 0 <= i < |es| ==> fs[i] == if Expired(now, es[i]) then es[i].(ip := UNUSED) else es[i]
  {
    seq(|es|, i requires 0 <= i < |es| => if Expired(now, es[i]) then es[i].(ip := UNUSED) else es[i])
  }

  function Tick(now: nat): nat {
    (now + 1) % 256
  }

  function Clock(now: nat, n: nat): (t: nat)
    requires now < 256
    ensures t < 256 && (now + n < 256 ==> t == now + n)
  {
    if n == 0 then now else Tick(Clock(now, n - 1))
  }

  // The table after n ticks.
  function Ticks<Mac>(es: seq<Entry<Mac>>, now: nat, n: nat): (fs: seq<Entry<Mac>>)
    requires now < 256
    ensures |fs| == |es|
  {
    if n == 0 then es else Aged(Ticks(es, now, n - 1), Clock(now, n))
  }

  lemma {:induction false} KeptSoFar<Mac>(es: seq<Entry<Mac>>, now: nat, n: nat, i: nat)
    requires now < 256 && i < |es| && es[i].ip != UNUSED
    requires forall k: nat :: 1 <= k <= n ==> Clock(now, k) - es[i].time < MAXAGE
    ensures Ticks(es, now, n)[i] == es[i]
    decreases n
  {
    if n > 0 {
      KeptSoFar(es, now, n - 1, i);
      assert Clock(now, n) - es[i].time < MAXAGE;
    }
  }

  /** An entry stamped late in the count of ticks is never dropped, however many follow. */
  lemma LateStampsNeverExpire<Mac>(es: seq<Entry<Mac>>, now: nat, n: nat, i: nat)
    requires now < 256 && i < |es| && es[i].ip != UNUSED && es[i].time + MAXAGE >= 256
    ensures Ticks(es, now, n)[i] == es[i]
  {
    KeptSoFar(es, now, n, i);
  }

  /** A fresh entry is dropped at its 120th tick and not before, if it can be dropped at all. */
  lemma FreshEntryExpires<Mac>(es: seq<Entry<Mac>>, now: nat, n: nat, i: nat)
    requires now < 256 && i < |es| && es[i].ip != UNUSED && es[i].time == now && n <= MAXAGE
    ensures Ticks(es, now, n)[i].ip == UNUSED <==> n == MAXAGE && now + MAXAGE < 256
  {
    if now + MAXAGE >= 256 {
      LateStampsNeverExpire(es, now, n, i);
    } else if n < MAXAGE {
      KeptSoFar(es, now, n, i);
    } else {
      KeptSoFar(es, now, n - 1, i);
      assert Clock(now, n) == now + n;
    }
  }

  /** Ticks only ever remove addresses. */
  lemma {:induction false} TicksOnlyRemove<Mac>(es: seq<Entry<Mac>>, now: nat, n: nat)
    requires now < 256 && Unique(es)
    ensures Unique(Ticks(es, now, n))
    ensures forall i :: 0 <= i < |es| ==> Ticks(es, now, n)[i] == es[i] || Ticks(es, now, n)[i] == es[i].(ip := UNUSED)
    decreases n
  {
    if n > 0 {
      TicksOnlyRemove(es, now, n - 1);
    }
  }

  /** An update writes one entry, with the time of the update, and no other. The entry had the
      address; or none had it and this one was unused; or all others were in use. */
  lemma OneEntryIsWritten<Mac>(es: seq<Entry<Mac>>, now: nat, ip: Ip, mac: Mac)
    requires 1 <= |es| && Unique(es) && ip.Regular()
    ensures exists s ::
      && 0 <= s < |es| && Updated(es, now, ip, mac) == es[s := Entry(ip, mac, now)]
      && (es[s].ip != ip ==> (forall k :: 0 <= k < |es| ==> es[k].ip != ip))
      && (es[s].ip != ip && es[s].ip != UNUSED ==> (forall k :: 0 <= k < |es| ==> es[k].ip != UNUSED))
  {
    var s := Slot(es, now, ip);
    assert Updated(es, now, ip, mac) == es[s := Entry(ip, mac, now)];
    if es[s].ip != ip {
      assert First(es, ip) == |es|;
    }
  }

  lemma {:induction false} StillDropped<Mac>(es: seq<Entry<Mac>>, now: nat, n: nat, m: nat, i: nat)
    requires now < 256 && i < |es| && n <= m && Ticks(es, now, n)[i].ip == UNUSED
    ensures Ticks(es, now, m)[i].ip == UNUSED
    decreases m
  {
    if n < m {
      StillDropped(es, now, n, m - 1, i);
    }
  }

  lemma OnlyEntry<Mac>(es: seq<Entry<Mac>>, i: nat, ip: Ip, mac: Mac)
    requires Unique(es) && ip.Regular() && i < |es| && es[i].ip == ip && es[i].mac == mac
    ensures Lookup(es, ip) == Some(mac)
  {
    FirstIs(es, ip, i);
  }

  lemma FreshIsOnlyEntry<Mac>(es: seq<Entry<Mac>>, now: nat, ip: Ip, mac: Mac, n: nat)
    returns (s: nat)
    requires 1 <= |es| && Unique(es) && ip.Regular() && now < 256
    ensures s < |es| && Updated(es, now, ip, mac)[s] == Entry(ip, mac, now)
    ensures Unique(Ticks(Updated(es, now, ip, mac), now, n))
    ensures forall j :: 0 <= j < |es| && j != s ==> Ticks(Updated(es, now, ip, mac), now, n)[j].ip != ip
  {
    s := Slot(es, now, ip);
    var fs := Updated(es, now, ip, mac);
    UniqueIsKept(es, now, ip, mac);
    TicksOnlyRemove(fs, now, n);
    assert fs[s] == Entry(ip, mac, now);
    forall j | 0 <= j < |es| && j != s
      ensures Ticks(fs, now, n)[j].ip != ip
    {
      assert fs[j].ip != ip;
    }
  }

  /** What an update stores is found for the next 119 ticks and then no longer, unless it was
      stamped so late in the count of ticks that it is always found. */
  lemma FoundFor119Ticks<Mac>(es: seq<Entry<Mac>>, now: nat, ip: Ip, mac: Mac, n: nat)
    requires 1 <= |es| && Unique(es) && ip.hi != 0 && ip.lo != 0 && now < 256
    ensures Lookup(Ticks(Updated(es, now, ip, mac), now, n), ip)
      == if n < 120 || now + 120 >= 256 then Some(mac) else None
  {
    var fs := Updated(es, now, ip, mac);
    var s := FreshIsOnlyEntry(es, now, ip, mac, n);
    if now + 120 >= 256 {
      LateStampsNeverExpire(fs, now, n, s);
      OnlyEntry(Ticks(fs, now, n), s, ip, mac);
    } else if n < 120 {
      KeptSoFar(fs, now, n, s);
      OnlyEntry(Ticks(fs, now, n), s, ip, mac);
    } else {
      FreshEntryExpires(fs, now, 120, s);
      StillDropped(fs, now, 120, n, s);
      FirstIs(Ticks(fs, now, n), ip, |fs|);
    }
  }

  // --- runs ---------------------------------------------------------------------------------

  datatype Event<Mac> = Learn(ip: Ip, mac: Mac) | Passed

  datatype State<Mac> = State(es: seq<Entry<Mac>>, now: nat)
  {
    ghost predicate Valid() {
      1 <= |es| && now < 256 && Unique(es)
    }
  }

  function Happen<Mac>(s: State<Mac>, e: Event<Mac>): State<Mac>
    requires s.Valid()
  {
    match e
    case Learn(ip, mac) => s.(es := Updated(s.es, s.now, ip, mac))
    case Passed => State(Aged(s.es, Tick(s.now)), Tick(s.now))
  }

  function Run<Mac>(s: State<Mac>, h: seq<Event<Mac>>): (t: State<Mac>)
    requires s.Valid()
    ensures t.Valid() && |t.es| == |s.es|
    decreases |h|
  {
    if h == [] then s
    else
      var t := Run(s, h[..|h| - 1]);
      assert Happen(t, h[|h| - 1]).Valid() by {
        StaysValid(t, h[|h| - 1]);
      }
      Happen(t, h[|h| - 1])
  }

  lemma StaysValid<Mac>(s: State<Mac>, e: Event<Mac>)
    requires s.Valid()
    ensures Happen(s, e).Valid()
  {
    match e
    case Learn(ip, mac) => UniqueIsKept(s.es, s.now, ip, mac);
    case Passed =>
  }

  // What a history tells of an address: the last hardware address learned, when in the count of
  // ticks, and how many ticks ago.
  datatype Story<Mac> = Never | Learned(mac: Mac, at: nat, since: nat)

  function TicksIn<Mac>(h: seq<Event<Mac>>): nat {
    if h == [] then 0 else TicksIn(h[..|h| - 1]) + if h[|h| - 1].Passed? then 1 else 0
  }

  function StoryOf<Mac>(now: nat, h: seq<Event<Mac>>, ip: Ip): Story<Mac> {
    if h == [] then Never
    else
      var t := StoryOf(now, h[..|h| - 1], ip);
      match h[|h| - 1]
      case Learn(other, mac) => if other == ip then Learned(mac, (now + TicksIn(h)) % 256, 0) else t
      case Passed => if t.Learned? then t.(since := t.since + 1) else Never
  }

  predicate Live<Mac>(t: Story<Mac>) {
    t.Learned? && (t.since < 120 || t.at >= 136)
  }

  predicate InUse<Mac>(es: seq<Entry<Mac>>, ip: Ip) {
    exists i :: 0 <= i < |es| && es[i].ip == ip
  }

  // The table has an entry with what the history tells, or none.
  ghost predicate Tells<Mac>(s: State<Mac>, ip: Ip, t: Story<Mac>) {
    && (t.Learned? ==> t.at < 256 && s.now == (t.at + t.since) % 256)
    && if Live(t) then Entry(ip, t.mac, t.at) in s.es else !InUse(s.es, ip)
  }

  ghost predicate Among<Mac>(h: seq<Event<Mac>>, ips: set<Ip>) {
    forall e :: e in h && e.Learn? ==> e.ip in ips && e.ip.Regular()
  }

  lemma TickTells<Mac>(s: State<Mac>, ip: Ip, t: Story<Mac>)
    requires s.Valid() && ip.Regular() && Tells(s, ip, t)
    ensures Tells(Happen(s, Passed), ip, if t.Learned? then t.(since := t.since + 1) else Never)
  {
    if Live(t) {
      var i :| 0 <= i < |s.es| && s.es[i] == Entry(ip, t.mac, t.at);
      ExpiresAt119(s.now, s.es[i], t.since);
      assert forall j :: 0 <= j < |s.es| && j != i ==> s.es[j].ip != ip;
      TickOfEntry(s, i);
    }
  }

  lemma TickOfEntry<Mac>(s: State<Mac>, i: nat)
    requires s.Valid() && i < |s.es|
    ensures Happen(s, Passed).es[i] == if Expired(Tick(s.now), s.es[i]) then s.es[i].(ip := UNUSED) else s.es[i]
  {
  }

  lemma ExpiresAt119<Mac>(now: nat, e: Entry<Mac>, since: nat)
    requires e.ip != UNUSED && e.time < 256 && now == (e.time + since) % 256 && (since < 120 || e.time >= 136)
    ensures Expired(Tick(now), e) <==> e.time < 136 && since == 119
  {
  }

  lemma LearnedTells<Mac>(s: State<Mac>, ip: Ip, mac: Mac)
    requires s.Valid() && ip.Regular()
    ensures Tells(Happen(s, Learn(ip, mac)), ip, Learned(mac, s.now, 0))
  {
    assert Updated(s.es, s.now, ip, mac)[Slot(s.es, s.now, ip)] == Entry(ip, mac, s.now);
  }

  lemma OtherTells<Mac>(s: State<Mac>, ip: Ip, t: Story<Mac>, other: Ip, mac: Mac)
    requires s.Valid() && ip.Regular() && Tells(s, ip, t) && other.Regular() && other != ip
    requires InUse(s.es, other) || InUse(s.es, UNUSED)
    ensures Tells(Happen(s, Learn(other, mac)), ip, t)
  {
    var k := Slot(s.es, s.now, other);
    assert s.es[k].ip == other || s.es[k].ip == UNUSED;
    if Live(t) {
      var i :| 0 <= i < |s.es| && s.es[i] == Entry(ip, t.mac, t.at);
      assert Updated(s.es, s.now, other, mac)[i] == s.es[i];
    }
  }

  // Entries for different addresses fit in no fewer places.
  lemma {:induction false} DistinctInUse<Mac>(es: seq<Entry<Mac>>, ips: set<Ip>)
    requires Unique(es) && forall i :: 0 <= i < |es| ==> es[i].ip.Regular() && es[i].ip in ips
    ensures |es| <= |ips|
    decreases |es|
  {
    if |es| > 0 {
      var n := |es| - 1;
      DistinctInUse(es[..n], ips - {es[n].ip});
    }
  }

  ghost predicate OnlyOf<Mac>(es: seq<Entry<Mac>>, ips: set<Ip>) {
    forall i :: 0 <= i < |es| && es[i].ip != UNUSED ==> es[i].ip.Regular() && es[i].ip in ips
  }

  // Among no more addresses than entries, one that has none finds an unused entry.
  lemma RoomForOne<Mac>(es: seq<Entry<Mac>>, ips: set<Ip>, ip: Ip)
    requires Unique(es) && OnlyOf(es, ips) && |ips| <= |es| && ip in ips && !InUse(es, ip)
    ensures InUse(es, UNUSED)
  {
    if !InUse(es, UNUSED) {
      DistinctInUse(es, ips - {ip});
    }
  }

  lemma StillOnlyOf<Mac>(s: State<Mac>, e: Event<Mac>, ips: set<Ip>)
    requires s.Valid() && OnlyOf(s.es, ips) && (e.Learn? ==> e.ip in ips && e.ip.Regular())
    ensures OnlyOf(Happen(s, e).es, ips)
  {
    var es := Happen(s, e).es;
    forall i | 0 <= i < |es| && es[i].ip != UNUSED
      ensures es[i].ip.Regular() && es[i].ip in ips
    {
      assert es[i].ip == s.es[i].ip || (e.Learn? && es[i].ip == e.ip);
    }
  }

  lemma {:induction false} OnlyAmong<Mac>(s: State<Mac>, h: seq<Event<Mac>>, ips: set<Ip>)
    requires s.Valid() && Among(h, ips) && OnlyOf(s.es, ips)
    ensures OnlyOf(Run(s, h).es, ips)
    decreases |h|
  {
    if h != [] {
      var g := h[..|h| - 1];
      assert forall e :: e in g ==> e in h;
      OnlyAmong(s, g, ips);
      assert h[|h| - 1] in h;
      StillOnlyOf(Run(s, g), h[|h| - 1], ips);
    }
  }

  lemma NextTick(k: nat)
    ensures Tick(k % 256) == (k + 1) % 256
  {
  }

  lemma {:induction false} ClockOfRun<Mac>(s: State<Mac>, h: seq<Event<Mac>>)
    requires s.Valid()
    ensures Run(s, h).now == (s.now + TicksIn(h)) % 256
    decreases |h|
  {
    if h != [] {
      ClockOfRun(s, h[..|h| - 1]);
      NextTick(s.now + TicksIn(h[..|h| - 1]));
    }
  }

  lemma LearnTells<Mac>(s: State<Mac>, ips: set<Ip>, ip: Ip, t: Story<Mac>, other: Ip, mac: Mac)
    requires s.Valid() && ip.Regular() && Tells(s, ip, t)
    requires OnlyOf(s.es, ips) && |ips| <= |s.es| && other in ips && other.Regular()
    ensures Tells(Happen(s, Learn(other, mac)), ip, if other == ip then Learned(mac, s.now, 0) else t)
  {
    if other == ip {
      LearnedTells(s, ip, mac);
    } else {
      if !InUse(s.es, other) {
        RoomForOne(s.es, ips, other);
      }
      OtherTells(s, ip, t, other, mac);
    }
  }

  lemma {:induction false} RunTells<Mac>(s: State<Mac>, h: seq<Event<Mac>>, ips: set<Ip>, ip: Ip)
    requires s.Valid() && Among(h, ips) && |ips| <= |s.es| && ip.Regular()
    requires forall i :: 0 <= i < |s.es| ==> s.es[i].ip == UNUSED
    ensures Tells(Run(s, h), ip, StoryOf(s.now, h, ip))
    decreases |h|
  {
    if h != [] {
      var g, e := h[..|h| - 1], h[|h| - 1];
      assert forall e :: e in g ==> e in h;
      var u, t := Run(s, g), StoryOf(s.now, g, ip);
      RunTells(s, g, ips, ip);
      if e.Learn? {
        assert e in h;
        OnlyAmong(s, g, ips);
        ClockOfRun(s, g);
        LearnTells(u, ips, ip, t, e.ip, e.mac);
      } else {
        TickTells(u, ip, t);
      }
    }
  }

  /** As long as no more addresses are learned than the table has entries, it is a map of the last
      119 ticks, whatever was learned in which order: a lookup gives the hardware address learned
      last if that was not 120 or more ticks ago, or if it was stamped 136 or later. */
  lemma LookupIsStory<Mac>(s: State<Mac>, h: seq<Event<Mac>>, ips: set<Ip>, ip: Ip)
    requires s.Valid() && Among(h, ips) && |ips| <= |s.es| && ip.Regular()
    requires forall i :: 0 <= i < |s.es| ==> s.es[i].ip == UNUSED
    ensures Lookup(Run(s, h).es, ip) ==
      match StoryOf(s.now, h, ip)
      case Never => None
      case Learned(mac, at, since) => if since < 120 || at >= 136 then Some(mac) else None
  {
    RunTells(s, h, ips, ip);
    var t, es := StoryOf(s.now, h, ip), Run(s, h).es;
    if Live(t) {
      var i :| 0 <= i < |es| && es[i] == Entry(ip, t.mac, t.at);
      OnlyEntry(es, i, ip, t.mac);
    } else {
      FirstIs(es, ip, |es|);
    }
  }

  class Table<Mac(0)> {
    const entries: array<Entry<Mac>>
    var arptime: nat

    ghost predicate Valid()
      reads this, entries
    {
      1 <= entries.Length < 256 && arptime < 256 && Unique(entries[..])
    }

    /** uip_arp_init on any memory. */
    constructor (memory: array<Entry<Mac>>, arptime: nat)
      requires 1 <= memory.Length < 256 && arptime < 256
      modifies memory
      ensures Valid() && entries == memory && this.arptime == arptime
      ensures forall ip :: ip != UNUSED ==> Lookup(entries[..], ip) == None
    {
      entries := memory;
      this.arptime := arptime;
      new;
      for i := 0 to entries.Length
        invariant entries == memory && this.arptime == arptime
        invariant forall j :: 0 <= j < i ==> entries[j].ip == UNUSED
      {
        entries[i] := entries[i].(ip := UNUSED);
      }
    }

    /** uip_arp_timer */
    method Timer()
      requires Valid()
      modifies this`arptime, entries
      ensures Valid() && arptime == Tick(old(arptime)) && entries[..] == Aged(old(entries[..]), arptime)
    {
      ghost var es := entries[..];
      arptime := (arptime + 1) % 256;
      for i := 0 to entries.Length
        invariant arptime == Tick(old(arptime))
        invariant forall j :: 0 <= j < i ==> entries[j] == Aged(es, arptime)[j]
        invariant forall j :: i <= j < entries.Length ==> entries[j] == es[j]
      {
        if entries[i].ip != UNUSED && arptime - entries[i].time >= MAXAGE {
          entries[i] := entries[i].(ip := UNUSED);
        }
      }
      assert entries[..] == Aged(es, arptime);
    }

    /** uip_arp_update */
    method Update(ip: Ip, mac: Mac)
      requires Valid()
      modifies entries
      ensures Valid() && entries[..] == Updated(old(entries[..]), arptime, ip, mac)
    {
      ghost var es := entries[..];
      UniqueIsKept(es, arptime, ip, mac);
      var i := 0;
      while i < entries.Length
        invariant i <= entries.Length && entries[..] == es
        invariant ip.Regular() ==> i <= First(es, ip)
      {
        if entries[i].ip.hi != 0 && entries[i].ip.lo != 0 && ip == entries[i].ip {
          entries[i] := entries[i].(mac := mac, time := arptime);
          return;
        }
        i := i + 1;
      }
      i := 0;
      while i < entries.Length && entries[i].ip != UNUSED
        invariant i <= First(es, UNUSED) && entries[..] == es
      {
        i := i + 1;
      }
      if i == entries.Length {
        var tmpage, c := 0, 0;
        for j := 0 to entries.Length
          invariant c < entries.Length && c == Oldest(es, arptime, j) && entries[..] == es
          invariant tmpage == if j == 0 then 0 else PositiveAge(arptime, es[c])
        {
          if arptime - entries[j].time > tmpage {
            tmpage, c := arptime - entries[j].time, j;
          }
        }
        i := c;
      }
      entries[i] := Entry(ip, mac, arptime);
    }

    /** uip_arp_lookup */
    method Find(ip: Ip) returns (mac: Option<Mac>)
      ensures mac == Lookup(entries[..], ip)
    {
      for i := 0 to entries.Length
        invariant i <= First(entries[..], ip)
      {
        if ip == entries[i].ip {
          return Some(entries[i].mac);
        }
      }
      mac := None;
    }
  }
}
