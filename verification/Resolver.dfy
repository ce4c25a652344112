/** protocols/dns/resolv.c: a table of queries, polled and answered. */
module Resolver {
  import opened DnsAnswers
  import opened DnsNames
  import opened MdnsSd
  import opened Options
  import opened ResolverRuns
  import opened ResolverSpec

  // The question for a name: a header of twelve octets, the name, type A and class IN.
  function Question(id: nat, name: seq<Octet>): seq<Octet>
    requires id < 256 && Short(Split(name))
  {
    Header(id) + Encoded(Split(name)) + [0, 1, 0, 1]
  }

  /** The question is one packet with the slot as its id that asks for recursion, counts one
      question and nothing else, and asks for addresses of the name. */
  lemma QuestionIsRead(id: nat, name: seq<Octet>)
    requires id < 256 && Short(Split(name)) && AllProper(Split(name))
    ensures
      var q := Question(id, name);
      && |q| >= 12 && Get16(q, 0) == id && q[2] == 0x01 && q[3] == 0x10
      && Get16(q, 4) == 1 && Get16(q, 6) == 0 && Get16(q, 8) == 0 && Get16(q, 10) == 0
      && NameAt(q, 12, 12) && Labels(q, 12, 12) == Split(name)
      && Readable(q, 12) && Skipped(q, 12) + 4 == |q|
      && Get16(q, Skipped(q, 12)) == 1 && Get16(q, Skipped(q, 12) + 2) == 1
  {
    var q, e := Question(id, name), Encoded(Split(name));
    QuestionInParts(q, Header(id), e, [0, 1, 0, 1]);
    WrittenName(q, 12, name);
    HeaderIsRead(q, id);
    Read16(q, 12 + |e|, 1);
    Read16(q, 14 + |e|, 1);
  }

  lemma HeaderIsRead(q: seq<Octet>, id: nat)
    requires |q| >= 12 && id < 256 && q[..12] == Header(id)
    ensures Get16(q, 0) == id && q[2] == 0x01 && q[3] == 0x10
    ensures Get16(q, 4) == 1 && Get16(q, 6) == 0 && Get16(q, 8) == 0 && Get16(q, 10) == 0
  {
    assert forall k :: 0 <= k < 12 ==> q[k] == q[..12][k];
  }

  lemma QuestionInParts(q: seq<Octet>, h: seq<Octet>, e: seq<Octet>, end: seq<Octet>)
    requires q == h + e + end && |h| == 12 && end == [0, 1, 0, 1]
    ensures q[..12] == h && Holds(q, 12, e) && |q| == 16 + |e|
    ensures Holds(q, 12 + |e|, Be16(1)) && Holds(q, 14 + |e|, Be16(1))
  {
    assert q[12 + |e|..] == end;
  }

  lemma TextIsShort(name: seq<Octet>)
    requires |name| < 256
    ensures Short(Split(name))
    decreases |name|
  {
    var i := FirstDot(name);
    if i < |name| {
      TextIsShort(name[i + 1..]);
    }
  }

  class Table {
    const names: array<Entry>
    var seqno: nat
    ghost var log: seq<Call>
    ghost var issued: set<nat>

    ghost function Snap(): Snapshot
      reads this, names
    {
      Snapshot(names[..], seqno, log, issued)
    }

    ghost predicate Valid()
      reads this, names
    {
      1 <= names.Length < 256 && Sound(Snap())
    }

    /** resolv_init on zeroed memory marks every entry as done. */
    constructor (entries: nat)
      requires 1 <= entries < 256
      ensures Valid() && fresh(names) && names.Length == entries && Snap() == Initial(entries)
    {
      var e := Entry(Done, 0, 0, 0, 0, [], [0, 0, 0, 0], None);
      names := new Entry[entries](_ => e);
      seqno := 0;
      log, issued := [], {};
      new;
      assert names[..] == Initial(entries).es;
    }

    // The choice of a slot in resolv_query.
    method FindSlot() returns (i: nat)
      requires Valid()
      ensures Chosen(names[..], seqno, i)
    {
      var lseq, lseqi := 0, 0;
      i := 0;
      while i < names.Length && !names[i].state.Unused?
        invariant i <= names.Length && lseqi < names.Length && lseq >= 0
        invariant forall j :: 0 <= j < i ==> !names[j].state.Unused?
        invariant forall j :: 0 <= j < i ==> Age(seqno, names[j]) <= lseq
        invariant lseq > 0 ==> Age(seqno, names[lseqi]) == lseq
        invariant lseq == 0 ==> lseqi == 0
        invariant forall j :: 0 <= j < lseqi ==> Age(seqno, names[j]) < lseq
      {
        if seqno - names[i].seqno > lseq {
          lseq, lseqi := seqno - names[i].seqno, i;
        }
        i := i + 1;
      }
      if i == names.Length {
        i := lseqi;
      }
    }

    /** resolv_query with a callback that was not passed before, or none. */
    method Query(name: seq<Octet>, callback: Option<nat>) returns (ghost i: nat)
      requires Valid() && |name| < 32 && (callback.Some? ==> callback.value !in issued)
      modifies this, names
      ensures Valid() && Step(old(Snap()), Queried(name, callback, i), Snap())
    {
      var j := FindSlot();
      i := j;
      ghost var s := Snap();
      QueryIsSound(s, name, callback, i);
      names[j] := names[j].(name := name, state := New, seqno := seqno, callback := callback);
      seqno := (seqno + 1) % 256;
      if callback.Some? {
        issued := issued + {callback.value};
      }
      assert Snap() == AfterQuery(s, name, callback, i);
    }

    // The timer of an entry that waits for a reply, and whether its question is due.
    method Tick(i: nat) returns (due: bool)
      requires i < names.Length && names[i].Pending() && names[i].Ok()
      modifies this`log, names
      ensures names[..i] == old(names[..i]) && names[i + 1..] == old(names[i + 1..])
      ensures Polled([names[i]] + names[i + 1..], log, if due then Some(i) else None)
        == if due then Poll(old(names[i..]), old(log), i)
           else Polled([names[i]] + names[i + 1..], log, None)
      ensures !due ==> Poll(old(names[i..]), old(log), i) == Behind(names[i], Poll(names[i + 1..], log, i + 1))
      ensures names[i].name == old(names[i].name)
    {
      assert names[i..][0] == names[i] && names[i..][1..] == names[i + 1..];
      if names[i].state.Asking? {
        names[i] := names[i].(tmr := (names[i].tmr + 255) % 256);
        if names[i].tmr != 0 {
          return false;
        }
        names[i] := names[i].(retries := names[i].retries + 1);
        if names[i].retries == MAX_RETRIES {
          names[i] := names[i].(state := Error);
          log := Called(log, names[i].callback, None);
          return false;
        }
        names[i] := names[i].(tmr := names[i].retries);
      } else {
        names[i] := names[i].(state := Asking, tmr := 1, retries := 0);
      }
      return true;
    }

    // One pass of the loop of resolv_periodic.
    method PollOne(m: array<Octet>, i: nat) returns (sent: nat, due: bool)
      requires i < names.Length < 256 && names[i].Ok() && m.Length >= 50 && m as object != names as object
      modifies this`log, names, m
      ensures names[..i] == old(names[..i]) && names[i + 1..] == old(names[i + 1..])
      ensures
        var rest, q := names[i + 1..], Poll(old(names[i..]), old(log), i);
        if due then q == Polled([names[i]] + rest, log, Some(i)) && Asks(m[..], sent, i, names[i].name)
        else q == Behind(names[i], Poll(rest, log, i + 1)) && sent == 0
    {
      sent, due := 0, false;
      assert names[i..][0] == names[i] && names[i..][1..] == names[i + 1..];
      if names[i].state.New? || names[i].state.Asking? {
        due := Tick(i);
        if due {
          sent := PutQuestion(m, i, names[i].name);
        }
      }
    }

    // The same, as a part of the poll with the result p; q is what is still to do.
    method PollNext(m: array<Octet>, i: nat, ghost p: Polled, ghost q: Polled)
      returns (sent: nat, due: bool, ghost q': Polled)
      requires i < names.Length < 256 && names[i].Ok() && m.Length >= 50 && m as object != names as object
      requires q == Poll(names[i..], log, i) && Remains(p, names[..i], q)
      modifies this`log, names, m
      ensures names[i + 1..] == old(names[i + 1..])
      ensures due ==> p == Polled(names[..], log, Some(i)) && Asks(m[..], sent, i, names[i].name)
      ensures !due ==> q' == Poll(names[i + 1..], log, i + 1) && Remains(p, names[..i + 1], q') && sent == 0
    {
      ghost var before := names[..i];
      sent, due := PollOne(m, i);
      ghost var rest := names[i + 1..];
      assert names[..] == before + ([names[i]] + rest) && names[..i + 1] == before + [names[i]];
      if due {
        q' := q;
      } else {
        q' := Poll(rest, log, i + 1);
        RemainsBehind(p, before, names[i], q');
      }
    }

    // The loop of resolv_periodic.
    method PollAll(m: array<Octet>, ghost p: Polled) returns (sent: nat)
      requires names.Length < 256 && AllOk(names[..]) && m.Length >= 50 && m as object != names as object
      requires p == Poll(names[..], log, 0)
      modifies this`log, names, m
      ensures names[..] == p.es && log == p.log
      ensures
        if p.sent.None? then sent == 0
        else p.sent.value < names.Length && Asks(m[..], sent, p.sent.value, names[p.sent.value].name)
    {
      ghost var es, q := names[..], p;
      var i := 0;
      assert names[0..] == es;
      while i < names.Length
        invariant i <= names.Length == |es|
        invariant q == Poll(names[i..], log, i) && Remains(p, names[..i], q) && names[i..] == es[i..]
      {
        assert names[i] == es[i..][0] == es[i] && es[i + 1..] == es[i..][1..];
        assert names[i + 1..] == names[i..][1..];
        var due;
        sent, due, q := PollNext(m, i, p, q);
        if due {
          return;
        }
        i := i + 1;
      }
      NothingRemains(p, names[..i], q, log, i);
      assert names[..i] == names[..];
      sent := 0;
    }

    /** resolv_periodic: the table ages as specified, and at most one question is sent. */
    method Periodic(m: array<Octet>) returns (sent: nat)
      requires Valid() && m.Length >= 50 && m as object != names as object
      modifies this`log, names, m
      ensures Valid() && Step(old(Snap()), Aged, Snap())
      ensures
        var p := Poll(old(names[..]), old(log), 0);
        if p.sent.None? then sent == 0
        else p.sent.value < names.Length && Asks(m[..], sent, p.sent.value, names[p.sent.value].name)
    {
      ghost var s, p := Snap(), Poll(names[..], log, 0);
      PollIsSound(s);
      sent := PollAll(m, p);
      assert Snap() == AfterPoll(s);
    }

    // The entry i becomes f by the reply o, and its callback is called or not.
    method Finish(i: nat, f: Entry, ghost o: Outcome)
      requires Valid() && Awaited(Snap(), i) && f == AfterReply(Snap(), i, o).es[i]
      modifies this`log, names
      ensures Valid() && Snap() == AfterReply(old(Snap()), i, o)
    {
      ghost var s := Snap();
      ReplyIsSound(s, i, o);
      names[i] := f;
      log := AfterReply(s, i, o).log;
      assert names[..] == AfterReply(s, i, o).es;
    }

    /** resolv_newdata: a reply ends the query in the slot its low id octet names, if that one
        waits; a reply without error and without an address ends it silently. */
    method NewData(m: array<Octet>)
      requires Valid() && m.Length >= 12 && m as object != names as object
      requires Awaited(Snap(), m[1] as nat) && HasAnswers(m[..]) ==>
        Readable(m[..], 12) && Walkable(m[..], AnswersAt(m[..]), m[7] as nat)
      modifies this`log, names
      ensures Valid()
      ensures
        var i, s := m[1] as nat, old(Snap());
        if !Awaited(s, i) then Snap() == s else Step(s, Replied(i, Meaning(m[..])), Snap())
    {
      var i := m[1] as nat;
      if i >= names.Length || !names[i].state.Asking? {
        return;
      }
      var err := m[3] as nat % 16;
      if err != 0 || (m[6] == 0 && m[7] == 0) {
        Finish(i, names[i].(state := Error, err := err), Failed(err));
        return;
      }
      assert HasAnswers(m[..]);
      var at := ParseName(m, 12);
      var a := FindAddress(m, at + 4, m[7] as nat);
      if a.Some? {
        Finish(i, names[i].(state := Done, err := err, ipaddr := a.value), Told(a.value));
      } else {
        Finish(i, names[i].(state := Done, err := err), Silent);
      }
    }

    /** resolv_lookup takes the first entry that is done under the name. */
    method Lookup(name: seq<Octet>) returns (a: Option<Address>)
      ensures a.None? <==> forall i :: 0 <= i < names.Length ==> !(names[i].state.Done? && names[i].name == name)
      ensures a.Some? ==> exists i: nat :: Found(names[..], name, i) && names[i].ipaddr == a.value
    {
      for i := 0 to names.Length
        invariant forall j :: 0 <= j < i ==> !(names[j].state.Done? && names[j].name == name)
      {
        if names[i].state.Done? && names[i].name == name {
          assert Found(names[..], name, i);
          return Some(names[i].ipaddr);
        }
      }
      a := None;
    }
  }

  /** The first two queries after resolv_init share a slot, whatever the size of the table: the
      first one is lost, and its callback stays uncalled in every later state of every run. */
  method SecondQueryReplacesFirst(entries: nat, first: seq<Octet>, second: seq<Octet>, c: nat, d: nat)
    returns (t: Table)
    requires 1 <= entries < 256 && |first| < 32 && |second| < 32 && c != d
    ensures t.Valid() && fresh(t) && t.log == [] && Lost(t.Snap(), c) && NeverCalledFrom(entries, t.Snap(), c)
  {
    t := new Table(entries);
    ghost var s := t.Snap();
    ghost var i := t.Query(first, Some(c));
    StampedChoice(s.es, 0, entries, i);
    QueryStamps(s, first, Some(c), i, 0, entries);
    s := t.Snap();
    i := t.Query(second, Some(d));
    StampedChoice(s.es, 1, entries, i);
    QueryLoses(s, second, Some(d), i, c);
    LostForever(entries, t.Snap(), c);
  }

  // The answer section of a reply, behind one question.
  ghost function AnswersAt(m: seq<Octet>): nat
    requires Readable(m, 12)
  {
    Skipped(m, 12) + 4
  }

  // resolv_newdata looks into the answers of a reply without error that counts any.
  predicate HasAnswers(m: seq<Octet>)
    requires |m| >= 12
  {
    m[3] % 16 == 0 && (m[6] != 0 || m[7] != 0)
  }

  // The reply as an event for the query it is for.
  ghost function Meaning(m: seq<Octet>): Outcome
    requires |m| >= 12
    requires HasAnswers(m) ==> Readable(m, 12) && Walkable(m, AnswersAt(m), m[7] as nat)
  {
    if !HasAnswers(m) then Failed(m[3] as nat % 16)
    else
      var a := FirstAddress(m, AnswersAt(m), m[7] as nat);
      if a.Some? then Told(a.value) else Silent
  }

  // A reply (RFC 1035, section 4.1): its question, the records that resolv_newdata reads, which
  // are as many as the low octet of the count tells, and whatever follows them.
  datatype Reply = Reply(
    id: nat, flags1: Octet, flags2: Octet, questions: nat, answers: nat, authorities: nat, additional: nat,
    name: seq<Label>, kind: nat, cls: nat, rs: seq<Record>, tail: seq<Octet>)
  {
    ghost predicate Valid() {
      && id < 0x1_0000 && questions < 0x1_0000 && answers < 0x1_0000 && authorities < 0x1_0000
      && additional < 0x1_0000 && kind < 0x1_0000 && cls < 0x1_0000
      && Short(name) && AllProper(name) && |name| > 0 && AllValid(rs) && answers % 256 == |rs|
    }

    function Head(): (h: seq<Octet>)
      requires id < 0x1_0000 && questions < 0x1_0000 && answers < 0x1_0000
      requires authorities < 0x1_0000 && additional < 0x1_0000
      ensures |h| == 12
    {
      Be16(id) + [flags1, flags2] + Be16(questions) + Be16(answers) + Be16(authorities) + Be16(additional)
    }

    ghost function Bytes(): seq<Octet>
      requires Valid()
    {
      Head() + (Encoded(name) + ((Be16(kind) + Be16(cls)) + (Section(rs) + tail)))
    }

    // What it says: the error code in the low four bits of the second octet of flags, or that there
    // is no answer, or the first address among the answers, if any has one.
    ghost function Says(): Outcome {
      if flags2 % 16 != 0 || answers == 0 then Failed(flags2 as nat % 16)
      else
        var a := FirstWithAddress(rs);
        if a.Some? then Told(a.value) else Silent
    }
  }

  lemma HeadIsRead(m: seq<Octet>, r: Reply)
    requires r.Valid() && m == r.Bytes()
    ensures |m| >= 12 && m[1] as nat == r.id % 256 && m[3] == r.flags2
    ensures m[6] as nat == r.answers / 256 && m[7] as nat == r.answers % 256
  {
    var h := r.Head();
    assert m[..12] == h;
    assert m[1] == h[1] && m[3] == h[3] && m[6] == h[6] && m[7] == h[7];
  }

  lemma PartsStand(m: seq<Octet>, a: seq<Octet>, b: seq<Octet>, c: seq<Octet>, d: seq<Octet>, e: seq<Octet>)
    requires m == a + (b + (c + (d + e)))
    ensures Holds(m, |a|, b) && Holds(m, |a| + |b| + |c|, d)
  {
    assert m[|a|..|a| + |b|] == b;
    assert m[|a| + |b| + |c|..|a| + |b| + |c| + |d|] == d;
  }

  lemma BodyStands(m: seq<Octet>, r: Reply)
    requires r.Valid() && m == r.Bytes()
    ensures Holds(m, 12, Encoded(r.name)) && Holds(m, 16 + |Encoded(r.name)|, Section(r.rs))
  {
    PartsStand(m, r.Head(), Encoded(r.name), Be16(r.kind) + Be16(r.cls), Section(r.rs), r.tail);
  }

  lemma QuestionIsPassed(m: seq<Octet>, ls: seq<Label>)
    requires Short(ls) && AllProper(ls) && |ls| > 0 && Holds(m, 12, Encoded(ls))
    ensures Readable(m, 12) && AnswersAt(m) == 16 + |Encoded(ls)|
  {
    assert Proper(ls[0]);
    EncodedIsSkipped(m, 12, ls);
  }

  lemma AnswersAreFound(m: seq<Octet>, at: nat, rs: seq<Record>)
    requires Readable(m, 12) && AnswersAt(m) == at && AllValid(rs) && Holds(m, at, Section(rs))
    ensures Finds(m, AnswersAt(m), |rs|, FirstWithAddress(rs))
  {
    WalkFindsFirst(m, at, rs);
  }

  lemma BodyIsRead(m: seq<Octet>, r: Reply)
    requires r.Valid() && m == r.Bytes()
    ensures Readable(m, 12) && Finds(m, AnswersAt(m), |r.rs|, FirstWithAddress(r.rs))
  {
    BodyStands(m, r);
    QuestionIsPassed(m, r.name);
    AnswersAreFound(m, 16 + |Encoded(r.name)|, r.rs);
  }

  /** A reply is read as what it says. */
  lemma ReplyIsRead(m: seq<Octet>, r: Reply)
    requires r.Valid() && m == r.Bytes()
    ensures |m| >= 12 && m[1] as nat == r.id % 256
    ensures HasAnswers(m) ==> Readable(m, 12) && Walkable(m, AnswersAt(m), m[7] as nat)
    ensures Meaning(m) == r.Says()
  {
    HeadIsRead(m, r);
    BodyIsRead(m, r);
    assert r.answers == r.answers / 256 * 256 + r.answers % 256;
  }

  /** Whatever reply comes in, the slot that the low octet of its id names takes what it says. */
  method TakeReply(t: Table, m: array<Octet>, ghost r: Reply)
    requires t.Valid() && m as object != t.names as object && r.Valid() && m[..] == r.Bytes()
    modifies t`log, t.names
    ensures t.Valid()
    ensures
      var i, s := r.id % 256, old(t.Snap());
      if !Awaited(s, i) then t.Snap() == s else Step(s, Replied(i, r.Says()), t.Snap())
  {
    ReplyIsRead(m[..], r);
    t.NewData(m);
  }

  method PassName(m: array<Octet>, pos: nat) returns (q: nat)
    requires pos < m.Length && (m[pos] < 64 ==> Readable(m[..], pos))
    ensures q == AfterName(m[..], pos)
  {
    if m[pos] >= 64 {
      q := pos + 2;
    } else {
      q := ParseName(m, pos);
    }
  }

  method FindAddress(m: array<Octet>, at: nat, n: nat) returns (a: Option<Address>)
    requires Walkable(m[..], at, n)
    ensures a == FirstAddress(m[..], at, n)
  {
    var pos: nat, left := at, n;
    ghost var found := FirstAddress(m[..], at, n);
    while left > 0
      invariant Finds(m[..], pos, left, found)
    {
      WalkFrom(m[..], pos, left, found);
      pos := PassName(m, pos);
      if IsAddress(m[..], pos) {
        return Some(m[pos + 10..pos + 14]);
      }
      pos := pos + 10 + Get16(m[..], pos + 8);
      left := left - 1;
    }
    a := None;
  }

  // The result p of a poll is that of the entries done, followed by q.
  ghost predicate Remains(p: Polled, done: seq<Entry>, q: Polled) {
    p == Polled(done + q.es, q.log, q.sent)
  }

  lemma RemainsBehind(p: Polled, done: seq<Entry>, e: Entry, q: Polled)
    requires Remains(p, done, Behind(e, q))
    ensures Remains(p, done + [e], q)
  {
    assert done + ([e] + q.es) == done + [e] + q.es;
  }

  lemma NothingRemains(p: Polled, done: seq<Entry>, q: Polled, log: seq<Call>, i: nat)
    requires Remains(p, done, q) && q == Poll([], log, i)
    ensures p == Polled(done, log, None)
  {
    assert done + [] == done;
  }

  // The packet holds the question for the name in slot i, and nothing behind it.
  ghost predicate Asks(m: seq<Octet>, n: nat, i: nat, name: seq<Octet>) {
    i < 256 && n <= |m| && Short(Split(name)) && m[..n] == Question(i, name)
  }

  // The characters of a label.
  method CopyLabel(m: array<Octet>, at: nat, name: seq<Octet>, k: nat) returns (n: nat)
    requires k <= |name| && at + |name| - k <= m.Length
    modifies m
    ensures n == FirstDot(name[k..]) && m[at..at + n] == name[k..k + n]
    ensures m[..at] == old(m[..at])
  {
    n := 0;
    while k + n < |name| && name[k + n] != DOT
      invariant k + n <= |name| && m[at..at + n] == name[k..k + n] && m[..at] == old(m[..at])
      invariant forall j :: k <= j < k + n ==> name[j] != DOT
    {
      m[at + n] := name[k + n];
      n := n + 1;
    }
    assert name[k..][..n] == name[k..k + n];
    FirstDotAt(name[k..], n);
  }

  // A label and its length, behind the header and what was written before.
  method PutOne(m: array<Octet>, q: nat, name: seq<Octet>, k: nat) returns (n: nat)
    requires k <= |name| < 256 && 12 <= q && q + 1 + |name| - k <= m.Length
    modifies m
    ensures n == FirstDot(name[k..]) && m[..12] == old(m[..12])
    ensures m[12..q + 1 + n] == old(m[12..q]) + ([n as Octet] + name[k..][..n])
  {
    ghost var was := m[..];
    n := CopyLabel(m, q + 1, name, k);
    assert m[..q] == m[..q + 1][..q] == was[..q];
    m[q] := n as Octet;
    assert m[..12] == m[..q][..12] && was[..12] == was[..q][..12];
    assert m[12..q] == m[..q][12..] == was[..q][12..] == was[12..q];
    assert m[12..q + 1 + n] == m[12..q] + [m[q]] + m[q + 1..q + 1 + n];
    assert name[k..][..n] == name[k..k + n];
  }

  method PutBytes(m: array<Octet>, at: nat, b: seq<Octet>)
    requires at + |b| <= m.Length
    modifies m
    ensures m[..at + |b|] == old(m[..at]) + b
  {
    for j := 0 to |b|
      invariant m[..at + j] == old(m[..at]) + b[..j]
    {
      m[at + j] := b[j];
    }
  }

  function Header(i: nat): (h: seq<Octet>)
    requires i < 256
    ensures |h| == 12
  {
    [0, i as Octet, 0x01, 0x10, 0, 1, 0, 0, 0, 0, 0, 0]
  }

  lemma NameStep(all: seq<Label>, name: seq<Octet>, k: nat, n: nat, bytes: seq<Octet>) returns (rest: seq<Label>)
    requires k <= |name| < 256 && n == FirstDot(name[k..]) && Written(all, Split(name[k..]), bytes) && Short(all)
    ensures k + n <= |name|
    ensures rest == if k + n < |name| then Split(name[k + n + 1..]) else []
    ensures Written(all, rest, bytes + ([n as Octet] + name[k..][..n]))
  {
    var data := name[k..];
    SplitOff(data);
    rest := Rest(After(data, n), n < |data|);
    WrittenOneMore(all, Split(data), bytes, data[..n], rest);
    if n < |data| {
      assert data[n + 1..] == name[k + n + 1..];
    }
  }

  // One label of the name in a question, and the rest of the name.
  method PutNext(m: array<Octet>, q: nat, name: seq<Octet>, k: nat, ghost all: seq<Label>)
    returns (q': nat, k': nat, more: bool, ghost rest: seq<Label>)
    requires k <= |name| < 32 && 12 <= q <= 12 + k && m.Length >= 50
    requires Short(all) && Written(all, Split(name[k..]), m[12..q])
    modifies m
    ensures m[..12] == old(m[..12])
    ensures k < k' <= |name| || !more
    ensures k' <= |name| && 12 <= q' <= 12 + k' + (if more then 0 else 1)
    ensures Written(all, rest, m[12..q']) && rest == if more then Split(name[k'..]) else []
  {
    ghost var bytes := m[12..q];
    var n := PutOne(m, q, name, k);
    rest := NameStep(all, name, k, n, bytes);
    q' := q + 1 + n;
    more := k + n < |name|;
    k' := if more then k + n + 1 else k + n;
  }

  // The loop that writes the name of a question; all are its labels.
  method PutAll(m: array<Octet>, name: seq<Octet>, ghost all: seq<Label>) returns (q: nat)
    requires |name| < 32 && m.Length >= 50 && Short(all) && Written(all, Split(name[0..]), [])
    modifies m
    ensures 12 <= q <= 45 && m[..12] == old(m[..12]) && Written(all, [], m[12..q])
  {
    var k, more;
    q, k, more := 12, 0, true;
    ghost var rest := Split(name[0..]);
    assert m[12..12] == [];
    while more
      invariant k <= |name| && 12 <= q <= 12 + k + (if more then 0 else 1)
      invariant m[..12] == old(m[..12]) && Written(all, rest, m[12..q])
      invariant rest == if more then Split(name[k..]) else []
      decreases more, |name| - k
    {
      q, k, more, rest := PutNext(m, q, name, k, all);
    }
  }

  // The name in a question, behind a header.
  method PutName(m: array<Octet>, name: seq<Octet>) returns (q: nat)
    requires |name| < 32 && m.Length >= 50
    modifies m
    ensures Short(Split(name)) && 12 <= q <= 45 && m[..12] == old(m[..12]) && m[12..q] == Wire(Split(name))
  {
    ghost var all := Split(name);
    TextIsShort(name);
    assert name[0..] == name && all[..0] == [];
    q := PutAll(m, name, all);
    assert all[..|all|] == all;
  }

  // The packet that resolv_periodic assembles.
  method PutQuestion(m: array<Octet>, i: nat, name: seq<Octet>) returns (sent: nat)
    requires i < 256 && |name| < 32 && m.Length >= 50
    modifies m
    ensures Asks(m[..], sent, i, name)
  {
    ghost var was := m[..];
    PutBytes(m, 0, Header(i));
    assert m[..12] == was[..0] + Header(i) == Header(i);
    var q := PutName(m, name);
    assert m[..q] == Header(i) + Wire(Split(name));
    PutBytes(m, q, [0, 0, 1, 0, 1]);
    sent := q + 5;
    assert [0 as Octet, 0, 1, 0, 1] == [0] + [0, 1, 0, 1];
  }
}
