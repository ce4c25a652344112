/** The answer section of a reply, as resolv_newdata walks it. */
module DnsAnswers {
  import opened DnsNames
  import opened Options

  function Get16(m: seq<Octet>, pos: nat): (v: nat)
    requires pos + 2 <= |m|
    ensures v < 0x1_0000
  {
    m[pos] as int * 256 + m[pos + 1] as int
  }

  // The place behind the name of a record.
  ghost function AfterName(m: seq<Octet>, pos: nat): nat
    requires pos < |m| && (m[pos] < 64 ==> Readable(m, pos))
  {
    if m[pos] >= 64 then pos + 2 else Skipped(m, pos)
  }

  // Type A, class IN, and the four octets of an address.
  predicate IsAddress(m: seq<Octet>, pos: nat)
    requires pos + 10 <= |m|
  {
    Get16(m, pos) == 1 && Get16(m, pos + 2) == 1 && Get16(m, pos + 8) == 4
  }

  // The walk over n records reads no octet behind the message.
  ghost predicate Walkable(m: seq<Octet>, pos: nat, n: nat)
    decreases n
  {
    n > 0 ==>
      && pos < |m| && (m[pos] < 64 ==> Readable(m, pos))
      && var q := AfterName(m, pos);
         q + 10 <= |m| && if IsAddress(m, q) then q + 14 <= |m| else Walkable(m, q + 10 + Get16(m, q + 8), n - 1)
  }

  // The address in the first fitting record.
  ghost function FirstAddress(m: seq<Octet>, pos: nat, n: nat): (a: Option<Address>)
    requires Walkable(m, pos, n)
    decreases n
  {
    if n == 0 then None
    else
      var q := AfterName(m, pos);
      if IsAddress(m, q) then Some(m[q + 10..q + 14])
      else FirstAddress(m, q + 10 + Get16(m, q + 8), n - 1)
  }

  // The walk over n records from pos on is safe and has this outcome.
  ghost predicate Finds(m: seq<Octet>, pos: nat, n: nat, a: Option<Address>) {
    Walkable(m, pos, n) && FirstAddress(m, pos, n) == a
  }

  // One record of the walk.
  lemma WalkFrom(m: seq<Octet>, pos: nat, n: nat, a: Option<Address>)
    requires n > 0 && Finds(m, pos, n, a)
    ensures pos < |m| && (m[pos] < 64 ==> Readable(m, pos))
    ensures var q := AfterName(m, pos);
      && q + 10 <= |m|
      && if IsAddress(m, q) then q + 14 <= |m| && a == Some(m[q + 10..q + 14])
         else Finds(m, q + 10 + Get16(m, q + 8), n - 1, a)
  {
  }

  // The octets that end the name of a record.
  function Ending(target: Option<nat>): (b: seq<Octet>)
    ensures |b| > 0 && if target.None? then b == [0] else |b| == 2 && b[0] >= 64
  {
    if target.None? then [0]
    else
      PointerHasTarget(target.value);
      Pointer(target.value)
  }

  // A resource record (RFC 1035, section 4.1.3) whose name is written out or ends in a pointer.
  datatype Record = Record(ls: seq<Label>, target: Option<nat>, kind: nat, cls: nat, ttl: seq<Octet>, data: seq<Octet>)
  {
    predicate Valid() {
      && AllProper(ls) && Short(ls) && (target.None? ==> |ls| > 0)
      && kind < 0x1_0000 && cls < 0x1_0000 && |ttl| == 4 && |data| < 0x1_0000
    }

    function Name(): seq<Octet>
      requires Valid()
    {
      Wire(ls) + Ending(target)
    }

    function Bytes(): seq<Octet>
      requires Valid()
    {
      Name() + Be16(kind) + Be16(cls) + ttl + Be16(|data|) + data
    }

    predicate HasAddress() {
      kind == 1 && cls == 1 && |data| == 4
    }
  }

  ghost predicate AllValid(rs: seq<Record>) {
    forall i :: 0 <= i < |rs| ==> rs[i].Valid()
  }

  ghost function Section(rs: seq<Record>): seq<Octet>
    requires AllValid(rs)
  {
    if |rs| == 0 then [] else rs[0].Bytes() + Section(rs[1..])
  }

  ghost function FirstWithAddress(rs: seq<Record>): Option<Address> {
    if |rs| == 0 then None else if rs[0].HasAddress() then Some(rs[0].data) else FirstWithAddress(rs[1..])
  }

  lemma Read16(m: seq<Octet>, pos: nat, v: nat)
    requires v < 0x1_0000 && Holds(m, pos, Be16(v))
    ensures Get16(m, pos) == v
  {
    assert m[pos] == m[pos..pos + 2][0] && m[pos + 1] == m[pos..pos + 2][1];
  }

  lemma WireIsBefore(m: seq<Octet>, pos: nat, ls: seq<Label>)
    requires AllProper(ls) && Short(ls) && |ls| > 0 && Holds(m, pos, Wire(ls)) && pos + |Wire(ls)| < |m|
    requires m[pos + |Wire(ls)|] == 0 || m[pos + |Wire(ls)|] >= 64
    ensures pos < |m| && m[pos] < 64 && Readable(m, pos)
    ensures var e := pos + |Wire(ls)|; AfterName(m, pos) == if m[e] == 0 then e + 1 else e + 2
  {
    WireIsSkipped(m, pos, ls);
    FirstOnWire(m, pos, ls);
    assert Proper(ls[0]);
  }

  lemma NameIsPassed(m: seq<Octet>, pos: nat, r: Record)
    requires r.Valid() && Holds(m, pos, r.Name())
    ensures pos < |m| && (m[pos] < 64 ==> Readable(m, pos)) && AfterName(m, pos) == pos + |r.Name()|
  {
    var w, last := Wire(r.ls), Ending(r.target);
    HeldPart(m, pos, w, last);
    var e := pos + |w|;
    assert m[e] == m[e..e + |last|][0] == last[0];
    if |r.ls| > 0 {
      WireIsBefore(m, pos, r.ls);
    }
  }

  lemma PartsAreHeld(m: seq<Octet>, pos: nat, a: seq<Octet>, b: seq<Octet>, c: seq<Octet>,
                     d: seq<Octet>, e: seq<Octet>, f: seq<Octet>)
    requires Holds(m, pos, a + b + c + d + e + f)
    ensures Holds(m, pos, a)
    ensures var q := pos + |a|;
      && Holds(m, q, b) && Holds(m, q + |b|, c) && Holds(m, q + |b| + |c| + |d|, e)
      && Holds(m, q + |b| + |c| + |d| + |e|, f)
  {
    HeldPart(m, pos, a + b + c + d + e, f);
    HeldPart(m, pos, a + b + c + d, e);
    HeldPart(m, pos, a + b + c, d);
    HeldPart(m, pos, a + b, c);
    HeldPart(m, pos, a, b);
  }

  // The record of r stands at pos, and its fields behind the name at q.
  ghost predicate ReadsAs(m: seq<Octet>, pos: nat, q: nat, r: Record) {
    && pos < |m| && (m[pos] < 64 ==> Readable(m, pos)) && q == AfterName(m, pos)
    && q + 10 + |r.data| <= |m|
    && Get16(m, q) == r.kind && Get16(m, q + 2) == r.cls && Get16(m, q + 8) == |r.data|
    && m[q + 10..q + 10 + |r.data|] == r.data
  }

  lemma RecordIsRead(m: seq<Octet>, pos: nat, r: Record)
    requires r.Valid() && Holds(m, pos, r.Bytes())
    ensures |r.Bytes()| == |r.Name()| + 10 + |r.data|
    ensures ReadsAs(m, pos, pos + |r.Name()|, r)
  {
    PartsOfRecord(m, pos, r);
    NameIsPassed(m, pos, r);
    FieldsAreRead(m, pos + |r.Name()|, r);
  }

  lemma PartsOfRecord(m: seq<Octet>, pos: nat, r: Record)
    requires r.Valid() && Holds(m, pos, r.Bytes())
    ensures |r.Bytes()| == |r.Name()| + 10 + |r.data|
    ensures var q := pos + |r.Name()|;
      && Holds(m, pos, r.Name()) && Holds(m, q, Be16(r.kind)) && Holds(m, q + 2, Be16(r.cls))
      && Holds(m, q + 8, Be16(|r.data|)) && Holds(m, q + 10, r.data)
  {
    PartsAreHeld(m, pos, r.Name(), Be16(r.kind), Be16(r.cls), r.ttl, Be16(|r.data|), r.data);
  }

  lemma FieldsAreRead(m: seq<Octet>, q: nat, r: Record)
    requires r.Valid() && Holds(m, q, Be16(r.kind)) && Holds(m, q + 2, Be16(r.cls))
    requires Holds(m, q + 8, Be16(|r.data|)) && Holds(m, q + 10, r.data)
    ensures q + 10 + |r.data| <= |m| && m[q + 10..q + 10 + |r.data|] == r.data
    ensures Get16(m, q) == r.kind && Get16(m, q + 2) == r.cls && Get16(m, q + 8) == |r.data|
  {
    Read16(m, q, r.kind);
    Read16(m, q + 2, r.cls);
    Read16(m, q + 8, |r.data|);
  }

  lemma WalkStep(m: seq<Octet>, pos: nat, q: nat, r: Record, n: nat, a: Option<Address>)
    requires ReadsAs(m, pos, q, r)
    requires !r.HasAddress() ==> Finds(m, q + 10 + |r.data|, n, a)
    ensures Finds(m, pos, n + 1, if r.HasAddress() then Some(r.data) else a)
  {
    assert IsAddress(m, q) <==> r.HasAddress();
  }

  // A record, and what the walk finds behind it.
  lemma RecordThenRest(m: seq<Octet>, pos: nat, r: Record, next: nat, n: nat, a: Option<Address>)
    requires r.Valid() && Holds(m, pos, r.Bytes()) && next == pos + |r.Bytes()| && Finds(m, next, n, a)
    ensures Finds(m, pos, n + 1, if r.HasAddress() then Some(r.data) else a)
  {
    RecordIsRead(m, pos, r);
    WalkStep(m, pos, pos + |r.Name()|, r, n, a);
  }

  lemma FirstIsHeld(m: seq<Octet>, pos: nat, rs: seq<Record>)
    requires AllValid(rs) && |rs| > 0 && Holds(m, pos, Section(rs))
    ensures rs[0].Valid() && Holds(m, pos, rs[0].Bytes())
    ensures AllValid(rs[1..]) && Holds(m, pos + |rs[0].Bytes()|, Section(rs[1..]))
  {
    HeldPart(m, pos, rs[0].Bytes(), Section(rs[1..]));
  }

  lemma FirstOrLater(rs: seq<Record>)
    requires |rs| > 0
    ensures FirstWithAddress(rs) == if rs[0].HasAddress() then Some(rs[0].data) else FirstWithAddress(rs[1..])
  {
  }

  /** Of a well-formed answer section, the walk takes the first address record. */
  lemma {:induction false} WalkFindsFirst(m: seq<Octet>, pos: nat, rs: seq<Record>)
    requires AllValid(rs) && Holds(m, pos, Section(rs))
    ensures Finds(m, pos, |rs|, FirstWithAddress(rs))
    decreases |rs|
  {
    if |rs| > 0 {
      var rest, next := rs[1..], pos + |rs[0].Bytes()|;
      FirstIsHeld(m, pos, rs);
      WalkFindsFirst(m, next, rest);
      FirstOrLater(rs);
      RecordThenRest(m, pos, rs[0], next, |rest|, FirstWithAddress(rest));
    }
  }
}
