/** protocols/mdns_sd/mdns_sd.c: writing, skipping and comparing names in messages. */
module MdnsSd {
  import opened CompareWalk
  import opened DnsAnswers
  import opened DnsNames
  import opened Options

  /** parse_name */
  method ParseName(m: array<Octet>, at: nat) returns (end: nat)
    requires Readable(m[..], at)
    ensures end == Skipped(m[..], at)
    ensures NameAt(m[..], at, at) ==> (end == NameEnd(m[..], at, at) <==> m[at] != 0)
  {
    var q := at;
    var more := true;
    while more
      invariant more ==> Readable(m[..], q) && Skipped(m[..], q) == Skipped(m[..], at)
      invariant !more ==> q + 1 == Skipped(m[..], at)
      decreases more, m.Length - q
    {
      var n := m[q];
      q := q + 1;
      if n >= 64 {
        break;
      }
      q := q + n as int;
      more := m[q] != 0;
    }
    end := q + 1;
    if NameAt(m[..], at, at) {
      SkipsNameIffNotRoot(m[..], at);
    }
  }

  // The labels of dotted text, if there is any.
  function LabelsOf(text: Option<seq<Octet>>): (ls: seq<Label>)
    ensures Short(ls)
  {
    if text.None? then [] else (CutIsShort(text.value); CutLabels(text.value))
  }

  function Room(text: Option<seq<Octet>>): nat {
    if text.None? then 1 else |text.value| + 2
  }

  // What a write from start to end leaves alone.
  lemma Framed(was: seq<Octet>, now: seq<Octet>, at: nat, start: nat, end: nat)
    requires at <= start <= end <= |was| == |now|
    requires now[..start] == was[..start] && now[end..] == was[end..]
    ensures now[at..end] == was[at..start] + now[start..end] && now[..at] == was[..at]
    ensures forall i :: end <= i < |was| ==> now[i] == was[i]
  {
    assert now[..start][at..] == was[..start][at..];
    assert now[..start][..at] == was[..start][..at];
    assert forall i :: end <= i < |was| ==> now[i] == now[end..][i - end] && was[i] == was[end..][i - end];
  }

  lemma StillFramed(orig: seq<Octet>, was: seq<Octet>, now: seq<Octet>, at: nat, start: nat, end: nat)
    requires at <= start <= end <= |orig| == |was| == |now|
    requires was[..at] == orig[..at] && was[start..] == orig[start..]
    requires now[..start] == was[..start] && now[end..] == was[end..]
    ensures now[..at] == orig[..at] && now[end..] == orig[end..]
  {
    Framed(was, now, at, start, end);
    assert was[end..] == was[start..][end - start..] && orig[end..] == orig[start..][end - start..];
  }

  // One pass of the loop of append_label.
  method PutFirst(m: array<Octet>, at: nat, from: nat, data: seq<Octet>, ghost all: seq<Label>) returns (end: nat)
    requires at <= from && from + 1 + |data| <= m.Length
    requires Short(all) && Written(all, CutLabels(data), m[at..from])
    modifies m
    ensures end == from + 1 + CutLength(data)
    ensures Written(all, CutRest(data), m[at..end])
    ensures m[..from] == old(m[..from]) && m[end..] == old(m[end..])
  {
    var len := CutLength(data);
    ghost var bytes, was := m[at..from], m[..];
    end := PutLabel(m, from, data[..len]);
    Framed(was, m[..], at, from, end);
    WrittenOneMore(all, CutLabels(data), bytes, data[..len], CutRest(data));
  }

  method PutLabels(m: array<Octet>, at: nat, text: seq<Octet>, ghost all: seq<Label>) returns (end: nat)
    requires at + |text| + 1 <= m.Length && all == CutLabels(text) && Short(all)
    modifies m
    ensures at <= end <= at + |text| + 1
    ensures m[at..end] == Wire(all)
    ensures m[..at] == old(m[..at]) && m[end..] == old(m[end..])
  {
    end := at;
    var data, more := text, true;
    ghost var orig, rest := m[..], all;
    while more
      invariant at <= end && end + |data| + (if more then 1 else 0) <= at + |text| + 1
      invariant m[..at] == orig[..at] && m[end..] == orig[end..]
      invariant Written(all, rest, m[at..end]) && rest == if more then CutLabels(data) else []
      decreases more, |data|
    {
      ghost var was, start := m[..], end;
      end := PutFirst(m, at, end, data, all);
      rest := CutRest(data);
      StillFramed(orig, was, m[..], at, start, end);
      more := FirstDot(data) < |data|;
      data := After(data, CutLength(data));
    }
    assert all[..|all|] == all;
  }

  /** append_label */
  method AppendLabel(m: array<Octet>, at: nat, text: Option<seq<Octet>>) returns (end: nat)
    requires at + Room(text) <= m.Length
    modifies m
    ensures at < end <= at + Room(text)
    ensures m[at..end] == Encoded(LabelsOf(text))
    ensures m[..at] == old(m[..at]) && m[end..] == old(m[end..])
  {
    end := at;
    if text.Some? {
      end := PutLabels(m, at, text.value, LabelsOf(text));
    }
    ghost var bytes := m[at..end];
    m[end] := 0;
    end := end + 1;
    assert m[at..end] == bytes + [0];
  }

  // A length and the characters of a label.
  method PutLabel(m: array<Octet>, at: nat, lab: seq<Octet>) returns (end: nat)
    requires |lab| < 256 && at + 1 + |lab| <= m.Length
    modifies m
    ensures end == at + 1 + |lab| && m[at..end] == [|lab| as Octet] + lab
    ensures m[..at] == old(m[..at]) && m[end..] == old(m[end..])
  {
    m[at] := |lab| as Octet;
    end := at + 1;
    for i := 0 to |lab|
      invariant end == at + 1 + i && m[at..end] == [|lab| as Octet] + lab[..i]
      invariant m[..at] == old(m[..at]) && m[end..] == old(m[end..])
    {
      m[end] := lab[i];
      end := end + 1;
    }
  }

  lemma Mismatch(a: seq<Label>, b: seq<Label>, done: seq<Label>)
    requires a != [] && b != [] && a[0] != b[0]
    ensures !Comparable(done + a, done + b)
  {
    var n := |done|;
    assert (done + a)[n] == a[0] && (done + b)[n] == b[0];
  }

  // Both lists begin with the labels done.
  ghost predicate Agreed(ls: seq<Label>, ts: seq<Label>, done: seq<Label>, a: seq<Label>, b: seq<Label>) {
    ls == done + a && ts == done + b
  }

  lemma AgreedOneMore(ls: seq<Label>, ts: seq<Label>, done: seq<Label>, l: Label, a: seq<Label>, b: seq<Label>)
    requires Agreed(ls, ts, done, [l] + a, [l] + b)
    ensures Agreed(ls, ts, done + [l], a, b)
  {
  }

  lemma AgreedAll(ls: seq<Label>, ts: seq<Label>, done: seq<Label>, a: seq<Label>, b: seq<Label>)
    requires Agreed(ls, ts, done, a, b) && (a == [] || b == [])
    ensures Comparable(ls, ts)
  {
  }

  lemma Disagreed(ls: seq<Label>, ts: seq<Label>, done: seq<Label>, l: Label, a: seq<Label>, k: Label, b: seq<Label>)
    requires Agreed(ls, ts, done, [l] + a, [k] + b) && k != l
    ensures !Comparable(ls, ts)
  {
    Mismatch([l] + a, [k] + b, done);
  }

  lemma PointerStep(p: seq<Octet>, run: nat, pos: nat)
    requires NameAt(p, run, pos) && p[pos] >= 64
    ensures pos + 1 < |p|
    ensures var t := Target(p[pos], p[pos + 1]);
      t < run && NameAt(p, t, t) && Labels(p, run, pos) == Labels(p, t, t)
  {
  }

  lemma LabelStep(p: seq<Octet>, run: nat, pos: nat)
    requires NameAt(p, run, pos) && 0 < p[pos] < 64
    ensures var next := pos + 1 + p[pos] as int;
      next < |p| && NameAt(p, run, next) && Labels(p, run, pos) == [p[pos + 1..next]] + Labels(p, run, next)
  {
  }

  // Where the walk ends for a name whose pointers lead to before their run of labels.
  lemma WalkMeans(m: seq<Octet>, run: nat, pos: nat, data: seq<Octet>,
                  ls: seq<Label>, ts: seq<Label>, done: seq<Label>) returns (n: nat, r: bool)
    requires NameAt(m, run, pos) && m[pos] != 0
    requires Agreed(ls, ts, done, Labels(m, run, pos), CutLabels(data))
    ensures Passes(m, At(pos, data), n) == Says(r)
    ensures r <==> Comparable(ls, ts)
    decreases run, |m| - pos, 1
  {
    if m[pos] >= 64 {
      PointerStep(m, run, pos);
      var t := Target(m[pos], m[pos + 1]);
      n, r := WalkOn(m, t, t, data, ls, ts, done);
    } else {
      n, r := WalkLabel(m, run, pos, data, ls, ts, done);
    }
    n := n + 1;
  }

  lemma WalkLabel(m: seq<Octet>, run: nat, pos: nat, data: seq<Octet>,
                  ls: seq<Label>, ts: seq<Label>, done: seq<Label>) returns (n: nat, r: bool)
    requires NameAt(m, run, pos) && 0 < m[pos] < 64
    requires Agreed(ls, ts, done, Labels(m, run, pos), CutLabels(data))
    ensures Passes(m, Pass(m, pos, data), n) == Says(r)
    ensures r <==> Comparable(ls, ts)
    decreases run, |m| - pos, 0
  {
    var next := pos + 1 + m[pos] as int;
    LabelStep(m, run, pos);
    var l, k, a, b := m[pos + 1..next], data[..CutLength(data)], Labels(m, run, next), CutRest(data);
    PassLabel(m, pos, data, l, k);
    if l != k {
      Disagreed(ls, ts, done, l, a, k, b);
      n, r := 0, false;
    } else {
      AgreedOneMore(ls, ts, done, l, a, b);
      if FirstDot(data) == |data| {
        AgreedAll(ls, ts, done + [l], a, b);
        n, r := 0, true;
      } else {
        n, r := WalkOn(m, run, next, data[CutLength(data) + 1..], ls, ts, done + [l]);
      }
    }
  }

  lemma PassLabel(m: seq<Octet>, pos: nat, data: seq<Octet>, l: Label, k: Label)
    requires pos < |m| && m[pos] < 64 && pos + 1 + m[pos] as int <= |m|
    requires l == m[pos + 1..pos + 1 + m[pos] as int] && k == data[..CutLength(data)]
    ensures Pass(m, pos, data) == Compared(m, pos + 1 + |l|, l == k, data)
  {
    assert |l| == m[pos] as int && |k| == CutLength(data);
  }

  lemma WalkOn(m: seq<Octet>, run: nat, pos: nat, data: seq<Octet>,
               ls: seq<Label>, ts: seq<Label>, done: seq<Label>) returns (n: nat, r: bool)
    requires NameAt(m, run, pos) && Agreed(ls, ts, done, Labels(m, run, pos), CutLabels(data))
    ensures Passes(m, Next(m, pos, data), n) == Says(r)
    ensures r <==> Comparable(ls, ts)
    decreases run, |m| - pos, 2
  {
    if m[pos] == 0 {
      AgreedAll(ls, ts, done, [], CutLabels(data));
      n, r := 0, true;
    } else {
      n, r := WalkMeans(m, run, pos, data, ls, ts, done);
    }
  }

  /** The walk ends, and inside the message. */
  ghost predicate Ends(m: seq<Octet>, at: nat, text: seq<Octet>) {
    exists n, r :: Passes(m, At(at, text), n) == Says(r)
  }

  /** Over a name whose pointers lead to before their run of labels it does, and accepts exactly
      if one of the decompressed labels and the text's is a beginning of the other. */
  lemma NameIsCompared(m: seq<Octet>, at: nat, text: seq<Octet>) returns (n: nat, r: bool)
    requires NameAt(m, at, at) && m[at] != 0
    ensures Passes(m, At(at, text), n) == Says(r) && Ends(m, at, text)
    ensures r <==> Comparable(Labels(m, at, at), CutLabels(text))
  {
    n, r := WalkMeans(m, at, at, text, Labels(m, at, at), CutLabels(text), []);
  }

  /** The root name is rejected if the text begins with a label, accepted if the text is one empty
      label, and otherwise the walk goes on in what stands behind the root. */
  lemma RootIsCompared(m: seq<Octet>, at: nat, text: seq<Octet>)
    requires at < |m| && m[at] == 0
    ensures Pass(m, at, text) ==
      if CutLabels(text)[0] != [] then Says(false)
      else if CutLabels(text) == [[]] then Says(true)
      else Next(m, at + 1, text[1..])
    ensures CutLabels(text) == [[]] || CutLabels(text)[0] != [] ==>
      Passes(m, At(at, text), 1) == Says(CutLabels(text) == [[]]) && Ends(m, at, text)
  {
    assert CutLabels(text)[0] == text[..CutLength(text)];
    assert CutLabels(text)[1..] == CutRest(text);
    assert CutLength(text) == 0 ==> m[at + 1..at + 1] == text[..0];
    assert Passes(m, At(at, text), 1) == Passes(m, Pass(m, at, text), 0);
  }

  datatype Verdict = Different | Alike | Undecided

  // The walk when a pass of the loop has left it like that.
  function Reached(m: seq<Octet>, v: Verdict, pos: nat, data: seq<Octet>): Walk {
    match v
    case Different => Says(false)
    case Alike => Says(true)
    case Undecided => Next(m, pos, data)
  }

  method ReadPointer(m: array<Octet>, pos: nat) returns (t: nat)
    requires pos + 1 < m.Length
    ensures t == Target(m[pos], m[pos + 1])
  {
    t := m[pos] as int % 64 * 256 + m[pos + 1] as int;
  }

  // One pass of the loop of compare_label.
  method CompareOne(m: array<Octet>, pos: nat, data: seq<Octet>) returns (v: Verdict, pos': nat, data': seq<Octet>)
    requires pos < m.Length && Pass(m[..], pos, data) != Outside
    ensures Pass(m[..], pos, data) == Reached(m[..], v, pos', data')
  {
    if m[pos] >= 64 {
      pos' := ReadPointer(m, pos);
      return Undecided, pos', data;
    }
    var n, len := m[pos] as int, CutLength(data);
    if len != n {
      return Different, pos, data;
    }
    var same := m[pos + 1..pos + 1 + n] == data[..len];
    if !same {
      return Different, pos, data;
    }
    if FirstDot(data) == |data| {
      return Alike, pos, data;
    }
    return Undecided, pos + 1 + n, data[len + 1..];
  }

  /** compare_label, on any message: the result is that of the walk, if the walk ends. */
  method CompareLabel(m: array<Octet>, at: nat, text: seq<Octet>) returns (r: bool)
    requires Ends(m[..], at, text)
    ensures exists n :: Passes(m[..], At(at, text), n) == Says(r)
    ensures Means(m[..], at, text, r)
  {
    ghost var n: nat, s :| Passes(m[..], At(at, text), n) == Says(s);
    r := CompareLoop(m, at, text, n, s);
    OneAnswer(m[..], at, text, r);
  }

  method CompareLoop(m: array<Octet>, at: nat, text: seq<Octet>, ghost passes: nat, ghost s: bool) returns (r: bool)
    requires Passes(m[..], At(at, text), passes) == Says(s)
    ensures r == s
  {
    ghost var n := passes;
    var v, pos, data := CompareNext(m, at, text, n, s);
    n := n - 1;
    while v == Undecided && m[pos] != 0
      invariant Leads(m[..], v, pos, data, n, s)
      decreases n
    {
      v, pos, data := CompareNext(m, pos, data, n, s);
      n := n - 1;
    }
    r := v != Different;
  }

  // After a pass, the walk will say s.
  ghost predicate Leads(m: seq<Octet>, v: Verdict, pos: nat, data: seq<Octet>, n: int, s: bool) {
    match v
    case Different => !s
    case Alike => s
    case Undecided => pos < |m| && if m[pos] == 0 then s else n >= 0 && Passes(m, At(pos, data), n) == Says(s)
  }

  method CompareNext(m: array<Octet>, pos: nat, data: seq<Octet>, ghost n: nat, ghost s: bool)
    returns (v: Verdict, pos': nat, data': seq<Octet>)
    requires Passes(m[..], At(pos, data), n) == Says(s)
    ensures n > 0 && Leads(m[..], v, pos', data', n - 1, s)
  {
    OncePassed(m[..], pos, data, n, s);
    v, pos', data' := CompareOne(m, pos, data);
  }

  lemma OncePassed(m: seq<Octet>, pos: nat, data: seq<Octet>, n: nat, s: bool)
    requires Passes(m, At(pos, data), n) == Says(s)
    ensures n > 0 && pos < |m| && Pass(m, pos, data) != Outside && Passes(m, Pass(m, pos, data), n - 1) == Says(s)
  {
  }

  // What the result says of the name and the text, unless an empty first label of the text leads
  // the walk behind the root.
  ghost predicate Means(m: seq<Octet>, at: nat, text: seq<Octet>, r: bool) {
    && (NameAt(m, at, at) && m[at] != 0 ==> (r <==> Comparable(Labels(m, at, at), CutLabels(text))))
    && (at < |m| && m[at] == 0 && (CutLabels(text)[0] != [] || CutLabels(text) == [[]]) ==>
          (r <==> CutLabels(text) == [[]]))
  }

  lemma OneAnswer(m: seq<Octet>, at: nat, text: seq<Octet>, s: bool)
    requires exists n :: Passes(m, At(at, text), n) == Says(s)
    ensures Means(m, at, text, s)
  {
    var k :| Passes(m, At(at, text), k) == Says(s);
    if NameAt(m, at, at) && m[at] != 0 {
      var n, r := NameIsCompared(m, at, text);
      SameAnswer(m, At(at, text), n, k);
    } else if at < |m| && m[at] == 0 && (CutLabels(text)[0] != [] || CutLabels(text) == [[]]) {
      RootIsCompared(m, at, text);
      SameAnswer(m, At(at, text), 1, k);
    }
  }

  method Put16(m: array<Octet>, at: nat, v: nat)
    requires at + 2 <= m.Length && v < 0x1_0000
    modifies m
    ensures m[..] == old(m[..at]) + Be16(v) + old(m[at + 2..])
  {
    m[at] := (v / 256) as Octet;
    m[at + 1] := (v % 256) as Octet;
  }

  function BothLabels(first: seq<Octet>, second: Option<seq<Octet>>): (ls: seq<Label>)
    ensures Short(ls)
  {
    LabelsOf(Some(first)) + LabelsOf(second)
  }

  // The name of append_answer_header: the second part overwrites the end of the first.
  method AppendName(m: array<Octet>, at: nat, first: seq<Octet>, second: Option<seq<Octet>>) returns (end: nat)
    requires at + |first| + 1 + Room(second) <= m.Length
    modifies m
    ensures at < end <= at + |first| + 1 + Room(second)
    ensures m[at..end] == Encoded(BothLabels(first, second))
    ensures m[..at] == old(m[..at]) && m[end..] == old(m[end..])
  {
    ghost var orig, a, b := m[..], LabelsOf(Some(first)), LabelsOf(second);
    end := AppendLabel(m, at, Some(first));
    if second.Some? {
      ghost var was, mid := m[..], end - 1;
      end := AppendLabel(m, end - 1, second);
      NamesJoined(orig, was, m[..], at, mid, end, a, b);
    } else {
      assert a + [] == a;
    }
  }

  lemma NamesJoined(orig: seq<Octet>, was: seq<Octet>, now: seq<Octet>, at: nat, mid: nat, end: nat,
                    a: seq<Label>, b: seq<Label>)
    requires at <= mid < end <= |orig| == |was| == |now| && Short(a) && Short(b)
    requires was[..at] == orig[..at] && was[mid + 1..] == orig[mid + 1..]
    requires now[..mid] == was[..mid] && now[end..] == was[end..]
    requires was[at..mid + 1] == Encoded(a) && now[mid..end] == Encoded(b)
    ensures now[at..end] == Encoded(a + b)
    ensures now[..at] == orig[..at] && now[end..] == orig[end..]
  {
    Framed(was, now, at, mid, end);
    assert now[end..] == was[mid + 1..][end - mid - 1..] == orig[mid + 1..][end - mid - 1..];
    assert was[at..mid] == was[at..mid + 1][..mid - at] == Wire(a);
    WireOfBoth(a, b);
    assert Wire(a) + (Wire(b) + [0]) == Wire(a) + Wire(b) + [0];
  }

  // What append_answer_header writes behind the name.
  function AnswerInfo(kind: nat, cls: nat, ttl: nat): (b: seq<Octet>)
    requires kind < 0x1_0000 && cls < 0x1_0000 && ttl < 0x1_0000
    ensures |b| == 8
  {
    Be16(kind) + Be16(cls) + [0, 0] + Be16(ttl)
  }

  /** It is read as the type, the class and, in two parts, the time to live. */
  lemma InfoIsRead(m: seq<Octet>, pos: nat, kind: nat, cls: nat, ttl: nat)
    requires kind < 0x1_0000 && cls < 0x1_0000 && ttl < 0x1_0000 && Holds(m, pos, AnswerInfo(kind, cls, ttl))
    ensures Get16(m, pos) == kind && Get16(m, pos + 2) == cls
    ensures Get16(m, pos + 4) == 0 && Get16(m, pos + 6) == ttl
  {
    var a, b := Be16(kind) + Be16(cls), [0, 0] + Be16(ttl);
    Regroup(Be16(kind), Be16(cls), [0, 0], Be16(ttl));
    HeldPart(m, pos, a, b);
    HeldPart(m, pos, Be16(kind), Be16(cls));
    HeldPart(m, pos + 4, [0, 0], Be16(ttl));
    Read16(m, pos, kind);
    Read16(m, pos + 2, cls);
    Read16(m, pos + 4, 0);
    Read16(m, pos + 6, ttl);
  }

  // Two octets behind what was written so far, before the rest of the memory, which stays from end on.
  method PutNext16(m: array<Octet>, at: nat, v: nat, ghost done: seq<Octet>, ghost end: nat)
    requires at + 2 <= end <= m.Length && v < 0x1_0000 && m[..at] == done
    modifies m
    ensures m[..at + 2] == done + Be16(v) && m[end..] == old(m[end..])
  {
    ghost var was, rest := m[..], m[at + 2..];
    Put16(m, at, v);
    assert m[..] == done + Be16(v) + rest;
    assert m[end..] == rest[end - at - 2..] == was[end..];
  }

  method PutInfo(m: array<Octet>, at: nat, kind: nat, cls: nat, ttl: nat)
    requires kind < 0x1_0000 && cls < 0x1_0000 && ttl < 0x1_0000 && at + 8 <= m.Length
    modifies m
    ensures m[..at] == old(m[..at]) && m[at..at + 8] == AnswerInfo(kind, cls, ttl)
    ensures m[at + 8..] == old(m[at + 8..])
  {
    ghost var pre := m[..at];
    PutNext16(m, at, kind, pre, at + 8);
    PutNext16(m, at + 2, cls, pre + Be16(kind), at + 8);
    PutNext16(m, at + 4, 0, pre + Be16(kind) + Be16(cls), at + 8);
    PutNext16(m, at + 6, ttl, pre + Be16(kind) + Be16(cls) + [0, 0], at + 8);
    assert m[..at + 8] == pre + AnswerInfo(kind, cls, ttl);
    assert m[..at] == m[..at + 8][..at] && m[at..at + 8] == m[..at + 8][at..];
  }

  /** append_answer_header returns where the length of the data belongs. */
  method AppendAnswerHeader(m: array<Octet>, at: nat, first: seq<Octet>, second: Option<seq<Octet>>,
                            cls: nat, kind: nat, ttl: nat) returns (lenAt: nat)
    requires kind < 0x1_0000 && cls < 0x1_0000 && ttl < 0x1_0000
    requires at + |first| + 1 + Room(second) + 10 <= m.Length
    modifies m
    ensures at + 8 < lenAt <= at + |first| + 1 + Room(second) + 8
    ensures m[at..lenAt - 8] == Encoded(BothLabels(first, second))
    ensures m[lenAt - 8..lenAt] == AnswerInfo(kind, cls, ttl)
    ensures m[..at] == old(m[..at]) && m[lenAt..] == old(m[lenAt..])
  {
    var end := AppendName(m, at, first, second);
    ghost var was := m[..];
    PutInfo(m, end, kind, cls, ttl);
    lenAt := end + 8;
    Framed(was, m[..], at, end, lenAt);
    assert m[lenAt..] == was[end..][8..];
  }

  lemma PointerInMemory(t: nat)
    ensures Be16(0xC000 + t % 0x4000) == Pointer(t)
  {
    LowPart(t);
    TwoOctets(0xC0 + t / 256 % 64, t % 256);
  }

  lemma LowPart(t: nat)
    ensures t % 0x4000 == t / 256 % 64 * 256 + t % 256
  {
  }

  lemma TwoOctets(hi: nat, lo: nat)
    requires hi < 256 && lo < 256
    ensures (hi * 256 + lo) / 256 == hi && (hi * 256 + lo) % 256 == lo
  {
  }

  // The pointer over the end of the labels, and the length of the data before them.
  method PutLinks(m: array<Octet>, at: nat, lenAt: nat, e: nat)
    requires at < 0x1_0000 && lenAt + 2 < e < lenAt + 0x1_0000 && e + 1 <= m.Length
    modifies m
    ensures m[..lenAt] == old(m[..lenAt]) && m[e + 1..] == old(m[e + 1..])
    ensures m[lenAt..lenAt + 2] == Be16(e - 1 - lenAt)
    ensures m[lenAt + 2..e + 1] == old(m[lenAt + 2..e - 1]) + Pointer(at)
  {
    ghost var first := m[..];
    PointerInMemory(at);
    Put16(m, e - 1, 0xC000 + at % 0x4000);
    ghost var was := m[..];
    Put16(m, lenAt, e - 1 - lenAt);
    LinksArePut(first, was, m[..], lenAt, e, Be16(e - 1 - lenAt), Pointer(at));
  }

  lemma LinksArePut(m0: seq<Octet>, m1: seq<Octet>, m2: seq<Octet>, i: nat, e: nat, a: seq<Octet>, b: seq<Octet>)
    requires i + 2 < e && e + 1 <= |m0| == |m1| == |m2| && |a| == |b| == 2
    requires m1 == m0[..e - 1] + b + m0[e + 1..] && m2 == m1[..i] + a + m1[i + 2..]
    ensures m2[..i] == m0[..i] && m2[i..i + 2] == a
    ensures m2[i + 2..e + 1] == m0[i + 2..e - 1] + b && m2[e + 1..] == m0[e + 1..]
  {
    var k := e - 1 - i;
    assert m1[..e + 1] == m0[..e - 1] + b && m1[e + 1..] == m0[e + 1..];
    assert m1[i + 2..e + 1] == m1[..e + 1][i + 2..] == m0[..e - 1][i + 2..] + b;
    assert m2[i + 2..] == m1[i + 2..];
    assert m2[i + 2..e + 1] == m2[i + 2..][..k] == m1[i + 2..][..k] == m1[i + 2..e + 1];
    assert m2[e + 1..] == m2[i + 2..][k..] == m1[i + 2..][k..] == m1[e + 1..];
    assert m2[..i] == m1[..i] == m1[..e + 1][..i] == m0[..i];
  }

  // The memory after the header, the labels and the links of a PTR record.
  lemma RecordLayout(m0: seq<Octet>, m1: seq<Octet>, m2: seq<Octet>, m3: seq<Octet>, at: nat, lenAt: nat, e: nat)
    requires at + 8 < lenAt && lenAt + 2 < e && e + 1 <= |m0| == |m1| == |m2| == |m3|
    requires m1[..at] == m0[..at] && m1[lenAt..] == m0[lenAt..]
    requires m2[..lenAt + 2] == m1[..lenAt + 2] && m2[e..] == m1[e..]
    requires m3[..lenAt] == m2[..lenAt] && m3[e + 1..] == m2[e + 1..]
    ensures m3[..at] == m0[..at] && m3[e + 1..] == m0[e + 1..] && m3[at..lenAt] == m1[at..lenAt]
  {
    assert m3[..lenAt] == m2[..lenAt + 2][..lenAt] == m1[..lenAt];
    assert m3[..at] == m3[..lenAt][..at] && m1[..at] == m1[..lenAt][..at];
    assert m3[at..lenAt] == m3[..lenAt][at..] && m1[at..lenAt] == m1[..lenAt][at..];
    assert m2[e + 1..] == m2[e..][1..] == m1[e..][1..] == m1[lenAt..][e + 1 - lenAt..] == m0[e + 1..];
  }

  // What a PTR record says when it is read.
  lemma PtrIsRead(m: seq<Octet>, at: nat, data: nat, end: nat, os: seq<Label>, ls: seq<Label>)
    requires AllProper(os) && AllProper(ls) && Short(os) && Short(ls) && at < 0x4000
    requires Holds(m, at, Encoded(os)) && data == at + |Encoded(os)| + 10
    requires Holds(m, data, Wire(ls) + Pointer(at)) && end == data + |Wire(ls)| + 2
    ensures Names(m, at, os, data - 10) && Names(m, data, ls + os, end)
  {
    EncodedIsRead(m, at, os);
    PointerIsRead(m, at, os, data, ls);
    NameIsEnded(m, at, os);
  }

  lemma NameIsEnded(m: seq<Octet>, at: nat, os: seq<Label>)
    requires AllProper(os) && Short(os) && Holds(m, at, Encoded(os))
    ensures NameAt(m, at, at) && NameEnd(m, at, at) == at + |Encoded(os)|
  {
    var e := at + |Wire(os)|;
    HeldPart(m, at, Wire(os), [0]);
    assert m[e] == m[e..e + 1][0];
    WireIsPassed(m, at, at, os);
  }

  // The name at pos is ls and ends at end.
  ghost predicate Names(m: seq<Octet>, pos: nat, ls: seq<Label>, end: nat) {
    NameAt(m, pos, pos) && Labels(m, pos, pos) == ls && NameEnd(m, pos, pos) == end
  }

  // Type PTR, class IN, 600 seconds to live and the length of the data.
  predicate PtrFields(m: seq<Octet>, pos: nat, length: nat) {
    && pos + 10 <= |m|
    && Get16(m, pos) == 12 && Get16(m, pos + 2) == 1 && Get16(m, pos + 4) == 0 && Get16(m, pos + 6) == 600
    && Get16(m, pos + 8) == length
  }

  // At at stands the name os, and data to end is its PTR data: the name ls followed by os.
  ghost predicate IsPtrRecord(m: seq<Octet>, at: nat, data: nat, end: nat, os: seq<Label>, ls: seq<Label>) {
    && at + 10 < data <= end <= |m| && end - data < 0x1_0000
    && Names(m, at, os, data - 10) && PtrFields(m, data - 10, end - data) && Names(m, data, ls + os, end)
  }

  /** The walk of a resolver passes such a record and goes on behind it. */
  lemma PtrRecordIsPassed(m: seq<Octet>, at: nat, data: nat, end: nat, os: seq<Label>, ls: seq<Label>,
                          n: nat, a: Option<Address>)
    requires IsPtrRecord(m, at, data, end, os, ls) && |os| > 0
    ensures Finds(m, at, n + 1, a) <==> Finds(m, end, n, a)
  {
    NonRootIsSkipped(m, at, at);
    assert AfterName(m, at) == data - 10;
  }

  // The memory m after the writes of a PTR record, by way of m1 and m2.
  ghost predicate RecordPut(m1: seq<Octet>, m2: seq<Octet>, m: seq<Octet>, at: nat, lenAt: nat, e: nat,
                            os: seq<Label>, ls: seq<Label>)
  {
    && at + 8 < lenAt && lenAt + 2 < e < lenAt + 0x1_0000 && e + 1 <= |m| == |m1| == |m2|
    && Short(os) && m1[at..lenAt - 8] == Encoded(os)
    && Short(ls) && m2[lenAt + 2..e] == Encoded(ls)
    && m1[lenAt - 8..lenAt] == AnswerInfo(0x0C, 1, 600)
    && m[at..lenAt] == m1[at..lenAt] && m[lenAt..lenAt + 2] == Be16(e - 1 - lenAt)
    && m[lenAt + 2..e + 1] == m2[lenAt + 2..e - 1] + Pointer(at)
  }

  // The owner and the fields of a PTR record; lenAt is the place of its length.
  method PutOwner(m: array<Octet>, at: nat, service: seq<Octet>) returns (lenAt: nat)
    requires at + |service| + 12 <= m.Length
    modifies m
    ensures at + 8 < lenAt <= at + |service| + 10
    ensures Short(CutLabels(service)) && m[at..lenAt - 8] == Encoded(CutLabels(service))
    ensures m[lenAt - 8..lenAt] == AnswerInfo(0x0C, 1, 600)
    ensures m[..at] == old(m[..at]) && m[lenAt..] == old(m[lenAt..])
  {
    assert BothLabels(service, None) == CutLabels(service);
    lenAt := AppendAnswerHeader(m, at, service, None, 1, 0x0C, 600);
  }

  // The writes of a PTR record, and the memory after the name and after the labels.
  method PutPtrRecord(m: array<Octet>, at: nat, service: seq<Octet>, name: seq<Octet>)
    returns (lenAt: nat, e: nat, ghost m1: seq<Octet>, ghost m2: seq<Octet>)
    requires at < 0x1_0000 && |name| < 0xFF00
    requires at + |service| + |name| + 16 <= m.Length
    modifies m
    ensures e <= lenAt + 2 + |name| + 2 && RecordPut(m1, m2, m[..], at, lenAt, e, CutLabels(service), CutLabels(name))
    ensures m[..at] == old(m[..at]) && m[e + 1..] == old(m[e + 1..])
  {
    ghost var m0, os, ls := m[..], CutLabels(service), CutLabels(name);
    lenAt := PutOwner(m, at, service);
    m1 := m[..];
    e := AppendLabel(m, lenAt + 2, Some(name));
    m2 := m[..];
    assert LabelsOf(Some(name)) == ls;
    PutLinks(m, at, lenAt, e);
    RecordIsPut(m0, m1, m2, m[..], at, lenAt, e, os, ls);
  }

  lemma RecordIsPut(m0: seq<Octet>, m1: seq<Octet>, m2: seq<Octet>, m3: seq<Octet>, at: nat, lenAt: nat, e: nat,
                    os: seq<Label>, ls: seq<Label>)
    requires at + 8 < lenAt && lenAt + 2 < e < lenAt + 0x1_0000 && e + 1 <= |m0| == |m1| == |m2| == |m3|
    requires Short(os) && Short(ls)
    requires m1[..at] == m0[..at] && m1[lenAt..] == m0[lenAt..]
    requires m1[at..lenAt - 8] == Encoded(os) && m1[lenAt - 8..lenAt] == AnswerInfo(0x0C, 1, 600)
    requires m2[..lenAt + 2] == m1[..lenAt + 2] && m2[e..] == m1[e..] && m2[lenAt + 2..e] == Encoded(ls)
    requires m3[..lenAt] == m2[..lenAt] && m3[e + 1..] == m2[e + 1..]
    requires m3[lenAt..lenAt + 2] == Be16(e - 1 - lenAt)
    requires m3[lenAt + 2..e + 1] == m2[lenAt + 2..e - 1] + Pointer(at)
    ensures RecordPut(m1, m2, m3, at, lenAt, e, os, ls)
    ensures m3[..at] == m0[..at] && m3[e + 1..] == m0[e + 1..]
  {
    RecordLayout(m0, m1, m2, m3, at, lenAt, e);
  }

  /** The PTR record of mdns_new_data: owned by the service, it names the instance by its own
      labels and a pointer to the owner's name. */
  method AppendPtrAnswer(m: array<Octet>, at: nat, service: seq<Octet>, name: seq<Octet>) returns (data: nat, end: nat)
    requires at < 0x1_0000 && |name| < 0xFF00
    requires at + |service| + |name| + 16 <= m.Length
    modifies m
    ensures at + 10 < data < end <= m.Length && end <= data + |name| + 3
    ensures m[..at] == old(m[..at]) && m[end..] == old(m[end..])
    ensures at < 0x4000 && AllProper(CutLabels(service)) && AllProper(CutLabels(name)) ==>
      IsPtrRecord(m[..], at, data, end, CutLabels(service), CutLabels(name))
  {
    var lenAt, e;
    ghost var m1, m2;
    lenAt, e, m1, m2 := PutPtrRecord(m, at, service, name);
    data, end := lenAt + 2, e + 1;
    RecordFits(m1, m2, m[..], at, lenAt, e, CutLabels(service), CutLabels(name));
  }

  lemma RecordFits(m1: seq<Octet>, m2: seq<Octet>, m: seq<Octet>, at: nat, lenAt: nat, e: nat,
                   os: seq<Label>, ls: seq<Label>)
    requires RecordPut(m1, m2, m, at, lenAt, e, os, ls)
    ensures at < 0x4000 && AllProper(os) && AllProper(ls) ==> IsPtrRecord(m, at, lenAt + 2, e + 1, os, ls)
  {
    if at < 0x4000 && AllProper(os) && AllProper(ls) {
      RecordIsComplete(m1, m2, m, at, lenAt, e, os, ls);
    }
  }

  lemma RecordIsComplete(m1: seq<Octet>, m2: seq<Octet>, m: seq<Octet>, at: nat, lenAt: nat, e: nat,
                         os: seq<Label>, ls: seq<Label>)
    requires at < 0x4000 && AllProper(os) && AllProper(ls)
    requires RecordPut(m1, m2, m, at, lenAt, e, os, ls)
    ensures IsPtrRecord(m, at, lenAt + 2, e + 1, os, ls)
  {
    RecordStands(m1, m2, m, at, lenAt, e, os, ls);
    StandingIsComplete(m, at, lenAt + 2, e + 1, os, ls);
  }

  lemma StandingIsComplete(m: seq<Octet>, at: nat, data: nat, end: nat, os: seq<Label>, ls: seq<Label>)
    requires at < 0x4000 && AllProper(os) && AllProper(ls) && Short(os) && Short(ls)
    requires at + 10 < data < end <= |m| && end - data < 0x1_0000
    requires Holds(m, at, Encoded(os)) && data == at + |Encoded(os)| + 10
    requires Holds(m, data - 10, AnswerInfo(0x0C, 1, 600) + Be16(end - data))
    requires Holds(m, data, Wire(ls) + Pointer(at)) && end == data + |Wire(ls)| + 2
    ensures IsPtrRecord(m, at, data, end, os, ls)
  {
    PtrIsRead(m, at, data, end, os, ls);
    PtrFieldsAreRead(m, data - 10, end - data);
  }

  lemma PtrFieldsAreRead(m: seq<Octet>, pos: nat, length: nat)
    requires length < 0x1_0000 && Holds(m, pos, AnswerInfo(0x0C, 1, 600) + Be16(length))
    ensures PtrFields(m, pos, length)
  {
    HeldPart(m, pos, AnswerInfo(0x0C, 1, 600), Be16(length));
    InfoIsRead(m, pos, 0x0C, 1, 600);
    Read16(m, pos + 8, length);
  }

  lemma SameInside<T>(s: seq<T>, t: seq<T>, a: nat, b: nat, i: nat, j: nat)
    requires a <= i <= j <= b && b <= |s| && b <= |t| && s[a..b] == t[a..b]
    ensures s[i..j] == t[i..j]
  {
    InnerSlice(s, a, b, i, j);
    InnerSlice(t, a, b, i, j);
  }

  lemma InnerSlice<T>(s: seq<T>, a: nat, b: nat, i: nat, j: nat)
    requires a <= i <= j <= b <= |s|
    ensures s[i..j] == s[a..b][i - a..j - a]
  {
    var u := s[a..b];
    assert forall k :: 0 <= k < j - i ==> s[i..j][k] == u[i - a..j - a][k];
  }

  lemma RecordStands(m1: seq<Octet>, m2: seq<Octet>, m: seq<Octet>, at: nat, lenAt: nat, e: nat,
                     os: seq<Label>, ls: seq<Label>)
    requires RecordPut(m1, m2, m, at, lenAt, e, os, ls)
    ensures Holds(m, at, Encoded(os)) && lenAt == at + |Encoded(os)| + 8
    ensures Holds(m, lenAt - 8, AnswerInfo(0x0C, 1, 600) + Be16(e - 1 - lenAt))
    ensures Holds(m, lenAt + 2, Wire(ls) + Pointer(at)) && e == lenAt + 3 + |Wire(ls)|
  {
    SameInside(m, m1, at, lenAt, at, lenAt - 8);
    SameInside(m, m1, at, lenAt, lenAt - 8, lenAt);
    HeldBoth(m, lenAt - 8, AnswerInfo(0x0C, 1, 600), Be16(e - 1 - lenAt));
    WithoutZero(m2, lenAt + 2, e, ls);
  }

  lemma WithoutZero(m: seq<Octet>, i: nat, e: nat, ls: seq<Label>)
    requires Short(ls) && i < e <= |m| && m[i..e] == Encoded(ls)
    ensures m[i..e - 1] == Wire(ls) && e == i + 1 + |Wire(ls)|
  {
    HeldPart(m, i, Wire(ls), [0]);
  }
}
