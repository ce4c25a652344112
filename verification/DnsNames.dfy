/** Domain names: dotted text, label lists and their compressed form in messages (RFC 1035, section 4.1.4). */
module DnsNames {

  newtype Octet = n: int | 0 <= n < 256

  const DOT: Octet := '.' as int as Octet

  // An address of the Internet protocol, version 4.
  type Address = a: seq<Octet> | |a| == 4 witness [0, 0, 0, 0]

  // Network byte order.
  function Be16(v: nat): (b: seq<Octet>)
    requires v < 0x1_0000
    ensures |b| == 2
  {
    [(v / 256) as Octet, (v % 256) as Octet]
  }

  type Label = seq<Octet>

  function FirstDot(text: seq<Octet>): (i: nat)
    ensures i <= |text| && (i < |text| ==> text[i] == DOT)
  {
    if |text| == 0 || text[0] == DOT then 0 else 1 + FirstDot(text[1..])
  }

  // The labels of dotted text; there is always one.
  function Split(text: seq<Octet>): (ls: seq<Label>)
    ensures |ls| >= 1
    decreases |text|
  {
    var i := FirstDot(text);
    if i == |text| then [text] else [text[..i]] + Split(text[i + 1..])
  }

  function Joined(ls: seq<Label>): (text: seq<Octet>)
    requires |ls| >= 1
  {
    if |ls| == 1 then ls[0] else ls[0] + [DOT] + Joined(ls[1..])
  }

  predicate NoDot(l: seq<Octet>) {
    forall k :: 0 <= k < |l| ==> l[k] != DOT
  }

  lemma {:induction false} FirstDotAt(t: seq<Octet>, i: nat)
    requires i <= |t| && NoDot(t[..i]) && (i < |t| ==> t[i] == DOT)
    ensures FirstDot(t) == i
    decreases i
  {
    if i > 0 {
      assert t[0] == t[..i][0];
      assert t[1..][..i - 1] == t[..i][1..];
      FirstDotAt(t[1..], i - 1);
    }
  }

  lemma SplitFirst(l: seq<Octet>, rest: seq<Octet>)
    requires NoDot(l)
    ensures Split(l + [DOT] + rest) == [l] + Split(rest)
  {
    var t := l + [DOT] + rest;
    assert t[..|l|] == l && t[|l|] == DOT && t[|l| + 1..] == rest;
    FirstDotAt(t, |l|);
  }

  /** The labels and the dotted text determine each other. */
  lemma {:induction false} SplitJoined(ls: seq<Label>)
    requires |ls| >= 1 && forall i :: 0 <= i < |ls| ==> NoDot(ls[i])
    ensures Split(Joined(ls)) == ls
    decreases |ls|
  {
    if |ls| == 1 {
      assert ls[0][..|ls[0]|] == ls[0];
      FirstDotAt(ls[0], |ls[0]|);
    } else {
      var rest := Joined(ls[1..]);
      SplitJoined(ls[1..]);
      SplitFirst(ls[0], rest);
      assert Joined(ls) == ls[0] + [DOT] + rest;
    }
  }

  lemma JoinedFirst(l: Label, ls: seq<Label>)
    requires |ls| >= 1
    ensures Joined([l] + ls) == l + [DOT] + Joined(ls)
  {
    assert ([l] + ls)[1..] == ls;
  }

  lemma {:induction false} JoinedSplit(text: seq<Octet>)
    ensures Joined(Split(text)) == text
    decreases |text|
  {
    var i := FirstDot(text);
    if i < |text| {
      var rest := text[i + 1..];
      JoinedSplit(rest);
      JoinedFirst(text[..i], Split(rest));
      AroundDot(text, i);
    }
  }

  lemma AroundDot(text: seq<Octet>, i: nat)
    requires i < |text| && text[i] == DOT
    ensures text[..i] + [DOT] + text[i + 1..] == text
  {
  }

  predicate Short(ls: seq<Label>) {
    forall i :: 0 <= i < |ls| ==> |ls[i]| < 256
  }

  // Labels as they stand in a message, without the final zero.
  function Wire(ls: seq<Label>): seq<Octet> {
    if |ls| == 0 then [] else [LengthOf(ls[0])] + ls[0] + Wire(ls[1..])
  }

  // Only labels of less than 256 octets are written.
  function LengthOf(l: Label): (n: Octet)
    ensures |l| < 256 ==> n as int == |l|
  {
    if |l| < 256 then |l| as Octet else 0
  }

  function Encoded(ls: seq<Label>): seq<Octet> {
    Wire(ls) + [0]
  }

  lemma WireFirst(ls: seq<Label>)
    requires |ls| > 0
    ensures Wire(ls) == [LengthOf(ls[0])] + ls[0] + Wire(ls[1..])
    ensures |Wire(ls)| == 1 + |ls[0]| + |Wire(ls[1..])|
  {
  }

  lemma ShortBoth(a: seq<Label>, b: seq<Label>)
    requires Short(a) && Short(b)
    ensures Short(a + b)
  {
  }

  lemma {:induction false} WireOfBoth(a: seq<Label>, b: seq<Label>)
    requires Short(a) && Short(b)
    ensures Short(a + b) && Wire(a + b) == Wire(a) + Wire(b)
    decreases |a|
  {
    ShortBoth(a, b);
    if |a| == 0 {
      assert a + b == b;
    } else {
      var c := a + b;
      assert c[0] == a[0] && c[1..] == a[1..] + b;
      WireOfBoth(a[1..], b);
      WireFirst(a);
      WireFirst(c);
      Regroup([LengthOf(a[0])], a[0], Wire(a[1..]), Wire(b));
    }
  }

  lemma Regroup<T>(a: seq<T>, b: seq<T>, c: seq<T>, d: seq<T>)
    ensures a + b + (c + d) == a + b + c + d
  {
  }

  // The labels of what is left of a text.
  function Rest(data: seq<Octet>, more: bool): seq<Label> {
    if more then Split(data) else []
  }

  function After(data: seq<Octet>, n: nat): seq<Octet> {
    if n < |data| then data[n + 1..] else []
  }

  // The length of the first label as far as an octet holds it.
  function CutLength(data: seq<Octet>): (n: nat)
    ensures n < 256 && n <= FirstDot(data)
    ensures FirstDot(data) < 256 ==> n == FirstDot(data)
  {
    LowOctet(FirstDot(data))
  }

  // What an octet keeps of a number: the remainder modulo 256.
  function LowOctet(n: nat): (r: nat)
    ensures r < 256 && r <= n
    ensures n < 256 ==> r == n
  {
    if n < 256 then n else LowOctet(n - 256)
  }

  // The labels of a text as code that keeps their lengths in octets sees them: of a longer one it
  // takes the beginning, skips a character and goes on inside.
  function CutLabels(data: seq<Octet>): (ls: seq<Label>)
    ensures |ls| >= 1
    decreases |data|, 1
  {
    [data[..CutLength(data)]] + CutRest(data)
  }

  function CutRest(data: seq<Octet>): seq<Label>
    decreases |data|, 0
  {
    if FirstDot(data) < |data| then CutLabels(data[CutLength(data) + 1..]) else []
  }

  lemma {:induction false} CutIsShort(data: seq<Octet>)
    ensures Short(CutLabels(data))
    decreases |data|
  {
    if FirstDot(data) < |data| {
      CutIsShort(data[CutLength(data) + 1..]);
    }
  }

  /** They are the labels of the text exactly if none of those is longer than 255 octets. */
  lemma {:induction false} CutIsSplit(data: seq<Octet>)
    ensures CutLabels(data) == Split(data) <==> Short(Split(data))
    decreases |data|
  {
    CutIsShort(data);
    var dot := FirstDot(data);
    if dot < 256 {
      assert data[..|data|] == data;
      if dot < |data| {
        CutIsSplit(data[dot + 1..]);
        ShortTail(data[..dot], Split(data[dot + 1..]));
      }
    } else {
      assert Split(data)[0] == if dot == |data| then data else data[..dot];
    }
  }

  lemma ShortTail(l: Label, ls: seq<Label>)
    requires |l| < 256
    ensures Short([l] + ls) <==> Short(ls)
  {
    var all := [l] + ls;
    assert forall i :: 0 <= i < |ls| ==> ls[i] == all[i + 1];
  }

  lemma WholeIsFirst<T>(s: seq<T>)
    ensures [s] == [s[..|s|]] + []
  {
    assert s[..|s|] == s;
  }

  lemma SplitOff(data: seq<Octet>)
    ensures var dot := FirstDot(data);
      Split(data) == [data[..dot]] + Rest(After(data, dot), dot < |data|)
  {
    if FirstDot(data) == |data| {
      SplitLast(data);
    } else {
      SplitMore(data, FirstDot(data));
    }
  }

  lemma SplitLast(data: seq<Octet>)
    requires FirstDot(data) == |data|
    ensures Split(data) == [data[..|data|]] + []
  {
    WholeIsFirst(data);
  }

  lemma SplitMore(data: seq<Octet>, dot: nat)
    requires dot == FirstDot(data) < |data|
    ensures Split(data) == [data[..dot]] + Split(After(data, dot))
  {
  }

  // bytes are the labels of the text that come before the given rest.
  ghost predicate Written(all: seq<Label>, rest: seq<Label>, bytes: seq<Octet>) {
    Short(all) ==>
      && |rest| <= |all| && all[|all| - |rest|..] == rest
      && Short(all[..|all| - |rest|]) && bytes == Wire(all[..|all| - |rest|])
  }

  lemma WrittenOneMore(all: seq<Label>, rest: seq<Label>, bytes: seq<Octet>, l: Label, next: seq<Label>)
    requires Written(all, rest, bytes) && rest == [l] + next
    ensures Short(all) ==> |l| < 256 && Written(all, next, bytes + ([|l| as Octet] + l))
  {
    if Short(all) {
      var k := |all| - |rest|;
      assert all[k] == rest[0] == l;
      assert all[..k + 1] == all[..k] + [l];
      assert all[k + 1..] == next;
      WireOfBoth(all[..k], [l]);
      assert Wire([l]) == [|l| as Octet] + l;
    }
  }

  // The target of the pointer in two octets.
  function Target(hi: Octet, lo: Octet): nat {
    hi as int % 64 * 256 + lo as int
  }

  // A name whose pointers all lead to before the run of labels they end, which starts at run.
  ghost predicate NameAt(m: seq<Octet>, run: nat, pos: nat)
    decreases run, |m| - pos
  {
    && pos < |m|
    && (if m[pos] >= 64 then
          pos + 1 < |m| && Target(m[pos], m[pos + 1]) < run
          && NameAt(m, Target(m[pos], m[pos + 1]), Target(m[pos], m[pos + 1]))
        else m[pos] == 0 || NameAt(m, run, pos + 1 + m[pos] as int))
  }

  // The labels of the name at pos.
  ghost function Labels(m: seq<Octet>, run: nat, pos: nat): seq<Label>
    requires NameAt(m, run, pos)
    decreases run, |m| - pos
  {
    if m[pos] >= 64 then Labels(m, Target(m[pos], m[pos + 1]), Target(m[pos], m[pos + 1]))
    else if m[pos] == 0 then []
    else
      var next := pos + 1 + m[pos] as int;
      assert NameAt(m, run, next);
      [m[pos + 1..next]] + Labels(m, run, next)
  }

  predicate Proper(l: Label) {
    1 <= |l| <= 63
  }

  predicate AllProper(ls: seq<Label>) {
    forall i :: 0 <= i < |ls| ==> Proper(ls[i])
  }

  ghost predicate Holds(m: seq<Octet>, pos: nat, b: seq<Octet>) {
    pos + |b| <= |m| && m[pos..pos + |b|] == b
  }

  lemma FirstOnWire(m: seq<Octet>, pos: nat, ls: seq<Label>)
    requires |ls| > 0 && |ls[0]| < 256 && Holds(m, pos, Wire(ls))
    ensures pos + 1 + |ls[0]| <= |m| && m[pos] as int == |ls[0]| && m[pos + 1..pos + 1 + |ls[0]|] == ls[0]
    ensures Holds(m, pos + 1 + |ls[0]|, Wire(ls[1..]))
    ensures |Wire(ls)| == 1 + |ls[0]| + |Wire(ls[1..])|
  {
    WireFirst(ls);
    FirstHeld(m, pos, ls[0], Wire(ls), Wire(ls[1..]));
  }

  lemma FirstHeld(m: seq<Octet>, pos: nat, l: Label, w: seq<Octet>, rest: seq<Octet>)
    requires |l| < 256 && w == [LengthOf(l)] + l + rest && Holds(m, pos, w)
    ensures pos + 1 + |l| <= |m| && m[pos] as int == |l| && m[pos + 1..pos + 1 + |l|] == l
    ensures Holds(m, pos + 1 + |l|, rest)
  {
    var a := [LengthOf(l)];
    HeldPart(m, pos, a + l, rest);
    HeldPart(m, pos, a, l);
    assert m[pos..pos + 1][0] == m[pos];
  }

  lemma HeldBoth(m: seq<Octet>, pos: nat, a: seq<Octet>, b: seq<Octet>)
    requires Holds(m, pos, a) && Holds(m, pos + |a|, b)
    ensures Holds(m, pos, a + b)
  {
    assert m[pos..pos + |a| + |b|] == m[pos..pos + |a|] + m[pos + |a|..pos + |a| + |b|];
  }

  lemma HeldPart(m: seq<Octet>, pos: nat, a: seq<Octet>, b: seq<Octet>)
    requires Holds(m, pos, a + b)
    ensures Holds(m, pos, a) && Holds(m, pos + |a|, b)
  {
    assert m[pos..pos + |a + b|][..|a|] == m[pos..pos + |a|];
    assert m[pos..pos + |a + b|][|a|..] == m[pos + |a|..pos + |a| + |b|];
  }

  lemma LabelIsRead(m: seq<Octet>, run: nat, pos: nat, l: Label)
    requires pos < |m| && Proper(l) && m[pos] as int == |l| && NameAt(m, run, pos + 1 + |l|)
    requires m[pos + 1..pos + 1 + |l|] == l
    ensures NameAt(m, run, pos) && Labels(m, run, pos) == [l] + Labels(m, run, pos + 1 + |l|)
  {
  }

  // The name at pos begins with the labels ls, and goes on with the name at end.
  ghost predicate Continues(m: seq<Octet>, run: nat, pos: nat, ls: seq<Label>, end: nat) {
    NameAt(m, run, end) ==> NameAt(m, run, pos) && Labels(m, run, pos) == ls + Labels(m, run, end)
  }

  lemma LabelContinues(m: seq<Octet>, run: nat, pos: nat, ls: seq<Label>, end: nat)
    requires |ls| > 0 && pos < |m| && Proper(ls[0]) && m[pos] as int == |ls[0]|
    requires pos + 1 + |ls[0]| <= |m| && m[pos + 1..pos + 1 + |ls[0]|] == ls[0]
    requires Continues(m, run, pos + 1 + |ls[0]|, ls[1..], end)
    ensures Continues(m, run, pos, ls, end)
  {
    if NameAt(m, run, end) {
      LabelIsRead(m, run, pos, ls[0]);
      assert ls == [ls[0]] + ls[1..];
    }
  }

  /** A run of labels on the wire is read back, followed by whatever name continues it. */
  lemma {:induction false} WireIsRead(m: seq<Octet>, run: nat, pos: nat, ls: seq<Label>)
    requires AllProper(ls) && Short(ls) && Holds(m, pos, Wire(ls))
    ensures Continues(m, run, pos, ls, pos + |Wire(ls)|)
    decreases |ls|
  {
    if |ls| > 0 {
      FirstOnWire(m, pos, ls);
      WireIsRead(m, run, pos + 1 + |ls[0]|, ls[1..]);
      LabelContinues(m, run, pos, ls, pos + |Wire(ls)|);
    }
  }

  /** Encoding a list of proper labels and reading it gives the list. */
  lemma EncodedIsRead(m: seq<Octet>, pos: nat, ls: seq<Label>)
    requires AllProper(ls) && Short(ls) && Holds(m, pos, Encoded(ls))
    ensures NameAt(m, pos, pos) && Labels(m, pos, pos) == ls
  {
    var n := |Wire(ls)|;
    assert m[pos..pos + n + 1][..n] == m[pos..pos + n];
    assert m[pos + n] == m[pos..pos + n + 1][n];
    WireIsRead(m, pos, pos, ls);
  }

  // Either list is a prefix of the other.
  predicate Comparable(a: seq<Label>, b: seq<Label>) {
    a <= b || b <= a
  }

  // --- the walk of parse_name -------------------------------------------------------------

  // The octets the walk reads are in the message.
  ghost predicate Readable(m: seq<Octet>, pos: nat)
    decreases |m| - pos
  {
    && pos < |m|
    && (m[pos] < 64 ==>
          var next := pos + 1 + m[pos] as int;
          next < |m| && (m[next] != 0 ==> Readable(m, next)))
  }

  ghost function Skipped(m: seq<Octet>, pos: nat): nat
    requires Readable(m, pos)
    decreases |m| - pos
  {
    if m[pos] >= 64 then pos + 2
    else
      var next := pos + 1 + m[pos] as int;
      if m[next] == 0 then next + 1 else Skipped(m, next)
  }

  // The end of the name at pos.
  ghost function NameEnd(m: seq<Octet>, run: nat, pos: nat): nat
    requires NameAt(m, run, pos)
    decreases run, |m| - pos
  {
    if m[pos] >= 64 then pos + 2
    else if m[pos] == 0 then pos + 1
    else NameEnd(m, run, pos + 1 + m[pos] as int)
  }

  lemma {:induction false} NonRootIsSkipped(m: seq<Octet>, run: nat, pos: nat)
    requires NameAt(m, run, pos) && m[pos] != 0
    ensures Readable(m, pos) && Skipped(m, pos) == NameEnd(m, run, pos)
    decreases |m| - pos
  {
    if m[pos] < 64 {
      var next := pos + 1 + m[pos] as int;
      assert NameAt(m, run, next);
      if m[next] != 0 {
        NonRootIsSkipped(m, run, next);
      }
    }
  }

  lemma {:induction false} SkipsForward(m: seq<Octet>, pos: nat)
    requires Readable(m, pos)
    ensures Skipped(m, pos) >= pos + 2
    decreases |m| - pos
  {
    if m[pos] < 64 {
      var next := pos + 1 + m[pos] as int;
      if m[next] != 0 {
        SkipsForward(m, next);
      }
    }
  }

  lemma {:induction false} WireIsPassed(m: seq<Octet>, run: nat, pos: nat, ls: seq<Label>)
    requires AllProper(ls) && Short(ls) && Holds(m, pos, Wire(ls)) && NameAt(m, run, pos + |Wire(ls)|)
    ensures NameAt(m, run, pos) && NameEnd(m, run, pos) == NameEnd(m, run, pos + |Wire(ls)|)
    decreases |ls|
  {
    if |ls| > 0 {
      ProperFirst(m, pos, ls);
      WireIsPassed(m, run, pos + 1 + |ls[0]|, ls[1..]);
    }
  }

  // The two octets of a pointer to offset t, which has 14 bits.
  function Pointer(t: nat): (p: seq<Octet>)
    ensures |p| == 2
  {
    [(0xC0 + t / 256 % 64) as Octet, (t % 256) as Octet]
  }

  lemma PointerHasTarget(t: nat)
    ensures Pointer(t)[0] >= 64
    ensures t < 0x4000 ==> Target(Pointer(t)[0], Pointer(t)[1]) == t
  {
  }

  /** Labels that end in a pointer to an earlier name are read as followed by that name. */
  lemma PointerIsRead(m: seq<Octet>, owner: nat, os: seq<Label>, pos: nat, ls: seq<Label>)
    requires AllProper(os) && Short(os) && Holds(m, owner, Encoded(os))
    requires AllProper(ls) && Short(ls) && Holds(m, pos, Wire(ls) + Pointer(owner))
    requires owner < pos && owner < 0x4000
    ensures NameAt(m, pos, pos) && Labels(m, pos, pos) == ls + os
    ensures NameEnd(m, pos, pos) == pos + |Wire(ls)| + 2
  {
    var q := pos + |Wire(ls)|;
    HeldPart(m, pos, Wire(ls), Pointer(owner));
    PointerStands(m, owner, os, pos, q);
    ReadThrough(m, pos, pos, ls, q);
  }

  lemma ReadThrough(m: seq<Octet>, run: nat, pos: nat, ls: seq<Label>, q: nat)
    requires AllProper(ls) && Short(ls) && Holds(m, pos, Wire(ls)) && q == pos + |Wire(ls)| && NameAt(m, run, q)
    ensures NameAt(m, run, pos) && Labels(m, run, pos) == ls + Labels(m, run, q)
    ensures NameEnd(m, run, pos) == NameEnd(m, run, q)
  {
    WireIsRead(m, run, pos, ls);
    WireIsPassed(m, run, pos, ls);
  }

  lemma PointerStands(m: seq<Octet>, owner: nat, os: seq<Label>, run: nat, q: nat)
    requires AllProper(os) && Short(os) && Holds(m, owner, Encoded(os)) && Holds(m, q, Pointer(owner))
    requires owner < run && owner < 0x4000
    ensures NameAt(m, run, q) && Labels(m, run, q) == os && NameEnd(m, run, q) == q + 2
  {
    EncodedIsRead(m, owner, os);
    PointerHasTarget(owner);
    assert m[q] == m[q..q + 2][0] && m[q + 1] == m[q..q + 2][1];
  }

  /** The walk ends exactly behind a name, unless the name is the root. */
  lemma SkipsNameIffNotRoot(m: seq<Octet>, pos: nat)
    requires NameAt(m, pos, pos) && (m[pos] == 0 ==> Readable(m, pos))
    ensures Readable(m, pos)
    ensures Skipped(m, pos) == NameEnd(m, pos, pos) <==> m[pos] != 0
  {
    if m[pos] != 0 {
      NonRootIsSkipped(m, pos, pos);
    } else {
      SkipsForward(m, pos);
    }
  }

  // What the walk needs to end where an encoded list ends: short labels, and no empty one
  // behind the first.
  predicate Skippable(ls: seq<Label>) {
    |ls| >= 1 && |ls[0]| <= 63 && AllProper(ls[1..])
  }

  // The first label of an encoded list, and the encoding of the others behind it.
  lemma FirstEncoded(m: seq<Octet>, pos: nat, ls: seq<Label>)
    requires Short(ls) && |ls| >= 1 && Holds(m, pos, Encoded(ls))
    ensures pos + 1 + |ls[0]| < |m| && m[pos] as int == |ls[0]|
    ensures Holds(m, pos + 1 + |ls[0]|, Encoded(ls[1..]))
    ensures |Encoded(ls)| == 1 + |ls[0]| + |Encoded(ls[1..])|
  {
    var a, rest := [LengthOf(ls[0])] + ls[0], Wire(ls[1..]);
    WireFirst(ls);
    assert a + rest + [0] == a + (rest + [0]);
    FirstHeld(m, pos, ls[0], Encoded(ls), Encoded(ls[1..]));
  }

  lemma EncodedBegins(m: seq<Octet>, pos: nat, ls: seq<Label>)
    requires Short(ls) && Holds(m, pos, Encoded(ls))
    ensures pos < |m| && m[pos] as int == if |ls| == 0 then 0 else |ls[0]|
    ensures |ls| > 0 ==> |Encoded(ls)| >= 2
  {
    if |ls| == 0 {
      assert m[pos..pos + 1][0] == m[pos];
    } else {
      FirstEncoded(m, pos, ls);
    }
  }

  lemma SkippableRest(ls: seq<Label>)
    requires |ls| > 1
    ensures Skippable(ls) <==> |ls[0]| <= 63 && |ls[1]| >= 1 && Skippable(ls[1..])
  {
    var rest := ls[1..];
    assert rest == [rest[0]] + rest[1..];
  }

  lemma {:induction false} EncodedIsSkipped(m: seq<Octet>, pos: nat, ls: seq<Label>)
    requires Short(ls) && |ls| >= 1 && Holds(m, pos, Encoded(ls))
    ensures Readable(m, pos)
    ensures Skipped(m, pos) == pos + |Encoded(ls)| <==> Skippable(ls)
    decreases |ls|
  {
    var next, rest := pos + 1 + |ls[0]|, ls[1..];
    FirstEncoded(m, pos, ls);
    EncodedBegins(m, next, rest);
    if |ls| > 1 {
      SkippableRest(ls);
      EncodedIsSkipped(m, next, rest);
    }
  }

  /** The walk passes proper labels and stops behind what ends them. */
  lemma {:induction false} WireIsSkipped(m: seq<Octet>, pos: nat, ls: seq<Label>)
    requires AllProper(ls) && Short(ls) && |ls| > 0 && Holds(m, pos, Wire(ls))
    requires pos + |Wire(ls)| < |m|
    requires m[pos + |Wire(ls)|] == 0 || m[pos + |Wire(ls)|] >= 64
    ensures Readable(m, pos)
    ensures var e := pos + |Wire(ls)|; Skipped(m, pos) == if m[e] == 0 then e + 1 else e + 2
    decreases |ls|
  {
    var next, rest := pos + 1 + |ls[0]|, ls[1..];
    ProperFirst(m, pos, ls);
    if |ls| > 1 {
      ProperFirst(m, next, rest);
      WireIsSkipped(m, next, rest);
    }
  }

  lemma ProperFirst(m: seq<Octet>, pos: nat, ls: seq<Label>)
    requires AllProper(ls) && Short(ls) && |ls| > 0 && Holds(m, pos, Wire(ls))
    ensures pos < |m| && m[pos] as int == |ls[0]| && 1 <= |ls[0]| <= 63
    ensures AllProper(ls[1..]) && Short(ls[1..]) && Holds(m, pos + 1 + |ls[0]|, Wire(ls[1..]))
    ensures |Wire(ls)| == 1 + |ls[0]| + |Wire(ls[1..])|
  {
    FirstOnWire(m, pos, ls);
    assert Proper(ls[0]);
  }

  /** What is written for a dotted name is skipped as a whole, read back and recognised. */
  lemma WrittenName(m: seq<Octet>, at: nat, text: seq<Octet>)
    requires AllProper(Split(text)) && Short(Split(text)) && Holds(m, at, Encoded(Split(text)))
    ensures NameAt(m, at, at) && Labels(m, at, at) == Split(text) && m[at] != 0
    ensures Readable(m, at) && Skipped(m, at) == at + |Encoded(Split(text))|
    ensures Comparable(Labels(m, at, at), Split(text))
  {
    var ls := Split(text);
    EncodedIsRead(m, at, ls);
    EncodedIsSkipped(m, at, ls);
    assert Proper(ls[0]);
    assert Encoded(ls)[0] as int == |ls[0]|;
    assert m[at..at + |Encoded(ls)|][0] == m[at];
  }
}
