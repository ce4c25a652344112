/** What a window shows and where its cursor stands, as the operations of core/tty/tty.c
    change them, and the unbounded page such a window is a view of. */
module Terminal {
  import opened Hd44780

  type Row = seq<Char>

  datatype Config = Config(maxy: nat, maxx: nat, linewrap: bool, scrollok: bool)

  datatype Screen = Screen(rows: seq<Row>, y: nat, x: nat)

  ghost predicate Rectangular(c: Config, rows: seq<Row>) {
    |rows| == c.maxy + 1 && forall r :: 0 <= r < |rows| ==> |rows[r]| == c.maxx + 1
  }

  // The cursor may wait below the last row, at its start, until something is printed.
  ghost predicate Fits(c: Config, s: Screen) {
    Rectangular(c, s.rows) && s.y <= c.maxy + 1 && s.x <= c.maxx && (s.y == c.maxy + 1 ==> s.x == 0)
  }

  predicate Pending(c: Config, s: Screen) {
    s.y > c.maxy
  }

  function Spaces(n: nat): Row {
    seq(n, _ => SPACE)
  }

  function BlankRow(c: Config): Row {
    Spaces(c.maxx + 1)
  }

  function BlankRows(c: Config, n: nat): seq<Row> {
    seq(n, _ => BlankRow(c))
  }

  function Cleared(c: Config): Screen {
    Screen(BlankRows(c, c.maxy + 1), 0, 0)
  }

  function MoveTo(c: Config, s: Screen, y: nat, x: nat): Screen {
    if y > c.maxy || x > c.maxx then s else s.(y := y, x := x)
  }

  // The rows move up by k, and the cursor is at the first blank one.
  function Scrolled(c: Config, s: Screen, k: nat): Screen
    requires Fits(c, s) && k >= 1
  {
    var n := if k > c.maxy then c.maxy + 1 else k;
    Screen(s.rows[n..] + BlankRows(c, n), c.maxy + 1 - n, 0)
  }

  function Settled(c: Config, s: Screen): (t: Screen)
    requires Fits(c, s)
    ensures Fits(c, t)
    ensures c.scrollok || !Pending(c, s) ==> !Pending(c, t)
  {
    if Pending(c, s) && c.scrollok then Scrolled(c, s, 1) else s
  }

  function SetCell(rows: seq<Row>, y: nat, x: nat, ch: Char): seq<Row>
    requires y < |rows| && x < |rows[y]|
  {
    rows[y := rows[y][x := ch]]
  }

  function Advanced(c: Config, s: Screen): Screen {
    if s.x != c.maxx then s.(x := s.x + 1)
    else if c.linewrap then s.(y := s.y + 1, x := 0)
    else s
  }

  function Printed(c: Config, s: Screen, ch: Char): (t: Screen)
    requires Fits(c, s) && !Pending(c, s)
    ensures Fits(c, t)
  {
    if ch == NEWLINE then s.(y := s.y + 1, x := 0)
    else if ch == RETURN then s.(x := 0)
    else Advanced(c, s.(rows := SetCell(s.rows, s.y, s.x, ch)))
  }

  function AddCh(c: Config, s: Screen, ch: Char): (t: Screen)
    requires Fits(c, s)
    ensures Fits(c, t)
  {
    if Pending(c, s) && !c.scrollok then s else Printed(c, Settled(c, s), ch)
  }

  function AddStr(c: Config, s: Screen, text: seq<Char>): (t: Screen)
    requires Fits(c, s)
    ensures Fits(c, t)
    decreases |text|
  {
    if |text| == 0 then s else AddCh(c, AddStr(c, s, text[..|text| - 1]), text[|text| - 1])
  }

  function BlankTail(c: Config, s: Screen): seq<Row>
    requires Fits(c, s) && !Pending(c, s)
  {
    s.rows[s.y := s.rows[s.y][..s.x] + Spaces(c.maxx + 1 - s.x)]
  }

  // The rest of the row is blank and the cursor past it; a pending scroll is done first.
  function SpaceToEol(c: Config, s: Screen): (t: Screen)
    requires Fits(c, s)
    ensures Fits(c, t)
  {
    if Pending(c, s) && !c.scrollok then s
    else
      var r := Settled(c, s);
      Advanced(c, Screen(BlankTail(c, r), r.y, c.maxx))
  }

  // The rest of the row is blank and nothing else happens, unless a scroll was pending.
  function ClrToEol(c: Config, s: Screen): (t: Screen)
    requires Fits(c, s)
    ensures Fits(c, t)
  {
    if Pending(c, s) then SpaceToEol(c, s) else s.(rows := BlankTail(c, s))
  }

  // The rest of the window is blank and nothing else happens, unless a scroll was pending. Rows
  // are counted in an octet: with the cursor in row 255 the count of those below starts at row 0.
  function ClrToBot(c: Config, s: Screen): (t: Screen)
    requires Fits(c, s)
    ensures Fits(c, t)
  {
    if Pending(c, s) then
      var t := SpaceToEol(c, s);
      if s.y == 255 then RowsBlanked(c, t, 0, c.maxy + 1) else t
    else s.(rows := BlankTail(c, s)[..s.y + 1] + BlankRows(c, c.maxy - s.y))
  }

  // After n blanks; a pending scroll is done before the first.
  function Spaced(c: Config, s: Screen, n: nat): Screen
    requires Fits(c, s) && n <= c.maxx + 1 - s.x
  {
    if n == 0 || (Pending(c, s) && !c.scrollok) then s
    else
      var r := Settled(c, s);
      var row := r.rows[r.y];
      var rows := r.rows[r.y := row[..r.x] + Spaces(n) + row[r.x + n..]];
      if r.x + n <= c.maxx then Screen(rows, r.y, r.x + n) else Advanced(c, Screen(rows, r.y, c.maxx))
  }

  lemma SpacedInRow(c: Config, s: Screen, n: nat)
    requires Fits(c, s) && !Pending(c, s) && n <= c.maxx - s.x
    ensures Fits(c, Spaced(c, s, n)) && !Pending(c, Spaced(c, s, n))
    ensures AddCh(c, Spaced(c, s, n), SPACE) == Spaced(c, s, n + 1)
  {
    var row := s.rows[s.y];
    assert n == 0 ==> row[..s.x] + Spaces(n) + row[s.x + n..] == row;
    assert (row[..s.x] + Spaces(n) + row[s.x + n..])[s.x + n := SPACE]
        == row[..s.x] + Spaces(n + 1) + row[s.x + n + 1..];
  }

  lemma SpacedOneMore(c: Config, s: Screen, n: nat)
    requires Fits(c, s) && n <= c.maxx - s.x
    ensures Fits(c, Spaced(c, s, n)) && (Pending(c, Spaced(c, s, n)) ==> Pending(c, s))
    ensures AddCh(c, Spaced(c, s, n), SPACE) == Spaced(c, s, n + 1)
  {
    if !Pending(c, s) {
      SpacedInRow(c, s, n);
    } else if c.scrollok {
      SpacedInRow(c, Settled(c, s), n);
    }
  }

  lemma SpacedAll(c: Config, s: Screen)
    requires Fits(c, s)
    ensures Spaced(c, s, c.maxx + 1 - s.x) == SpaceToEol(c, s)
  {
    var r := Settled(c, s);
    if !Pending(c, r) {
      var n, row := c.maxx + 1 - r.x, r.rows[r.y];
      assert row[..r.x] + Spaces(n) + row[r.x + n..] == row[..r.x] + Spaces(n);
    }
  }

  // Blanks are printed through these states, and the scroll is pending at most before the first.
  ghost predicate SpacedInTurn(c: Config, after: seq<Screen>) {
    && |after| >= 1
    && (forall n :: 0 <= n < |after| ==> Fits(c, after[n]))
    && (forall n :: 0 <= n < |after| - 1 ==> after[n + 1] == AddCh(c, after[n], SPACE))
    && (forall n :: 0 <= n < |after| - 1 && Pending(c, after[n]) ==> Pending(c, after[0]))
  }

  lemma SpacesInTurn(c: Config, s: Screen) returns (after: seq<Screen>)
    requires Fits(c, s)
    ensures SpacedInTurn(c, after) && |after| == c.maxx - s.x + 2
    ensures after[0] == s && after[|after| - 1] == SpaceToEol(c, s)
  {
    var last := c.maxx + 1 - s.x;
    after := seq(last + 1, n requires 0 <= n <= last => Spaced(c, s, n));
    SpacedAll(c, s);
    forall n | 0 <= n < last
      ensures Fits(c, after[n]) && (Pending(c, after[n]) ==> Pending(c, s))
      ensures after[n + 1] == AddCh(c, after[n], SPACE)
    {
      SpacedOneMore(c, s, n);
    }
  }

  // n blanks printed one after the other
  function AddSpaces(c: Config, s: Screen, n: nat): (t: Screen)
    requires Fits(c, s)
    ensures Fits(c, t)
  {
    if n == 0 then s else AddCh(c, AddSpaces(c, s, n - 1), SPACE)
  }

  lemma {:induction false} SpacesSoFar(c: Config, after: seq<Screen>, n: nat)
    requires SpacedInTurn(c, after) && n < |after|
    ensures AddSpaces(c, after[0], n) == after[n]
    decreases n
  {
    if n > 0 {
      SpacesSoFar(c, after, n - 1);
    }
  }

  /** wspacetoeol: as many blanks as the row has cells left blank it and take the cursor past it. */
  lemma RowIsBlanked(c: Config, s: Screen)
    requires Fits(c, s)
    ensures AddSpaces(c, s, c.maxx - s.x + 1) == SpaceToEol(c, s)
  {
    var after := SpacesInTurn(c, s);
    SpacesSoFar(c, after, |after| - 1);
  }

  /** wclrtoeol: the cursor is where it was, if it can be. */
  lemma TailThenBack(c: Config, s: Screen)
    requires Fits(c, s)
    ensures MoveTo(c, SpaceToEol(c, s), s.y, s.x) == ClrToEol(c, s)
  {
  }

  /** Unless a scroll is pending, wclrtoeol blanks the cells from the cursor to the end of its
      row, and nothing else changes, the cursor included. */
  lemma ClrToEolBlanks(c: Config, s: Screen)
    requires Fits(c, s) && !Pending(c, s)
    ensures var t := ClrToEol(c, s);
      && Fits(c, t) && t.y == s.y && t.x == s.x
      && forall r, x :: 0 <= r <= c.maxy && 0 <= x <= c.maxx ==>
           t.rows[r][x] == if r == s.y && x >= s.x then SPACE else s.rows[r][x]
  {
  }

  /** And wclrtobot blanks those and all rows below. */
  lemma ClrToBotBlanks(c: Config, s: Screen)
    requires Fits(c, s) && !Pending(c, s)
    ensures var t := ClrToBot(c, s);
      && Fits(c, t) && t.y == s.y && t.x == s.x
      && forall r, x :: 0 <= r <= c.maxy && 0 <= x <= c.maxx ==>
           t.rows[r][x] == if r > s.y || (r == s.y && x >= s.x) then SPACE else s.rows[r][x]
  {
  }

  /** While a scroll is pending both scroll by one line and leave the cursor behind the blank
      last row, or do nothing in a window that does not scroll; only that in a window of 255 rows
      wclrtobot then clears all of them. */
  lemma ClearingWhilePending(c: Config, s: Screen)
    requires Fits(c, s) && Pending(c, s)
    ensures ClrToBot(c, s) ==
      if s.y == 255 then Advanced(c, Screen(BlankRows(c, c.maxy + 1), c.maxy, c.maxx)) else ClrToEol(c, s)
    ensures ClrToEol(c, s) ==
      if !c.scrollok then s
      else if c.linewrap then Screen(s.rows[1..] + BlankRows(c, 1), c.maxy + 1, 0)
      else Screen(s.rows[1..] + BlankRows(c, 1), c.maxy, c.maxx)
  {
    assert SpaceToEol(c, s).rows[c.maxy + 1..] == [];
    if c.scrollok {
      var r := Settled(c, s);
      assert r.rows[r.y][..0] + Spaces(c.maxx + 1) == BlankRow(c);
      assert BlankTail(c, r) == r.rows;
    }
  }

  // The rows from y on, cleared one after the other.
  function RowsBlanked(c: Config, s: Screen, y: nat, n: nat): (t: Screen)
    requires Fits(c, s) && y + n <= c.maxy + 1
    ensures Fits(c, t)
  {
    if n == 0 then s
    else Advanced(c, Screen(s.rows[..y] + BlankRows(c, n) + s.rows[y + n..], y + n - 1, c.maxx))
  }

  lemma OneMoreBlank(c: Config, rows: seq<Row>, y: nat, n: nat)
    requires y + n < |rows|
    ensures (rows[..y] + BlankRows(c, n) + rows[y + n..])[y + n := BlankRow(c)]
      == rows[..y] + BlankRows(c, n + 1) + rows[y + n + 1..]
  {
  }

  lemma OneRowMore(c: Config, s: Screen, y: nat, n: nat)
    requires Fits(c, s) && y + n <= c.maxy
    ensures SpaceToEol(c, MoveTo(c, RowsBlanked(c, s, y, n), y + n, 0)) == RowsBlanked(c, s, y, n + 1)
  {
    var t := MoveTo(c, RowsBlanked(c, s, y, n), y + n, 0);
    assert t.rows == s.rows[..y] + BlankRows(c, n) + s.rows[y + n..];
    assert t.rows[t.y][..0] + Spaces(c.maxx + 1) == BlankRow(c);
    OneMoreBlank(c, s.rows, y, n);
  }

  // The rest of the row and the rows below, one after the other.
  function RestBlanked(c: Config, s: Screen): (t: Screen)
    requires Fits(c, s)
    ensures Fits(c, t)
  {
    BlankedFrom(c, SpaceToEol(c, s), (s.y + 1) % 256)
  }

  function BlankedFrom(c: Config, s: Screen, from: nat): (t: Screen)
    requires Fits(c, s)
    ensures Fits(c, t)
  {
    if from <= c.maxy then RowsBlanked(c, s, from, c.maxy + 1 - from) else s
  }

  /** wclrtobot: the rest of the row and the rows below, and the cursor back where it was. */
  lemma RowsThenBack(c: Config, s: Screen)
    requires Fits(c, s) && c.maxy < 255
    ensures MoveTo(c, RestBlanked(c, s), s.y, s.x) == ClrToBot(c, s)
  {
  }

  // wscroll(0) copies every row to itself and then clears from where that leaves the cursor.
  function ScrolledByNone(c: Config, s: Screen): (t: Screen)
    requires Fits(c, s)
    ensures Fits(c, t)
  {
    ClrToBot(c, Advanced(c, s.(y := c.maxy, x := c.maxx)))
  }

  function ScrolledBy(c: Config, s: Screen, k: nat): (t: Screen)
    requires Fits(c, s)
    ensures Fits(c, t)
  {
    if k == 0 then ScrolledByNone(c, s) else Scrolled(c, s, k)
  }

  /** Scrolling a wrapping, scrolling window by no lines scrolls it by one. */
  lemma ScrollByNoneScrollsByOne(c: Config, s: Screen)
    requires Fits(c, s) && c.linewrap && c.scrollok && c.maxy != 254
    ensures ScrolledBy(c, s, 0) == Screen(s.rows[1..] + BlankRows(c, 1), c.maxy + 1, 0)
  {
    var t := Scrolled(c, Screen(s.rows, c.maxy + 1, 0), 1);
    assert t.rows[c.maxy][..0] + Spaces(c.maxx + 1) == BlankRow(c);
    assert BlankTail(c, t) == t.rows;
  }

  /** Without wrapping it clears the last cell instead. */
  lemma ScrollByNoneClearsLastCell(c: Config, s: Screen)
    requires Fits(c, s) && !c.linewrap
    ensures ScrolledBy(c, s, 0) == Screen(SetCell(s.rows, c.maxy, c.maxx, SPACE), c.maxy, c.maxx)
  {
    var t := Screen(s.rows, c.maxy, c.maxx);
    assert s.rows[c.maxy][..c.maxx] + Spaces(1) == s.rows[c.maxy][c.maxx := SPACE];
    assert BlankTail(c, t) == SetCell(s.rows, c.maxy, c.maxx, SPACE);
  }

  /** Wrapping without scrolling it only takes the cursor below the window. */
  lemma ScrollByNoneOnlyMovesCursor(c: Config, s: Screen)
    requires Fits(c, s) && c.linewrap && !c.scrollok && c.maxy != 254
    ensures ScrolledBy(c, s, 0) == Screen(s.rows, c.maxy + 1, 0)
  {
  }

  /** A wrapping window of 255 rows is cleared. */
  lemma ScrollByNoneClearsTallest(c: Config, s: Screen)
    requires Fits(c, s) && c.linewrap && c.maxy == 254
    ensures ScrolledBy(c, s, 0) == Screen(BlankRows(c, 255), 255, 0)
  {
    ClearingWhilePending(c, Screen(s.rows, 255, 0));
  }

  /** So scrolling by no lines spares the contents of every window exactly in that mode. */
  lemma ScrollByNoneSparesRows(c: Config)
    ensures (forall s :: Fits(c, s) ==> ScrolledBy(c, s, 0).rows == s.rows) <==>
      c.linewrap && !c.scrollok && c.maxy != 254
  {
    if c.linewrap && !c.scrollok && c.maxy != 254 {
      forall s | Fits(c, s)
        ensures ScrolledBy(c, s, 0).rows == s.rows
      {
        ScrollByNoneOnlyMovesCursor(c, s);
      }
    } else {
      var full: Screen := Screen(seq(c.maxy + 1, _ => seq(c.maxx + 1, _ => NEWLINE)), 0, 0);
      assert Fits(c, full);
      assert ScrolledBy(c, full, 0).rows[c.maxy][c.maxx] == SPACE by {
        if c.linewrap && c.maxy == 254 {
          ScrollByNoneClearsTallest(c, full);
        } else if c.linewrap {
          ScrollByNoneScrollsByOne(c, full);
        } else {
          ScrollByNoneClearsLastCell(c, full);
        }
      }
    }
  }

  // --- the unbounded page ---------------------------------------------------------------

  // The rows down to the one the cursor is in; all rows below are blank.
  datatype Page = Page(rows: seq<Row>, y: nat, x: nat)

  ghost predicate IsPage(c: Config, p: Page) {
    && |p.rows| == p.y + 1 && p.x <= c.maxx
    && forall r :: 0 <= r < |p.rows| ==> |p.rows[r]| == c.maxx + 1
  }

  function EmptyPage(c: Config): Page {
    Page([BlankRow(c)], 0, 0)
  }

  function NextRow(c: Config, p: Page): Page {
    Page(p.rows + [BlankRow(c)], p.y + 1, 0)
  }

  function Type(c: Config, p: Page, ch: Char): (q: Page)
    requires IsPage(c, p)
    ensures IsPage(c, q)
  {
    if ch == NEWLINE then NextRow(c, p)
    else if ch == RETURN then p.(x := 0)
    else
      var q := p.(rows := SetCell(p.rows, p.y, p.x, ch));
      if p.x == c.maxx then NextRow(c, q) else q.(x := p.x + 1)
  }

  function TypeAll(c: Config, text: seq<Char>): (p: Page)
    ensures IsPage(c, p)
    decreases |text|
  {
    if |text| == 0 then EmptyPage(c) else Type(c, TypeAll(c, text[..|text| - 1]), text[|text| - 1])
  }

  function PageRow(c: Config, p: Page, r: nat): Row {
    if r < |p.rows| then p.rows[r] else BlankRow(c)
  }

  // The window shows the rows of the page from the row base on.
  ghost predicate Shows(c: Config, s: Screen, p: Page, base: nat)
  {
    && Fits(c, s) && IsPage(c, p)
    && p.y == base + s.y && p.x == s.x
    && (Pending(c, s) ==> p.rows[p.y] == BlankRow(c))
    && forall r :: 0 <= r <= c.maxy ==> s.rows[r] == PageRow(c, p, base + r)
  }

  lemma SettledShows(c: Config, s: Screen, p: Page, base: nat)
    requires c.scrollok && Shows(c, s, p, base)
    ensures Shows(c, Settled(c, s), p, if Pending(c, s) then base + 1 else base)
  {
  }

  lemma PrintedShows(c: Config, s: Screen, p: Page, base: nat, ch: Char)
    requires c.linewrap && Shows(c, s, p, base) && !Pending(c, s)
    ensures Shows(c, Printed(c, s, ch), Type(c, p, ch), base)
  {
  }

  // The first row in the window: the last one reached before the last character stays in it.
  function Base(c: Config, text: seq<Char>): nat {
    if |text| == 0 then 0
    else
      var y := TypeAll(c, text[..|text| - 1]).y;
      if y > c.maxy then y - c.maxy else 0
  }

  /** Whatever is printed, a window that wraps and scrolls shows a part of the page on which
      it is typed, and scrolls no earlier than the next character requires. */
  lemma {:induction false} WindowShowsPage(c: Config, text: seq<Char>)
    requires c.linewrap && c.scrollok
    ensures Shows(c, AddStr(c, Cleared(c), text), TypeAll(c, text), Base(c, text))
    decreases |text|
  {
    if |text| > 0 {
      var t, ch := text[..|text| - 1], text[|text| - 1];
      var s, p, base := AddStr(c, Cleared(c), t), TypeAll(c, t), Base(c, t);
      WindowShowsPage(c, t);
      SettledShows(c, s, p, base);
      if |t| > 0 {
        RowsOnlyGrow(c, t);
      }
      assert Base(c, text) == if Pending(c, s) then base + 1 else base;
      PrintedShows(c, Settled(c, s), p, Base(c, text), ch);
    }
  }

  lemma RowsOnlyGrow(c: Config, text: seq<Char>)
    requires |text| > 0
    ensures TypeAll(c, text[..|text| - 1]).y <= TypeAll(c, text).y <= TypeAll(c, text[..|text| - 1]).y + 1
  {
  }

  // Text without newlines and returns.
  predicate Plain(text: seq<Char>) {
    NEWLINE !in text && RETURN !in text
  }

  function Index(w: nat, r: nat, x: nat): nat {
    r * w + x
  }

  lemma RowBefore(w: nat, r: nat, r': nat)
    requires r < r'
    ensures r * w + w <= r' * w
  {
    if r + 1 < r' {
      RowBefore(w, r, r' - 1);
    }
    assert r' * w == (r' - 1) * w + w;
  }

  lemma IndexOrder(w: nat, r: nat, x: nat, r': nat, x': nat)
    requires x < w && x' < w
    ensures Index(w, r, x) < Index(w, r', x') <==> r < r' || (r == r' && x < x')
    ensures Index(w, r, x) == Index(w, r', x') <==> r == r' && x == x'
  {
    if r < r' {
      RowBefore(w, r, r');
    } else if r > r' {
      RowBefore(w, r', r);
    }
  }

  // The cursor is behind the text, and the text is in the cells in reading order.
  ghost predicate Filled(w: nat, p: Page, text: seq<Char>) {
    && |p.rows| == p.y + 1 && p.x < w
    && (forall r :: 0 <= r < |p.rows| ==> |p.rows[r]| == w)
    && Index(w, p.y, p.x) == |text|
    && forall r, x :: 0 <= r <= p.y && 0 <= x < w ==> p.rows[r][x] == CharAt(text, Index(w, r, x))
  }

  lemma TypeFills(c: Config, p: Page, t: seq<Char>, ch: Char)
    requires IsPage(c, p) && Filled(c.maxx + 1, p, t) && Plain([ch])
    ensures Filled(c.maxx + 1, Type(c, p, ch), t + [ch])
  {
    var w, q := c.maxx + 1, Type(c, p, ch);
    assert ch in [ch];
    assert Index(w, p.y + 1, 0) == Index(w, p.y, c.maxx) + 1;
    forall r, x | 0 <= r <= q.y && 0 <= x < w
      ensures q.rows[r][x] == CharAt(t + [ch], Index(w, r, x))
    {
      IndexOrder(w, r, x, p.y, p.x);
    }
  }

  /** Plain text fills the page in reading order. */
  lemma {:induction false} PlainTextFillsPage(c: Config, text: seq<Char>)
    requires Plain(text)
    ensures Filled(c.maxx + 1, TypeAll(c, text), text)
    decreases |text|
  {
    if |text| > 0 {
      var t, ch := text[..|text| - 1], text[|text| - 1];
      PlainTextFillsPage(c, t);
      TypeFills(c, TypeAll(c, t), t, ch);
      assert text == t + [ch];
    }
  }

  function CharAt(text: seq<Char>, i: int): Char {
    if 0 <= i < |text| then text[i] else SPACE
  }
}
