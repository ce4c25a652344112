/** core/tty/tty.c: windows on one off-screen image, and the display that follows it. */
module Tty {
  import opened Hd44780
  import opened Terminal

  // Where a window lies in the image.
  datatype Area = Area(lines: nat, cols: nat, begy: nat, begx: nat, maxy: nat, maxx: nat)

  ghost predicate Inside(a: Area, size: nat) {
    a.begy + a.maxy < a.lines && a.begx + a.maxx < a.cols && size == a.lines * a.cols
  }

  lemma InBounds(lines: nat, cols: nat, y: nat, x: nat)
    requires y < lines && x < cols
    ensures Index(cols, y, x) < lines * cols
  {
    RowBefore(cols, y, lines);
  }

  function CellAt(lines: nat, cols: nat, img: seq<Char>, y: nat, x: nat): Char
    requires |img| == lines * cols && y < lines && x < cols
  {
    InBounds(lines, cols, y, x);
    img[Index(cols, y, x)]
  }

  ghost function RowOf(a: Area, img: seq<Char>, r: nat): (row: Row)
    requires Inside(a, |img|) && r <= a.maxy
    ensures |row| == a.maxx + 1
    ensures forall x :: 0 <= x <= a.maxx ==> row[x] == CellAt(a.lines, a.cols, img, a.begy + r, a.begx + x)
  {
    seq(a.maxx + 1, x requires 0 <= x <= a.maxx => CellAt(a.lines, a.cols, img, a.begy + r, a.begx + x))
  }

  ghost function RowsOf(a: Area, img: seq<Char>): (rows: seq<Row>)
    requires Inside(a, |img|)
    ensures |rows| == a.maxy + 1
    ensures forall r :: 0 <= r <= a.maxy ==> rows[r] == RowOf(a, img, r)
  {
    seq(a.maxy + 1, r requires 0 <= r <= a.maxy => RowOf(a, img, r))
  }

  predicate Covers(a: Area, y: nat, x: nat) {
    a.begy <= y <= a.begy + a.maxy && a.begx <= x <= a.begx + a.maxx
  }

  // The image with the cells of the window masked.
  ghost function Outside(a: Area, img: seq<Char>): (o: seq<Row>)
    requires |img| == a.lines * a.cols
    ensures |o| == a.lines
    ensures forall y :: 0 <= y < a.lines ==> o[y] == OutsideRow(a, img, y)
  {
    seq(a.lines, y requires 0 <= y < a.lines => OutsideRow(a, img, y))
  }

  ghost function OutsideRow(a: Area, img: seq<Char>, y: nat): (row: Row)
    requires |img| == a.lines * a.cols && y < a.lines
    ensures |row| == a.cols
    ensures forall x :: 0 <= x < a.cols ==> row[x] == if Covers(a, y, x) then 0 else CellAt(a.lines, a.cols, img, y, x)
  {
    seq(a.cols, x requires 0 <= x < a.cols => if Covers(a, y, x) then 0 else CellAt(a.lines, a.cols, img, y, x))
  }

  // The cells outside the window are the same.
  ghost predicate SameOutside(a: Area, img: seq<Char>, img': seq<Char>)
    requires Inside(a, |img|)
  {
    |img'| == |img| && Outside(a, img') == Outside(a, img)
  }

  lemma CellAfterWrite(lines: nat, cols: nat, img: seq<Char>, y: nat, x: nat, ch: Char, y': nat, x': nat)
    requires |img| == lines * cols && y < lines && x < cols && y' < lines && x' < cols
    ensures Index(cols, y, x) < |img|
    ensures CellAt(lines, cols, img[Index(cols, y, x) := ch], y', x')
      == if y == y' && x == x' then ch else CellAt(lines, cols, img, y', x')
  {
    InBounds(lines, cols, y, x);
    InBounds(lines, cols, y', x');
    IndexOrder(cols, y, x, y', x');
    var i, j := Index(cols, y, x), Index(cols, y', x');
    assert img[i := ch][j] == if i == j then ch else img[j];
  }

  lemma WriteInWindow(a: Area, img: seq<Char>, y: nat, x: nat, ch: Char)
    requires Inside(a, |img|) && y <= a.maxy && x <= a.maxx
    ensures Index(a.cols, a.begy + y, a.begx + x) < |img|
    ensures var img' := img[Index(a.cols, a.begy + y, a.begx + x) := ch];
      RowsOf(a, img') == SetCell(RowsOf(a, img), y, x, ch) && SameOutside(a, img, img')
  {
    InBounds(a.lines, a.cols, a.begy + y, a.begx + x);
    var img' := img[Index(a.cols, a.begy + y, a.begx + x) := ch];
    forall y', x' | 0 <= y' < a.lines && 0 <= x' < a.cols
      ensures CellAt(a.lines, a.cols, img', y', x')
        == if y' == a.begy + y && x' == a.begx + x then ch else CellAt(a.lines, a.cols, img, y', x')
    {
      CellAfterWrite(a.lines, a.cols, img, a.begy + y, a.begx + x, ch, y', x');
    }
    forall r | 0 <= r <= a.maxy
      ensures RowOf(a, img', r) == SetCell(RowsOf(a, img), y, x, ch)[r]
    {
    }
    forall y' | 0 <= y' < a.lines
      ensures OutsideRow(a, img', y') == OutsideRow(a, img, y')
    {
    }
  }

  /** Windows that do not overlap do not see each other's output. */
  lemma OthersUnchanged(a: Area, b: Area, img: seq<Char>, img': seq<Char>)
    requires Inside(a, |img|) && Inside(b, |img|) && a.lines == b.lines && a.cols == b.cols
    requires SameOutside(a, img, img')
    requires a.begy + a.maxy < b.begy || b.begy + b.maxy < a.begy
      || a.begx + a.maxx < b.begx || b.begx + b.maxx < a.begx
    ensures RowsOf(b, img') == RowsOf(b, img)
  {
    forall r | 0 <= r <= b.maxy
      ensures RowOf(b, img', r) == RowOf(b, img, r)
    {
      var y := b.begy + r;
      assert OutsideRow(a, img', y) == Outside(a, img')[y] == Outside(a, img)[y] == OutsideRow(a, img, y);
      forall x | 0 <= x <= b.maxx
        ensures RowOf(b, img', r)[x] == RowOf(b, img, r)[x]
      {
        assert !Covers(a, y, b.begx + x);
        assert OutsideRow(a, img', y)[b.begx + x] == OutsideRow(a, img, y)[b.begx + x];
      }
    }
  }

  // A cell that was never written is zero in the image and blank on the display.
  predicate Agrees(cell: Char, shown: Char) {
    shown == cell || (cell == 0 && shown == SPACE)
  }

  ghost predicate Mirrored(c: Controller, lines: nat, cols: nat, img: seq<Char>, d: seq<Char>)
    requires |img| == lines * cols && |d| == 128
  {
    forall y, x :: 0 <= y < lines && 0 <= x < cols ==> Agrees(CellAt(lines, cols, img, y, x), d[Place(c, y, x)])
  }

  lemma WriteIsMirrored(c: Controller, lines: nat, cols: nat, img: seq<Char>, d: seq<Char>, y: nat, x: nat, ch: Char)
    requires |img| == lines * cols && |d| == 128 && y < lines && x < cols
    requires Distinct(c, lines, cols) && Mirrored(c, lines, cols, img, d)
    ensures Index(cols, y, x) < |img|
    ensures Mirrored(c, lines, cols, img[Index(cols, y, x) := ch], d[Place(c, y, x) := ch])
  {
    InBounds(lines, cols, y, x);
    forall y', x' | 0 <= y' < lines && 0 <= x' < cols
      ensures Agrees(CellAt(lines, cols, img[Index(cols, y, x) := ch], y', x'),
                     d[Place(c, y, x) := ch][Place(c, y', x')])
    {
      CellAfterWrite(lines, cols, img, y, x, ch, y', x');
    }
  }

  lemma BlankIsMirrored(c: Controller, lines: nat, cols: nat, img: seq<Char>, d: seq<Char>, ch: Char)
    requires |img| == lines * cols && |d| == 128 && (ch == 0 || ch == SPACE)
    requires forall i :: 0 <= i < |img| ==> img[i] == ch
    requires forall a :: 0 <= a < 128 ==> d[a] == SPACE
    ensures Mirrored(c, lines, cols, img, d)
  {
    forall y, x | 0 <= y < lines && 0 <= x < cols
      ensures CellAt(lines, cols, img, y, x) == ch && d[Place(c, y, x)] == SPACE
    {
      InBounds(lines, cols, y, x);
    }
  }

  /** On a screen that does not suit the controller, some image has no display contents. */
  lemma UnsuitableScreen(c: Controller, lines: nat, cols: nat) returns (img: seq<Char>)
    requires lines >= 1 && cols >= 1 && !Suits(c, lines, cols)
    ensures |img| == lines * cols && Printable(img)
    ensures forall d: seq<Char> | |d| == 128 :: !Mirrored(c, lines, cols, img, d)
  {
    DistinctIffSuits(c, lines, cols);
    var y, x, y', x' :| 0 <= y < lines && 0 <= x < cols && 0 <= y' < lines && 0 <= x' < cols
      && Place(c, y, x) == Place(c, y', x') && !(y == y' && x == x');
    img := TwoCharacters(lines, cols, y, x, y', x');
    forall d: seq<Char> | |d| == 128
      ensures !Mirrored(c, lines, cols, img, d)
    {
      NotBoth(c, lines, cols, img, d, y, x, y', x');
    }
  }

  // An image with different characters in two cells.
  lemma TwoCharacters(lines: nat, cols: nat, y: nat, x: nat, y': nat, x': nat) returns (img: seq<Char>)
    requires y < lines && x < cols && y' < lines && x' < cols && !(y == y' && x == x')
    ensures |img| == lines * cols && Printable(img)
    ensures CellAt(lines, cols, img, y, x) == 66 && CellAt(lines, cols, img, y', x') == 65
  {
    img := seq(lines * cols, _ => 65);
    CellAfterWrite(lines, cols, img, y, x, 66, y, x);
    CellAfterWrite(lines, cols, img, y, x, 66, y', x');
    InBounds(lines, cols, y', x');
    img := img[Index(cols, y, x) := 66];
  }

  lemma NotBoth(c: Controller, lines: nat, cols: nat, img: seq<Char>, d: seq<Char>, y: nat, x: nat, y': nat, x': nat)
    requires |img| == lines * cols && |d| == 128 && y < lines && x < cols && y' < lines && x' < cols
    requires CellAt(lines, cols, img, y, x) == 66 && CellAt(lines, cols, img, y', x') == 65
    requires Place(c, y, x) == Place(c, y', x')
    ensures !Mirrored(c, lines, cols, img, d)
  {
    var p := Place(c, y, x);
    assert !(Agrees(66, d[p]) && Agrees(65, d[p]));
  }

  // Newlines and returns move cursors and are never stored.
  ghost predicate Printable(img: seq<Char>) {
    forall i :: 0 <= i < |img| ==> img[i] != NEWLINE && img[i] != RETURN
  }

  class Window {
    const subwin: bool
    var linewrap: bool
    var scrollok: bool
    var leaveok: bool
    var y: nat
    var x: nat
    const maxy: nat
    const maxx: nat
    const begy: nat
    const begx: nat

    constructor (subwin: bool, lines: nat, cols: nat, begy: nat, begx: nat)
      requires lines >= 1 && cols >= 1
      ensures this.subwin == subwin && maxy == lines - 1 && maxx == cols - 1 && this.begy == begy && this.begx == begx
      ensures linewrap && scrollok && leaveok && y == 0 && x == 0
      ensures forall l: nat, c: nat | begy + lines <= l && begx + cols <= c ::
                subwin || (begy == 0 && begx == 0 && lines == l && cols == c) ==> Fits(l, c)
    {
      this.subwin, this.begy, this.begx := subwin, begy, begx;
      maxy, maxx := lines - 1, cols - 1;
      linewrap, scrollok, leaveok := true, true, true;
      y, x := 0, 0;
    }

    function Cfg(): Config
      reads this`linewrap, this`scrollok
    {
      Config(maxy, maxx, linewrap, scrollok)
    }

    // The main window covers the image.
    ghost predicate Fits(lines: nat, cols: nat)
      reads this`y, this`x
    {
      && begy + maxy < lines && begx + maxx < cols
      && (!subwin ==> begy == 0 && begx == 0 && maxy == lines - 1 && maxx == cols - 1)
      && y <= maxy + 1 && x <= maxx && (y == maxy + 1 ==> x == 0)
    }
  }

  class Tty {
    const lines: nat
    const cols: nat
    const image: array<Char>
    const lcd: Lcd
    var llY: nat
    var llX: nat

    // The driver's position is that of the low-level cursor.
    ghost predicate Tracks()
      reads this`llY, this`llX, lcd
    {
      lcd.Valid() && lcd.currentPos == Position(llY, llX)
    }

    ghost predicate Valid()
      reads this, image, lcd
    {
      && 1 <= lines < 256 && 1 <= cols < 256 && image.Length == lines * cols
      && Printable(image[..])
      && Tracks()
      && (Distinct(lcd.controller, lines, cols) ==> Mirrored(lcd.controller, lines, cols, image[..], lcd.ddram))
    }

    function AreaOf(w: Window): Area {
      Area(lines, cols, w.begy, w.begx, w.maxy, w.maxx)
    }

    ghost predicate On(w: Window)
      reads this, image, lcd, w
    {
      Valid() && w.Fits(lines, cols)
    }

    // What the window shows.
    ghost function Look(w: Window): (s: Screen)
      requires On(w)
      reads this, image, lcd, w
      ensures Terminal.Fits(w.Cfg(), s)
    {
      Screen(RowsOf(AreaOf(w), image[..]), w.y, w.x)
    }

    /** initscr on a zeroed image. */
    constructor (lines: nat, cols: nat, controller: Controller)
      requires 1 <= lines < 256 && 1 <= cols < 256
      ensures Valid() && this.lines == lines && this.cols == cols && lcd.controller == controller
      ensures fresh(image) && fresh(lcd)
    {
      this.lines, this.cols := lines, cols;
      llY, llX := 0, 0;
      lcd := new Lcd(controller);
      image := new Char[lines * cols](_ => 0);
      new;
      BlankIsMirrored(controller, lines, cols, image[..], lcd.ddram, 0);
    }

    // tty_ll_goto
    method LlGoto(y: nat, x: nat)
      requires Tracks()
      modifies this`llY, this`llX, lcd`currentPos
      ensures Tracks() && llY == y && llX == x
    {
      if y == llY && x == llX {
        return;
      }
      lcd.Goto(y, x);
      llY, llX := y, x;
    }

    // tty_ll_put
    method LlPut(y: nat, x: nat, ch: Char)
      requires Tracks() && ch != NEWLINE && ch != RETURN
      modifies this`llY, this`llX, lcd
      ensures Tracks() && llY == y && llX == x + 1
      ensures lcd.ddram == old(lcd.ddram)[Place(lcd.controller, y, x) := ch]
    {
      if y != llY || x != llX {
        LlGoto(y, x);
      }
      NextPosition(y, x);
      lcd.Put(ch);
      llX := llX + 1;
    }

    // Plain char is signed on this processor, so that a cell never equals a character from 128 on.
    method Store(y: nat, x: nat, ch: Char)
      requires Valid() && y < lines && x < cols && ch != NEWLINE && ch != RETURN
      modifies this`llY, this`llX, lcd, image
      ensures Valid()
      ensures Index(cols, y, x) < image.Length && image[..] == old(image[..])[Index(cols, y, x) := ch]
    {
      InBounds(lines, cols, y, x);
      if image[y * cols + x] != ch || ch >= 128 {
        ghost var img := image[..];
        image[y * cols + x] := ch;
        assert image[..] == img[Index(cols, y, x) := ch];
        if Distinct(lcd.controller, lines, cols) {
          WriteIsMirrored(lcd.controller, lines, cols, img, lcd.ddram, y, x, ch);
        }
        LlPut(y, x, ch);
      } else {
        assert image[..] == image[..][Index(cols, y, x) := ch];
      }
    }

    // waddch in a window whose cursor is in a row
    method Print(w: Window, ch: Char)
      requires On(w) && w.y <= w.maxy
      modifies this`llY, this`llX, lcd, image, w`y, w`x
      ensures On(w) && Look(w) == Printed(w.Cfg(), old(Look(w)), ch)
      ensures SameOutside(AreaOf(w), old(image[..]), image[..])
    {
      if ch == NEWLINE || ch == RETURN {
        if ch == NEWLINE {
          w.y := w.y + 1;
        }
        w.x := 0;
        if !w.leaveok {
          LlGoto(w.y + w.begy, w.x + w.begx);
        }
      } else {
        PutCell(w, ch);
        Advance(w);
      }
    }

    // The character in the cell at the cursor, in the image and on the display.
    method PutCell(w: Window, ch: Char)
      requires On(w) && w.y <= w.maxy && ch != NEWLINE && ch != RETURN
      modifies this`llY, this`llX, lcd, image
      ensures On(w)
      ensures Look(w) == old(Look(w)).(rows := SetCell(old(Look(w)).rows, w.y, w.x, ch))
      ensures SameOutside(AreaOf(w), old(image[..]), image[..])
    {
      WriteInWindow(AreaOf(w), image[..], w.y, w.x, ch);
      Store(w.y + w.begy, w.x + w.begx, ch);
    }

    // The cursor behind a character.
    method Advance(w: Window)
      requires On(w) && w.y <= w.maxy
      modifies this`llY, this`llX, lcd`currentPos, w`y, w`x
      ensures On(w) && Look(w) == Advanced(w.Cfg(), old(Look(w))) && image[..] == old(image[..])
    {
      if w.x == w.maxx {
        if w.linewrap {
          w.y := w.y + 1;
          w.x := 0;
        }
        if !w.leaveok {
          LlGoto(w.y + w.begy, w.begx);
        }
      } else {
        w.x := w.x + 1;
      }
    }

    /** wmove ignores positions outside the window. */
    method Move(w: Window, y: nat, x: nat)
      requires On(w)
      modifies this`llY, this`llX, lcd`currentPos, w`y, w`x
      ensures On(w) && Look(w) == MoveTo(w.Cfg(), old(Look(w)), y, x) && image[..] == old(image[..])
    {
      if y > w.maxy || x > w.maxx {
        return;
      }
      w.y, w.x := y, x;
      if !w.leaveok {
        LlGoto(y + w.begy, x + w.begx);
      }
    }

    /** waddch: a cursor below the window makes it scroll first, or print nothing. */
    method AddCh(w: Window, ch: Char)
      requires On(w)
      modifies this`llY, this`llX, lcd, image, w`y, w`x
      ensures On(w) && Look(w) == Terminal.AddCh(w.Cfg(), old(Look(w)), ch)
      ensures SameOutside(AreaOf(w), old(image[..]), image[..])
      decreases if w.y > w.maxy then 1 else 0, 0
    {
      if w.y > w.maxy {
        if !w.scrollok {
          return;
        }
        Scroll(w, w.y - w.maxy);
      }
      Print(w, ch);
    }

    // The loop of wspacetoeol, through the given states.
    method PutSpaces(w: Window, n: nat, ghost after: seq<Screen>)
      requires On(w) && SpacedInTurn(w.Cfg(), after) && |after| == n + 1 && Look(w) == after[0]
      modifies this`llY, this`llX, lcd, image, w`y, w`x
      ensures On(w) && Look(w) == after[n]
      ensures SameOutside(AreaOf(w), old(image[..]), image[..])
      decreases if w.y > w.maxy then 1 else 0, 1
    {
      for i := 0 to n
        invariant On(w) && Look(w) == after[i]
        invariant SameOutside(AreaOf(w), old(image[..]), image[..])
      {
        AddCh(w, SPACE);
      }
    }

    /** wspacetoeol */
    method SpaceToEol(w: Window)
      requires On(w)
      modifies this`llY, this`llX, lcd, image, w`y, w`x
      ensures On(w) && Look(w) == Terminal.SpaceToEol(w.Cfg(), old(Look(w)))
      ensures SameOutside(AreaOf(w), old(image[..]), image[..])
      decreases if w.y > w.maxy then 1 else 0, 2
    {
      ghost var after := SpacesInTurn(w.Cfg(), Look(w));
      PutSpaces(w, w.maxx - w.x + 1, after);
    }

    /** wclrtoeol */
    method ClrToEol(w: Window)
      requires On(w)
      modifies this`llY, this`llX, lcd, image, w`y, w`x
      ensures On(w) && Look(w) == Terminal.ClrToEol(w.Cfg(), old(Look(w)))
      ensures SameOutside(AreaOf(w), old(image[..]), image[..])
    {
      TailThenBack(w.Cfg(), Look(w));
      var y, x := w.y, w.x;
      SpaceToEol(w);
      Move(w, y, x);
    }

    // One row of the loop of wclrtobot.
    method ClearRow(w: Window, y: nat)
      requires On(w)
      modifies this`llY, this`llX, lcd, image, w`y, w`x
      ensures On(w) && Look(w) == Terminal.SpaceToEol(w.Cfg(), MoveTo(w.Cfg(), old(Look(w)), y, 0))
      ensures SameOutside(AreaOf(w), old(image[..]), image[..])
      decreases if w.y > w.maxy && y > w.maxy then 1 else 0, 3
    {
      Move(w, y, 0);
      SpaceToEol(w);
    }

    // The loop of wclrtobot, through the given states.
    method ClearEach(w: Window, from: nat, ghost after: seq<Screen>)
      requires On(w) && ClearedInTurn(w.Cfg(), from, after) && from + |after| == w.maxy + 2 && Look(w) == after[0]
      modifies this`llY, this`llX, lcd, image, w`y, w`x
      ensures On(w) && Look(w) == after[|after| - 1]
      ensures SameOutside(AreaOf(w), old(image[..]), image[..])
      decreases 0, 4
    {
      ghost var n := 0;
      for y := from to w.maxy + 1
        invariant n == y - from && On(w) && Look(w) == after[n]
        invariant SameOutside(AreaOf(w), old(image[..]), image[..])
      {
        ClearRow(w, y);
        n := n + 1;
      }
    }

    method ClearBelow(w: Window, from: nat)
      requires On(w)
      modifies this`llY, this`llX, lcd, image, w`y, w`x
      ensures On(w) && Look(w) == BlankedFrom(w.Cfg(), old(Look(w)), from)
      ensures SameOutside(AreaOf(w), old(image[..]), image[..])
      decreases 0, 5
    {
      if from <= w.maxy {
        ghost var after := BlankedInTurn(w.Cfg(), Look(w), from);
        ClearEach(w, from, after);
      }
    }

    // The loops of wclrtobot.
    method ClearRest(w: Window)
      requires On(w)
      modifies this`llY, this`llX, lcd, image, w`y, w`x
      ensures On(w) && Look(w) == RestBlanked(w.Cfg(), old(Look(w)))
      ensures SameOutside(AreaOf(w), old(image[..]), image[..])
      decreases if w.y > w.maxy then 1 else 0, 6
    {
      ghost var c, s := w.Cfg(), Look(w);
      ghost var t, u := Terminal.SpaceToEol(c, s), RestBlanked(c, s);
      var from := (w.y + 1) % 256;
      assert u == BlankedFrom(c, t, from);
      SpaceToEol(w);
      ClearBelow(w, from);
      assert Look(w) == u;
    }

    /** wclrtobot */
    method ClrToBot(w: Window)
      requires On(w)
      modifies this`llY, this`llX, lcd, image, w`y, w`x
      ensures On(w) && Look(w) == Terminal.ClrToBot(w.Cfg(), old(Look(w)))
      ensures SameOutside(AreaOf(w), old(image[..]), image[..])
      decreases if w.y > w.maxy then 1 else 0, 7
    {
      RowsThenBack(w.Cfg(), Look(w));
      var y, x := w.y, w.x;
      ClearRest(w);
      Move(w, y, x);
    }

    /** wclear: the main window is cleared at once, image and display. */
    method Clear(w: Window)
      requires On(w)
      modifies this`llY, this`llX, lcd, image, w`y, w`x
      ensures On(w) && Look(w) == Cleared(w.Cfg())
      ensures SameOutside(AreaOf(w), old(image[..]), image[..])
      decreases 0, 8
    {
      if !w.subwin {
        ClearMain(w);
      } else {
        Move(w, 0, 0);
        BlankFromOrigin(w.Cfg(), Look(w));
        ClrToBot(w);
      }
    }

    method ClearMain(w: Window)
      requires On(w) && !w.subwin
      modifies lcd, image, w`y, w`x
      ensures On(w) && Look(w) == Cleared(w.Cfg())
      ensures SameOutside(AreaOf(w), old(image[..]), image[..])
    {
      BlankAll();
      lcd.Clear();
      w.y, w.x := 0, 0;
      BlankIsMirrored(lcd.controller, lines, cols, image[..], lcd.ddram, SPACE);
      BlankImage(AreaOf(w), image[..]);
      NothingOutside(AreaOf(w), old(image[..]), image[..]);
    }

    // The loop of wclear.
    method BlankAll()
      modifies image
      ensures forall j :: 0 <= j < image.Length ==> image[j] == SPACE
    {
      for i := 0 to image.Length
        invariant forall j :: 0 <= j < i ==> image[j] == SPACE
      {
        image[i] := SPACE;
      }
    }

    // One cell of the copy in wscroll.
    method CopyCell(w: Window, y: nat, k: nat)
      requires On(w) && w.y == y && y + k <= w.maxy
      modifies this`llY, this`llX, lcd, image, w`y, w`x
      ensures
        var s := old(Look(w));
        var ch := s.rows[y + k][s.x];
        On(w) && Look(w) == Terminal.AddCh(w.Cfg(), s, ch) && ch != NEWLINE && ch != RETURN
      ensures SameOutside(AreaOf(w), old(image[..]), image[..])
      decreases 0, 1
    {
      InBounds(lines, cols, w.begy + y + k, w.begx + w.x);
      var ch := image[(y + k + w.begy) * cols + (w.x + w.begx)];
      assert ch == CellAt(lines, cols, image[..], w.begy + (y + k), w.begx + w.x);
      AddCh(w, ch);
    }

    // The cells of a row, through the given states.
    method CopyCells(w: Window, y: nat, k: nat, ghost after: seq<Screen>)
      requires On(w) && y + k <= w.maxy
      requires CellsInTurn(w.Cfg(), y, k, after) && |after| == w.maxx + 2 && Look(w) == after[0]
      modifies this`llY, this`llX, lcd, image, w`y, w`x
      ensures On(w) && Look(w) == after[w.maxx + 1]
      ensures SameOutside(AreaOf(w), old(image[..]), image[..])
      decreases 0, 2
    {
      for x := 0 to w.maxx + 1
        invariant On(w) && Look(w) == after[x]
        invariant SameOutside(AreaOf(w), old(image[..]), image[..])
      {
        CopyCell(w, y, k);
      }
    }

    method CopyRow(w: Window, y: nat, k: nat)
      requires On(w) && y + k <= w.maxy
      modifies this`llY, this`llX, lcd, image, w`y, w`x
      ensures
        var s := old(Look(w));
        On(w) && Look(w) == RowCopied(w.Cfg(), s, y, k)
      ensures SameOutside(AreaOf(w), old(image[..]), image[..])
      decreases 0, 3
    {
      ghost var after := CopiesCells(w.Cfg(), Look(w), y, k);
      Move(w, y, 0);
      CopyCells(w, y, k, after);
    }

    // The loops of wscroll, through the given states.
    method CopyEach(w: Window, k: nat, ghost after: seq<Screen>)
      requires On(w) && k <= w.maxy
      requires CopiedInTurn(w.Cfg(), k, after) && |after| == w.maxy + 2 - k && Look(w) == after[0]
      modifies this`llY, this`llX, lcd, image, w`y, w`x
      ensures On(w) && Look(w) == after[|after| - 1]
      ensures SameOutside(AreaOf(w), old(image[..]), image[..])
      decreases 0, 4
    {
      for y := 0 to w.maxy - k + 1
        invariant On(w) && Look(w) == after[y]
        invariant SameOutside(AreaOf(w), old(image[..]), image[..])
      {
        CopyRow(w, y, k);
      }
    }

    // The copy in wscroll.
    method CopyRows(w: Window, k: nat)
      requires On(w) && k <= w.maxy
      modifies this`llY, this`llX, lcd, image, w`y, w`x
      ensures
        var s := old(Look(w));
        On(w) && Look(w) == AfterCopy(w.Cfg(), s, k, w.maxy + 1 - k)
      ensures SameOutside(AreaOf(w), old(image[..]), image[..])
      decreases 0, 5
    {
      ghost var after := CopiesInTurn(w.Cfg(), Look(w), k);
      CopyEach(w, k, after);
    }

    /** wscroll */
    method Scroll(w: Window, k: nat)
      requires On(w)
      modifies this`llY, this`llX, lcd, image, w`y, w`x
      ensures On(w) && Look(w) == ScrolledBy(w.Cfg(), old(Look(w)), k)
      ensures SameOutside(AreaOf(w), old(image[..]), image[..])
      decreases if k == 0 then 2 else 0, 10
    {
      ghost var c, s := w.Cfg(), Look(w);
      if k > w.maxy {
        Clear(w);
        ClearedByScroll(c, s, k);
        return;
      }
      ScrollRows(w, k);
    }

    // wscroll by no more rows than the window has.
    method ScrollRows(w: Window, k: nat)
      requires On(w) && k <= w.maxy
      modifies this`llY, this`llX, lcd, image, w`y, w`x
      ensures On(w) && Look(w) == ScrolledBy(w.Cfg(), old(Look(w)), k)
      ensures SameOutside(AreaOf(w), old(image[..]), image[..])
      decreases if k == 0 then 2 else 0, 9
    {
      MovedAll(w.Cfg(), Look(w), k);
      CopyRows(w, k);
      Move(w, w.maxy - k + 1, 0);
      ClrToBot(w);
    }

    /** waddstr, of the characters before the terminating zero */
    method AddStr(w: Window, text: seq<Char>)
      requires On(w)
      modifies this`llY, this`llX, lcd, image, w`y, w`x
      ensures On(w) && Look(w) == Terminal.AddStr(w.Cfg(), old(Look(w)), text)
      ensures SameOutside(AreaOf(w), old(image[..]), image[..])
    {
      ghost var c, s := w.Cfg(), Look(w);
      for i := 0 to |text|
        invariant On(w) && Look(w) == Terminal.AddStr(c, s, text[..i])
        invariant SameOutside(AreaOf(w), old(image[..]), image[..])
      {
        AddCh(w, text[i]);
        assert text[..i + 1][..i] == text[..i];
      }
      assert text[..|text|] == text;
    }
  }

  // Each state is the one before with one more row cleared, from the given row on.
  ghost predicate ClearedInTurn(c: Config, from: nat, after: seq<Screen>) {
    && |after| >= 1
    && (forall n :: 0 <= n < |after| ==> Fits(c, after[n]))
    && (forall n :: 0 <= n < |after| - 1 ==>
          after[n + 1] == Terminal.SpaceToEol(c, MoveTo(c, after[n], from + n, 0)))
  }

  lemma BlankedInTurn(c: Config, s: Screen, from: nat) returns (after: seq<Screen>)
    requires Fits(c, s) && from <= c.maxy
    ensures ClearedInTurn(c, from, after) && |after| == c.maxy + 2 - from
    ensures after[0] == s && after[|after| - 1] == RowsBlanked(c, s, from, c.maxy + 1 - from)
  {
    after := seq(c.maxy + 2 - from, n requires 0 <= n < c.maxy + 2 - from => RowsBlanked(c, s, from, n));
    forall n | 0 <= n < |after| - 1
      ensures after[n + 1] == Terminal.SpaceToEol(c, MoveTo(c, after[n], from + n, 0))
    {
      OneRowMore(c, s, from, n);
    }
  }

  // Row y + k is copied to row y, and the cursor goes past it.
  ghost function RowCopied(c: Config, s: Screen, y: nat, k: nat): Screen
    requires Fits(c, s) && y + k <= c.maxy
  {
    Advanced(c, Screen(s.rows[y := s.rows[y + k]], y, c.maxx))
  }

  // Row y after the first n cells of row y + k are copied to it.
  ghost function Copied(c: Config, s: Screen, y: nat, k: nat, n: nat): Screen
    requires Fits(c, s) && y + k <= c.maxy && n <= c.maxx + 1
  {
    var rows := s.rows[y := s.rows[y + k][..n] + s.rows[y][n..]];
    if n <= c.maxx then Screen(rows, y, n) else Advanced(c, Screen(rows, y, c.maxx))
  }

  lemma CopiedNone(c: Config, s: Screen, y: nat, k: nat)
    requires Fits(c, s) && y + k <= c.maxy
    ensures Copied(c, s, y, k, 0) == Screen(s.rows, y, 0)
  {
    assert s.rows[y + k][..0] + s.rows[y][0..] == s.rows[y];
  }

  lemma CopiedOneMore(c: Config, s: Screen, y: nat, k: nat, n: nat)
    requires Fits(c, s) && y + k <= c.maxy && n <= c.maxx
    ensures Fits(c, Copied(c, s, y, k, n))
    ensures
      var ch := Copied(c, s, y, k, n).rows[y + k][n];
      ch != NEWLINE && ch != RETURN ==>
        Terminal.AddCh(c, Copied(c, s, y, k, n), ch) == Copied(c, s, y, k, n + 1)
  {
    var from, to := s.rows[y + k], s.rows[y];
    assert (from[..n] + to[n..])[n := from[n]] == from[..n + 1] + to[n + 1..];
  }

  lemma CopiedAll(c: Config, s: Screen, y: nat, k: nat)
    requires Fits(c, s) && y + k <= c.maxy
    ensures Copied(c, s, y, k, c.maxx + 1) == RowCopied(c, s, y, k)
  {
    assert s.rows[y + k][..c.maxx + 1] + s.rows[y][c.maxx + 1..] == s.rows[y + k];
  }

  // Each cell is copied from the one k rows further down.
  ghost predicate CellsInTurn(c: Config, y: nat, k: nat, after: seq<Screen>) {
    && y + k <= c.maxy && 1 <= |after| <= c.maxx + 2
    && (forall n :: 0 <= n < |after| ==> Fits(c, after[n]))
    && (forall n :: 0 <= n < |after| - 1 ==> after[n].y == y && CellCopied(c, after[n], y + k, after[n + 1]))
  }

  ghost predicate CellCopied(c: Config, s: Screen, from: nat, t: Screen)
    requires Fits(c, s) && from <= c.maxy
  {
    var ch := s.rows[from][s.x];
    ch != NEWLINE && ch != RETURN ==> Terminal.AddCh(c, s, ch) == t
  }

  lemma CopiesCells(c: Config, s: Screen, y: nat, k: nat) returns (after: seq<Screen>)
    requires Fits(c, s) && y + k <= c.maxy
    ensures CellsInTurn(c, y, k, after) && |after| == c.maxx + 2
    ensures after[0] == MoveTo(c, s, y, 0) && after[c.maxx + 1] == RowCopied(c, s, y, k)
  {
    after := seq(c.maxx + 2, n requires 0 <= n <= c.maxx + 1 => Copied(c, s, y, k, n));
    CopiedNone(c, s, y, k);
    CopiedAll(c, s, y, k);
    forall n | 0 <= n <= c.maxx
      ensures Fits(c, after[n]) && after[n].y == y && CellCopied(c, after[n], y + k, after[n + 1])
    {
      CopiedOneMore(c, s, y, k, n);
    }
  }

  lemma ClearedByScroll(c: Config, s: Screen, k: nat)
    requires Fits(c, s) && k > c.maxy
    ensures ScrolledBy(c, s, k) == Cleared(c)
  {
  }

  // The rows after the first n are replaced by those k below them.
  function Moved(rows: seq<Row>, k: nat, n: nat): (m: seq<Row>)
    requires n + k <= |rows|
    ensures |m| == |rows|
  {
    rows[k..k + n] + rows[n..]
  }

  // The window after the copy of n rows.
  ghost function AfterCopy(c: Config, s: Screen, k: nat, n: nat): Screen
    requires Fits(c, s) && n + k <= c.maxy + 1
  {
    if n == 0 then s else Advanced(c, Screen(Moved(s.rows, k, n), n - 1, c.maxx))
  }

  lemma AfterCopyFits(c: Config, s: Screen, k: nat, n: nat)
    requires Fits(c, s) && n + k <= c.maxy + 1
    ensures Fits(c, AfterCopy(c, s, k, n))
  {
  }

  lemma AfterOneMore(c: Config, s: Screen, k: nat, n: nat)
    requires Fits(c, s) && n + k <= c.maxy && Fits(c, AfterCopy(c, s, k, n))
    ensures AfterCopy(c, s, k, n + 1) == RowCopied(c, AfterCopy(c, s, k, n), n, k)
  {
    var rows := AfterCopy(c, s, k, n).rows;
    assert rows == Moved(s.rows, k, n);
    assert rows[n := rows[n + k]] == Moved(s.rows, k, n + 1);
  }

  // Each row is copied from the one k rows further down.
  ghost predicate CopiedInTurn(c: Config, k: nat, after: seq<Screen>) {
    && 1 <= |after| && |after| + k <= c.maxy + 2
    && (forall n :: 0 <= n < |after| ==> Fits(c, after[n]))
    && (forall n :: 0 <= n < |after| - 1 ==> after[n + 1] == RowCopied(c, after[n], n, k))
  }

  lemma CopiesInTurn(c: Config, s: Screen, k: nat) returns (after: seq<Screen>)
    requires Fits(c, s) && k <= c.maxy
    ensures CopiedInTurn(c, k, after) && |after| == c.maxy + 2 - k
    ensures after[0] == s && after[|after| - 1] == AfterCopy(c, s, k, c.maxy + 1 - k)
  {
    var last := c.maxy + 1 - k;
    after := seq(last + 1, n requires 0 <= n <= last => AfterCopy(c, s, k, n));
    forall n | 0 <= n <= last
      ensures Fits(c, after[n])
    {
      AfterCopyFits(c, s, k, n);
    }
    forall n | 0 <= n < last
      ensures after[n + 1] == RowCopied(c, after[n], n, k)
    {
      AfterOneMore(c, s, k, n);
    }
  }

  // The last steps of wscroll.
  lemma MovedAll(c: Config, s: Screen, k: nat)
    requires Fits(c, s) && k <= c.maxy
    ensures
      var t := MoveTo(c, AfterCopy(c, s, k, c.maxy + 1 - k), c.maxy - k + 1, 0);
      Fits(c, t) && Terminal.ClrToBot(c, t) == ScrolledBy(c, s, k)
  {
    if k > 0 {
      MovedSome(c, s, k, c.maxy + 1 - k);
    } else {
      assert Moved(s.rows, 0, c.maxy + 1) == s.rows;
      assert AfterCopy(c, s, 0, c.maxy + 1) == Advanced(c, s.(y := c.maxy, x := c.maxx));
    }
  }

  lemma MovedSome(c: Config, s: Screen, k: nat, n: nat)
    requires Fits(c, s) && 1 <= k <= c.maxy && n == c.maxy + 1 - k
    ensures
      var t := MoveTo(c, AfterCopy(c, s, k, n), n, 0);
      Fits(c, t) && Terminal.ClrToBot(c, t) == Scrolled(c, s, k)
  {
    var t := Screen(Moved(s.rows, k, n), n, 0);
    assert MoveTo(c, AfterCopy(c, s, k, n), n, 0) == t;
    assert t.rows[n][..0] + Spaces(c.maxx + 1) == BlankRow(c);
    assert BlankTail(c, t)[..n + 1] == s.rows[k..] + [BlankRow(c)];
    assert [BlankRow(c)] + BlankRows(c, c.maxy - n) == BlankRows(c, k);
  }

  lemma BlankImage(a: Area, img: seq<Char>)
    requires Inside(a, |img|) && forall i :: 0 <= i < |img| ==> img[i] == SPACE
    ensures RowsOf(a, img) == seq(a.maxy + 1, _ => Spaces(a.maxx + 1))
  {
    forall r | 0 <= r <= a.maxy
      ensures RowOf(a, img, r) == Spaces(a.maxx + 1)
    {
      forall x | 0 <= x <= a.maxx
        ensures RowOf(a, img, r)[x] == SPACE
      {
        InBounds(a.lines, a.cols, a.begy + r, a.begx + x);
      }
    }
  }

  lemma NothingOutside(a: Area, img: seq<Char>, img': seq<Char>)
    requires Inside(a, |img|) && |img'| == |img|
    requires a.begy == 0 && a.begx == 0 && a.maxy == a.lines - 1 && a.maxx == a.cols - 1
    ensures SameOutside(a, img, img')
  {
    forall y | 0 <= y < a.lines
      ensures OutsideRow(a, img', y) == OutsideRow(a, img, y)
    {
    }
  }

  lemma BlankFromOrigin(c: Config, s: Screen)
    requires Fits(c, s) && s.y == 0 && s.x == 0
    ensures s.(rows := BlankTail(c, s)[..1] + BlankRows(c, c.maxy)) == Cleared(c)
  {
    assert s.rows[0][..0] + Spaces(c.maxx + 1) == BlankRow(c);
  }

  /** What the image holds is on the display, wherever the screen suits the controller. */
  lemma DisplayShowsImage(t: Tty, y: nat, x: nat)
    requires t.Valid() && Suits(t.lcd.controller, t.lines, t.cols) && y < t.lines && x < t.cols
    ensures
      var cell := CellAt(t.lines, t.cols, t.image[..], y, x);
      var shown := t.lcd.ddram[Place(t.lcd.controller, y, x)];
      if cell != 0 then shown == cell else shown == 0 || shown == SPACE
  {
    DistinctIffSuits(t.lcd.controller, t.lines, t.cols);
  }
}
