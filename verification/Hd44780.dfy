/** hardware/lcd/hd44780.c: the position the driver tracks and the display memory it writes. */
module Hd44780 {

  newtype Char = n: int | 0 <= n < 256

  const SPACE: Char := ' ' as int as Char
  const NEWLINE: Char := '\n' as int as Char
  const RETURN: Char := '\r' as int as Char

  datatype Controller = Original | DispTech | Ks0067b

  // The display address of a position; lines are 20 positions apart.
  function Address(c: Controller, pos: nat): (a: nat)
    requires pos < 80
    ensures a < 128
  {
    if pos <= 19 then pos
    else if pos <= 39 then (if c.Original? then 0x20 else 0x40) + (pos - 20)
    else if pos <= 59 then (if c.Original? then 0x40 else if c.DispTech? then 0x10 else 0x14) + (pos - 40)
    else (if c.Original? then 0x60 else if c.DispTech? then 0x50 else 0x54) + (pos - 60)
  }

  function Position(line: nat, pos: nat): nat {
    (line * 20 + pos) % 80
  }

  lemma NextPosition(line: nat, pos: nat)
    ensures (Position(line, pos) + 1) % 80 == Position(line, pos + 1)
  {
    Next(line * 20 + pos);
  }

  lemma Next(n: nat)
    ensures (n % 80 + 1) % 80 == (n + 1) % 80
  {
  }

  // The position after a newline, before it wraps.
  function RowEnd(pos: nat): (e: nat)
    requires pos < 80
    ensures pos <= e <= 80
  {
    (pos + 19) / 20 * 20
  }

  function RowStart(pos: nat): nat {
    pos / 20 * 20
  }

  function Place(c: Controller, line: nat, pos: nat): nat {
    Address(c, Position(line, pos))
  }

  // Where the four rows of a display with 20 columns begin.
  function Rows(c: Controller): (rows: seq<nat>)
    ensures |rows| == 4
  {
    match c
    case Original => [0x00, 0x20, 0x40, 0x60]
    case DispTech => [0x00, 0x40, 0x10, 0x50]
    case Ks0067b => [0x00, 0x40, 0x14, 0x54]
  }

  /** A cell stands where its row begins and as many addresses on as its column. */
  lemma CellStands(c: Controller, y: nat, x: nat)
    requires y < 4 && x < 20
    ensures Place(c, y, x) == Rows(c)[y] + x
  {
    PositionInRow(y, x);
  }

  /** Rows begin and end at multiples of 20. */
  lemma RowBounds(pos: nat)
    requires pos < 80
    ensures RowStart(pos) % 20 == 0 && RowStart(pos) <= pos < RowStart(pos) + 20
    ensures RowEnd(pos) % 20 == 0 && pos <= RowEnd(pos) < pos + 20
  {
  }

  // No two cells of a screen of that size share an address.
  ghost predicate Distinct(c: Controller, lines: nat, cols: nat) {
    forall y, x, y', x' |
        0 <= y < lines && 0 <= x < cols && 0 <= y' < lines && 0 <= x' < cols && Place(c, y, x) == Place(c, y', x')
      :: y == y' && x == x'
  }

  predicate Suits(c: Controller, lines: nat, cols: nat) {
    || (lines <= 4 && cols <= 20 && (c.DispTech? ==> cols <= 16 || lines <= 2))
    || (lines == 1 && cols <= if c.DispTech? then 40 else 80)
  }

  lemma AddressOneToOne(c: Controller, p: nat, q: nat)
    requires p < 80 && q < 80 && Address(c, p) == Address(c, q)
    requires c.DispTech? ==> (p < 40 && q < 40) || (p % 20 < 16 && q % 20 < 16)
    ensures p == q
  {
  }

  lemma PositionInRow(y: nat, x: nat)
    requires y < 4 && x < 20
    ensures Position(y, x) == 20 * y + x && (20 * y + x) % 20 == x
  {
  }

  lemma OneLineIsDistinct(c: Controller, x: nat, x': nat)
    requires x < 80 && x' < 80 && (c.DispTech? ==> x < 40 && x' < 40)
    requires Place(c, 0, x) == Place(c, 0, x')
    ensures x == x'
  {
    PositionInLine(x);
    PositionInLine(x');
    AddressOneToOne(c, x, x');
  }

  lemma PositionInLine(x: nat)
    requires x < 80
    ensures Position(0, x) == x
  {
  }

  lemma FourLinesAreDistinct(c: Controller, y: nat, x: nat, y': nat, x': nat)
    requires y < 4 && x < 20 && y' < 4 && x' < 20
    requires c.DispTech? ==> (x < 16 && x' < 16) || (y < 2 && y' < 2)
    requires Place(c, y, x) == Place(c, y', x')
    ensures y == y' && x == x'
  {
    PositionInRow(y, x);
    PositionInRow(y', x');
    AddressOneToOne(c, 20 * y + x, 20 * y' + x');
  }

  lemma SuitableIsDistinct(c: Controller, lines: nat, cols: nat)
    requires Suits(c, lines, cols)
    ensures Distinct(c, lines, cols)
  {
    forall y, x, y', x' |
        0 <= y < lines && 0 <= x < cols && 0 <= y' < lines && 0 <= x' < cols && Place(c, y, x) == Place(c, y', x')
      ensures y == y' && x == x'
    {
      if cols <= 20 && lines <= 4 {
        FourLinesAreDistinct(c, y, x, y', x');
      } else {
        OneLineIsDistinct(c, x, x');
      }
    }
  }

  /** The screen sizes for which each cell has an address of its own: the map for the DispTech
      controller lets its rows overlap where they are longer than 16 positions. */
  lemma DistinctIffSuits(c: Controller, lines: nat, cols: nat)
    requires lines >= 1 && cols >= 1
    ensures Distinct(c, lines, cols) <==> Suits(c, lines, cols)
  {
    if Suits(c, lines, cols) {
      SuitableIsDistinct(c, lines, cols);
    } else if lines >= 2 && cols > 20 {
      assert Place(c, 0, 20) == Place(c, 1, 0);
    } else if lines > 4 {
      assert Place(c, 0, 0) == Place(c, 4, 0);
    } else if lines > 1 {
      assert Place(c, 0, 16) == Place(c, 2, 0);
    } else if c.DispTech? {
      assert Place(c, 0, 16) == Place(c, 0, 40);
    } else {
      assert Place(c, 0, 0) == Place(c, 0, 80);
    }
  }

  // The positions from i to j - 1 are blank in d', and the rest is as in d.
  ghost predicate Blanked(c: Controller, d: seq<Char>, d': seq<Char>, i: nat, j: nat)
    requires |d| == |d'| == 128 && j <= 80
  {
    && (forall p :: i <= p < j ==> d'[Address(c, p)] == SPACE)
    && (forall a :: 0 <= a < 128 && (forall p :: i <= p < j ==> Address(c, p) != a) ==> d'[a] == d[a])
  }

  // The driver and the display memory behind it.
  class Lcd {
    const controller: Controller
    var currentPos: nat
    var ddram: seq<Char>

    ghost predicate Valid()
      reads this
    {
      currentPos < 80 && |ddram| == 128
    }

    constructor (controller: Controller)
      ensures Valid() && this.controller == controller
      ensures currentPos == 0 && forall a :: 0 <= a < 128 ==> ddram[a] == SPACE
    {
      this.controller := controller;
      currentPos := 0;
      ddram := seq(128, _ => SPACE);
    }

    /** hd44780_clear leaves the tracked position alone. */
    method Clear()
      requires Valid()
      modifies this`ddram
      ensures Valid() && forall a :: 0 <= a < 128 ==> ddram[a] == SPACE
    {
      ddram := seq(128, _ => SPACE);
    }

    /** hd44780_goto */
    method Goto(line: nat, pos: nat)
      modifies this`currentPos
      ensures currentPos == Position(line, pos)
    {
      currentPos := (line * 20 + pos) % 80;
    }

    /** hd44780_put: a newline blanks the rest of the line, but does nothing at its start. */
    method Put(d: Char)
      requires Valid()
      modifies this
      ensures Valid()
      ensures d == RETURN ==> currentPos == RowStart(old(currentPos)) && ddram == old(ddram)
      ensures d == NEWLINE ==>
        && currentPos == RowEnd(old(currentPos)) % 80
        && Blanked(controller, old(ddram), ddram, old(currentPos), RowEnd(old(currentPos)))
      ensures d != RETURN && d != NEWLINE ==>
        && ddram == old(ddram[Address(controller, currentPos) := d])
        && currentPos == (old(currentPos) + 1) % 80
      decreases if d == NEWLINE then 2 else 0
    {
      if d == NEWLINE {
        BlankRest();
        assert currentPos < 80;  // so the source's subtraction of 80 is never needed
      } else if d == RETURN {
        currentPos := currentPos - currentPos % 20;
      } else {
        ddram := ddram[Address(controller, currentPos) := d];
        currentPos := currentPos + 1;
        if currentPos == 80 {
          currentPos := 0;
        }
      }
    }

    // The loop for a newline.
    method BlankRest()
      requires Valid()
      modifies this
      ensures Valid() && currentPos == RowEnd(old(currentPos)) % 80
      ensures Blanked(controller, old(ddram), ddram, old(currentPos), RowEnd(old(currentPos)))
      decreases 1
    {
      ghost var last := RowEnd(currentPos);
      ghost var done := currentPos;
      while currentPos % 20 > 0
        invariant Valid() && old(currentPos) <= done <= last && currentPos == done % 80
        invariant Blanked(controller, old(ddram), ddram, old(currentPos), done)
        decreases last - done
      {
        Put(SPACE);
        done := done + 1;
      }
    }
  }
}
