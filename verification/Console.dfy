/** The framebuffer console. The screen is a grid of cells as they look; pixels, colours and the font are left out. */
module Console {
  import opened Bytes

  const TAB_WIDTH: nat := 4
  const NEWLINE: byte := 10
  const RETURN: byte := 13
  const TAB: byte := 9
  const BACKSPACE: byte := 8
  const SPACE: byte := 32

  datatype Cell = Cell(ch: byte, fg: nat, bg: nat)

  /** How a cell looks: the colour of a space's glyph cannot be seen. */
  datatype Look = Blank(bg: nat) | Glyph(ch: byte, fg: nat, bg: nat)

  function LookOf(c: Cell): Look {
    if c.ch == SPACE then Blank(c.bg) else Glyph(c.ch, c.fg, c.bg)
  }

  // ---------- what a character does ----------

  type Grid = seq<seq<Cell>>

  /** What the console shows and where its cursor is. */
  datatype Display = Display(grid: Grid, col: nat, row: nat)

  /** The size and the colours, which no character changes. */
  datatype Style = Style(cols: nat, rows: nat, fg: nat, bg: nat)

  ghost predicate Shaped(s: Style, grid: Grid) {
    |grid| == s.rows && forall r :: 0 <= r < s.rows ==> |grid[r]| == s.cols
  }

  /** The cursor is inside the grid. */
  ghost predicate DisplayOk(s: Style, d: Display) {
    0 < s.rows && 0 < s.cols && Shaped(s, d.grid) && d.col < s.cols && d.row < s.rows
  }

  function BlankRow(s: Style): (r: seq<Cell>)
    ensures |r| == s.cols && forall j :: 0 <= j < s.cols ==> r[j] == Cell(SPACE, s.fg, s.bg)
  {
    seq(s.cols, _ => Cell(SPACE, s.fg, s.bg))
  }

  function BlankGrid(s: Style): (r: Grid)
    ensures |r| == s.rows && forall i :: 0 <= i < s.rows ==> r[i] == BlankRow(s)
  {
    seq(s.rows, _ => BlankRow(s))
  }

  function Scrolled(s: Style, grid: Grid): Grid
    requires grid != []
  {
    grid[1..] + [BlankRow(s)]
  }

  function NewlineOn(s: Style, d: Display): (r: Display)
    requires DisplayOk(s, d.(col := 0))
    ensures DisplayOk(s, r) && r.col == 0
  {
    if d.row + 1 >= s.rows then Display(Scrolled(s, d.grid), 0, s.rows - 1) else Display(d.grid, 0, d.row + 1)
  }

  /** Cell (`row`, `col`) becomes `c`. */
  function Set(grid: Grid, row: nat, col: nat, c: Cell): Grid
    requires row < |grid| && col < |grid[row]|
  {
    grid[row := grid[row][col := c]]
  }

  function PrintOn(s: Style, d: Display, ch: byte): (r: Display)
    requires DisplayOk(s, d)
    ensures DisplayOk(s, r)
    ensures d.col + 1 < s.cols ==> r.col == d.col + 1 && r.row == d.row
  {
    var d1 := Display(Set(d.grid, d.row, d.col, Cell(ch, s.fg, s.bg)), d.col + 1, d.row);
    if d1.col >= s.cols then NewlineOn(s, d1) else d1
  }

  function NextTab(col: nat): nat { (col + TAB_WIDTH) / TAB_WIDTH * TAB_WIDTH }

  /** The tab stop is on the row: without this the loop never ends. */
  predicate TabFits(s: Style, d: Display) { NextTab(d.col) < s.cols }

  function SpacesOn(s: Style, d: Display, n: nat): (r: Display)
    requires DisplayOk(s, d)
    ensures DisplayOk(s, r)
    ensures d.col + n < s.cols ==> r.col == d.col + n && r.row == d.row
    decreases n
  {
    if n == 0 then d else SpacesOn(s, PrintOn(s, d, SPACE), n - 1)
  }

  function Put(s: Style, d: Display, ch: byte): (r: Display)
    requires DisplayOk(s, d) && (ch == TAB ==> TabFits(s, d))
    ensures DisplayOk(s, r)
  {
    if ch == NEWLINE then NewlineOn(s, d)
    else if ch == RETURN then d.(col := 0)
    else if ch == TAB then SpacesOn(s, d, NextTab(d.col) - d.col)
    else if ch == BACKSPACE then
      if d.col > 0 then Display(Set(d.grid, d.row, d.col - 1, Cell(SPACE, s.fg, s.bg)), d.col - 1, d.row) else d
    else if ch < SPACE then d
    else PrintOn(s, d, ch)
  }

  /** Every tab of the text meets its guard. */
  ghost predicate TabsFit(s: Style, d: Display, text: seq<byte>)
    requires DisplayOk(s, d)
    decreases |text|
  {
    text == [] || ((text[0] == TAB ==> TabFits(s, d)) && TabsFit(s, Put(s, d, text[0]), text[1..]))
  }

  /** The text, character by character. */
  ghost function PutAll(s: Style, d: Display, text: seq<byte>): (r: Display)
    requires DisplayOk(s, d) && TabsFit(s, d, text)
    ensures DisplayOk(s, r)
    decreases |text|
  {
    if text == [] then d else PutAll(s, Put(s, d, text[0]), text[1..])
  }

  /** Writing two texts is writing their concatenation. */
  lemma {:induction false} PutAllConcat(s: Style, d: Display, a: seq<byte>, b: seq<byte>)
    requires DisplayOk(s, d) && TabsFit(s, d, a) && TabsFit(s, PutAll(s, d, a), b)
    ensures TabsFit(s, d, a + b) && PutAll(s, d, a + b) == PutAll(s, PutAll(s, d, a), b)
    decreases |a|
  {
    if a == [] {
      assert a + b == b;
    } else {
      assert (a + b)[0] == a[0] && (a + b)[1..] == a[1..] + b;
      PutAllConcat(s, Put(s, d, a[0]), a[1..], b);
    }
  }

  lemma {:induction false} TabsFitPrefix(s: Style, d: Display, a: seq<byte>, b: seq<byte>)
    requires DisplayOk(s, d) && TabsFit(s, d, a + b)
    ensures TabsFit(s, d, a) && TabsFit(s, PutAll(s, d, a), b)
    decreases |a|
  {
    if a == [] {
      assert a + b == b;
    } else {
      assert (a + b)[0] == a[0] && (a + b)[1..] == a[1..] + b;
      TabsFitPrefix(s, Put(s, d, a[0]), a[1..], b);
    }
  }

  /** The tab loop ends if and only if the next stop is left of the right margin: otherwise, however many spaces it has
      put, the cursor is still in front of the stop. */
  lemma TabEnds(s: Style, d: Display)
    requires DisplayOk(s, d)
    ensures TabFits(s, d) <==> exists n :: SpacesOn(s, d, n).col >= NextTab(d.col)
  {
    if TabFits(s, d) {
      assert SpacesOn(s, d, NextTab(d.col) - d.col).col >= NextTab(d.col);
    }
  }

  // ---------- the console ----------

  class Framebuffer {
    const cols: nat
    const rows: nat
    const cells: array2<Cell>
    const screen: array2<Look>
    const backed: bool
    var fg: nat
    var bg: nat
    var col: nat
    var row: nat
    var batching: bool
    var deferred: bool
    /** What the screen shows, or will show once a pending redraw is done. */
    ghost var grid: Grid

    ghost function StyleOf(): Style
      reads this
    {
      Style(cols, rows, fg, bg)
    }

    ghost function Now(): Display
      reads this
    {
      Display(grid, col, row)
    }

    /** The cells in memory are the grid, if the console keeps them. */
    ghost predicate CellsMatch()
      requires cells.Length0 == rows && cells.Length1 == cols && Shaped(StyleOf(), grid)
      reads this, cells
    {
      backed ==> forall r, c :: 0 <= r < rows && 0 <= c < cols ==> cells[r, c] == grid[r][c]
    }

    /** The screen shows the grid. */
    ghost predicate Shows()
      requires screen.Length0 == rows && screen.Length1 == cols && Shaped(StyleOf(), grid)
      reads this, screen
    {
      forall r, c :: 0 <= r < rows && 0 <= c < cols ==> screen[r, c] == LookOf(grid[r][c])
    }

    ghost predicate Core()
      reads this, cells
    {
      && 0 < rows && 0 < cols && cells.Length0 == rows == screen.Length0 && cells.Length1 == cols == screen.Length1
      && Shaped(StyleOf(), grid) && CellsMatch()
    }

    ghost predicate Valid()
      reads this, cells, screen
    {
      && Core() && DisplayOk(StyleOf(), Now())
      && (deferred ==> backed && batching)
      && (!deferred ==> Shows())
    }

    method DrawCellAt(c: nat, r: nat, cell: Cell)
      requires r < screen.Length0 && c < screen.Length1
      modifies screen
      ensures forall i, j :: 0 <= i < screen.Length0 && 0 <= j < screen.Length1 ==>
                screen[i, j] == if i == r && j == c then LookOf(cell) else old(screen[i, j])
    {
      screen[r, c] := LookOf(cell);
    }

    method ClearCellAt(c: nat, r: nat)
      requires r < screen.Length0 && c < screen.Length1
      modifies screen
      ensures forall i, j :: 0 <= i < screen.Length0 && 0 <= j < screen.Length1 ==>
                screen[i, j] == if i == r && j == c then Blank(bg) else old(screen[i, j])
    {
      screen[r, c] := Blank(bg);
    }

    method SetCell(c: nat, r: nat, ch: byte)
      requires r < cells.Length0 && c < cells.Length1
      modifies cells
      ensures forall i, j :: 0 <= i < cells.Length0 && 0 <= j < cells.Length1 ==>
                cells[i, j] == if backed && i == r && j == c then Cell(ch, fg, bg) else old(cells[i, j])
    {
      if !backed {
        return;
      }
      cells[r, c] := Cell(ch, fg, bg);
    }

    method ClearBackingRow(r: nat)
      requires r < cells.Length0 && cols == cells.Length1
      modifies cells
      ensures forall i, j :: 0 <= i < cells.Length0 && 0 <= j < cells.Length1 ==>
                cells[i, j] == if backed && i == r then Cell(SPACE, fg, bg) else old(cells[i, j])
    {
      if !backed {
        return;
      }
      for c := 0 to cols
        invariant forall i, j :: 0 <= i < cells.Length0 && 0 <= j < cells.Length1 ==>
                    cells[i, j] == if i == r && j < c then Cell(SPACE, fg, bg) else old(cells[i, j])
      {
        cells[r, c] := Cell(SPACE, fg, bg);
      }
    }

    method RedrawFromBacking()
      requires Core()
      modifies screen
      ensures backed ==> Shows()
      ensures !backed ==> forall i, j :: 0 <= i < rows && 0 <= j < cols ==> screen[i, j] == old(screen[i, j])
    {
      if !backed {
        return;
      }
      for r := 0 to rows
        invariant forall i, j :: 0 <= i < r && 0 <= j < cols ==> screen[i, j] == LookOf(grid[i][j])
      {
        for c := 0 to cols
          invariant forall i, j :: 0 <= i < r && 0 <= j < cols ==> screen[i, j] == LookOf(grid[i][j])
          invariant forall j :: 0 <= j < c ==> screen[r, j] == LookOf(grid[r][j])
        {
          DrawCellAt(c, r, cells[r, c]);
        }
      }
    }

    method FlushDeferredRedraw()
      requires Valid()
      modifies screen, `deferred
      ensures Valid() && !deferred && Shows()
    {
      if !deferred {
        return;
      }
      RedrawFromBacking();
      deferred := false;
    }

    /** Moves the cells one row up and blanks the last one. */
    method ScrollCells()
      requires Core() && backed
      modifies cells, `grid
      ensures grid == Scrolled(StyleOf(), old(grid)) && Core()
    {
      ghost var g0 := grid;
      for r := 1 to rows
        invariant forall i, j :: 0 <= i < r - 1 && 0 <= j < cols ==> cells[i, j] == g0[i + 1][j]
        invariant forall i, j :: r - 1 <= i < rows && 0 <= j < cols ==> cells[i, j] == g0[i][j]
      {
        var above := r - 1;
        for c := 0 to cols
          invariant forall i, j :: 0 <= i < above && 0 <= j < cols ==> cells[i, j] == g0[i + 1][j]
          invariant forall j :: 0 <= j < c ==> cells[above, j] == g0[r][j]
          invariant forall j :: c <= j < cols ==> cells[above, j] == g0[above][j]
          invariant forall i, j :: r <= i < rows && 0 <= j < cols ==> cells[i, j] == g0[i][j]
        {
          cells[above, c] := cells[r, c];
        }
      }
      ClearBackingRow(rows - 1);
      grid := Scrolled(StyleOf(), g0);
    }

    /** Moves the rendered rows one row up and blanks the last one. */
    method ScrollScreen()
      requires Core() && !backed && Shows()
      modifies screen, `grid
      ensures grid == Scrolled(StyleOf(), old(grid)) && Core() && Shows()
    {
      ghost var g0 := grid;
      for r := 0 to rows - 1
        invariant forall i, j :: 0 <= i < r && 0 <= j < cols ==> screen[i, j] == LookOf(g0[i + 1][j])
        invariant forall i, j :: r <= i < rows && 0 <= j < cols ==> screen[i, j] == LookOf(g0[i][j])
      {
        for c := 0 to cols
          invariant forall i, j :: 0 <= i < r && 0 <= j < cols ==> screen[i, j] == LookOf(g0[i + 1][j])
          invariant forall j :: 0 <= j < c ==> screen[r, j] == LookOf(g0[r + 1][j])
          invariant forall j :: c <= j < cols ==> screen[r, j] == LookOf(g0[r][j])
          invariant forall i, j :: r + 1 <= i < rows && 0 <= j < cols ==> screen[i, j] == LookOf(g0[i][j])
        {
          screen[r, c] := screen[r + 1, c];
        }
      }
      var bottom := rows - 1;
      for c := 0 to cols
        invariant forall i, j :: 0 <= i < bottom && 0 <= j < cols ==> screen[i, j] == LookOf(g0[i + 1][j])
        invariant forall j :: 0 <= j < c ==> screen[bottom, j] == Blank(bg)
      {
        ClearCellAt(c, bottom);
      }
      grid := Scrolled(StyleOf(), g0);
    }

    /** Scrolling looks the same whether or not the cells are kept, and whether or not the redraw is put off. */
    method Scroll()
      requires Core() && (deferred ==> backed && batching) && (!deferred ==> Shows())
      modifies cells, screen, `grid, `deferred
      ensures grid == Scrolled(StyleOf(), old(grid)) && Core()
      ensures (deferred ==> backed && batching) && (!deferred ==> Shows())
    {
      if backed {
        ScrollCells();
        if batching {
          deferred := true;
          return;
        }
        RedrawFromBacking();
        return;
      }
      ScrollScreen();
    }

    method Newline()
      requires Core() && row < rows && (deferred ==> backed && batching) && (!deferred ==> Shows())
      modifies cells, screen, `grid, `deferred, `col, `row
      ensures Valid() && Now() == NewlineOn(StyleOf(), old(Now()))
    {
      col := 0;
      row := row + 1;
      if row >= rows {
        Scroll();
        row := rows - 1;
      }
    }

    method DrawCharAt(c: nat, r: nat, ch: byte)
      requires Valid() && c < cols && r < rows
      modifies cells, screen, `grid
      ensures grid == Set(old(grid), r, c, Cell(ch, fg, bg)) && Core() && (!deferred ==> Shows())
    {
      grid := Set(grid, r, c, Cell(ch, fg, bg));
      if backed {
        cells[r, c] := Cell(ch, fg, bg);
      }
      if deferred {
        return;
      }
      DrawCellAt(c, r, Cell(ch, fg, bg));
    }

    /** A printable character, drawn and followed by a line break at the margin. The cursor is never past the margin
        before, so the first of the two line breaks of the source is never taken. */
    method Print(ch: byte)
      requires Valid()
      modifies cells, screen, `grid, `deferred, `col, `row
      ensures Valid() && Now() == PrintOn(StyleOf(), old(Now()), ch)
    {
      if col >= cols {
        assert false;
      }
      DrawCharAt(col, row, ch);
      col := col + 1;
      if col >= cols {
        Newline();
      }
    }

    method Backspace()
      requires Valid()
      modifies cells, screen, `grid, `col
      ensures Valid() && Now() == Put(StyleOf(), old(Now()), BACKSPACE)
    {
      if col > 0 {
        grid := Set(grid, row, col - 1, Cell(SPACE, fg, bg));
        col := col - 1;
        SetCell(col, row, SPACE);
        ClearCellAt(col, row);
      }
    }

    /** putchar_inner. */
    method PutInner(ch: byte)
      requires Valid() && (ch == TAB ==> TabFits(StyleOf(), Now()))
      modifies cells, screen, `grid, `deferred, `col, `row
      ensures Valid() && Now() == Put(StyleOf(), old(Now()), ch)
      decreases if ch == TAB then 2 else 0
    {
      if ch == NEWLINE {
        Newline();
      } else if ch == RETURN {
        col := 0;
      } else if ch == TAB {
        var next := NextTab(col);
        ghost var d := Now();
        while col < next
          invariant Valid() && col <= next
          invariant SpacesOn(StyleOf(), Now(), next - col) == SpacesOn(StyleOf(), d, next - d.col)
          decreases next - col
        {
          Putchar(SPACE);
        }
      } else if ch == BACKSPACE {
        Backspace();
      } else if ch >= SPACE {
        Print(ch);
      }
    }

    /** framebuffer_console_putchar: no redraw is pending afterwards. */
    method Putchar(ch: byte)
      requires Valid() && (ch == TAB ==> TabFits(StyleOf(), Now()))
      modifies cells, screen, `grid, `deferred, `col, `row
      ensures Valid() && !deferred && Shows() && Now() == Put(StyleOf(), old(Now()), ch)
      decreases if ch == TAB then 3 else 1
    {
      PutInner(ch);
      FlushDeferredRedraw();
    }

    /** framebuffer_console_write: ends with what putting the characters one by one ends with. */
    method Write(text: seq<byte>)
      requires Valid() && TabsFit(StyleOf(), Now(), text)
      modifies cells, screen, `grid, `deferred, `col, `row, `batching
      ensures Valid() && batching == old(batching) && Now() == PutAll(StyleOf(), old(Now()), text)
      ensures !batching ==> !deferred && Shows()
    {
      var wasBatching := batching;
      batching := true;
      ghost var d := Now();
      assert text[0..] == text;
      for i := 0 to |text|
        invariant Valid() && batching
        invariant TabsFit(StyleOf(), Now(), text[i..])
        invariant PutAll(StyleOf(), Now(), text[i..]) == PutAll(StyleOf(), d, text)
      {
        assert text[i..][1..] == text[i + 1..];
        PutInner(text[i]);
      }
      if !wasBatching {
        FlushDeferredRedraw();
      }
      batching := wasBatching;
    }

    /** framebuffer_console_clear. */
    method Clear()
      requires Core()
      modifies cells, screen, `grid, `deferred, `col, `row
      ensures Valid() && !deferred && col == 0 && row == 0
      ensures grid == BlankGrid(StyleOf())
    {
      for r := 0 to rows
        invariant forall i, j :: 0 <= i < r && 0 <= j < cols ==> screen[i, j] == Blank(bg)
        invariant backed ==> forall i, j :: 0 <= i < r && 0 <= j < cols ==> cells[i, j] == Cell(SPACE, fg, bg)
      {
        for c := 0 to cols
          invariant forall i, j :: 0 <= i < r && 0 <= j < cols ==> screen[i, j] == Blank(bg)
          invariant forall j :: 0 <= j < c ==> screen[r, j] == Blank(bg)
          invariant backed ==> forall i, j :: 0 <= i < r && 0 <= j < cols ==> cells[i, j] == Cell(SPACE, fg, bg)
        {
          ClearCellAt(c, r);
        }
        ClearBackingRow(r);
      }
      deferred, col, row := false, 0, 0;
      grid := BlankGrid(StyleOf());
    }
  }
}
