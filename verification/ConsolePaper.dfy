/** What a text looks like: an endless sheet of rows, of which the console shows the last ones. */
module ConsolePaper {
  import opened Bytes
  import opened Console

  /** Rows that never scroll away; the cursor is in the last one. */
  datatype Paper = Paper(rows: seq<seq<Cell>>, col: nat)

  ghost predicate PaperOk(s: Style, p: Paper) {
    0 < s.cols && 0 < s.rows && p.rows != [] && p.col < s.cols && forall i :: 0 <= i < |p.rows| ==> |p.rows[i]| == s.cols
  }

  function EmptyPaper(s: Style): Paper { Paper([BlankRow(s)], 0) }

  function NextRow(s: Style, p: Paper): Paper { Paper(p.rows + [BlankRow(s)], 0) }

  function Ink(s: Style, p: Paper, col: nat, ch: byte): (r: seq<seq<Cell>>)
    requires p.rows != [] && col < |p.rows[|p.rows| - 1]|
    ensures |r| == |p.rows| && forall i :: 0 <= i < |r| ==> |r[i]| == |p.rows[i]|
  {
    p.rows[..|p.rows| - 1] + [p.rows[|p.rows| - 1][col := Cell(ch, s.fg, s.bg)]]
  }

  /** A glyph; a full row is followed by the next one. */
  function Glyphed(s: Style, p: Paper, ch: byte): (r: Paper)
    requires PaperOk(s, p)
    ensures PaperOk(s, r) && (r.col == p.col + 1 || r.col == 0)
  {
    var q := Paper(Ink(s, p, p.col, ch), p.col + 1);
    if q.col == s.cols then NextRow(s, q) else q
  }

  /** Spaces up to a multiple of the tab width. */
  function Tabbed(s: Style, p: Paper): (r: Paper)
    requires PaperOk(s, p)
    ensures PaperOk(s, r)
    decreases TAB_WIDTH - p.col % TAB_WIDTH
  {
    var q := Glyphed(s, p, SPACE);
    if q.col % TAB_WIDTH == 0 then q else Tabbed(s, q)
  }

  function Typed(s: Style, p: Paper, ch: byte): (r: Paper)
    requires PaperOk(s, p)
    ensures PaperOk(s, r)
  {
    if ch == NEWLINE then NextRow(s, p)
    else if ch == RETURN then p.(col := 0)
    else if ch == TAB then Tabbed(s, p)
    else if ch == BACKSPACE && p.col > 0 then Paper(Ink(s, p, p.col - 1, SPACE), p.col - 1)
    else if ch < SPACE then p
    else Glyphed(s, p, ch)
  }

  function TypedAll(s: Style, p: Paper, text: seq<byte>): (r: Paper)
    requires PaperOk(s, p)
    ensures PaperOk(s, r)
    decreases |text|
  {
    if text == [] then p else TypedAll(s, Typed(s, p, text[0]), text[1..])
  }

  function Top(s: Style, p: Paper): nat { if |p.rows| > s.rows then |p.rows| - s.rows else 0 }

  function WindowRow(s: Style, p: Paper, i: nat): (r: seq<Cell>)
    ensures (forall k :: 0 <= k < |p.rows| ==> |p.rows[k]| == s.cols) ==> |r| == s.cols
  {
    if Top(s, p) + i < |p.rows| then p.rows[Top(s, p) + i] else BlankRow(s)
  }

  /** The last rows of the sheet, or all of them with blank rows below. */
  function Window(s: Style, p: Paper): (r: Grid)
    ensures |r| == s.rows && forall i :: 0 <= i < s.rows ==> r[i] == WindowRow(s, p, i)
  {
    seq(s.rows, i requires 0 <= i => WindowRow(s, p, i))
  }

  function View(s: Style, p: Paper): (r: Display)
    requires PaperOk(s, p)
    ensures DisplayOk(s, r) && r.col == p.col
  {
    Display(Window(s, p), p.col, (if |p.rows| > s.rows then s.rows else |p.rows|) - 1)
  }

  // ---------- the console shows the sheet ----------

  /** A line break shows the next row, and moves the others up when there is no room for it. */
  lemma NextRowShows(s: Style, p: Paper)
    requires PaperOk(s, p.(col := 0))
    ensures PaperOk(s, NextRow(s, p)) && View(s, NextRow(s, p)) == NewlineOn(s, Display(Window(s, p), p.col, View(s, p.(col := 0)).row))
  {
    var w, w' := Window(s, p), Window(s, NextRow(s, p));
    hide Window, BlankRow;
    if |p.rows| >= s.rows {
      assert w' == Scrolled(s, w);
    } else {
      assert w' == w;
    }
  }

  lemma InkShows(s: Style, p: Paper, col: nat, ch: byte)
    requires PaperOk(s, p) && col < s.cols
    ensures Window(s, Paper(Ink(s, p, col, ch), p.col)) == Set(Window(s, p), View(s, p).row, col, Cell(ch, s.fg, s.bg))
  {
  }

  lemma GlyphShows(s: Style, p: Paper, ch: byte)
    requires PaperOk(s, p)
    ensures View(s, Glyphed(s, p, ch)) == PrintOn(s, View(s, p), ch)
  {
    InkShows(s, p, p.col, ch);
    var q := Paper(Ink(s, p, p.col, ch), p.col + 1);
    assert Window(s, q) == Window(s, Paper(Ink(s, p, p.col, ch), p.col));
    if q.col == s.cols { NextRowShows(s, q); }
  }

  lemma {:induction false} TabShows(s: Style, p: Paper)
    requires PaperOk(s, p) && NextTab(p.col) < s.cols
    ensures View(s, Tabbed(s, p)) == SpacesOn(s, View(s, p), NextTab(p.col) - p.col)
    decreases TAB_WIDTH - p.col % TAB_WIDTH
  {
    GlyphShows(s, p, SPACE);
    var q := Glyphed(s, p, SPACE);
    assert q.col == p.col + 1;
    if q.col % TAB_WIDTH != 0 {
      assert NextTab(q.col) == NextTab(p.col);
      TabShows(s, q);
    } else {
      assert NextTab(p.col) == q.col;
    }
  }

  lemma TypedShows(s: Style, p: Paper, ch: byte)
    requires PaperOk(s, p) && (ch == TAB ==> TabFits(s, View(s, p)))
    ensures View(s, Typed(s, p, ch)) == Put(s, View(s, p), ch)
  {
    hide Glyphed, Tabbed, PrintOn, SpacesOn, NewlineOn, Window, Ink;
    if ch == NEWLINE {
      assert Window(s, p) == Window(s, p.(col := 0)) by { SameWindow(s, p, 0); }
      NextRowShows(s, p);
    } else if ch == RETURN {
      SameWindow(s, p, 0);
    } else if ch == TAB {
      TabShows(s, p);
    } else if ch == BACKSPACE && p.col > 0 {
      InkShows(s, p, p.col - 1, SPACE);
      SameWindow(s, Paper(Ink(s, p, p.col - 1, SPACE), p.col), p.col - 1);
    } else if ch >= SPACE {
      GlyphShows(s, p, ch);
    }
  }

  lemma SameWindow(s: Style, p: Paper, col: nat)
    ensures Window(s, p.(col := col)) == Window(s, p)
  {
  }

  /** Whatever was written before, the console shows the last rows of the sheet, with the cursor where the sheet has it. */
  lemma {:induction false} TextShows(s: Style, p: Paper, text: seq<byte>)
    requires PaperOk(s, p) && TabsFit(s, View(s, p), text)
    ensures PutAll(s, View(s, p), text) == View(s, TypedAll(s, p, text))
    decreases |text|
  {
    hide View, Typed, Put;
    if text != [] {
      TypedShows(s, p, text[0]);
      TextShows(s, Typed(s, p, text[0]), text[1..]);
    }
  }

  /** From a cleared console on, that is the text. */
  lemma ClearedShows(s: Style, text: seq<byte>)
    requires 0 < s.cols && 0 < s.rows && TabsFit(s, Display(BlankGrid(s), 0, 0), text)
    ensures PutAll(s, Display(BlankGrid(s), 0, 0), text) == View(s, TypedAll(s, EmptyPaper(s), text))
  {
    assert Window(s, EmptyPaper(s)) == BlankGrid(s);
    TextShows(s, EmptyPaper(s), text);
  }

  // ---------- plain text ----------

  /** Only glyphs and newlines. */
  ghost predicate Plain(text: seq<byte>) {
    forall k :: 0 <= k < |text| ==> text[k] == NEWLINE || text[k] >= SPACE
  }

  /** How many of the first `n` characters come before a newline. */
  function Run(text: seq<byte>, n: nat): (k: nat)
    ensures k <= n && k <= |text| && (k < n && k < |text| ==> text[k] == NEWLINE)
  {
    if n == 0 || text == [] || text[0] == NEWLINE then 0 else 1 + Run(text[1..], n - 1)
  }

  /** The text in lines, broken at newlines and after `cols` characters. */
  function Wrapped(text: seq<byte>, cols: nat): (r: seq<seq<byte>>)
    requires 0 < cols
    ensures r != []
    decreases |text|
  {
    var k := Run(text, cols);
    if k == cols then [text[..k]] + Wrapped(text[k..], cols)
    else if k < |text| then [text[..k]] + Wrapped(text[k + 1..], cols)
    else [text]
  }

  function RowOf(s: Style, line: seq<byte>): (r: seq<Cell>)
    ensures |r| == s.cols
  {
    seq(s.cols, j requires 0 <= j => Cell(if j < |line| then line[j] else SPACE, s.fg, s.bg))
  }

  function RowsOf(s: Style, lines: seq<seq<byte>>): seq<seq<Cell>> {
    seq(|lines|, i requires 0 <= i < |lines| => RowOf(s, lines[i]))
  }

  lemma {:induction false} RunIs(line: seq<byte>, rest: seq<byte>, n: nat)
    requires |line| <= n && (|line| == n || rest == [] || rest[0] == NEWLINE)
    requires forall k :: 0 <= k < |line| ==> line[k] != NEWLINE
    ensures Run(line + rest, n) == |line|
    decreases |line|
  {
    if line == [] {
      assert line + rest == rest;
    } else {
      assert (line + rest)[1..] == line[1..] + rest;
      RunIs(line[1..], rest, n - 1);
    }
  }

  lemma WrappedFirst(line: seq<byte>, rest: seq<byte>, cols: nat)
    requires 0 < cols && |line| <= cols && forall k :: 0 <= k < |line| ==> line[k] != NEWLINE
    ensures |line| == cols ==> Wrapped(line + rest, cols) == [line] + Wrapped(rest, cols)
    ensures |line| < cols && rest != [] && rest[0] == NEWLINE ==> Wrapped(line + rest, cols) == [line] + Wrapped(rest[1..], cols)
    ensures |line| < cols && rest == [] ==> Wrapped(line + rest, cols) == [line]
  {
    if |line| == cols || rest == [] || rest[0] == NEWLINE {
      RunIs(line, rest, cols);
      assert (line + rest)[..|line|] == line && (line + rest)[|line|..] == rest;
      if |line| < cols && rest != [] { assert (line + rest)[|line| + 1..] == rest[1..]; }
      if rest == [] { assert line + rest == line; }
    }
  }

  lemma RowsOfConcat(s: Style, a: seq<seq<byte>>, b: seq<seq<byte>>)
    ensures RowsOf(s, a + b) == RowsOf(s, a) + RowsOf(s, b)
  {
  }

  /** One plain character behind `line`. */
  lemma PlainStep(s: Style, above: seq<seq<Cell>>, line: seq<byte>, ch: byte)
    requires 0 < s.cols && 0 < s.rows && |line| < s.cols && (ch == NEWLINE || ch >= SPACE)
    requires forall i :: 0 <= i < |above| ==> |above[i]| == s.cols
    ensures PaperOk(s, Paper(above + [RowOf(s, line)], |line|))
    ensures Typed(s, Paper(above + [RowOf(s, line)], |line|), ch) ==
            if ch == NEWLINE then Paper(above + [RowOf(s, line)] + [RowOf(s, [])], 0)
            else if |line| + 1 == s.cols then Paper(above + [RowOf(s, line + [ch])] + [RowOf(s, [])], 0)
            else Paper(above + [RowOf(s, line + [ch])], |line| + 1)
  {
    InkRow(s, above, line, ch);
    EmptyRow(s);
    hide RowOf, Ink, BlankRow;
  }

  lemma EmptyRow(s: Style)
    ensures RowOf(s, []) == BlankRow(s)
  {
  }

  /** Continuing a line begun with `line`. */
  lemma {:induction false} PlainFrom(s: Style, above: seq<seq<Cell>>, line: seq<byte>, text: seq<byte>)
    requires 0 < s.cols && 0 < s.rows && |line| < s.cols && Plain(text)
    requires (forall k :: 0 <= k < |line| ==> line[k] != NEWLINE) && forall i :: 0 <= i < |above| ==> |above[i]| == s.cols
    ensures PaperOk(s, Paper(above + [RowOf(s, line)], |line|))
    ensures var lines := Wrapped(line + text, s.cols);
            TypedAll(s, Paper(above + [RowOf(s, line)], |line|), text) ==
            Paper(above + RowsOf(s, lines), |lines[|lines| - 1]|)
    decreases |text|
  {
    hide RowOf, RowsOf, Typed, Wrapped;
    var lines := Wrapped(line + text, s.cols);
    if text == [] {
      WrappedFirst(line, text, s.cols);
      OneLine(s, line);
    } else {
      var ch, rest := text[0], text[1..];
      PlainStep(s, above, line, ch);
      if ch == NEWLINE {
        WrappedFirst(line, text, s.cols);
        NextLine(s, above, line, lines, rest);
        PlainFrom(s, above + [RowOf(s, line)], [], rest);
      } else {
        var longer := line + [ch];
        assert longer + rest == line + text;
        if |longer| == s.cols {
          WrappedFirst(longer, rest, s.cols);
          NextLine(s, above, longer, lines, rest);
          PlainFrom(s, above + [RowOf(s, longer)], [], rest);
        } else {
          PlainFrom(s, above, longer, rest);
        }
      }
    }
  }

  lemma OneLine(s: Style, line: seq<byte>)
    ensures RowsOf(s, [line]) == [RowOf(s, line)]
  {
  }

  lemma InkRow(s: Style, above: seq<seq<Cell>>, line: seq<byte>, ch: byte)
    requires |line| < s.cols
    ensures Ink(s, Paper(above + [RowOf(s, line)], |line|), |line|, ch) == above + [RowOf(s, line + [ch])]
  {
    assert RowOf(s, line)[|line| := Cell(ch, s.fg, s.bg)] == RowOf(s, line + [ch]);
  }

  lemma NextLine(s: Style, above: seq<seq<Cell>>, line: seq<byte>, lines: seq<seq<byte>>, rest: seq<byte>)
    requires 0 < s.cols && lines == [line] + Wrapped(rest, s.cols)
    ensures above + RowsOf(s, lines) == above + [RowOf(s, line)] + RowsOf(s, Wrapped([] + rest, s.cols))
    ensures var more := Wrapped([] + rest, s.cols); lines[|lines| - 1] == more[|more| - 1]
  {
    assert [] + rest == rest;
    RowsOfConcat(s, [line], Wrapped(rest, s.cols));
    OneLine(s, line);
  }

  /** A plain text on an empty sheet is its lines, with the cursor behind the last character. */
  lemma PlainLines(s: Style, text: seq<byte>)
    requires 0 < s.cols && 0 < s.rows && Plain(text)
    ensures var lines := Wrapped(text, s.cols);
            TypedAll(s, EmptyPaper(s), text) == Paper(RowsOf(s, lines), |lines[|lines| - 1]|)
  {
    PlainFrom(s, [], [], text);
    assert [] + text == text && RowOf(s, []) == BlankRow(s);
    assert [] + [RowOf(s, [])] == [BlankRow(s)];
  }
}
