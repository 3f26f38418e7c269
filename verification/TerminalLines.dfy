/** What the control characters do to a page: lines become rows, a return overwrites, the others move or do nothing. */
module TerminalLines {
  import opened Terminal
  import opened Sequences

  predicate Printable(text: seq<nat>) {
    forall i | 0 <= i < |text| :: text[i] >= 0x20
  }

  lemma {:induction false} TypeAllInTwo(p: Page, a: seq<nat>, b: seq<nat>)
    requires p.Valid()
    ensures p.TypeAll(a + b) == p.TypeAll(a).TypeAll(b)
    decreases |a|
  {
    if a == [] {
      assert a + b == b;
    } else {
      HeadFirst(a, b);
      assert (a + b)[1..] == a[1..] + b;
      TypeAllInTwo(p.Type(a[0]), a[1..], b);
    }
  }

  lemma TypeOne(p: Page, ch: nat)
    requires p.Valid()
    ensures p.TypeAll([ch]) == p.Type(ch)
  {
    assert [ch][1..] == [];
  }

  /** A row in which `text` stands from column `col` on. */
  function Overwritten(row: seq<Cell>, col: nat, text: seq<nat>, attr: nat): seq<Cell>
    requires col + |text| <= |row|
  {
    row[..col] + Cells(text, attr) + row[col + |text|..]
  }

  lemma OverwriteOne(row: seq<Cell>, col: nat, text: seq<nat>, attr: nat)
    requires text != [] && col + |text| <= |row|
    ensures Overwritten(row[col := Cell(text[0], attr)], col + 1, text[1..], attr) == Overwritten(row, col, text, attr)
  {
    var row' := row[col := Cell(text[0], attr)];
    assert row'[..col + 1] == row[..col] + [Cell(text[0], attr)];
    assert Cells(text, attr) == [Cell(text[0], attr)] + Cells(text[1..], attr);
    assert row'[col + |text|..] == row[col + |text|..];
  }

  /** Printable text that ends in front of the last column stands in its row from the cursor on. */
  lemma {:induction false} TextInRow(p: Page, text: seq<nat>)
    requires p.Valid() && Printable(text) && p.col + |text| < p.width
    ensures p.TypeAll(text)
         == p.(rows := p.rows[p.row := Overwritten(p.rows[p.row], p.col, text, p.attr)], col := p.col + |text|)
    decreases |text|
  {
    var row := p.rows[p.row];
    if text == [] {
      assert Overwritten(row, p.col, text, p.attr) == row;
      assert p.rows[p.row := row] == p.rows;
    } else {
      var q := p.Type(text[0]);
      OverwriteOne(row, p.col, text, p.attr);
      hide Overwritten;
      assert p.rows[p.row := row[p.col := Cell(text[0], p.attr)]][p.row := Overwritten(row, p.col, text, p.attr)]
          == p.rows[p.row := Overwritten(row, p.col, text, p.attr)];
      TextInRow(q, text[1..]);
    }
  }

  // ---------- Lines ----------

  /** The lines with a newline between them. */
  function Lines(lines: seq<seq<nat>>): seq<nat>
    requires lines != []
  {
    if |lines| == 1 then lines[0] else lines[0] + [10] + Lines(lines[1..])
  }

  /** A line in a row of its own. */
  function RowOf(line: seq<nat>, width: nat, attr: nat): seq<Cell>
    requires |line| <= width
  {
    Cells(line, attr) + BlankRow(width - |line|, attr)
  }

  function RowsOf(lines: seq<seq<nat>>, width: nat, attr: nat): (rows: seq<seq<Cell>>)
    requires forall i | 0 <= i < |lines| :: |lines[i]| <= width
    ensures |rows| == |lines|
  {
    seq(|lines|, i requires 0 <= i < |lines| => RowOf(lines[i], width, attr))
  }

  predicate Short(lines: seq<seq<nat>>, width: nat) {
    forall i | 0 <= i < |lines| :: Printable(lines[i]) && |lines[i]| < width
  }

  /** The cursor is at the start of the last row, which is blank. */
  ghost predicate AtStart(p: Page) {
    p.Valid() && p.row == |p.rows| - 1 && p.col == 0 && p.rows[p.row] == BlankRow(p.width, p.attr)
  }

  /** A line from column `col` on. */
  function RowFrom(col: nat, line: seq<nat>, width: nat, attr: nat): seq<Cell>
    requires col + |line| <= width
  {
    BlankRow(col, attr) + RowOf(line, width - col, attr)
  }

  lemma OverwriteBlank(width: nat, col: nat, line: seq<nat>, attr: nat)
    requires col + |line| <= width
    ensures Overwritten(BlankRow(width, attr), col, line, attr) == RowFrom(col, line, width, attr)
  {
  }

  lemma OverwriteStart(a: seq<nat>, b: seq<nat>, width: nat, attr: nat)
    requires |b| <= |a| <= width
    ensures Overwritten(RowOf(a, width, attr), 0, b, attr) == RowOf(b + a[|b|..], width, attr)
  {
  }

  /** The same on the last row. */
  lemma TextInLastRow(front: seq<seq<Cell>>, row: seq<Cell>, col: nat, attr: nat, text: seq<nat>)
    requires Page(front + [row], |front|, col, |row|, attr).Valid() && Printable(text) && col + |text| < |row|
    ensures Page(front + [row], |front|, col, |row|, attr).TypeAll(text)
         == Page(front + [Overwritten(row, col, text, attr)], |front|, col + |text|, |row|, attr)
  {
    hide Overwritten, Page.TypeAll, Page.Valid;
    TextInRow(Page(front + [row], |front|, col, |row|, attr), text);
    var row' := Overwritten(row, col, text, attr);
    assert (front + [row])[|front| := row'] == front + [row'];
  }

  lemma StartIs(p: Page)
    requires AtStart(p)
    ensures p == Page(p.rows[..p.row] + [BlankRow(p.width, p.attr)], |p.rows[..p.row]|, 0, p.width, p.attr)
  {
  }

  lemma FromStart(line: seq<nat>, width: nat, attr: nat)
    requires |line| <= width
    ensures RowFrom(0, line, width, attr) == RowOf(line, width, attr)
  {
  }

  lemma LineOnBlankRow(front: seq<seq<Cell>>, width: nat, attr: nat, line: seq<nat>)
    requires Page(front + [BlankRow(width, attr)], |front|, 0, width, attr).Valid()
    requires Printable(line) && |line| < width
    ensures Page(front + [BlankRow(width, attr)], |front|, 0, width, attr).TypeAll(line)
         == Page(front + [RowOf(line, width, attr)], |front|, |line|, width, attr)
  {
    assert |BlankRow(width, attr)| == width && BlankRow(0, attr) == [];
    hide Overwritten, RowOf, RowFrom, Page.TypeAll, Page.Valid, BlankRow;
    TextInLastRow(front, BlankRow(width, attr), 0, attr, line);
    OverwriteBlank(width, 0, line, attr);
    assert RowFrom(0, line, width, attr) == RowOf(line, width, attr) by { FromStart(line, width, attr); }
  }

  lemma LineInRow(p: Page, line: seq<nat>)
    requires AtStart(p) && Printable(line) && |line| < p.width
    ensures p.TypeAll(line) == p.(rows := p.rows[..p.row] + [RowOf(line, p.width, p.attr)], col := |line|)
  {
    StartIs(p);
    hide RowOf, Page.TypeAll, BlankRow;
    LineOnBlankRow(p.rows[..p.row], p.width, p.attr, line);
  }

  lemma LineAndNewline(p: Page, line: seq<nat>)
    requires AtStart(p) && Printable(line) && |line| < p.width
    ensures var q := p.TypeAll(line + [10]);
      && AtStart(q) && q.rows == p.rows[..p.row] + [RowOf(line, p.width, p.attr)] + [BlankRow(p.width, p.attr)]
      && q.row == p.row + 1
  {
    TypeAllInTwo(p, line, [10]);
    LineInRow(p, line);
    TypeOne(p.TypeAll(line), 10);
  }

  /** Typed lines that are shorter than a row each have a row of their own, the cursor behind the last one. */
  lemma {:induction false} LinesAreRows(p: Page, lines: seq<seq<nat>>)
    requires AtStart(p) && lines != [] && Short(lines, p.width)
    ensures p.TypeAll(Lines(lines))
         == p.(rows := p.rows[..p.row] + RowsOf(lines, p.width, p.attr),
               row := p.row + |lines| - 1, col := |lines[|lines| - 1]|)
    decreases |lines|
  {
    hide RowOf;
    LineInRow(p, lines[0]);
    if |lines| == 1 {
      assert RowsOf(lines, p.width, p.attr) == [RowOf(lines[0], p.width, p.attr)];
    } else {
      var q := p.TypeAll(lines[0] + [10]);
      TypeAllInTwo(p, lines[0] + [10], Lines(lines[1..]));
      LineAndNewline(p, lines[0]);
      LinesAreRows(q, lines[1..]);
      var row := RowOf(lines[0], p.width, p.attr);
      assert q.rows[..q.row] == p.rows[..p.row] + [row];
      assert RowsOf(lines, p.width, p.attr) == [row] + RowsOf(lines[1..], p.width, p.attr);
      AppendIsAssociative(p.rows[..p.row], [row], RowsOf(lines[1..], p.width, p.attr));
    }
  }

  // ---------- The other control characters ----------

  lemma TypeBehind(p: Page, a: seq<nat>, ch: nat, b: seq<nat>)
    requires AtStart(p) && Printable(a) && |a| < p.width
    ensures var front, row := p.rows[..p.row], RowOf(a, p.width, p.attr);
      var q := Page(front + [row], |front|, |a|, p.width, p.attr);
      && |row| == p.width && |front| == p.row && q.Valid() && p.TypeAll(a + [ch] + b) == q.Type(ch).TypeAll(b)
  {
    TypeAllInTwo(p, a + [ch], b);
    TypeAllInTwo(p, a, [ch]);
    TypeOne(p.TypeAll(a), ch);
    hide Page.TypeAll, Page.Type, RowOf;
    LineInRow(p, a);
  }

  lemma ReturnedRow(front: seq<seq<Cell>>, row: seq<Cell>, col: nat, attr: nat)
    requires Page(front + [row], |front|, col, |row|, attr).Valid()
    ensures Page(front + [row], |front|, col, |row|, attr).Type(13) == Page(front + [row], |front|, 0, |row|, attr)
  {
  }

  lemma TextBehindReturn(front: seq<seq<Cell>>, row: seq<Cell>, col: nat, width: nat, attr: nat, b: seq<nat>)
    requires |row| == width && Page(front + [row], |front|, col, width, attr).Valid()
    requires Printable(b) && |b| < width
    ensures Page(front + [row], |front|, col, width, attr).Type(13).TypeAll(b)
         == Page(front + [Overwritten(row, 0, b, attr)], |front|, |b|, width, attr)
  {
    ReturnedRow(front, row, col, attr);
    assert Page(front + [row], |front|, 0, width, attr).Valid();
    hide Page.TypeAll, Page.Type, Page.Valid, Overwritten;
    TextInLastRow(front, row, 0, attr, b);
  }

  /** A return starts the row over: what is typed then replaces the beginning of it. */
  lemma ReturnOverwrites(p: Page, a: seq<nat>, b: seq<nat>)
    requires AtStart(p) && Printable(a) && Printable(b) && |b| <= |a| < p.width
    ensures p.TypeAll(a + [13] + b)
         == Page(p.rows[..p.row] + [RowOf(b + a[|b|..], p.width, p.attr)], p.row, |b|, p.width, p.attr)
  {
    assert p.row < |p.rows|;
    hide *;
    var front, row := p.rows[..p.row], RowOf(a, p.width, p.attr);
    TypeBehind(p, a, 13, b);
    TextBehindReturn(front, row, |a|, p.width, p.attr, b);
    OverwriteStart(a, b, p.width, p.attr);
  }

  lemma TabbedRow(front: seq<seq<Cell>>, row: seq<Cell>, col: nat, attr: nat)
    requires Page(front + [row], |front|, col, |row|, attr).Valid()
    ensures var blank := BlankRow(|row|, attr);
      var q := Page(front + [row] + [blank], |front + [row]|, col, |blank|, attr);
      |blank| == |row| && q.Valid() && Page(front + [row], |front|, col, |row|, attr).Type(11) == q
  {
  }

  lemma TextBehindTab(front: seq<seq<Cell>>, row: seq<Cell>, col: nat, width: nat, attr: nat, b: seq<nat>)
    requires |row| == width && Page(front + [row], |front|, col, width, attr).Valid()
    requires Printable(b) && col + |b| < width
    ensures Page(front + [row], |front|, col, width, attr).Type(11).TypeAll(b)
         == Page(front + [row] + [RowFrom(col, b, width, attr)], |front| + 1, col + |b|, width, attr)
  {
    hide Page.TypeAll, Page.Type, Page.Valid, Overwritten, RowOf, RowFrom, Cells, BlankRow;
    TabbedRow(front, row, col, attr);
    OverwriteBlank(width, col, b, attr);
    TextInLastRow(front + [row], BlankRow(width, attr), col, attr, b);
  }

  /** A vertical tab goes on in the same column of the next row. */
  lemma VerticalTabKeepsColumn(p: Page, a: seq<nat>, b: seq<nat>)
    requires AtStart(p) && Printable(a) && Printable(b) && |a| + |b| < p.width
    ensures p.TypeAll(a + [11] + b)
         == Page(p.rows[..p.row] + [RowOf(a, p.width, p.attr)] + [RowFrom(|a|, b, p.width, p.attr)],
                 p.row + 1, |a| + |b|, p.width, p.attr)
  {
    assert p.row < |p.rows|;
    hide *;
    var front, row := p.rows[..p.row], RowOf(a, p.width, p.attr);
    TypeBehind(p, a, 11, b);
    TextBehindTab(front, row, |a|, p.width, p.attr, b);
  }

  /** The characters that are not modelled: backspace, tabulator and escape. */
  lemma PlainExcludes(ch: nat)
    ensures !IsPlain(ch) <==> ch in [8, 9, 27]
  {
    assert ch in [8, 9, 27] <==> ch == 8 || ch == 9 || ch == 27;
  }

  /** The other control characters leave no trace. */
  lemma {:induction false} OthersIgnored(p: Page, text: seq<nat>)
    requires p.Valid()
    requires forall i | 0 <= i < |text| ::
               IsPlain(text[i]) && text[i] < 0x20 && text[i] != 10 && text[i] != 11 && text[i] != 13
    ensures p.TypeAll(text) == p
    decreases |text|
  {
    if text != [] {
      OthersIgnored(p, text[1..]);
    }
  }
}
