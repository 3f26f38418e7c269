/**
 The text console: a cell buffer of fixed size that wraps and scrolls. What it shows is the end of an
 unbounded page.
 */
module Terminal {
  import opened Sequences

  const BACKSPACE := 8
  const TAB := 9
  const NEWLINE := 10
  const VERTICAL_TAB := 11
  const RETURN := 13
  const ESCAPE := 27

  datatype Cell = Cell(codepoint: nat, attr: nat)

  /** The characters modelled: all but the ones that move back, tabulate or start a sequence. */
  predicate IsPlain(ch: nat) {
    ch != BACKSPACE && ch != TAB && ch != ESCAPE
  }

  // ---------- The unbounded page ----------

  function BlankRow(width: nat, attr: nat): seq<Cell> {
    seq(width, i => Cell(0, attr))
  }

  /** Rows of equal width, growing at the end; (row, col) is where the next character goes. */
  datatype Page = Page(rows: seq<seq<Cell>>, row: nat, col: nat, width: nat, attr: nat) {

    ghost predicate Valid() {
      && row < |rows| && col < width
      && forall i | 0 <= i < |rows| :: |rows[i]| == width
    }

    function NextRow(): Page {
      if row + 1 < |rows| then this.(row := row + 1)
      else this.(row := row + 1, rows := rows + [BlankRow(width, attr)])
    }

    function Type(ch: nat): (p: Page)
      requires Valid()
      ensures p.Valid() && p.width == width && p.attr == attr && |p.rows| >= |rows|
    {
      if ch == NEWLINE then this.(col := 0).NextRow()
      else if ch == VERTICAL_TAB then NextRow()
      else if ch == RETURN then this.(col := 0)
      else if ch < 0x20 then this
      else
        var p := this.(rows := rows[row := rows[row][col := Cell(ch, attr)]], col := col + 1);
        if col + 1 < width then p else p.(col := 0).NextRow()
    }

    function TypeAll(text: seq<nat>): (p: Page)
      requires Valid()
      ensures p.Valid() && p.width == width && p.attr == attr
      decreases |text|
    {
      if text == [] then this else Type(text[0]).TypeAll(text[1..])
    }
  }

  // ---------- Wrapping, seen without rows ----------

  /** The rows one after the other. */
  function Flat(rows: seq<seq<Cell>>): seq<Cell> {
    if rows == [] then [] else Flat(rows[..|rows| - 1]) + rows[|rows| - 1]
  }

  lemma {:induction false} FlatLength(rows: seq<seq<Cell>>, width: nat)
    requires forall i | 0 <= i < |rows| :: |rows[i]| == width
    ensures |Flat(rows)| == |rows| * width
  {
    if rows != [] {
      FlatLength(rows[..|rows| - 1], width);
    }
  }

  function Cells(text: seq<nat>, attr: nat): seq<Cell> {
    seq(|text|, i requires 0 <= i < |text| => Cell(text[i], attr))
  }

  /** How many cells lie before the cursor. */
  function Position(p: Page): nat {
    p.row * p.width + p.col
  }

  lemma FlatSnoc(rows: seq<seq<Cell>>, row: seq<Cell>)
    ensures Flat(rows + [row]) == Flat(rows) + row
  {
    assert (rows + [row])[..|rows|] == rows;
  }

  /** The rows after one printable character on the last row. */
  function TypedRows(p: Page, ch: nat): seq<seq<Cell>>
    requires p.Valid()
  {
    var rows := p.rows[..p.row] + [p.rows[p.row][p.col := Cell(ch, p.attr)]];
    if p.col + 1 < p.width then rows else rows + [BlankRow(p.width, p.attr)]
  }

  lemma TypeOnLastRow(p: Page, ch: nat)
    requires p.Valid() && p.row == |p.rows| - 1 && ch >= 0x20
    ensures var q := p.Type(ch);
            && q.rows == TypedRows(p, ch) && q.row == |q.rows| - 1 && Position(q) == Position(p) + 1
  {
    assert (p.row + 1) * p.width == p.row * p.width + p.width;
  }

  /** What follows the line being typed: nothing, or the next row. */
  function Behind(p: Page): seq<Cell> {
    if p.col + 1 < p.width then [] else BlankRow(p.width, p.attr)
  }

  lemma TypedFlat(p: Page, ch: nat)
    requires p.Valid() && p.row == |p.rows| - 1 && ch >= 0x20
    ensures var front, line := p.rows[..p.row], p.rows[p.row];
            && |Flat(front)| == p.row * p.width && Flat(p.rows) == Flat(front) + line
            && Flat(TypedRows(p, ch)) == Flat(front) + line[p.col := Cell(ch, p.attr)] + Behind(p)
  {
    var front, line := p.rows[..p.row], p.rows[p.row];
    var line' := line[p.col := Cell(ch, p.attr)];
    FlatLength(front, p.width);
    FlatSnoc(front, line);
    FlatSnoc(front, line');
    assert p.rows == front + [line];
    hide Flat;
    if p.col + 1 < p.width {
      assert Flat(front) + line' + [] == Flat(front) + line';
    } else {
      FlatSnoc(front + [line'], BlankRow(p.width, p.attr));
    }
  }

  /** One printable character on the last row. */
  lemma TypeFlat(p: Page, ch: nat)
    requires p.Valid() && p.row == |p.rows| - 1 && ch >= 0x20
    ensures var q := p.Type(ch);
            && q.row == |q.rows| - 1 && Position(q) == Position(p) + 1 <= |Flat(q.rows)|
            && Position(p) <= |Flat(p.rows)|
            && Flat(q.rows)[..Position(q)] == Flat(p.rows)[..Position(p)] + [Cell(ch, p.attr)]
  {
    TypeOnLastRow(p, ch);
    TypedFlat(p, ch);
    var front, line := Flat(p.rows[..p.row]), p.rows[p.row];
    assert Position(p) == |front| + p.col;
    hide Flat, Page.Type, TypedRows, Position;
    TakeThroughUpdate(front, line, Behind(p), p.col, Cell(ch, p.attr));
  }

  lemma LastRowFits(p: Page)
    requires p.Valid() && p.row == |p.rows| - 1
    ensures Position(p) <= |p.rows| * p.width
  {
    assert |p.rows| * p.width == p.row * p.width + p.width;
  }

  /** Printable text fills the cells from the cursor on, one after the other, whatever the width. */
  lemma {:induction false} TextFills(p: Page, text: seq<nat>)
    requires p.Valid() && p.row == |p.rows| - 1
    requires forall i | 0 <= i < |text| :: text[i] >= 0x20
    ensures var q := p.TypeAll(text);
            && Position(q) == Position(p) + |text| <= |Flat(q.rows)| && Position(p) <= |Flat(p.rows)|
            && Flat(q.rows)[..Position(q)] == Flat(p.rows)[..Position(p)] + Cells(text, p.attr)
    decreases |text|
  {
    if text == [] {
      FlatLength(p.rows, p.width);
      LastRowFits(p);
    } else {
      var p' := p.Type(text[0]);
      TypeFlat(p, text[0]);
      TextFills(p', text[1..]);
      assert Cells(text, p.attr) == [Cell(text[0], p.attr)] + Cells(text[1..], p.attr);
    }
  }

  // ---------- The cell buffer ----------

  class Console {
    const width: nat
    const height: nat
    const attr: nat
    const buffer: array<Cell>
    var cursorX: nat
    var cursorY: nat
    ghost var page: Page

    lemma IndexInside(x: nat, y: nat)
      requires x < width && y < height
      ensures 0 <= y * width + x < width * height
    {
      assert y * width <= (height - 1) * width;
      assert (height - 1) * width + width == width * height;
    }

    /** The cell in column x of row y. */
    function At(x: nat, y: nat): Cell
      requires x < width && y < height && buffer.Length == width * height
      reads buffer
    {
      IndexInside(x, y);
      buffer[y * width + x]
    }

    /** The screen shows the last `height` rows of the page, the cursor is at its place in them. */
    ghost predicate Valid()
      reads this, buffer
    {
      && Shows(page)
      && cursorX == page.col && cursorY < height && page.row == |page.rows| - height + cursorY
    }

    constructor (width: nat, height: nat, attr: nat)
      requires width > 0 && height > 0
      ensures Valid() && fresh(buffer)
      ensures page == Page(seq(height, i => BlankRow(width, attr)), 0, 0, width, attr)
    {
      this.width, this.height, this.attr := width, height, attr;
      buffer := new Cell[width * height](i => Cell(0, attr));
      cursorX, cursorY := 0, 0;
      page := Page(seq(height, i => BlankRow(width, attr)), 0, 0, width, attr);
      new;
      forall x: nat, y: nat | x < width && y < height
        ensures At(x, y) == Cell(0, attr)
      {
        IndexInside(x, y);
      }
    }

    lemma IndexUnique(x: nat, y: nat, x': nat, y': nat)
      requires x < width && x' < width && (x, y) != (x', y')
      ensures y * width + x != y' * width + x'
    {
      if y < y' {
        assert (y + 1) * width <= y' * width;
      } else if y' < y {
        assert (y' + 1) * width <= y * width;
      }
    }

    method SetCell(x: nat, y: nat, cell: Cell)
      requires x < width && y < height && buffer.Length == width * height
      modifies buffer
      ensures At(x, y) == cell
      ensures forall x': nat, y': nat | x' < width && y' < height && (x', y') != (x, y) ::
                At(x', y') == old(At(x', y'))
    {
      IndexInside(x, y);
      forall x': nat, y': nat | x' < width && y' < height && (x', y') != (x, y)
        ensures y' * width + x' != y * width + x
      {
        IndexUnique(x, y, x', y');
      }
      buffer[y * width + x] := cell;
    }

    /** The cell buffer has its size; nothing yet about what it shows. */
    ghost predicate Sized() {
      width > 0 && height > 0 && buffer.Length == width * height
    }

    /** The buffer holds the last rows of a page. */
    ghost predicate Shows(p: Page)
      reads buffer
    {
      && Sized()
      && p.Valid() && p.width == width && p.attr == attr && |p.rows| >= height
      && forall x: nat, y: nat | x < width && y < height :: At(x, y) == p.rows[|p.rows| - height + y][x]
    }

    /** console_erase, on a rectangle given by its corners. */
    method Erase(x0: nat, y0: nat, x1: nat, y1: nat)
      requires Sized() && x1 < width && y1 < height
      modifies buffer
      ensures forall x: nat, y: nat | x < width && y < height ::
                At(x, y) == if x0 <= x <= x1 && y0 <= y <= y1 then Cell(0, attr) else old(At(x, y))
    {
      var y := y0;
      while y <= y1
        invariant forall i: nat, j: nat | i < width && j < height ::
                    At(i, j) == if x0 <= i <= x1 && y0 <= j <= y1 && j < y then Cell(0, attr) else old(At(i, j))
      {
        var x := x0;
        while x <= x1
          invariant forall i: nat, j: nat | i < width && j < height ::
                      At(i, j) == if x0 <= i <= x1 && y0 <= j <= y1 && (j < y || (j == y && i < x))
                                  then Cell(0, attr) else old(At(i, j))
        {
          SetCell(x, y, Cell(0, attr));
          x := x + 1;
        }
        y := y + 1;
      }
    }

    /** One row of the scroll: row y takes the cells of the row `amount` below. */
    method CopyRow(amount: nat, x0: nat, x1: nat, y: nat)
      requires Sized() && x1 < width && amount > 0 && y + amount < height
      modifies buffer
      ensures forall i: nat, j: nat | i < width && j < height ::
                At(i, j) == if j == y && x0 <= i <= x1 then old(At(i, y + amount)) else old(At(i, j))
    {
      var x := x0;
      while x <= x1
        invariant forall i: nat, j: nat | i < width && j < height ::
                    At(i, j) == if j == y && x0 <= i <= x1 && i < x then old(At(i, y + amount)) else old(At(i, j))
      {
        SetCell(x, y, At(x, y + amount));
        x := x + 1;
      }
    }

    /** console_scroll upwards: the rectangle moves by `amount` rows, the rows set free are erased. */
    method ScrollUp(amount: nat, x0: nat, y0: nat, x1: nat, y1: nat)
      requires Sized() && x1 < width && y1 < height && y0 + amount <= y1 + 1
      modifies buffer
      ensures forall x: nat, y: nat | x < width && y < height ::
                At(x, y) == if x0 <= x <= x1 && y0 <= y <= y1
                            then (if y + amount <= y1 then old(At(x, y + amount)) else Cell(0, attr))
                            else old(At(x, y))
    {
      if amount == 0 {
        return;
      }
      var y := y0;
      while y + amount <= y1
        invariant y0 <= y <= y1 + 1 - amount
        invariant forall i: nat, j: nat | i < width && j < height ::
                    At(i, j) == if x0 <= i <= x1 && y0 <= j < y then old(At(i, j + amount)) else old(At(i, j))
      {
        CopyRow(amount, x0, x1, y);
        y := y + 1;
      }
      Erase(x0, y1 + 1 - amount, x1, y1);
    }

    /** The step to the next row that put_char makes at the end of a line. */
    method NextRow(x: nat, ghost p: Page)
      requires Sized() && Shows(p) && p.row == |p.rows| - height + cursorY && cursorY < height && x < width
      modifies this, buffer
      ensures Valid() && page == p.(col := x).NextRow()
    {
      hide At;
      page := p.(col := x).NextRow();
      cursorX := x;
      cursorY := cursorY + 1;
      if cursorY >= height {
        cursorY := height - 1;
        ScrollUp(1, 0, 0, width - 1, height - 1);
        assert page.rows == p.rows + [BlankRow(width, attr)];
      } else {
        assert page.rows == p.rows;
      }
    }

    /** put_char outside escape sequences, for characters one column wide. */
    method PutChar(ch: nat)
      requires Valid() && IsPlain(ch)
      modifies this, buffer
      ensures Valid() && page == old(page).Type(ch)
    {
      hide At;
      if ch == NEWLINE {
        NextRow(0, page);
      } else if ch == VERTICAL_TAB {
        NextRow(cursorX, page);
      } else if ch == RETURN {
        cursorX := 0;
        page := page.(col := 0);
      } else if ch >= 0x20 {
        SetCell(cursorX, cursorY, Cell(ch, attr));
        ghost var p := page.(rows := page.rows[page.row := page.rows[page.row][page.col := Cell(ch, attr)]]);
        if cursorX + 1 < width {
          cursorX := cursorX + 1;
          page := p.(col := page.col + 1);
        } else {
          NextRow(0, p);
        }
      }
    }

    /** For every text the screen shows the end of the page, through any number of scrolls. */
    method PutText(text: seq<nat>)
      requires Valid() && forall i | 0 <= i < |text| :: IsPlain(text[i])
      modifies this, buffer
      ensures Valid() && page == old(page).TypeAll(text)
      decreases |text|
    {
      if text != [] {
        PutChar(text[0]);
        PutText(text[1..]);
      }
    }
  }
}
