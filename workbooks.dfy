/**
 * The spreadsheet side of the pipeline: cell values, worksheets as sequences of rows, workbooks
 * as ordered lists of named sheets, the fixed layout of the REQUEST_TABLE descriptor sheet, and a
 * `Worksheet` object with the two in-place writes the scripts use (`append` and `cell(...)`).
 */
module Workbooks {
  import opened Common
  import opened Text

  /** Name of the descriptor sheet every workbook of the pipeline carries. */
  const REQUEST_TABLE: string := "REQUEST_TABLE"

  /** Descriptor data starts at sheet row 7. */
  const DESC_FIRST_ROW: nat := 7
  /** Descriptor columns (1-based): series E, year G, sheet reference K, expected rows N, columns O. */
  const COL_E: nat := 5
  const COL_G: nat := 7
  const COL_K: nat := 11
  const COL_N: nat := 14
  const COL_O: nat := 15

  /** A non-empty cell value as the scripts see it: a whole number or a piece of text. */
  datatype Value = Int(n: int) | Str(s: string)

  /** A cell is empty (`None`) or holds a value. */
  type Cell = Option<Value>
  type Row = seq<Cell>

  /** A worksheet: row `r` (1-based) is `rows[r - 1]`; cells past the end of a row are empty. */
  type Sheet = seq<Row>

  /** `ws.cell(row=r, column=c).value`. */
  function CellAt(rows: Sheet, r: int, c: int): Cell {
    if 1 <= r <= |rows| && 1 <= c <= |rows[r - 1]| then rows[r - 1][c - 1] else None
  }

  /** `not any(cell is not None for cell in row)`. */
  predicate IsBlankRow(row: Row) {
    forall i :: 0 <= i < |row| ==> row[i].None?
  }

  /** The widest row of a sheet. */
  function MaxWidth(rows: Sheet): nat {
    if rows == [] then 0 else Max(|rows[0]|, MaxWidth(rows[1..]))
  }

  /** No row is wider than the widest, and a non-empty sheet has a row that wide. */
  lemma {:induction false} MaxWidthBounds(rows: Sheet)
    ensures forall i :: 0 <= i < |rows| ==> |rows[i]| <= MaxWidth(rows)
    ensures rows != [] ==> exists i :: 0 <= i < |rows| && |rows[i]| == MaxWidth(rows)
  {
    if rows != [] {
      MaxWidthBounds(rows[1..]);
      if |rows| > 1 && MaxWidth(rows[1..]) > |rows[0]| {
        var i :| 0 <= i < |rows[1..]| && |rows[1..][i]| == MaxWidth(rows[1..]);
        assert |rows[i + 1]| == MaxWidth(rows);
      }
      forall i | 1 <= i < |rows| ensures |rows[i]| <= MaxWidth(rows) {
        assert rows[i] == rows[1..][i - 1];
      }
    }
  }

  /** `ws.max_column`: the last column holding a cell, and 1 for a sheet with no cells. */
  function MaxColumn(rows: Sheet): nat {
    if MaxWidth(rows) == 0 then 1 else MaxWidth(rows)
  }

  /** A row filled up with empty cells to width `w`. */
  function Padded(row: Row, w: nat): Row {
    if |row| >= w then row else row + seq(w - |row|, _ => None)
  }

  /** Padding keeps the row's cells in front and adds only empty ones, up to width `w`. */
  lemma PaddedMeans(row: Row, w: nat)
    ensures |Padded(row, w)| == if |row| >= w then |row| else w
    ensures Padded(row, w)[..|row|] == row
    ensures forall i :: |row| <= i < |Padded(row, w)| ==> Padded(row, w)[i].None?
  {
  }

  /**
   * `ws.iter_rows(min_row=m, values_only=True)`: every row from sheet row `m` to the last one,
   * each padded to the sheet's width.
   */
  function IterRows(rows: Sheet, m: nat): (r: seq<Row>)
    requires m >= 1
    ensures |r| == if m - 1 <= |rows| then |rows| - (m - 1) else 0
  {
    PaddedFrom(rows, m - 1, MaxColumn(rows))
  }

  /** Rows `i` (0-based) onwards, each padded to width `w`. */
  function PaddedFrom(rows: Sheet, i: nat, w: nat): (r: seq<Row>)
    ensures |r| == if i <= |rows| then |rows| - i else 0
    decreases |rows| - i
  {
    if i >= |rows| then [] else [Padded(rows[i], w)] + PaddedFrom(rows, i + 1, w)
  }

  lemma {:induction false} PaddedFromAt(rows: Sheet, i: nat, w: nat)
    ensures forall k :: 0 <= k < |PaddedFrom(rows, i, w)| ==> PaddedFrom(rows, i, w)[k] == Padded(rows[i + k], w)
    decreases |rows| - i
  {
    if i < |rows| {
      PaddedFromAt(rows, i + 1, w);
    }
  }

  /** Row `i` that `iter_rows` yields is sheet row `m + i`, padded to the sheet's width. */
  lemma IterRowsPadded(rows: Sheet, m: nat)
    requires m >= 1
    ensures forall i :: 0 <= i < |IterRows(rows, m)| ==> IterRows(rows, m)[i] == Padded(rows[m - 1 + i], MaxColumn(rows))
  {
    PaddedFromAt(rows, m - 1, MaxColumn(rows));
  }

  lemma PaddedBlank(row: Row, w: nat)
    ensures IsBlankRow(Padded(row, w)) <==> IsBlankRow(row)
  {
    var p := Padded(row, w);
    PaddedMeans(row, w);
    if IsBlankRow(row) {
      forall i | 0 <= i < |p| ensures p[i].None? {
        if i < |row| { assert p[i] == p[..|row|][i] == row[i]; }
      }
    }
    if IsBlankRow(p) {
      forall i | 0 <= i < |row| ensures row[i].None? { assert row[i] == p[..|row|][i]; }
    }
  }

  /** `str(cell)`: an empty cell is spelled "None". */
  function CellText(c: Cell): string {
    match c
    case None => "None"
    case Some(Int(n)) => IntToString(n)
    case Some(Str(s)) => s
  }

  /** The integer a cell holds or spells: an integer cell is itself and a text cell is parsed. */
  function IntOf(c: Cell): Option<int> {
    match c
    case None => None
    case Some(Int(n)) => Some(n)
    case Some(Str(s)) => ParseInt(s)
  }

  /** `IntOf` is `int(str(cell).strip())`, with None for the ValueError it raises. */
  lemma IntOfText(c: Cell)
    ensures IntOf(c) == ParseInt(CellText(c))
  {
    if c.None? {
      NoneIsNoInt();
    } else if c.value.Int? {
      ParseIntOfString(c.value.n);
    }
  }

  lemma NoneIsNoInt()
    ensures ParseInt("None") == None
  {
    var s := "None";
    assert s[0] == 'N' && s[|s| - 1] == 'e';
    LetterFirstNoInt(s);
  }

  /** A text starting with a letter is no integer. */
  lemma LetterFirstNoInt(s: string)
    requires |s| >= 1 && IsLetter(s[0]) && !IsSpace(s[|s| - 1])
    ensures ParseInt(s) == None
  {
    StripNoSpace(s);
    assert !IsDigit(s[0]);
  }

  /** The text before the first '!' (all of it when there is none): `s.split("!")[0]`. */
  function BeforeBang(s: string): (r: string)
    ensures |r| <= |s| && r == s[..|r|]
    ensures '!' !in r
    ensures |r| < |s| ==> s[|r|] == '!'
  {
    if s == [] || s[0] == '!' then [] else [s[0]] + BeforeBang(s[1..])
  }

  /** `s.replace(c, "")`. */
  function Without(s: string, c: char): (r: string)
    ensures c !in r
    ensures forall d :: d != c ==> (d in r <==> d in s)
  {
    if s == [] then [] else (if s[0] == c then [] else [s[0]]) + Without(s[1..], c)
  }

  /**
   * The sheet named by a descriptor reference such as `'Sheet1'!$A$1`:
   * `ref.split("!")[0].replace("'", "")`.
   */
  function ExtractSheetName(ref: string): (name: string)
    ensures '!' !in name && '\'' !in name
    ensures forall d :: d != '\'' && d in name ==> d in ref
  {
    Without(BeforeBang(ref), '\'')
  }

  lemma WithoutAbsent(s: string, c: char)
    requires c !in s
    ensures Without(s, c) == s
  {
    if s != [] {
      assert s == [s[0]] + s[1..];
      WithoutAbsent(s[1..], c);
    }
  }

  lemma {:induction false} BeforeBangOf(name: string, rest: string)
    requires '!' !in name
    ensures BeforeBang(name + "!" + rest) == name
  {
    if name != [] {
      assert (name + "!" + rest)[1..] == name[1..] + "!" + rest;
      BeforeBangOf(name[1..], rest);
    }
  }

  /** Quoted or not, a reference `name!cell` names the sheet `name`. */
  lemma ExtractSheetNameOfRef(name: string, cell: string)
    requires '!' !in name && '\'' !in name
    ensures ExtractSheetName("'" + name + "'!" + cell) == name
    ensures ExtractSheetName(name + "!" + cell) == name
  {
    var quoted := "'" + name + "'";
    assert "'" + name + "'!" + cell == quoted + "!" + cell;
    assert '!' !in quoted;
    BeforeBangOf(quoted, cell);
    BeforeBangOf(name, cell);
    WithoutAbsent(name, '\'');
    assert Without(quoted, '\'') == Without(name + "'", '\'') by {
      assert quoted == ['\''] + (name + "'");
    }
    WithoutAppend(name, "'", '\'');
    assert Without("'", '\'') == [];
    assert name + [] == name;
  }

  lemma {:induction false} WithoutAppend(a: string, b: string, c: char)
    ensures Without(a + b, c) == Without(a, c) + Without(b, c)
  {
    if a != [] {
      assert (a + b)[0] == a[0] && (a + b)[1..] == a[1..] + b;
      WithoutAppend(a[1..], b, c);
    } else {
      assert a + b == b;
    }
  }

  datatype NamedSheet = NamedSheet(title: string, rows: Sheet)

  /** A workbook: its sheets in `wb.sheetnames` order. */
  datatype Workbook = Workbook(sheets: seq<NamedSheet>)

  predicate Distinct(names: seq<string>) {
    forall i, j :: 0 <= i < j < |names| ==> names[i] != names[j]
  }

  /** `wb.sheetnames`. */
  function SheetNames(wb: Workbook): seq<string> {
    Titles(wb.sheets)
  }

  function Titles(sheets: seq<NamedSheet>): (names: seq<string>)
    ensures |names| == |sheets|
    ensures forall i :: 0 <= i < |sheets| ==> names[i] == sheets[i].title
  {
    if sheets == [] then [] else [sheets[0].title] + Titles(sheets[1..])
  }

  /** `wb[title]`, which raises when there is no such sheet. */
  function Lookup(wb: Workbook, title: string): (r: Option<Sheet>)
    ensures r.Some? <==> title in SheetNames(wb)
  {
    LookupIn(wb.sheets, title)
  }

  /** The first sheet titled `title`. */
  function LookupIn(sheets: seq<NamedSheet>, title: string): (r: Option<Sheet>)
    ensures r.Some? <==> title in Titles(sheets)
  {
    if sheets == [] then None
    else if sheets[0].title == title then Some(sheets[0].rows)
    else LookupIn(sheets[1..], title)
  }

  /**
   * Stores `rows` as the sheet `title`: the existing sheet of that name is replaced in place, and a
   * missing one is created after the others (`wb.create_sheet(title)`).
   */
  function PutSheet(wb: Workbook, title: string, rows: Sheet): Workbook {
    Workbook(PutIn(wb.sheets, title, rows))
  }

  /** The stored sheet is found under its title, every other title finds what it found before, and the titles keep their order. */
  lemma PutSheetMeans(wb: Workbook, title: string, rows: Sheet)
    ensures Lookup(PutSheet(wb, title, rows), title) == Some(rows)
    ensures forall t :: t != title ==> Lookup(PutSheet(wb, title, rows), t) == Lookup(wb, t)
    ensures SheetNames(PutSheet(wb, title, rows))
            == if title in SheetNames(wb) then SheetNames(wb) else SheetNames(wb) + [title]
  {
    PutInLookup(wb.sheets, title, rows);
    PutInTitles(wb.sheets, title, rows);
  }

  function PutIn(sheets: seq<NamedSheet>, title: string, rows: Sheet): seq<NamedSheet> {
    if sheets == [] then [NamedSheet(title, rows)]
    else if sheets[0].title == title then [NamedSheet(title, rows)] + sheets[1..]
    else [sheets[0]] + PutIn(sheets[1..], title, rows)
  }

  /** Replacing a sheet keeps the titles; adding one appends its title. */
  lemma {:induction false} PutInTitles(sheets: seq<NamedSheet>, title: string, rows: Sheet)
    ensures Titles(PutIn(sheets, title, rows))
            == if title in Titles(sheets) then Titles(sheets) else Titles(sheets) + [title]
  {
    if sheets != [] && sheets[0].title != title {
      PutInTitles(sheets[1..], title, rows);
      assert Titles(sheets) == [sheets[0].title] + Titles(sheets[1..]);
    }
  }

  lemma {:induction false} PutInLookup(sheets: seq<NamedSheet>, title: string, rows: Sheet)
    ensures LookupIn(PutIn(sheets, title, rows), title) == Some(rows)
    ensures forall t :: t != title ==> LookupIn(PutIn(sheets, title, rows), t) == LookupIn(sheets, t)
  {
    var r := PutIn(sheets, title, rows);
    if sheets == [] {
    } else if sheets[0].title == title {
      assert r[0].title == title && r[1..] == sheets[1..];
    } else {
      PutInLookup(sheets[1..], title, rows);
      assert r[0] == sheets[0] && r[1..] == PutIn(sheets[1..], title, rows);
    }
  }

  /** `wb[title]` for a sheet that exists, and no rows for one that does not. */
  function SheetOr(wb: Workbook, title: string): Sheet {
    match Lookup(wb, title)
    case None => []
    case Some(rows) => rows
  }

  function Max(a: nat, b: nat): nat {
    if a >= b then a else b
  }

  /** The number of cells of row `i` (0-based); a row past the end has none. */
  function Width(rows: Sheet, i: nat): nat {
    if i < |rows| then |rows[i]| else 0
  }

  /** The rows after `ws.cell(row=r, column=c, value=v)`: the cell is created, and set unless `v` is None. */
  function WriteCell(rows: Sheet, r: nat, c: nat, v: Cell): (w: Sheet)
    requires r >= 1 && c >= 1
    ensures forall r', c' :: CellAt(w, r', c') == if r' == r && c' == c && v.Some? then v else CellAt(rows, r', c')
    ensures |w| == if |rows| >= r then |rows| else r
  {
    var grown := Grown(rows, r);
    grown[r - 1 := SetIn(grown[r - 1], c, v)]
  }

  /** The sheet with empty rows added below until it has at least `r` rows. */
  function Grown(rows: Sheet, r: nat): (g: Sheet)
    ensures |g| == if |rows| >= r then |rows| else r
    ensures forall i :: 0 <= i < |g| ==> g[i] == if i < |rows| then rows[i] else []
    decreases r - |rows|
  {
    if |rows| >= r then rows else Grown(rows + [[]], r)
  }

  /** A row widened with empty cells to at least `c` cells, with cell `c` then set unless `v` is None. */
  function SetIn(row: Row, c: nat, v: Cell): (s: Row)
    requires c >= 1
    ensures |s| == Max(|row|, c)
    ensures forall i :: 0 <= i < |s| ==> s[i] == if i == c - 1 && v.Some? then v else if i < |row| then row[i] else None
    decreases c - |row|
  {
    if |row| >= c then (if v.Some? then row[c - 1 := v] else row) else SetIn(row + [None], c, v)
  }

  /** Creating cell (r, c) makes row r at least c cells wide and leaves the other rows as they were. */
  lemma WriteCellWidths(rows: Sheet, r: nat, c: nat, v: Cell)
    requires r >= 1 && c >= 1
    ensures var w := WriteCell(rows, r, c, v);
            forall i :: 0 <= i < |w| ==> |w[i]| == if i == r - 1 then Max(Width(rows, i), c) else Width(rows, i)
  {
  }

  /** A sheet whose rows are all at most `b` cells wide is at most `b` wide. */
  lemma MaxWidthAtMost(rows: Sheet, b: nat)
    requires forall i :: 0 <= i < |rows| ==> |rows[i]| <= b
    ensures MaxWidth(rows) <= b
  {
    MaxWidthBounds(rows);
    if rows != [] {
      var i :| 0 <= i < |rows| && |rows[i]| == MaxWidth(rows);
    }
  }

  /** Creating cell (r, c) widens the sheet to at least c columns, and no further. */
  lemma MaxWidthWriteCell(rows: Sheet, r: nat, c: nat, v: Cell)
    requires r >= 1 && c >= 1
    ensures MaxWidth(WriteCell(rows, r, c, v)) == Max(MaxWidth(rows), c)
  {
    var w := WriteCell(rows, r, c, v);
    WriteCellWidths(rows, r, c, v);
    MaxWidthBounds(rows);
    forall i | 0 <= i < |w| ensures |w[i]| <= Max(MaxWidth(rows), c) {
      if i < |rows| { assert |rows[i]| <= MaxWidth(rows); }
    }
    MaxWidthAtMost(w, Max(MaxWidth(rows), c));
    MaxWidthBounds(w);
    assert |w[r - 1]| >= c;
    if rows != [] {
      var k :| 0 <= k < |rows| && |rows[k]| == MaxWidth(rows);
      assert |w[k]| >= |rows[k]|;
    }
  }

  /** The rows after `for c, v in enumerate(row, start=col): ws.cell(row=r, column=c, value=v)`. */
  function WriteRow(rows: Sheet, r: nat, row: Row, col: nat): Sheet
    requires r >= 1 && col >= 1
  {
    if |row| == 0 then rows
    else WriteCell(WriteRow(rows, r, row[..|row| - 1], col), r, col + |row| - 1, row[|row| - 1])
  }

  /** Writing a row sets the cells of sheet row `r` that hold a value, from column `col` on, and no others. */
  lemma {:induction false} WriteRowCells(rows: Sheet, r: nat, row: Row, col: nat)
    requires r >= 1 && col >= 1
    ensures forall r', c' :: CellAt(WriteRow(rows, r, row, col), r', c')
                          == if r' == r && col <= c' < col + |row| && row[c' - col].Some? then row[c' - col]
                             else CellAt(rows, r', c')
  {
    if row != [] {
      var init := row[..|row| - 1];
      WriteRowCells(rows, r, init, col);
      assert forall k :: 0 <= k < |init| ==> init[k] == row[k];
    }
  }

  /** Writing a non-empty row widens the sheet to at least its last column. */
  lemma {:induction false} WriteRowWidth(rows: Sheet, r: nat, row: Row, col: nat)
    requires r >= 1 && col >= 1
    ensures MaxWidth(WriteRow(rows, r, row, col))
         == if row == [] then MaxWidth(rows) else Max(MaxWidth(rows), col + |row| - 1)
  {
    if row != [] {
      var init := row[..|row| - 1];
      WriteRowWidth(rows, r, init, col);
      WriteRowLastWidth(rows, r, row, col);
    }
  }

  lemma WriteRowUnfold(rows: Sheet, r: nat, row: Row, col: nat)
    requires r >= 1 && col >= 1 && |row| > 0
    ensures WriteRow(rows, r, row, col) == WriteCell(WriteRow(rows, r, row[..|row| - 1], col), r, col + |row| - 1, row[|row| - 1])
  {
  }

  lemma WriteRowLastWidth(rows: Sheet, r: nat, row: Row, col: nat)
    requires r >= 1 && col >= 1 && row != []
    ensures MaxWidth(WriteRow(rows, r, row, col)) == Max(MaxWidth(WriteRow(rows, r, row[..|row| - 1], col)), col + |row| - 1)
  {
    MaxWidthWriteCell(WriteRow(rows, r, row[..|row| - 1], col), r, col + |row| - 1, row[|row| - 1]);
  }

  /** The rows after the rows of `block` are written from sheet row 1 down, each from column `col`. */
  function WriteBlock(rows: Sheet, block: seq<Row>, col: nat): Sheet
    requires col >= 1
  {
    if block == [] then rows
    else WriteRow(WriteBlock(rows, block[..|block| - 1], col), |block|, block[|block| - 1], col)
  }

  /**
   * Writing a block sets exactly the cells it holds a value for: cell (r, c) takes the value at
   * row r - 1, position c - col of the block, and every other cell keeps its value.
   */
  lemma {:induction false} WriteBlockCells(rows: Sheet, block: seq<Row>, col: nat)
    requires col >= 1
    ensures forall r', c' :: CellAt(WriteBlock(rows, block, col), r', c')
                          == if 1 <= r' <= |block| && col <= c' < col + |block[r' - 1]| && block[r' - 1][c' - col].Some?
                             then block[r' - 1][c' - col]
                             else CellAt(rows, r', c')
  {
    if block != [] {
      var init := block[..|block| - 1];
      WriteBlockCells(rows, init, col);
      WriteRowCells(WriteBlock(rows, init, col), |block|, block[|block| - 1], col);
      assert forall k :: 0 <= k < |init| ==> init[k] == block[k];
    }
  }

  /** Writing a block of rows `w >= 1` cells wide widens the sheet to at least column `col + w - 1`. */
  lemma {:induction false} WriteBlockWidth(rows: Sheet, block: seq<Row>, col: nat, w: nat)
    requires col >= 1 && w >= 1
    requires forall i :: 0 <= i < |block| ==> |block[i]| == w
    ensures MaxWidth(WriteBlock(rows, block, col)) == if block == [] then MaxWidth(rows) else Max(MaxWidth(rows), col + w - 1)
  {
    if block != [] {
      var init := block[..|block| - 1];
      WriteBlockWidth(rows, init, col, w);
      WriteRowWidth(WriteBlock(rows, init, col), |block|, block[|block| - 1], col);
    }
  }

  /**
   * An openpyxl worksheet that the scripts change in place. Only its cells are modelled; the
   * title, styles and dimensions other than the cell grid are not.
   */
  class Worksheet {
    var rows: Sheet

    constructor (initial: Sheet)
      ensures rows == initial
    {
      rows := initial;
    }

    /** `ws.append(row)`: the row goes below the last row of the sheet. */
    method Append(row: Row)
      modifies this
      ensures rows == old(rows) + [row]
    {
      rows := rows + [row];
    }

    /** `for row in rows: ws.append(row)`. */
    method AppendAll(more: seq<Row>)
      modifies this
      ensures rows == old(rows) + more
    {
      var i := 0;
      while i < |more|
        invariant 0 <= i <= |more|
        invariant rows == old(rows) + more[..i]
      {
        Append(more[i]);
        i := i + 1;
      }
      assert more[..i] == more;
    }

    /** `ws.cell(row=r, column=c, value=v)`. */
    method SetCell(r: nat, c: nat, v: Cell)
      requires r >= 1 && c >= 1
      modifies this
      ensures rows == WriteCell(old(rows), r, c, v)
    {
      rows := WriteCell(rows, r, c, v);
    }
  }
}
