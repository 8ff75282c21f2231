/**
 * entity-integrate.py: merges the per-company workbooks of one (country, span, suffix) into one
 * workbook by appending, sheet by sheet, every other company's data rows below company 1's, and
 * reports which company numbers in 1..N are missing.
 */
module EntityIntegrate {
  import opened Common
  import opened Text
  import opened Sorting
  import opened Workbooks

  // ---------------------------------------------------------------------------------------------
  // File names: <letters><company>-<yyyy>[-<yyyy>]<letters>

  /** The named groups of a per-company file name. */
  datatype EntityName = EntityName(country: string, company: string, start: string,
                                   end: Option<string>, suffix: string)

  predicate WellFormedName(e: EntityName) {
    && |e.country| >= 1 && AllLetters(e.country)
    && |e.company| >= 1 && AllDigits(e.company)
    && |e.start| == 4 && AllDigits(e.start)
    && (e.end.Some? ==> |e.end.value| == 4 && AllDigits(e.end.value))
    && |e.suffix| >= 1 && AllLetters(e.suffix)
  }

  function EndPart(end: Option<string>): string {
    if end.Some? then "-" + end.value else ""
  }

  /** The part of a name from the dash after the company on: `-{start}[-{end}]{suffix}`. */
  function YearsPart(start: string, end: Option<string>, suffix: string): string {
    "-" + start + EndPart(end) + suffix
  }

  /** The extension-less file name the groups were matched from. */
  function Spelling(e: EntityName): string {
    e.country + e.company + YearsPart(e.start, e.end, e.suffix)
  }

  /** The length of the run of ASCII letters at the start of `s`. */
  function LetterRun(s: string): (n: nat)
    ensures n <= |s| && AllLetters(s[..n]) && (n < |s| ==> !IsLetter(s[n]))
  {
    if s == [] || !IsLetter(s[0]) then 0
    else
      var n := 1 + LetterRun(s[1..]);
      assert s[..n] == [s[0]] + s[1..][..n - 1];
      n
  }

  /** The length of the run of ASCII digits at the start of `s`. */
  function DigitRun(s: string): (n: nat)
    ensures n <= |s| && AllDigits(s[..n]) && (n < |s| ==> !IsDigit(s[n]))
  {
    if s == [] || !IsDigit(s[0]) then 0
    else
      var n := 1 + DigitRun(s[1..]);
      assert s[..n] == [s[0]] + s[1..][..n - 1];
      n
  }

  /**
   * `parse_filename`: the groups of a full match of the extension-less name, or None. Letters and
   * digits are maximal runs, so the match is unique.
   */
  function ParseFilename(fname: string): Option<EntityName> {
    ParseStem(Stem(fname))
  }

  /** The full match of the pattern against an extension-less name. */
  function ParseStem(name: string): Option<EntityName> {
    var c := LetterRun(name);
    var d := DigitRun(name[c..]);
    if c == 0 || d == 0 then None
    else
      match ParseYears(name[c + d..])
      case None => None
      case Some(years) => Some(EntityName(name[..c], name[c..c + d], years.0, years.1, years.2))
  }

  /** The match of `-(\d{4})(?:-(\d{4}))?([A-Za-z]+)` against the whole of `rest`. */
  function ParseYears(rest: string): Option<(string, Option<string>, string)> {
    if |rest| < 5 || rest[0] != '-' || !AllDigits(rest[1..5]) then None
    else if |rest| > 5 && rest[5] == '-' then
      if |rest| > 10 && AllDigits(rest[6..10]) && AllLetters(rest[10..]) then
        Some((rest[1..5], Some(rest[6..10]), rest[10..]))
      else None
    else if |rest| > 5 && AllLetters(rest[5..]) then Some((rest[1..5], None, rest[5..]))
    else None
  }

  /** The years and suffix `ParseYears` finds are well formed and spell `rest` again. */
  lemma ParseYearsSound(rest: string)
    ensures ParseYears(rest).Some? ==>
              var t := ParseYears(rest).value;
              && |t.0| == 4 && AllDigits(t.0) && (t.1.Some? ==> |t.1.value| == 4 && AllDigits(t.1.value))
              && |t.2| >= 1 && AllLetters(t.2) && YearsPart(t.0, t.1, t.2) == rest
  {
    if ParseYears(rest).Some? {
      if rest[5] == '-' {
        assert rest == [rest[0]] + rest[1..5] + ([rest[5]] + rest[6..10]) + rest[10..];
      } else {
        assert rest == [rest[0]] + rest[1..5] + rest[5..];
      }
    }
  }

  /** Well-formed years and suffix, spelled out, parse back to themselves. */
  lemma ParseYearsOf(start: string, end: Option<string>, suffix: string)
    requires |start| == 4 && AllDigits(start) && (end.Some? ==> |end.value| == 4 && AllDigits(end.value))
    requires |suffix| >= 1 && AllLetters(suffix)
    ensures ParseYears(YearsPart(start, end, suffix)) == Some((start, end, suffix))
  {
    var rest := YearsPart(start, end, suffix);
    assert rest[1..5] == start;
    if end.Some? {
      assert rest == "-" + start + "-" + end.value + suffix;
      assert rest[6..10] == end.value && rest[10..] == suffix;
    } else {
      assert rest == "-" + start + suffix;
      assert rest[5..] == suffix && rest[5] == suffix[0];
    }
  }

  /** Whatever `parse_filename` accepts is a well-formed name that spells the file's stem. */
  lemma ParseFilenameSound(fname: string)
    ensures ParseFilename(fname).Some? ==>
              WellFormedName(ParseFilename(fname).value) && Spelling(ParseFilename(fname).value) == Stem(fname)
  {
    ParseStemSound(Stem(fname));
  }

  lemma ParseStemSound(name: string)
    ensures ParseStem(name).Some? ==> WellFormedName(ParseStem(name).value) && Spelling(ParseStem(name).value) == name
  {
    if ParseStem(name).Some? {
      var c := LetterRun(name);
      var d := DigitRun(name[c..]);
      ParseYearsSound(name[c + d..]);
      assert name[c..c + d] == name[c..][..d];
      assert name == name[..c] + name[c..c + d] + name[c + d..];
    }
  }

  lemma {:induction false} LetterRunIs(s: string, n: nat)
    requires n <= |s| && AllLetters(s[..n]) && (n < |s| ==> !IsLetter(s[n]))
    ensures LetterRun(s) == n
  {
  }

  lemma {:induction false} DigitRunIs(s: string, n: nat)
    requires n <= |s| && AllDigits(s[..n]) && (n < |s| ==> !IsDigit(s[n]))
    ensures DigitRun(s) == n
  {
  }

  /** Every well-formed name, saved as .xlsx or .xlsm, parses back to its own groups. */
  lemma ParseSpelling(e: EntityName, ext: string)
    requires WellFormedName(e) && (ext == ".xlsx" || ext == ".xlsm")
    ensures ParseFilename(Spelling(e) + ext) == Some(e)
  {
    var name := Spelling(e);
    assert name[0] == e.country[0];
    StemOfExtension(name, ext);
    ParseSpellingStem(e);
  }

  lemma ParseSpellingStem(e: EntityName)
    requires WellFormedName(e)
    ensures ParseStem(Spelling(e)) == Some(e)
  {
    var name := Spelling(e);
    var c, d := |e.country|, |e.company|;
    var rest := YearsPart(e.start, e.end, e.suffix);
    assert name[..c] == e.country && name[c..] == e.company + rest;
    assert rest[0] == '-';
    LetterRunIs(name, c);
    assert name[c..][..d] == e.company && name[c..][d] == '-';
    DigitRunIs(name[c..], d);
    assert name[c + d..] == rest && name[c..c + d] == e.company;
    ParseYearsOf(e.start, e.end, e.suffix);
  }

  /** The merge key: files that agree on country, years and suffix are merged together. */
  datatype Key = Key(country: string, start: string, end: Option<string>, suffix: string)

  function KeyOf(e: EntityName): Key {
    Key(e.country, e.start, e.end, e.suffix)
  }

  /** The merged workbook's name: `{country}-{start}[-{end}]{suffix}.xlsx`. */
  function OutputName(k: Key): string {
    k.country + "-" + k.start + EndPart(k.end) + k.suffix + ".xlsx"
  }

  /** The period shown in the missing-company report: `{start}[-{end}]{suffix}`. */
  function Period(k: Key): string {
    k.start + EndPart(k.end) + k.suffix
  }

  // ---------------------------------------------------------------------------------------------
  // The REQUEST_TABLE check

  /** The descriptor series a company's workbook must carry: `FDEALL{company_no}`. */
  function Series(company: nat): (s: string)
    ensures |s| > 6
  {
    "FDEALL" + NatToString(company)
  }

  /** Distinct company numbers expect distinct series, so a descriptor names one company only. */
  lemma SeriesInjective(a: nat, b: nat)
    ensures Series(a) == Series(b) ==> a == b
  {
    if Series(a) == Series(b) {
      assert NatToString(a) == Series(a)[6..];
      assert NatToString(b) == Series(b)[6..];
    }
  }

  /** The loop of `check_request_table` stops at an E cell that is None or "". */
  predicate BlankSeries(c: Cell) {
    c.None? || c == Some(Str(""))
  }

  /** Descriptor row `7 + k` carries the series and the year `start + k`. */
  predicate RowMatches(ws: Sheet, k: nat, series: string, start: int) {
    && CellAt(ws, DESC_FIRST_ROW + k, COL_E) == Some(Str(series))
    && IntOf(CellAt(ws, DESC_FIRST_ROW + k, COL_G)) == Some(start + k)
  }

  /** The first `m` descriptor rows carry the series and the years start, start + 1, ... */
  ghost predicate PrefixMatches(ws: Sheet, m: nat, series: string, start: int) {
    forall k: nat :: k < m ==> RowMatches(ws, k, series, start)
  }

  /** Column E of descriptor row `7 + m` ends the walk. */
  predicate StopsAt(ws: Sheet, m: nat) {
    BlankSeries(CellAt(ws, DESC_FIRST_ROW + m, COL_E))
  }

  /** The number of years from `start` to `end` inclusive (none when `end < start`). */
  function SpanLength(start: int, end: int): nat {
    if end < start then 0 else end - start + 1
  }

  /** The descriptor lists the series with the years start..end in order, then stops. */
  ghost predicate DescriptorMatches(ws: Sheet, series: string, start: int, end: int) {
    PrefixMatches(ws, SpanLength(start, end), series, start) && StopsAt(ws, SpanLength(start, end))
  }

  /** The descriptor stops (after rows that all match) before it has listed every year. */
  ghost predicate DescriptorTooShort(ws: Sheet, series: string, start: int, end: int) {
    exists m: nat :: m < SpanLength(start, end) && StopsAt(ws, m) && PrefixMatches(ws, m, series, start)
  }

  /** How `check_request_table` ends: returns None, returns False, or raises ValueError. */
  datatype CheckOutcome = Passed | Rejected | TooFewRows

  /** No descriptor row among the first `idx`, all matching, ends the walk. */
  lemma NoStopBefore(ws: Sheet, idx: nat, series: string, start: int)
    requires |series| > 0 && PrefixMatches(ws, idx, series, start)
    ensures forall m: nat :: m < idx ==> !StopsAt(ws, m)
  {
    forall m: nat | m < idx ensures !StopsAt(ws, m) {
      assert RowMatches(ws, m, series, start);
    }
  }

  /** A walk that has matched `idx` rows and then finds row `idx` wrong ends with False. */
  lemma RejectedAt(ws: Sheet, series: string, start: int, end: int, idx: nat)
    requires |series| > 0
    requires PrefixMatches(ws, idx, series, start) && !StopsAt(ws, idx)
    requires idx < SpanLength(start, end) ==> !RowMatches(ws, idx, series, start)
    ensures !DescriptorTooShort(ws, series, start, end)
    ensures !DescriptorMatches(ws, series, start, end)
  {
    NoStopBefore(ws, idx, series, start);
    forall m: nat | m < SpanLength(start, end) && PrefixMatches(ws, m, series, start)
      ensures !StopsAt(ws, m)
    {
    }
  }

  /** A walk that stops, all rows matched, before the last year raises. */
  lemma ShortAt(ws: Sheet, series: string, start: int, end: int, idx: nat)
    requires |series| > 0 && idx < SpanLength(start, end)
    requires PrefixMatches(ws, idx, series, start) && StopsAt(ws, idx)
    ensures DescriptorTooShort(ws, series, start, end)
    ensures !DescriptorMatches(ws, series, start, end)
  {
    assert !RowMatches(ws, idx, series, start);
  }

  /** A walk that stops, all rows matched, right after the last year passes. */
  lemma PassedAt(ws: Sheet, series: string, start: int, end: int)
    requires |series| > 0
    requires PrefixMatches(ws, SpanLength(start, end), series, start) && StopsAt(ws, SpanLength(start, end))
    ensures !DescriptorTooShort(ws, series, start, end)
  {
    NoStopBefore(ws, SpanLength(start, end), series, start);
  }

  /**
   * `check_request_table`: walks the descriptor from row 7 while column E is not blank, checking
   * the series and the year at each position against the span.
   */
  method CheckRequestTable(ws: Sheet, company: nat, start: int, end: int) returns (r: CheckOutcome)
    ensures r == Passed <==> DescriptorMatches(ws, Series(company), start, end)
    ensures r == TooFewRows <==> DescriptorTooShort(ws, Series(company), start, end)
  {
    var series := Series(company);
    var n := SpanLength(start, end);
    var row := DESC_FIRST_ROW;
    var idx := 0;
    while !BlankSeries(CellAt(ws, row, COL_E))
      invariant row == DESC_FIRST_ROW + idx && idx <= n
      invariant PrefixMatches(ws, idx, series, start)
      decreases |ws| + 1 - row
    {
      // a wrong series, a row past the span, and a year that is missing or wrong all return False
      if idx >= n || !RowMatches(ws, idx, series, start) {
        RejectedAt(ws, series, start, end, idx);
        return Rejected;
      }
      row := row + 1;
      idx := idx + 1;
    }
    if idx != n {
      ShortAt(ws, series, start, end, idx);
      return TooFewRows;
    }
    PassedAt(ws, series, start, end);
    return Passed;
  }

  /** `[s for s in wb.sheetnames if s != REQUEST_TABLE]`. */
  function DataSheetNames(names: seq<string>): (r: seq<string>)
    ensures forall t :: t in r <==> t in names && t != REQUEST_TABLE
    ensures |r| <= |names|
    ensures Distinct(names) ==> Distinct(r)
  {
    if names == [] then []
    else
      var rest := DataSheetNames(names[1..]);
      assert Distinct(names) ==> names[0] !in names[1..];
      (if names[0] != REQUEST_TABLE then [names[0]] else []) + rest
  }

  /** The conditions under which `validate_wb` returns instead of raising. */
  ghost predicate Validates(wb: Workbook, company: nat, start: int, end: int, years: int) {
    && Lookup(wb, REQUEST_TABLE).Some?
    && !DescriptorTooShort(Lookup(wb, REQUEST_TABLE).value, Series(company), start, end)
    && |DataSheetNames(SheetNames(wb))| >= years
  }

  /**
   * `validate_wb`: raises when REQUEST_TABLE is missing, when the descriptor lists too few years,
   * or when there are fewer data sheets than `years`; a descriptor that merely disagrees with the
   * file name (check_request_table returning False) is let through.
   */
  method ValidateWb(wb: Workbook, company: nat, start: int, end: int, years: int) returns (ok: bool)
    ensures ok <==> Validates(wb, company, start, end, years)
  {
    var req := Lookup(wb, REQUEST_TABLE);
    if req.None? {
      return false;
    }
    var outcome := CheckRequestTable(req.value, company, start, end);
    if outcome == TooFewRows {
      return false;
    }
    ok := |DataSheetNames(SheetNames(wb))| >= years;
  }

  // ---------------------------------------------------------------------------------------------
  // Sheet extents

  /** The 1-based position of the last non-None cell of a row, 0 when there is none. */
  function LastFilled(row: Row): (n: nat)
    ensures n <= |row|
  {
    if row == [] then 0
    else if row[|row| - 1].Some? then |row|
    else LastFilled(row[..|row| - 1])
  }

  /** The cell at position `LastFilled` holds a value, and no cell after it does. */
  lemma {:induction false} LastFilledMeans(row: Row)
    ensures LastFilled(row) > 0 ==> row[LastFilled(row) - 1].Some?
    ensures forall i :: LastFilled(row) <= i < |row| ==> row[i].None?
  {
    if row != [] && row[|row| - 1].None? {
      var init := row[..|row| - 1];
      LastFilledMeans(init);
      assert forall i :: 0 <= i < |init| ==> init[i] == row[i];
    }
  }

  /** The largest `LastFilled` over some rows. */
  function MaxLastFilled(rows: seq<Row>): nat {
    if rows == [] then 0
    else
      var m := MaxLastFilled(rows[..|rows| - 1]);
      var l := LastFilled(rows[|rows| - 1]);
      if l >= m then l else m
  }

  /** No row reaches past `MaxLastFilled`, and a positive one is reached by some row. */
  lemma {:induction false} MaxLastFilledMeans(rows: seq<Row>)
    ensures forall i :: 0 <= i < |rows| ==> LastFilled(rows[i]) <= MaxLastFilled(rows)
    ensures MaxLastFilled(rows) == 0 || exists i :: 0 <= i < |rows| && LastFilled(rows[i]) == MaxLastFilled(rows)
  {
    if rows != [] {
      var init := rows[..|rows| - 1];
      MaxLastFilledMeans(init);
      assert forall i :: 0 <= i < |init| ==> init[i] == rows[i];
      if LastFilled(rows[|rows| - 1]) < MaxLastFilled(init) {
        var i :| 0 <= i < |init| && LastFilled(init[i]) == MaxLastFilled(init);
        assert LastFilled(rows[i]) == MaxLastFilled(rows);
      }
    }
  }

  /** The rows below the header row. */
  function Body(ws: Sheet): Sheet {
    if ws == [] then [] else ws[1..]
  }

  /**
   * What `actual_cols` counts: the rightmost filled column over the rows below the header
   * (`iter_rows` pads those rows with empty cells, which moves nothing; see `ColsOfIterRows`).
   */
  function ColsOf(ws: Sheet): nat {
    MaxLastFilled(Body(ws))
  }

  /**
   * `actual_rows`: the 1-based position, counted from sheet row 2, of the last row with a
   * non-None cell, or 0; blank rows before it are counted.
   */
  method ActualRows(ws: Sheet) returns (last: nat)
    ensures last <= |IterRows(ws, 2)|
    ensures last > 0 ==> !IsBlankRow(IterRows(ws, 2)[last - 1])
    ensures forall i :: last <= i < |IterRows(ws, 2)| ==> IsBlankRow(IterRows(ws, 2)[i])
  {
    var rows := IterRows(ws, 2);
    last := 0;
    var i := 0;
    while i < |rows|
      invariant 0 <= i <= |rows| && last <= i
      invariant last > 0 ==> !IsBlankRow(rows[last - 1])
      invariant forall j :: last <= j < i ==> IsBlankRow(rows[j])
    {
      if exists c :: 0 <= c < |rows[i]| && rows[i][c].Some? {
        last := i + 1;
      }
      i := i + 1;
    }
  }

  /** `actual_cols`: the largest `LastFilled` over the rows below the header. */
  method ActualCols(ws: Sheet) returns (maxCols: nat)
    ensures maxCols == ColsOf(ws)
  {
    maxCols := MaxFilled(IterRows(ws, 2));
    ColsOfIterRows(ws);
  }

  /** The loop of `actual_cols` over the rows it is given. */
  method MaxFilled(rows: seq<Row>) returns (maxCols: nat)
    ensures maxCols == MaxLastFilled(rows)
  {
    maxCols := 0;
    var k := 0;
    while k < |rows|
      invariant 0 <= k <= |rows|
      invariant maxCols == MaxLastFilled(rows[..k])
    {
      var last := RowLastFilled(rows[k]);
      MaxLastFilledSnoc(rows, k);
      maxCols := if maxCols >= last then maxCols else last;
      k := k + 1;
    }
    assert rows[..k] == rows;
  }

  /** The inner loop of `actual_cols`: scan a row from the right for its last non-None cell. */
  method RowLastFilled(row: Row) returns (last: nat)
    ensures last == LastFilled(row)
  {
    last := 0;
    var i := |row|;
    while i > 0
      invariant 0 <= i <= |row|
      invariant forall j :: i <= j < |row| ==> row[j].None?
    {
      if row[i - 1].Some? {
        last := i;
        break;
      }
      i := i - 1;
    }
    LastFilledIs(row, last);
  }

  lemma MaxLastFilledSnoc(rows: seq<Row>, k: nat)
    requires k < |rows|
    ensures MaxLastFilled(rows[..k + 1]) == if MaxLastFilled(rows[..k]) >= LastFilled(rows[k])
                                             then MaxLastFilled(rows[..k]) else LastFilled(rows[k])
  {
    assert rows[..k + 1][..k] == rows[..k];
  }

  lemma {:induction false} LastFilledIs(row: Row, n: nat)
    requires n <= |row| && (n > 0 ==> row[n - 1].Some?)
    requires forall j :: n <= j < |row| ==> row[j].None?
    ensures LastFilled(row) == n
  {
    if n < |row| {
      var init := row[..|row| - 1];
      assert row[|row| - 1].None?;
      assert forall j :: 0 <= j < |init| ==> init[j] == row[j];
      LastFilledIs(init, n);
    }
  }

  /** Filling a row up with empty cells does not move its last filled cell. */
  lemma LastFilledPadded(row: Row, w: nat)
    ensures LastFilled(Padded(row, w)) == LastFilled(row)
  {
    var p := Padded(row, w);
    PaddedMeans(row, w);
    assert forall j :: 0 <= j < |row| ==> p[j] == row[j] by {
      assert p[..|row|] == row;
    }
    LastFilledMeans(row);
    LastFilledIs(p, LastFilled(row));
  }

  lemma MaxLastFilledIs(rows: seq<Row>, m: nat)
    requires forall i :: 0 <= i < |rows| ==> LastFilled(rows[i]) <= m
    requires m == 0 || exists i :: 0 <= i < |rows| && LastFilled(rows[i]) == m
    ensures MaxLastFilled(rows) == m
  {
    MaxLastFilledMeans(rows);
    if m > 0 {
      var i :| 0 <= i < |rows| && LastFilled(rows[i]) == m;
    }
    if MaxLastFilled(rows) > 0 {
      var j :| 0 <= j < |rows| && LastFilled(rows[j]) == MaxLastFilled(rows);
    }
  }

  // ---------------------------------------------------------------------------------------------
  // Appending a company's rows

  /**
   * The rows of the target sheet after `append_sheet_rows(target, source)`: unchanged when the
   * column extents differ, and otherwise followed by the source's rows from row 2, each as wide as
   * the source sheet.
   */
  function AppendedRows(target: Sheet, source: Sheet): Sheet {
    if ColsOf(target) != ColsOf(source) then target else target + IterRows(source, 2)
  }

  /** Rows with the same last filled cells have the same largest one. */
  lemma MaxLastFilledSame(a: seq<Row>, b: seq<Row>)
    requires |a| == |b| && forall i :: 0 <= i < |a| ==> LastFilled(a[i]) == LastFilled(b[i])
    ensures MaxLastFilled(a) == MaxLastFilled(b)
  {
    var m := MaxLastFilled(b);
    MaxLastFilledMeans(b);
    if m > 0 {
      var i :| 0 <= i < |b| && LastFilled(b[i]) == m;
      assert LastFilled(a[i]) == m;
    }
    MaxLastFilledIs(a, m);
  }

  /** Counting over the padded rows `iter_rows` yields gives the same column extent. */
  lemma ColsOfIterRows(ws: Sheet)
    ensures MaxLastFilled(IterRows(ws, 2)) == ColsOf(ws)
  {
    var x, b := IterRows(ws, 2), Body(ws);
    IterRowsPadded(ws, 2);
    forall i | 0 <= i < |x| ensures LastFilled(x[i]) == LastFilled(b[i]) {
      LastFilledPadded(ws[1 + i], MaxColumn(ws));
    }
    MaxLastFilledSame(x, b);
  }

  /** No row `iter_rows` yields from row 2 reaches past the sheet's column extent. */
  lemma IterRowsWithinCols(ws: Sheet)
    ensures forall j :: 0 <= j < |IterRows(ws, 2)| ==> LastFilled(IterRows(ws, 2)[j]) <= ColsOf(ws)
  {
    ColsOfIterRows(ws);
    MaxLastFilledMeans(IterRows(ws, 2));
  }

  /** Appending rows of the same column extent leaves the target's column extent as it was. */
  lemma AppendKeepsCols(t: Sheet, s: Sheet)
    ensures ColsOf(AppendedRows(t, s)) == ColsOf(t)
  {
    if ColsOf(t) == ColsOf(s) {
      IterRowsWithinCols(s);
      AppendNarrowKeepsCols(t, IterRows(s, 2));
    }
  }

  /** Rows that reach no further right than a sheet's column extent leave it as it was. */
  lemma AppendNarrowKeepsCols(t: Sheet, e: seq<Row>)
    requires forall j :: 0 <= j < |e| ==> LastFilled(e[j]) <= ColsOf(t)
    ensures ColsOf(t + e) == ColsOf(t)
  {
    if |t| >= 1 {
      AppendNarrowBelowHeader(t, e);
    } else {
      AppendNarrowToEmpty(t, e);
    }
  }

  lemma AppendNarrowBelowHeader(t: Sheet, e: seq<Row>)
    requires |t| >= 1
    requires forall j :: 0 <= j < |e| ==> LastFilled(e[j]) <= ColsOf(t)
    ensures ColsOf(t + e) == ColsOf(t)
  {
    var u := t + e;
    assert Body(u) == u[1..];
    assert u[1..] == t[1..] + e;
    MaxLastFilledBound(e, ColsOf(t));
    MaxLastFilledAppend(t[1..], e);
  }

  lemma AppendNarrowToEmpty(t: Sheet, e: seq<Row>)
    requires |t| == 0
    requires forall j :: 0 <= j < |e| ==> LastFilled(e[j]) <= ColsOf(t)
    ensures ColsOf(t + e) == ColsOf(t)
  {
    assert t + e == e;
    assert forall j :: 0 <= j < |Body(e)| ==> Body(e)[j] == e[j + 1];
    MaxLastFilledBound(Body(e), 0);
  }

  lemma MaxLastFilledBound(rows: seq<Row>, c: nat)
    requires forall j :: 0 <= j < |rows| ==> LastFilled(rows[j]) <= c
    ensures MaxLastFilled(rows) <= c
  {
    MaxLastFilledMeans(rows);
    if MaxLastFilled(rows) > 0 {
      var j :| 0 <= j < |rows| && LastFilled(rows[j]) == MaxLastFilled(rows);
    }
  }

  lemma {:induction false} MaxLastFilledAppend(a: seq<Row>, b: seq<Row>)
    ensures MaxLastFilled(a + b) == if MaxLastFilled(a) >= MaxLastFilled(b) then MaxLastFilled(a) else MaxLastFilled(b)
  {
    if b == [] {
      assert a + b == a;
    } else {
      var init := b[..|b| - 1];
      MaxLastFilledAppend(a, init);
      assert (a + b)[..|a + b| - 1] == a + init;
      assert (a + b)[|a + b| - 1] == b[|b| - 1];
    }
  }

  /**
   * `append_sheet_rows`: when the target's and the source's column extents agree, every source
   * row from row 2 on goes below the target's rows; otherwise nothing is appended.
   */
  method AppendSheetRows(target: Worksheet, source: Worksheet)
    requires target != source
    modifies target
    ensures target.rows == AppendedRows(old(target.rows), source.rows)
  {
    var targetCols := ActualCols(target.rows);
    var sourceCols := ActualCols(source.rows);
    if targetCols != sourceCols {
      return;
    }
    target.AppendAll(IterRows(source.rows, 2));
  }

  /** A template sheet after the companies' sheets `sources` have been appended to it in turn. */
  function Merged(base: Sheet, sources: seq<Sheet>): Sheet {
    if sources == [] then base
    else AppendedRows(Merged(base, sources[..|sources| - 1]), sources[|sources| - 1])
  }

  /** The data rows of those `sources` whose column extent is `cols`, in order. */
  function Contributed(cols: nat, sources: seq<Sheet>): Sheet {
    if sources == [] then []
    else
      var last := sources[|sources| - 1];
      Contributed(cols, sources[..|sources| - 1]) + (if ColsOf(last) == cols then IterRows(last, 2) else [])
  }

  /**
   * The merged sheet is the template's rows followed by the data rows of exactly those companies
   * whose column extent equals the template's, in the order the companies are appended; the
   * template's column extent never changes along the way.
   */
  lemma {:induction false} MergedAppends(base: Sheet, sources: seq<Sheet>)
    ensures Merged(base, sources) == base + Contributed(ColsOf(base), sources)
    ensures ColsOf(Merged(base, sources)) == ColsOf(base)
  {
    MergedKeepsCols(base, sources);
    if sources != [] {
      var init, last := sources[..|sources| - 1], sources[|sources| - 1];
      MergedAppends(base, init);
      MergedKeepsCols(base, init);
      MergedStep(base, Merged(base, init), Contributed(ColsOf(base), init), last);
    }
  }

  /** The template's column extent survives every append. */
  lemma {:induction false} MergedKeepsCols(base: Sheet, sources: seq<Sheet>)
    ensures ColsOf(Merged(base, sources)) == ColsOf(base)
  {
    if sources != [] {
      var init, last := sources[..|sources| - 1], sources[|sources| - 1];
      MergedKeepsCols(base, init);
      AppendKeepsCols(Merged(base, init), last);
    }
  }

  lemma MergedStep(base: Sheet, prev: Sheet, before: Sheet, last: Sheet)
    requires prev == base + before && ColsOf(prev) == ColsOf(base)
    ensures AppendedRows(prev, last)
         == base + (before + if ColsOf(last) == ColsOf(base) then IterRows(last, 2) else [])
  {
    var added := if ColsOf(last) == ColsOf(base) then IterRows(last, 2) else [];
    assert AppendedRows(prev, last) == prev + added;
    ConcatAssoc(base, before, added);
  }

  // ---------------------------------------------------------------------------------------------
  // Companies of a group

  /** `sorted(set(range(1, n + 1)) - present)`: the company numbers 1..n without a file. */
  function MissingCompanies(present: set<nat>, n: int): (r: seq<nat>)
    ensures Increasing(r)
    ensures forall c :: c in r <==> 1 <= c <= n && c !in present
  {
    if n < 1 then []
    else
      var r := MissingCompanies(present, n - 1);
      assert forall i :: 0 <= i < |r| ==> r[i] in r;
      r + (if n in present then [] else [n as nat])
  }

  /** `{company: fname for company, fname in items}`. */
  function CompanyFiles(items: seq<(nat, string)>): map<nat, string> {
    if items == [] then map[]
    else CompanyFiles(items[..|items| - 1])[items[|items| - 1].0 := items[|items| - 1].1]
  }

  /**
   * The companies are exactly those listed, and each is mapped to the file of its last listing: a
   * later file of a company replaces an earlier one.
   */
  lemma {:induction false} CompanyFilesLast(items: seq<(nat, string)>, c: nat)
    ensures c in CompanyFiles(items) <==> exists i :: 0 <= i < |items| && items[i].0 == c
    ensures forall i :: 0 <= i < |items| && items[i].0 == c && (forall j :: i < j < |items| ==> items[j].0 != c)
                        ==> CompanyFiles(items)[c] == items[i].1
  {
    if items != [] {
      var init, last := items[..|items| - 1], items[|items| - 1];
      CompanyFilesLast(init, c);
      assert forall i :: 0 <= i < |init| ==> init[i] == items[i];
    }
  }

  /** Each company's file is one of the files listed for it. */
  lemma {:induction false} CompanyFilesFrom(items: seq<(nat, string)>, c: nat)
    requires c in CompanyFiles(items)
    ensures (c, CompanyFiles(items)[c]) in items
  {
    var init, last := items[..|items| - 1], items[|items| - 1];
    assert items == init + [last];
    if c != last.0 {
      CompanyFilesFrom(init, c);
    }
  }

  // ---------------------------------------------------------------------------------------------
  // Grouping the input files

  predicate WellFormedKey(k: Key) {
    && |k.country| >= 1 && AllLetters(k.country)
    && |k.start| == 4 && AllDigits(k.start)
    && (k.end.Some? ==> |k.end.value| == 4 && AllDigits(k.end.value))
    && |k.suffix| >= 1 && AllLetters(k.suffix)
  }

  /** The merge key and the company number of a file whose name parses. */
  function EntryOf(f: string): (r: Option<(Key, nat)>)
    ensures r.Some? ==> WellFormedKey(r.value.0)
  {
    ParseFilenameSound(f);
    match ParseFilename(f)
    case None => None
    case Some(e) => Some((KeyOf(e), DigitsValue(e.company)))
  }

  /** A listed file whose name parses: its merge key, its company number and its name. */
  datatype Entry = Entry(key: Key, company: nat, file: string)

  /** The files whose names parse, in listing order; the others are skipped. */
  function Parsed(files: seq<string>): (r: seq<Entry>)
    ensures forall e :: e in r ==> WellFormedKey(e.key) && e.file in files
  {
    if files == [] then []
    else
      var init, f := files[..|files| - 1], files[|files| - 1];
      assert files == init + [f];
      match EntryOf(f)
      case None => Parsed(init)
      case Some(entry) => Parsed(init) + [Entry(entry.0, entry.1, f)]
  }

  /** An entry is parsed exactly from a listed file whose name parses to it. */
  lemma {:induction false} ParsedMembers(files: seq<string>, e: Entry)
    ensures e in Parsed(files) <==> e.file in files && EntryOf(e.file) == Some((e.key, e.company))
  {
    if files != [] {
      var init, f := files[..|files| - 1], files[|files| - 1];
      assert files == init + [f];
      ParsedMembers(init, e);
    }
  }

  lemma ParsedStep(files: seq<string>, i: nat)
    requires i < |files|
    ensures Parsed(files[..i + 1])
         == Parsed(files[..i]) + (match EntryOf(files[i])
                                  case None => []
                                  case Some(entry) => [Entry(entry.0, entry.1, files[i])])
  {
    assert files[..i + 1][..i] == files[..i];
  }

  /** `groups.keys()`: the merge keys in the order their first file is listed. */
  function KeysOf(entries: seq<Entry>): seq<Key> {
    if entries == [] then []
    else
      var keys := KeysOf(entries[..|entries| - 1]);
      var k := entries[|entries| - 1].key;
      if k !in keys then keys + [k] else keys
  }

  /** No key is listed twice. */
  lemma {:induction false} KeysOfDistinct(entries: seq<Entry>)
    ensures forall i, j :: 0 <= i < j < |KeysOf(entries)| ==> KeysOf(entries)[i] != KeysOf(entries)[j]
  {
    if entries != [] {
      var keys := KeysOf(entries[..|entries| - 1]);
      var k := entries[|entries| - 1].key;
      KeysOfDistinct(entries[..|entries| - 1]);
      if k !in keys {
        var r := keys + [k];
        forall i, j | 0 <= i < j < |r| ensures r[i] != r[j] {
          assert r[i] == keys[i] && keys[i] in keys;
          if j < |keys| {
            assert r[j] == keys[j];
          }
        }
      }
    }
  }

  /** A group exists exactly for the keys some parsed file has. */
  lemma {:induction false} KeysOfMembers(entries: seq<Entry>, k: Key)
    ensures k in KeysOf(entries) <==> exists i :: 0 <= i < |entries| && entries[i].key == k
  {
    if entries != [] {
      var init := entries[..|entries| - 1];
      KeysOfMembers(init, k);
      assert forall i :: 0 <= i < |init| ==> init[i] == entries[i];
      if entries[|entries| - 1].key == k {
        assert k in KeysOf(entries);
      }
    }
  }

  /** `groups[k]`: (int(company), file) for each file of the group, in listing order. */
  function Members(entries: seq<Entry>, k: Key): seq<(nat, string)> {
    if entries == [] then []
    else
      var init, e := entries[..|entries| - 1], entries[|entries| - 1];
      Members(init, k) + (if e.key == k then [(e.company, e.file)] else [])
  }

  /** The members of a group are exactly the companies and files of its entries. */
  lemma {:induction false} MembersMeans(entries: seq<Entry>, k: Key)
    ensures forall m :: m in Members(entries, k) <==> Entry(k, m.0, m.1) in entries
  {
    if entries != [] {
      var init, e := entries[..|entries| - 1], entries[|entries| - 1];
      assert entries == init + [e];
      MembersMeans(init, k);
    }
  }

  /** A key that is not (yet) a group has no members. */
  lemma {:induction false} MembersNone(entries: seq<Entry>, k: Key)
    requires k !in KeysOf(entries)
    ensures Members(entries, k) == []
  {
    if entries != [] {
      MembersNone(entries[..|entries| - 1], k);
    }
  }

  /** The parse-and-skip half of the grouping loop. */
  method ParseFiles(files: seq<string>) returns (entries: seq<Entry>)
    ensures entries == Parsed(files)
  {
    entries := [];
    for i := 0 to |files|
      invariant entries == Parsed(files[..i])
    {
      ParsedStep(files, i);
      match EntryOf(files[i]) {
        case None =>
        case Some(entry) => entries := entries + [Entry(entry.0, entry.1, files[i])];
      }
    }
    assert files[..|files|] == files;
  }

  /** The `setdefault(key, []).append(...)` half of the grouping loop. */
  method GroupEntries(entries: seq<Entry>) returns (keys: seq<Key>, groups: map<Key, seq<(nat, string)>>)
    ensures keys == KeysOf(entries)
    ensures forall k :: k in groups <==> k in keys
    ensures forall k :: k in groups ==> groups[k] == Members(entries, k)
  {
    keys := [];
    groups := map[];
    for i := 0 to |entries|
      invariant keys == KeysOf(entries[..i])
      invariant forall k :: k in groups <==> k in keys
      invariant forall k :: k in groups ==> groups[k] == Members(entries[..i], k)
    {
      var e := entries[i];
      var k := e.key;
      assert entries[..i + 1][..i] == entries[..i];
      if k !in groups {
        MembersNone(entries[..i], k);
      }
      groups := groups[k := if k in groups then groups[k] + [(e.company, e.file)] else [(e.company, e.file)]];
      if k !in keys {
        keys := keys + [k];
      }
    }
    assert entries[..|entries|] == entries;
  }

  /** The companies of the group `k` and their files. */
  function CompaniesOf(entries: seq<Entry>, k: Key): map<nat, string> {
    CompanyFiles(Members(entries, k))
  }

  /** Distinct groups never write to the same output file. */
  lemma OutputNameInjective(k1: Key, k2: Key)
    requires WellFormedKey(k1) && WellFormedKey(k2)
    requires OutputName(k1) == OutputName(k2)
    ensures k1 == k2
  {
    var n := OutputName(k1);
    OutputLayout(k1);
    OutputLayout(k2);
    LetterRunIs(n, |k1.country|);
    LetterRunIs(n, |k2.country|);
  }

  /** Where each part of a key sits in its output name. */
  lemma OutputLayout(k: Key)
    requires WellFormedKey(k)
    ensures var n, c := OutputName(k), |k.country|;
      && c + 10 <= |n| && n[..c] == k.country && AllLetters(n[..c]) && n[c] == '-'
      && n[c + 1..c + 5] == k.start
      && (k.end.Some? <==> n[c + 5] == '-')
      && (k.end.Some? ==> c + 15 <= |n| && n[c + 6..c + 10] == k.end.value && n[c + 10..|n| - 5] == k.suffix)
      && (k.end.None? ==> n[c + 5..|n| - 5] == k.suffix)
  {
    var n := OutputName(k);
    var tail := EndPart(k.end) + k.suffix;
    assert n == k.country + "-" + k.start + tail + ".xlsx";
    if k.end.Some? {
      assert tail == "-" + k.end.value + k.suffix;
    } else {
      assert tail == k.suffix;
    }
  }

  // ---------------------------------------------------------------------------------------------
  // Merging one group

  /** The sheets titled `title` of the source workbooks, in the order they are merged. */
  function SheetsNamed(books: seq<Workbook>, title: string): seq<Sheet> {
    if books == [] then []
    else SheetsNamed(books[..|books| - 1], title) + [SheetOr(books[|books| - 1], title)]
  }

  /** A sheet of company 1's workbook after the workbooks `used` are merged into it. */
  function RowsAfter(s: NamedSheet, used: seq<Workbook>): Sheet {
    if s.title == REQUEST_TABLE then s.rows else Merged(s.rows, SheetsNamed(used, s.title))
  }

  /** Merging one more workbook appends its sheet of the same title to every data sheet. */
  lemma RowsAfterSnoc(s: NamedSheet, used: seq<Workbook>, src: Workbook)
    ensures RowsAfter(s, used + [src]) == if s.title == REQUEST_TABLE then RowsAfter(s, used)
                                          else AppendedRows(RowsAfter(s, used), SheetOr(src, s.title))
  {
    var u := used + [src];
    assert u[..|u| - 1] == used;
  }

  function MergeSheets(sheets: seq<NamedSheet>, used: seq<Workbook>): (r: seq<NamedSheet>)
    ensures |r| == |sheets|
    ensures forall j :: 0 <= j < |sheets| ==> r[j] == NamedSheet(sheets[j].title, RowsAfter(sheets[j], used))
  {
    if sheets == [] then []
    else [NamedSheet(sheets[0].title, RowsAfter(sheets[0], used))] + MergeSheets(sheets[1..], used)
  }

  /** Company 1's workbook after the workbooks `used` are merged into it, in that order. */
  function MergedBook(base: Workbook, used: seq<Workbook>): Workbook {
    Workbook(MergeSheets(base.sheets, used))
  }

  lemma {:induction false} MergeSheetsLookup(sheets: seq<NamedSheet>, used: seq<Workbook>, t: string)
    ensures LookupIn(MergeSheets(sheets, used), t)
         == match LookupIn(sheets, t)
            case None => None
            case Some(rows) => Some(RowsAfter(NamedSheet(t, rows), used))
  {
    if sheets != [] {
      var r := MergeSheets(sheets, used);
      assert r[1..] == MergeSheets(sheets[1..], used);
      MergeSheetsLookup(sheets[1..], used, t);
    }
  }

  /**
   * The merged workbook has company 1's sheets in company 1's order. Its REQUEST_TABLE is company
   * 1's, and each other sheet is company 1's rows followed by the data rows (from row 2) of
   * exactly those merged workbooks whose sheet of that title has the same column extent as
   * company 1's, in merge order.
   */
  lemma MergedBookLookup(base: Workbook, used: seq<Workbook>, t: string)
    ensures SheetNames(MergedBook(base, used)) == SheetNames(base)
    ensures Lookup(MergedBook(base, used), t)
         == match Lookup(base, t)
            case None => None
            case Some(rows) =>
              Some(if t == REQUEST_TABLE then rows else rows + Contributed(ColsOf(rows), SheetsNamed(used, t)))
  {
    MergeSheetsLookup(base.sheets, used, t);
    match Lookup(base, t)
    case None =>
    case Some(rows) => MergedAppends(rows, SheetsNamed(used, t));
  }

  /** Every company of the group has a loaded workbook. */
  ghost predicate Loadable(companies: map<nat, string>, books: map<string, Workbook>) {
    forall c :: c in companies ==> companies[c] in books
  }

  /** openpyxl keeps the sheet titles of a workbook distinct. */
  ghost predicate DistinctTitles(books: map<string, Workbook>) {
    forall f :: f in books ==> Distinct(SheetNames(books[f]))
  }

  /** The workbooks of the companies in `order`, company 1 left out. */
  ghost function SourceBooks(order: seq<nat>, companies: map<nat, string>, books: map<string, Workbook>): seq<Workbook>
    requires Loadable(companies, books)
    requires forall i :: 0 <= i < |order| ==> order[i] in companies
  {
    if order == [] then []
    else
      var c := order[|order| - 1];
      SourceBooks(order[..|order| - 1], companies, books) + (if c == 1 then [] else [books[companies[c]]])
  }

  /** A company's workbook can be merged: it validates and has every data sheet of company 1. */
  ghost predicate CompanyMerges(base: Workbook, src: Workbook, c: nat, start: int, end: int, years: int) {
    && Validates(src, c, start, end, years)
    && forall t :: t in DataSheetNames(SheetNames(base)) ==> t in SheetNames(src)
  }

  /** The merge of a group completes: company 1 is present and valid, and every other company merges. */
  ghost predicate MergeSucceeds(companies: map<nat, string>, books: map<string, Workbook>,
                                start: int, end: int, years: int)
    requires Loadable(companies, books)
  {
    && 1 in companies
    && Validates(books[companies[1]], 1, start, end, years)
    && forall c :: c in companies && c != 1 ==>
                     CompanyMerges(books[companies[1]], books[companies[c]], c, start, end, years)
  }

  /** Company 1's workbook with every other company merged in, in ascending company order. */
  ghost function MergeResult(companies: map<nat, string>, books: map<string, Workbook>): Workbook
    requires Loadable(companies, books) && 1 in companies
  {
    var order := Ascending(companies.Keys);
    MergedBook(books[companies[1]], SourceBooks(order, companies, books))
  }

  /** No two positions hold the same worksheet object. */
  predicate DistinctSheets(sheets: seq<Worksheet>) {
    forall i, j :: 0 <= i < j < |sheets| ==> sheets[i] != sheets[j]
  }

  /** The open worksheets hold company 1's sheets with the workbooks `used` merged in. */
  ghost predicate Holds(sheets: seq<Worksheet>, base: Workbook, used: seq<Workbook>)
    reads sheets
  {
    |sheets| == |base.sheets| && forall j :: 0 <= j < |sheets| ==> sheets[j].rows == RowsAfter(base.sheets[j], used)
  }

  /** Freshly opened sheets hold company 1's workbook with nothing merged in yet. */
  lemma HoldsInitially(sheets: seq<Worksheet>, base: Workbook)
    requires |sheets| == |base.sheets|
    requires forall j :: 0 <= j < |sheets| ==> sheets[j].rows == base.sheets[j].rows
    ensures Holds(sheets, base, [])
  {
    forall j | 0 <= j < |sheets| ensures sheets[j].rows == RowsAfter(base.sheets[j], []) {
      assert SheetsNamed([], base.sheets[j].title) == [];
    }
  }

  /** `load_workbook`: one worksheet object per sheet of the workbook. */
  method OpenSheets(wb: Workbook) returns (sheets: seq<Worksheet>)
    ensures |sheets| == |wb.sheets| && DistinctSheets(sheets)
    ensures forall j :: 0 <= j < |sheets| ==> fresh(sheets[j]) && sheets[j].rows == wb.sheets[j].rows
  {
    sheets := [];
    for j := 0 to |wb.sheets|
      invariant |sheets| == j && DistinctSheets(sheets)
      invariant forall k :: 0 <= k < j ==> fresh(sheets[k]) && sheets[k].rows == wb.sheets[k].rows
    {
      var w := new Worksheet(wb.sheets[j].rows);
      sheets := sheets + [w];
    }
  }

  /** What one more merged workbook `src` does to the sheet `title` of company 1. */
  function StepRows(title: string, rows: Sheet, src: Workbook): Sheet {
    if title == REQUEST_TABLE then rows else AppendedRows(rows, SheetOr(src, title))
  }

  /**
   * The inner loop of the merge: every data sheet of company 1 gets the same-titled sheet of `src`
   * appended; a title `src` lacks raises KeyError (`wb_src[ws_name]`), leaving the sheets before it
   * already appended.
   */
  method AppendCompany(base: Workbook, sheets: seq<Worksheet>, src: Workbook) returns (ok: bool)
    requires |sheets| == |base.sheets| && DistinctSheets(sheets)
    modifies sheets
    ensures ok <==> forall t :: t in DataSheetNames(SheetNames(base)) ==> t in SheetNames(src)
    ensures ok ==> forall j :: 0 <= j < |sheets| ==>
                      sheets[j].rows == StepRows(base.sheets[j].title, old(sheets[j].rows), src)
  {
    for j := 0 to |sheets|
      invariant forall k :: 0 <= k < j && base.sheets[k].title != REQUEST_TABLE ==> base.sheets[k].title in SheetNames(src)
      invariant forall k :: 0 <= k < j ==> sheets[k].rows == StepRows(base.sheets[k].title, old(sheets[k].rows), src)
      invariant forall k :: j <= k < |sheets| ==> sheets[k].rows == old(sheets[k].rows)
    {
      var title := base.sheets[j].title;
      assert forall k :: 0 <= k < |sheets| && k != j ==> sheets[k] != sheets[j];
      var found := AppendTitle(sheets[j], title, src);
      if !found {
        assert SheetNames(base)[j] == title;
        return false;
      }
    }
    forall t | t in DataSheetNames(SheetNames(base)) ensures t in SheetNames(src) {
      var k :| 0 <= k < |SheetNames(base)| && SheetNames(base)[k] == t;
    }
    ok := true;
  }

  /** One step of that loop: the sheet `title` of `src` appended to `sheet`, unless it is the descriptor. */
  method AppendTitle(sheet: Worksheet, title: string, src: Workbook) returns (found: bool)
    modifies sheet
    ensures found <==> title == REQUEST_TABLE || title in SheetNames(src)
    ensures found ==> sheet.rows == StepRows(title, old(sheet.rows), src)
  {
    found := true;
    if title != REQUEST_TABLE {
      var rows := Lookup(src, title);
      if rows.None? {
        return false;
      }
      var source := new Worksheet(rows.value);
      AppendSheetRows(sheet, source);
    }
  }

  /** The workbook saved from the open worksheets. */
  method SaveSheets(base: Workbook, sheets: seq<Worksheet>, ghost used: seq<Workbook>) returns (wb: Workbook)
    requires Holds(sheets, base, used)
    ensures wb == MergedBook(base, used)
  {
    var out: seq<NamedSheet> := [];
    ghost var merged := MergeSheets(base.sheets, used);
    assert |merged| == |sheets|;
    assert forall k :: 0 <= k < |sheets| ==> merged[k] == NamedSheet(base.sheets[k].title, sheets[k].rows);
    for j := 0 to |sheets|
      invariant out == merged[..j]
    {
      assert merged[..j + 1] == merged[..j] + [merged[j]];
      out := out + [NamedSheet(base.sheets[j].title, sheets[j].rows)];
    }
    assert merged[..|sheets|] == merged;
    wb := Workbook(out);
  }

  /** One more merged workbook turns the open sheets of `used` into those of `used + [src]`. */
  lemma HoldsStep(sheets: seq<Worksheet>, base: Workbook, used: seq<Workbook>, src: Workbook,
                  previous: seq<Sheet>)
    requires |previous| == |sheets| == |base.sheets|
    requires forall j :: 0 <= j < |sheets| ==> previous[j] == RowsAfter(base.sheets[j], used)
    requires forall j :: 0 <= j < |sheets| ==> sheets[j].rows == StepRows(base.sheets[j].title, previous[j], src)
    ensures Holds(sheets, base, used + [src])
  {
    forall j | 0 <= j < |sheets| ensures sheets[j].rows == RowsAfter(base.sheets[j], used + [src]) {
      RowsAfterSnoc(base.sheets[j], used, src);
    }
  }

  lemma SourceBooksStep(order: seq<nat>, i: nat, companies: map<nat, string>, books: map<string, Workbook>)
    requires Loadable(companies, books) && i < |order|
    requires forall k :: 0 <= k < |order| ==> order[k] in companies
    ensures SourceBooks(order[..i + 1], companies, books)
         == SourceBooks(order[..i], companies, books) + (if order[i] == 1 then [] else [books[companies[order[i]]]])
  {
    assert order[..i + 1][..i] == order[..i];
  }

  /** Every company in `order` other than 1 merges. */
  ghost predicate AllMerge(base: Workbook, order: seq<nat>, companies: map<nat, string>,
                           books: map<string, Workbook>, start: int, end: int, years: int)
    requires Loadable(companies, books)
    requires forall k :: 0 <= k < |order| ==> order[k] in companies
  {
    if order == [] then true
    else
      var c := order[|order| - 1];
      && AllMerge(base, order[..|order| - 1], companies, books, start, end, years)
      && (c != 1 ==> CompanyMerges(base, books[companies[c]], c, start, end, years))
  }

  lemma AllMergeStep(base: Workbook, order: seq<nat>, i: nat, companies: map<nat, string>,
                     books: map<string, Workbook>, start: int, end: int, years: int)
    requires Loadable(companies, books) && i < |order|
    requires forall k :: 0 <= k < |order| ==> order[k] in companies
    ensures AllMerge(base, order[..i + 1], companies, books, start, end, years)
        <==> AllMerge(base, order[..i], companies, books, start, end, years)
             && (order[i] != 1 ==> CompanyMerges(base, books[companies[order[i]]], order[i], start, end, years))
  {
    assert order[..i + 1][..i] == order[..i];
  }

  lemma {:induction false} AllMergePrefix(base: Workbook, order: seq<nat>, n: nat, companies: map<nat, string>,
                                          books: map<string, Workbook>, start: int, end: int, years: int)
    requires Loadable(companies, books) && n <= |order|
    requires forall k :: 0 <= k < |order| ==> order[k] in companies
    ensures AllMerge(base, order, companies, books, start, end, years)
        ==> AllMerge(base, order[..n], companies, books, start, end, years)
    decreases |order|
  {
    if n < |order| {
      var init := order[..|order| - 1];
      AllMergePrefix(base, init, n, companies, books, start, end, years);
      assert init[..n] == order[..n];
    } else {
      assert order[..n] == order;
    }
  }

  lemma {:induction false} AllMergeMeans(base: Workbook, order: seq<nat>, companies: map<nat, string>,
                                         books: map<string, Workbook>, start: int, end: int, years: int)
    requires Loadable(companies, books)
    requires forall k :: 0 <= k < |order| ==> order[k] in companies
    ensures AllMerge(base, order, companies, books, start, end, years)
        <==> forall k :: 0 <= k < |order| && order[k] != 1 ==>
                   CompanyMerges(base, books[companies[order[k]]], order[k], start, end, years)
  {
    if order != [] {
      var init := order[..|order| - 1];
      AllMergeMeans(base, init, companies, books, start, end, years);
      assert forall k :: 0 <= k < |init| ==> init[k] == order[k];
    }
  }

  /** With company 1 valid, the merge succeeds exactly when every company in ascending order merges. */
  lemma MergeSucceedsInOrder(companies: map<nat, string>, books: map<string, Workbook>, order: seq<nat>,
                             start: int, end: int, years: int)
    requires Loadable(companies, books) && 1 in companies
    requires Validates(books[companies[1]], 1, start, end, years)
    requires order == Ascending(companies.Keys)
    ensures forall k :: 0 <= k < |order| ==> order[k] in companies
    ensures MergeSucceeds(companies, books, start, end, years)
        <==> AllMerge(books[companies[1]], order, companies, books, start, end, years)
  {
    assert forall k :: 0 <= k < |order| ==> order[k] in order;
    AllMergeMeans(books[companies[1]], order, companies, books, start, end, years);
    if AllMerge(books[companies[1]], order, companies, books, start, end, years) {
      forall c | c in companies && c != 1
        ensures CompanyMerges(books[companies[1]], books[companies[c]], c, start, end, years)
      {
        var k :| 0 <= k < |order| && order[k] == c;
      }
    }
  }

  /** One company of the merge loop: `validate_wb`, then the sheet-by-sheet append. */
  method MergeOne(base: Workbook, sheets: seq<Worksheet>, src: Workbook, c: nat, start: int, end: int, years: int,
                  ghost used: seq<Workbook>)
    returns (ok: bool)
    requires |sheets| == |base.sheets| && DistinctSheets(sheets) && Holds(sheets, base, used)
    modifies sheets
    ensures ok <==> CompanyMerges(base, src, c, start, end, years)
    ensures ok ==> Holds(sheets, base, used + [src])
  {
    ok := ValidateWb(src, c, start, end, years);
    if !ok {
      return;
    }
    ghost var previous := seq(|sheets|, j requires 0 <= j < |sheets| => RowsAfter(base.sheets[j], used));
    ok := AppendCompany(base, sheets, src);
    if ok {
      HoldsStep(sheets, base, used, src, previous);
    }
  }

  /**
   * The loop over the other companies, in the order given: each is validated and has its sheets
   * appended; the first that fails stops the merge.
   */
  method MergeCompanies(base: Workbook, sheets: seq<Worksheet>, order: seq<nat>, companies: map<nat, string>,
                        books: map<string, Workbook>, start: int, end: int, years: int)
    returns (ok: bool)
    requires Loadable(companies, books)
    requires forall k :: 0 <= k < |order| ==> order[k] in companies
    requires |sheets| == |base.sheets| && DistinctSheets(sheets) && Holds(sheets, base, [])
    modifies sheets
    ensures ok <==> AllMerge(base, order, companies, books, start, end, years)
    ensures ok ==> Holds(sheets, base, SourceBooks(order, companies, books))
  {
    ghost var used: seq<Workbook> := [];
    for i := 0 to |order|
      invariant used == SourceBooks(order[..i], companies, books)
      invariant AllMerge(base, order[..i], companies, books, start, end, years)
      invariant Holds(sheets, base, used)
    {
      SourceBooksStep(order, i, companies, books);
      AllMergeStep(base, order, i, companies, books, start, end, years);
      var c := order[i];
      if c != 1 {
        var src := books[companies[c]];
        ok := MergeOne(base, sheets, src, c, start, end, years, used);
        if !ok {
          AllMergePrefix(base, order, i + 1, companies, books, start, end, years);
          return false;
        }
        used := used + [src];
      }
    }
    assert order[..|order|] == order;
    ok := true;
  }

  /**
   * The merge of one group: company 1's workbook is validated and opened, then every other company,
   * in ascending order, is validated and has its sheets appended to company 1's sheets of the same
   * title. The merge raises when company 1 is missing, when a workbook fails `validate_wb`, or when
   * a company lacks one of company 1's data sheets; otherwise it yields the workbook that is saved.
   */
  method MergeGroup(companies: map<nat, string>, books: map<string, Workbook>, start: int, end: int, years: int)
    returns (r: Result<Workbook>)
    requires Loadable(companies, books) && DistinctTitles(books)
    ensures r.Ok? <==> MergeSucceeds(companies, books, start, end, years)
    ensures r.Ok? ==> 1 in companies && r.value == MergeResult(companies, books)
  {
    if 1 !in companies {
      return Raised("ValueError: company 1 is missing");
    }
    var base := books[companies[1]];
    var ok := ValidateWb(base, 1, start, end, years);
    if !ok {
      return Raised("ValueError: a workbook fails validation");
    }
    var sheets := OpenSheets(base);
    HoldsInitially(sheets, base);
    var order := SortedNats(companies.Keys);
    MergeSucceedsInOrder(companies, books, order, start, end, years);
    ok := MergeCompanies(base, sheets, order, companies, books, start, end, years);
    if !ok {
      return Raised("ValueError or KeyError: a company cannot be merged");
    }
    var wb := SaveSheets(base, sheets, SourceBooks(order, companies, books));
    r := Ok(wb);
  }

  // ---------------------------------------------------------------------------------------------
  // The whole run

  /** The first year of a group's span: `int(start)`. */
  function StartYear(k: Key): int
    requires WellFormedKey(k)
  {
    DigitsValue(k.start)
  }

  /** The last year of a group's span: `int(end) if end else int(start)`. */
  function EndYear(k: Key): int
    requires WellFormedKey(k)
  {
    if k.end.Some? then DigitsValue(k.end.value) else DigitsValue(k.start)
  }

  /** The `years` global each group sets before validating: `1 if end is None else int(end) - int(start) + 1`. */
  function YearsOf(k: Key): int
    requires WellFormedKey(k)
  {
    if k.end.None? then 1 else DigitsValue(k.end.value) - DigitsValue(k.start) + 1
  }

  /** A span written with both years counts the same years as `SpanLength` when it is in order. */
  lemma YearsOfSpan(k: Key)
    requires WellFormedKey(k) && StartYear(k) <= EndYear(k)
    ensures YearsOf(k) == SpanLength(StartYear(k), EndYear(k))
  {
  }

  /** The group `k` merges without raising. */
  ghost predicate GroupMerges(entries: seq<Entry>, books: map<string, Workbook>, k: Key) {
    && WellFormedKey(k)
    && Loadable(CompaniesOf(entries, k), books)
    && MergeSucceeds(CompaniesOf(entries, k), books, StartYear(k), EndYear(k), YearsOf(k))
  }

  /** The workbook saved for a group that merges. */
  ghost function GroupResult(entries: seq<Entry>, books: map<string, Workbook>, k: Key): Workbook
    requires GroupMerges(entries, books, k)
  {
    MergeResult(CompaniesOf(entries, k), books)
  }

  /** `n` is the output name of one of the groups. */
  predicate IsOutputOf(n: string, keys: seq<Key>) {
    exists i :: 0 <= i < |keys| && OutputName(keys[i]) == n
  }

  /** The output folder after the files the run is about to write have been removed. */
  function Cleared(outDir: map<string, Workbook>, keys: seq<Key>): map<string, Workbook> {
    map n | n in outDir && !IsOutputOf(n, keys) :: outDir[n]
  }

  /**
   * The output folder after the groups `keys` are merged in turn: each group's workbook is saved
   * under its output name, and the first group whose merge raises ends the run with the files
   * saved so far.
   */
  ghost function Saved(entries: seq<Entry>, books: map<string, Workbook>, keys: seq<Key>,
                       out: map<string, Workbook>): map<string, Workbook>
  {
    if keys == [] || !GroupMerges(entries, books, keys[0]) then out
    else Saved(entries, books, keys[1..], out[OutputName(keys[0]) := GroupResult(entries, books, keys[0])])
  }

  /** One row of the missing-company report. */
  datatype MissingReport = MissingReport(country: string, period: string, missing: seq<nat>)

  /** The report rows of the groups `keys`, for `n` expected companies. */
  function Report(entries: seq<Entry>, keys: seq<Key>, n: int): (r: seq<MissingReport>)
    ensures |r| <= |keys|
  {
    if keys == [] then [] else Report(entries, keys[..|keys| - 1], n) + ReportRow(entries, keys[|keys| - 1], n)
  }

  /** The report row of one group: none when no company in 1..n is missing. */
  function ReportRow(entries: seq<Entry>, k: Key, n: int): seq<MissingReport> {
    var missing := MissingCompanies(CompaniesOf(entries, k).Keys, n);
    if missing == [] then [] else [MissingReport(k.country, Period(k), missing)]
  }

  /** `ans not in ("y", "yes")` after `.strip().lower()`. */
  predicate Agrees(answer: string) {
    ToLower(Strip(answer)) == "y" || ToLower(Strip(answer)) == "yes"
  }

  /** How a run of the script ends. */
  datatype EntityRun =
    | Cancelled
    | Crashed(outputs: map<string, Workbook>)
    | Finished(outputs: map<string, Workbook>, report: seq<MissingReport>)

  /** The run is cancelled: the company count is not an integer of at least 1, or it would overwrite files without consent. */
  predicate CancelledBy(answer: string, confirm: string, keys: seq<Key>, outDir: map<string, Workbook>) {
    || ParseInt(answer).None? || ParseInt(answer).value < 1
    || ((exists n :: n in outDir && IsOutputOf(n, keys)) && !Agrees(confirm))
  }

  /** Removing the existing outputs listed in `existing` leaves the cleared folder; there is nothing to remove exactly when none exists. */
  lemma ClearedBy(outDir: map<string, Workbook>, keys: seq<Key>, existing: seq<string>)
    requires forall n :: n in existing <==> n in outDir && IsOutputOf(n, keys)
    ensures existing != [] <==> exists n :: n in outDir && IsOutputOf(n, keys)
    ensures existing == [] ==> outDir == Cleared(outDir, keys)
    ensures existing != [] ==> (map n | n in outDir && n !in existing :: outDir[n]) == Cleared(outDir, keys)
  {
    if existing != [] {
      assert existing[0] in existing;
    } else {
      forall n | n in outDir ensures !IsOutputOf(n, keys) {
        assert n !in existing;
      }
    }
  }

  /** The output names of the groups that already exist, in group order. */
  method ExistingOutputs(keys: seq<Key>, outDir: map<string, Workbook>) returns (existing: seq<string>)
    ensures forall n :: n in existing <==> n in outDir && IsOutputOf(n, keys)
  {
    existing := [];
    for i := 0 to |keys|
      invariant forall n :: n in existing <==> n in outDir && IsOutputOf(n, keys[..i])
    {
      assert forall j :: 0 <= j < i ==> keys[..i + 1][j] == keys[..i][j];
      assert keys[..i + 1][i] == keys[i];
      if OutputName(keys[i]) in outDir {
        existing := existing + [OutputName(keys[i])];
      }
    }
    assert keys[..|keys|] == keys;
  }

  /** When every parsed file loads, so does every company of every group. */
  lemma CompaniesLoadable(entries: seq<Entry>, books: map<string, Workbook>, k: Key)
    requires forall e :: e in entries ==> e.file in books
    ensures Loadable(CompaniesOf(entries, k), books)
  {
    var companies := CompaniesOf(entries, k);
    MembersMeans(entries, k);
    forall c | c in companies ensures companies[c] in books {
      CompanyFilesFrom(Members(entries, k), c);
      assert Entry(k, c, companies[c]) in entries;
    }
  }

  /** Every group key is the key of a parsed entry, so it is well formed. */
  lemma KeysWellFormed(entries: seq<Entry>)
    requires forall e :: e in entries ==> WellFormedKey(e.key)
    ensures forall k :: k in KeysOf(entries) ==> WellFormedKey(k)
  {
    forall k | k in KeysOf(entries) ensures WellFormedKey(k) {
      KeysOfMembers(entries, k);
      var i :| 0 <= i < |entries| && entries[i].key == k;
      assert entries[i] in entries;
    }
  }

  lemma SavedStep(entries: seq<Entry>, books: map<string, Workbook>, keys: seq<Key>, i: nat, out: map<string, Workbook>)
    requires i < |keys| && GroupMerges(entries, books, keys[i])
    ensures Saved(entries, books, keys[i..], out)
         == Saved(entries, books, keys[i + 1..], out[OutputName(keys[i]) := GroupResult(entries, books, keys[i])])
  {
    var rest := keys[i..];
    assert rest != [] && rest[0] == keys[i] && rest[1..] == keys[i + 1..];
  }

  lemma ReportStep(entries: seq<Entry>, keys: seq<Key>, i: nat, n: int)
    requires i < |keys|
    ensures Report(entries, keys[..i + 1], n) == Report(entries, keys[..i], n) + ReportRow(entries, keys[i], n)
  {
    assert keys[..i + 1][..i] == keys[..i];
  }

  /** The loop over the groups: report missing companies, merge, save; the first merge that raises ends it. */
  method MergeGroups(entries: seq<Entry>, keys: seq<Key>, groups: map<Key, seq<(nat, string)>>, count: int,
                     books: map<string, Workbook>, out0: map<string, Workbook>)
    returns (out: map<string, Workbook>, report: seq<MissingReport>, ok: bool)
    requires forall e :: e in entries ==> e.file in books
    requires (forall k :: k in keys ==> WellFormedKey(k)) && DistinctTitles(books)
    requires forall k :: k in groups <==> k in keys
    requires forall k :: k in groups ==> groups[k] == Members(entries, k)
    ensures out == Saved(entries, books, keys, out0)
    ensures ok <==> forall k :: k in keys ==> GroupMerges(entries, books, k)
    ensures ok ==> report == Report(entries, keys, count)
  {
    out := out0;
    report := [];
    assert keys[0..] == keys && keys[..0] == [];
    for i := 0 to |keys|
      invariant Saved(entries, books, keys, out0) == Saved(entries, books, keys[i..], out)
      invariant forall j :: 0 <= j < i ==> GroupMerges(entries, books, keys[j])
      invariant report == Report(entries, keys[..i], count)
    {
      var k := keys[i];
      assert k in keys;
      assert k in groups;
      ReportStep(entries, keys, i, count);
      var row, merged := MergeKey(entries, k, groups[k], count, books);
      report := report + row;
      if merged.Raised? {
        assert keys[i..] != [] && keys[i..][0] == k;
        return out, report, false;
      }
      SavedStep(entries, books, keys, i, out);
      out := out[OutputName(k) := merged.value];
    }
    assert keys[|keys|..] == [];
    assert keys[..|keys|] == keys;
    ok := true;
  }

  /** One turn of the group loop: the group's report row, then its merge. */
  method MergeKey(entries: seq<Entry>, k: Key, members: seq<(nat, string)>, count: int, books: map<string, Workbook>)
    returns (row: seq<MissingReport>, merged: Result<Workbook>)
    requires forall e :: e in entries ==> e.file in books
    requires WellFormedKey(k) && DistinctTitles(books)
    requires members == Members(entries, k)
    ensures row == ReportRow(entries, k, count)
    ensures merged.Ok? <==> GroupMerges(entries, books, k)
    ensures merged.Ok? ==> merged.value == GroupResult(entries, books, k)
  {
    CompaniesLoadable(entries, books, k);
    var companies := CompanyFiles(members);
    var missing := MissingCompanies(companies.Keys, count);
    row := if missing != [] then [MissingReport(k.country, Period(k), missing)] else [];
    merged := MergeGroup(companies, books, StartYear(k), EndYear(k), YearsOf(k));
  }

  /**
   * The script after its input files are grouped: check the company count, ask before overwriting
   * existing outputs, then merge and save group by group. The report of missing companies is shown
   * only when every group has been saved.
   */
  method RunGroups(answer: string, confirm: string, entries: seq<Entry>, keys: seq<Key>,
                   groups: map<Key, seq<(nat, string)>>, books: map<string, Workbook>, outDir: map<string, Workbook>)
    returns (r: EntityRun)
    requires forall e :: e in entries ==> e.file in books && WellFormedKey(e.key)
    requires keys == KeysOf(entries) && DistinctTitles(books)
    requires forall k :: k in groups <==> k in keys
    requires forall k :: k in groups ==> groups[k] == Members(entries, k)
    ensures r.Cancelled? <==> CancelledBy(answer, confirm, keys, outDir)
    ensures !r.Cancelled? ==> r.outputs == Saved(entries, books, keys, Cleared(outDir, keys))
    ensures r.Finished? <==> !CancelledBy(answer, confirm, keys, outDir)
                             && forall k :: k in keys ==> GroupMerges(entries, books, k)
    ensures r.Finished? ==> r.report == Report(entries, keys, ParseInt(answer).value)
  {
    var count := ParseInt(answer);
    if count.None? || count.value < 1 {
      return Cancelled;
    }
    var existing := ExistingOutputs(keys, outDir);
    ClearedBy(outDir, keys, existing);
    var out := outDir;
    if existing != [] {
      if !Agrees(confirm) {
        return Cancelled;
      }
      out := map n | n in out && n !in existing :: out[n];
    }
    KeysWellFormed(entries);
    var report, ok;
    out, report, ok := MergeGroups(entries, keys, groups, count.value, books, out);
    if ok {
      r := Finished(out, report);
    } else {
      r := Crashed(out);
    }
  }

  /** The script: list and group the input workbooks, then run the groups. */
  method Run(answer: string, confirm: string, listing: seq<string>, books: map<string, Workbook>,
             outDir: map<string, Workbook>)
    returns (r: EntityRun)
    requires forall f :: f in listing ==> f in books
    requires DistinctTitles(books)
    ensures var entries := Parsed(ExcelFiles(listing));
            var keys := KeysOf(entries);
            && (r.Cancelled? <==> CancelledBy(answer, confirm, keys, outDir))
            && (!r.Cancelled? ==> r.outputs == Saved(entries, books, keys, Cleared(outDir, keys)))
            && (r.Finished? <==> !CancelledBy(answer, confirm, keys, outDir)
                                 && forall k :: k in keys ==> GroupMerges(entries, books, k))
            && (r.Finished? ==> r.report == Report(entries, keys, ParseInt(answer).value))
  {
    var files := ExcelFiles(listing);
    var entries := ParseFiles(files);
    var keys, groups := GroupEntries(entries);
    r := RunGroups(answer, confirm, entries, keys, groups, books, outDir);
  }
}
