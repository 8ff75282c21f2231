/**
 * year-integrate.py: for every country of the input folder, the data sheet of each year named by
 * the REQUEST_TABLE descriptors is read, the years the file name claims and that fall in the window
 * 2015-2024 are kept, every data row becomes a record tagged with its year, the country and its
 * two codes, the records are sorted by year, and one MASTER_TABLE workbook is written for each
 * country whose years cover the window exactly.
 */
module YearIntegrate {
  import opened Common
  import opened Text
  import opened Sorting
  import opened Workbooks
  import VariableIntegrate

  const START_YEAR: int := 2015
  const END_YEAR: int := 2024

  /** `set(range(start, end + 1))`. */
  function Range(start: int, end: int): (r: set<int>)
    ensures forall y :: y in r <==> start <= y <= end
    decreases end - start
  {
    if end < start then {} else Range(start, end - 1) + {end}
  }

  /** The years every country must cover: `set(range(START_YEAR, END_YEAR + 1))`. */
  function Window(): set<int> {
    Range(START_YEAR, END_YEAR)
  }

  // ---------------------------------------------------------------------------------------------
  // File names

  /** `-dddd` starts at position `i` of `s`. */
  predicate YearAt(s: string, i: int) {
    0 <= i && i + 5 <= |s| && s[i] == '-' && AllDigits(s[i + 1..i + 5])
  }

  /** The four digits after the `-` at `i`, as an integer. */
  function YearValue(s: string, i: int): int
    requires YearAt(s, i)
  {
    DigitsValue(s[i + 1..i + 5])
  }

  /** Where `re.search(r"-(\d{4})...", s)` finds its match: the leftmost `-dddd` from `i` on. */
  function FirstYearFrom(s: string, i: nat): (r: Option<nat>)
    ensures r.Some? ==> i <= r.value && YearAt(s, r.value)
    ensures forall j :: i <= j && (r.None? || j < r.value) ==> !YearAt(s, j)
    decreases |s| - i
  {
    if i + 5 > |s| then None
    else if YearAt(s, i) then Some(i)
    else FirstYearFrom(s, i + 1)
  }

  /**
   * `parse_years_from_filename`: the years from the first `-dddd` of the extension-less name to
   * the `-dddd` right after it, or that single year; no years when the name has no `-dddd`.
   */
  function ParseYearsFromFilename(filename: string): (years: set<int>)
    ensures (forall j :: !YearAt(Stem(filename), j)) ==> years == {}
  {
    var name := Stem(filename);
    match FirstYearFrom(name, 0)
    case None => {}
    case Some(i) =>
      var start := YearValue(name, i);
      Range(start, if YearAt(name, i + 5) then YearValue(name, i + 5) else start)
  }

  /** `parse_country`: the extension-less name without a trailing `-dddd-dddd` or `-dddd`. */
  function ParseCountry(filename: string): (country: string)
    ensures |country| <= |Stem(filename)| && country == Stem(filename)[..|country|]
  {
    var name := Stem(filename);
    var n := |name|;
    if n >= 10 && YearAt(name, n - 10) && YearAt(name, n - 5) then name[..n - 10]
    else if YearAt(name, n - 5) then name[..n - 5]
    else name
  }

  /** `{country}-{start}`, followed by `-{end}` when the years differ. */
  function Named(country: string, start: int, end: int): string {
    country + "-" + IntToString(start) + (if end == start then "" else "-" + IntToString(end))
  }

  /** The names variable-integrate.py gives its outputs are named this way. */
  lemma OutputNameIsNamed(country: string, start: int, end: int)
    ensures VariableIntegrate.OutputName(country, start, end) == Named(country, start, end) + ".xlsx"
  {
  }

  /** A four-digit year spelled at position `p` of `s` is a `-dddd` there, worth that year. */
  lemma SpelledYear(s: string, p: int, y: int)
    requires 1000 <= y <= 9999
    requires 0 <= p && p + 5 <= |s| && s[p] == '-' && s[p + 1..p + 5] == IntToString(y)
    ensures YearAt(s, p) && YearValue(s, p) == y
  {
    FourDigitYear(y);
  }

  /** A `-dddd` of `c + t` that starts inside `c` lies inside `c`, when `t` starts with `-`. */
  lemma NoYearAcross(c: string, t: string, j: int)
    requires forall k :: !YearAt(c, k)
    requires |t| >= 1 && t[0] == '-'
    requires 0 <= j < |c|
    ensures !YearAt(c + t, j)
  {
    var s := c + t;
    if j + 5 <= |c| {
      YearAtPrefix(c, t, j);
    } else if YearAt(s, j) {
      DigitIn(s, j + 1, j + 5, |c|);
    }
  }

  /** Whether `-dddd` starts at `i` depends only on the characters from `i` to `i + 5`. */
  lemma YearAtPrefix(p: string, rest: string, i: int)
    requires 0 <= i && i + 5 <= |p|
    ensures YearAt(p + rest, i) <==> YearAt(p, i)
  {
    assert (p + rest)[i + 1..i + 5] == p[i + 1..i + 5];
  }

  lemma DigitIn(s: string, a: int, b: int, k: int)
    requires 0 <= a <= k < b <= |s| && AllDigits(s[a..b])
    ensures IsDigit(s[k])
  {
    assert s[k] == s[a..b][k - a];
  }

  /**
   * A name spelled `{country}-{start}[-{end}]{tail}{ext}` with four-digit years, a country
   * without `-dddd` and a tail not starting with `-`, claims exactly the years `start..end`.
   */
  lemma ParseYearsOfNamed(country: string, start: int, end: int, tail: string, ext: string)
    requires forall k :: !YearAt(country, k)
    requires 1000 <= start <= 9999 && 1000 <= end <= 9999
    requires tail == [] || tail[0] != '-'
    requires |ext| >= 1 && ext[0] == '.' && forall j :: 1 <= j < |ext| ==> ext[j] != '.'
    ensures ParseYearsFromFilename(Named(country, start, end) + tail + ext) == Range(start, end)
  {
    var c := |country|;
    var name := Named(country, start, end) + tail;
    NamedLayout(country, start, end, tail);
    forall j | 0 <= j < c ensures !YearAt(name, j) {
      NoYearAcross(country, name[c..], j);
    }
    YearsOfLayout(name, c, start, end, ext);
  }

  /** The years claimed by a name whose first `-dddd` is at `c`. */
  lemma YearsOfLayout(name: string, c: nat, start: int, end: int, ext: string)
    requires c < |name| && name[c] == '-'
    requires YearAt(name, c) && YearValue(name, c) == start
    requires forall j :: 0 <= j < c ==> !YearAt(name, j)
    requires YearAt(name, c + 5) <==> end != start
    requires end != start ==> YearValue(name, c + 5) == end
    requires |ext| >= 1 && ext[0] == '.' && forall j :: 1 <= j < |ext| ==> ext[j] != '.'
    ensures ParseYearsFromFilename(name + ext) == Range(start, end)
  {
    StemOfExtension(name, ext);
    FirstYearIs(name, c);
  }

  /** Where the years of `{country}-{start}[-{end}]{tail}` lie. */
  lemma NamedLayout(country: string, start: int, end: int, tail: string)
    requires 1000 <= start <= 9999 && 1000 <= end <= 9999
    requires tail == [] || tail[0] != '-'
    ensures var name := Named(country, start, end) + tail;
            var c := |country|;
            |name| >= c + 5 && country + name[c..] == name && name[c] == '-'
            && YearAt(name, c) && YearValue(name, c) == start
            && (YearAt(name, c + 5) <==> end != start)
            && (end != start ==> YearValue(name, c + 5) == end)
  {
    if end == start {
      OneYearLayout(country, start, tail);
    } else {
      TwoYearLayout(country, start, end, tail);
    }
  }

  lemma OneYearLayout(country: string, start: int, tail: string)
    requires 1000 <= start <= 9999
    requires tail == [] || tail[0] != '-'
    ensures var name := Named(country, start, start) + tail;
            var c := |country|;
            |name| == c + 5 + |tail| && country + name[c..] == name && name[c] == '-'
            && YearAt(name, c) && YearValue(name, c) == start && !YearAt(name, c + 5)
  {
    var c := |country|;
    var sy := IntToString(start);
    FourDigitYear(start);
    var name := country + "-" + sy + tail;
    assert Named(country, start, start) + tail == name;
    assert name[c + 1..c + 5] == sy;
    SpelledYear(name, c, start);
    if c + 5 < |name| { assert name[c + 5] == tail[0]; }
  }

  lemma TwoYearLayout(country: string, start: int, end: int, tail: string)
    requires 1000 <= start <= 9999 && 1000 <= end <= 9999 && start != end
    ensures var name := Named(country, start, end) + tail;
            var c := |country|;
            |name| == c + 10 + |tail| && country + name[c..] == name && name[c] == '-'
            && YearAt(name, c) && YearValue(name, c) == start
            && YearAt(name, c + 5) && YearValue(name, c + 5) == end
  {
    var c := |country|;
    var sy, ey := IntToString(start), IntToString(end);
    FourDigitYear(start);
    FourDigitYear(end);
    var name := country + "-" + sy + "-" + ey + tail;
    assert Named(country, start, end) + tail == name;
    assert name[c + 1..c + 5] == sy && name[c + 6..c + 10] == ey;
    SpelledYear(name, c, start);
    SpelledYear(name, c + 5, end);
  }

  /** The leftmost `-dddd` of `s` is the one at `p` when none starts before it. */
  lemma FirstYearIs(s: string, p: nat)
    requires YearAt(s, p) && forall j :: 0 <= j < p ==> !YearAt(s, j)
    ensures FirstYearFrom(s, 0) == Some(p)
  {
    var r := FirstYearFrom(s, 0);
    assert r.Some?;
    assert !(r.value < p);
  }

  /** Such a name without a tail is grouped under its country. */
  lemma ParseCountryOfNamed(country: string, start: int, end: int, ext: string)
    requires forall k :: !YearAt(country, k)
    requires 1000 <= start <= 9999 && 1000 <= end <= 9999
    requires |ext| >= 1 && ext[0] == '.' && forall j :: 1 <= j < |ext| ==> ext[j] != '.'
    ensures ParseCountry(Named(country, start, end) + ext) == country
  {
    var c := |country|;
    var name := Named(country, start, end);
    assert name + "" == name;
    if end != start {
      TwoYearLayout(country, start, end, "");
    } else {
      OneYearLayout(country, start, "");
      if c >= 5 {
        YearAtPrefix(country, name[c..], c - 5);
      }
    }
    assert name[..c] == country;
    CountryOfLayout(name, c, ext);
  }

  /** The country of a name ending in one or two `-dddd` after its first `c` characters. */
  lemma CountryOfLayout(name: string, c: nat, ext: string)
    requires c < |name| && name[c] == '-'
    requires (|name| == c + 10 && YearAt(name, c) && YearAt(name, c + 5))
             || (|name| == c + 5 && YearAt(name, c) && !YearAt(name, c - 5))
    requires |ext| >= 1 && ext[0] == '.' && forall j :: 1 <= j < |ext| ==> ext[j] != '.'
    ensures ParseCountry(name + ext) == name[..c]
  {
    StemOfExtension(name, ext);
  }

  /**
   * The output names of variable-integrate.py read back: their country, and their span as the
   * set of years it covers.
   */
  lemma VariableOutputReadBack(country: string, start: int, end: int)
    requires forall k :: !YearAt(country, k)
    requires 1000 <= start <= 9999 && 1000 <= end <= 9999
    ensures ParseCountry(VariableIntegrate.OutputName(country, start, end)) == country
    ensures ParseYearsFromFilename(VariableIntegrate.OutputName(country, start, end)) == Range(start, end)
  {
    var n := Named(country, start, end);
    var ext := ".xlsx";
    assert ext[0] == '.' && ext[1] != '.' && ext[2] != '.' && ext[3] != '.' && ext[4] != '.';
    OutputNameIsNamed(country, start, end);
    assert n + "" == n;
    ParseCountryOfNamed(country, start, end, ext);
    ParseYearsOfNamed(country, start, end, "", ext);
  }

  // ---------------------------------------------------------------------------------------------
  // Grouping the input folder by country

  /** `f.lower().endswith((".xlsm", ".xlsx"))`. */
  predicate IsWorkbookName(f: string) {
    EndsWith(ToLower(f), ".xlsm") || EndsWith(ToLower(f), ".xlsx")
  }

  /** The keys of `country_files`, in the order they were first met in the listing. */
  function CountriesOf(listing: seq<string>): seq<string> {
    if listing == [] then []
    else
      var f := listing[|listing| - 1];
      var countries := CountriesOf(listing[..|listing| - 1]);
      if IsWorkbookName(f) && ParseCountry(f) !in countries then countries + [ParseCountry(f)] else countries
  }

  /** `country_files[country]`: the country's workbooks in listing order. */
  function FilesOf(listing: seq<string>, country: string): seq<string> {
    if listing == [] then []
    else
      var f := listing[|listing| - 1];
      FilesOf(listing[..|listing| - 1], country) + (if IsWorkbookName(f) && ParseCountry(f) == country then [f] else [])
  }

  /** A country's files are exactly the listed workbooks whose name carries that country. */
  lemma {:induction false} FilesOfMeans(listing: seq<string>, country: string, f: string)
    ensures f in FilesOf(listing, country) <==> f in listing && IsWorkbookName(f) && ParseCountry(f) == country
  {
    if listing != [] {
      var init := listing[..|listing| - 1];
      FilesOfMeans(init, country, f);
      assert listing == init + [listing[|listing| - 1]];
    }
  }

  /** The countries are those with at least one file. */
  lemma {:induction false} CountriesOfMeans(listing: seq<string>, country: string)
    ensures country in CountriesOf(listing) <==> FilesOf(listing, country) != []
  {
    if listing != [] {
      CountriesOfMeans(listing[..|listing| - 1], country);
    }
  }

  /** Each country is named once. */
  lemma {:induction false} CountriesOfDistinct(listing: seq<string>)
    ensures Distinct(CountriesOf(listing))
  {
    if listing != [] {
      var countries := CountriesOf(listing[..|listing| - 1]);
      CountriesOfDistinct(listing[..|listing| - 1]);
      forall x | x !in countries ensures Distinct(countries + [x]) {
        DistinctAppend(countries, x);
      }
    }
  }

  /** Appending a name that is not there keeps the names distinct. */
  lemma DistinctAppend(names: seq<string>, x: string)
    requires Distinct(names) && x !in names
    ensures Distinct(names + [x])
  {
    forall i, j | 0 <= i < j < |names| + 1 ensures (names + [x])[i] != (names + [x])[j] {
      if j == |names| {
        assert (names + [x])[i] == names[i];
      }
    }
  }

  /** The grouping loop of `main`: the keys of `country_files` in order, and its lists. */
  method GroupFiles(listing: seq<string>) returns (countries: seq<string>, files: map<string, seq<string>>)
    ensures countries == CountriesOf(listing)
    ensures forall c :: c in files <==> c in countries
    ensures forall c :: FilesOf(listing, c) == if c in files then files[c] else []
  {
    countries := [];
    files := map[];
    for i := 0 to |listing|
      invariant countries == CountriesOf(listing[..i])
      invariant forall c :: c in files <==> c in countries
      invariant forall c :: FilesOf(listing[..i], c) == if c in files then files[c] else []
    {
      ListingNext(listing, i);
      countries, files := AddName(countries, files, listing[i]);
      forall c ensures FilesOf(listing[..i + 1], c) == if c in files then files[c] else [] {
        FilesOfNext(listing, i, c);
      }
    }
    assert listing[..|listing|] == listing;
  }

  /** The body of the grouping loop: a workbook name joins its country's list, and a new country is appended. */
  method AddName(countries: seq<string>, files: map<string, seq<string>>, f: string)
    returns (countries': seq<string>, files': map<string, seq<string>>)
    ensures countries' == if IsWorkbookName(f) && ParseCountry(f) !in countries then countries + [ParseCountry(f)] else countries
    ensures forall c :: c in files' <==> c in files || (IsWorkbookName(f) && c == ParseCountry(f))
    ensures forall c :: (if c in files' then files'[c] else [])
                        == (if c in files then files[c] else []) + (if IsWorkbookName(f) && ParseCountry(f) == c then [f] else [])
  {
    countries', files' := countries, files;
    if IsWorkbookName(f) {
      var country := ParseCountry(f);
      var prior := if country in files then files[country] else [];
      files' := files[country := prior + [f]];
      if country !in countries {
        countries' := countries + [country];
      }
    }
  }

  /** One more name of the listing: its country is added if new, and the name joins its country's files. */
  lemma ListingNext(listing: seq<string>, i: nat)
    requires i < |listing|
    ensures var f := listing[i];
            CountriesOf(listing[..i + 1])
            == if IsWorkbookName(f) && ParseCountry(f) !in CountriesOf(listing[..i]) then CountriesOf(listing[..i]) + [ParseCountry(f)]
               else CountriesOf(listing[..i])
  {
    assert listing[..i + 1][..i] == listing[..i];
  }

  lemma FilesOfNext(listing: seq<string>, i: nat, c: string)
    requires i < |listing|
    ensures FilesOf(listing[..i + 1], c)
            == FilesOf(listing[..i], c) + (if IsWorkbookName(listing[i]) && ParseCountry(listing[i]) == c then [listing[i]] else [])
  {
    assert listing[..i + 1][..i] == listing[..i];
  }

  // ---------------------------------------------------------------------------------------------
  // Reading a country's files

  /** What `main` has gathered for a country so far: `records`, `header` and `expected_cols`. */
  datatype Gathered = Gathered(records: seq<Row>, header: Option<Row>, expected: Option<int>)

  /** A country's state before its first file. */
  const EMPTY: Gathered := Gathered([], None, None)

  /** `[r for r in raw_rows if any(cell is not None for cell in r)]`. */
  function NonBlank(raw: seq<Row>): seq<Row> {
    if raw == [] then [] else (if IsBlankRow(raw[0]) then [] else [raw[0]]) + NonBlank(raw[1..])
  }

  /**
   * The filter keeps exactly the rows with a cell, and it keeps them all (no warning is printed)
   * exactly when no row is blank.
   */
  lemma {:induction false} NonBlankMeans(raw: seq<Row>)
    ensures forall r :: r in NonBlank(raw) <==> r in raw && !IsBlankRow(r)
    ensures |NonBlank(raw)| <= |raw|
    ensures |NonBlank(raw)| == |raw| <==> forall i :: 0 <= i < |raw| ==> !IsBlankRow(raw[i])
  {
    if raw != [] {
      NonBlankMeans(raw[1..]);
      assert raw == [raw[0]] + raw[1..];
      assert forall i :: 1 <= i < |raw| ==> raw[i] == raw[1..][i - 1];
    }
  }

  /** The filter keeps the order of the rows: filtering two parts one after the other is filtering the whole. */
  lemma {:induction false} NonBlankAppend(a: seq<Row>, b: seq<Row>)
    ensures NonBlank(a + b) == NonBlank(a) + NonBlank(b)
  {
    if a == [] {
      assert a + b == b;
    } else {
      assert (a + b)[0] == a[0] && (a + b)[1..] == a[1..] + b;
      NonBlankAppend(a[1..], b);
    }
  }

  /** `[year] + list(data_row)` for each data row. */
  function YearRecords(year: int, rows: seq<Row>): seq<Row> {
    seq(|rows|, i requires 0 <= i < |rows| => [Some(Int(year))] + rows[i])
  }

  /** `n_cols`: the descriptor's O cell when it holds an integer, else the data sheet's `max_column`. */
  function ColumnCount(o: Cell, sheet: Sheet): int {
    if o.Some? && o.value.Int? then o.value.n else MaxColumn(sheet)
  }

  /** The data sheet of a year the row accepts, added to what has been gathered. */
  function TakeSheet(g: Gathered, year: int, sheet: Sheet, o: Cell): Gathered {
    var rows := NonBlank(IterRows(sheet, 1));
    var count := ColumnCount(o, sheet) - 1;
    if rows == [] || (g.expected.Some? && count != g.expected.value) then g
    else
      Gathered(g.records + YearRecords(year, rows[1..]),
               if g.header.None? then Some([Some(Str("YEAR"))] + rows[0]) else g.header,
               if g.expected.None? then Some(count) else g.expected)
  }

  /**
   * The first sheet with rows fixes the variable count; a sheet whose count differs from it, or
   * that has no rows, adds nothing; otherwise its rows after the first become records of the year.
   */
  lemma TakeSheetMeans(g: Gathered, year: int, sheet: Sheet, o: Cell)
    ensures var h := TakeSheet(g, year, sheet, o);
            var rows := NonBlank(IterRows(sheet, 1));
            var count := ColumnCount(o, sheet) - 1;
            && (g.expected.Some? ==> h.expected == g.expected)
            && (g.expected.None? && rows != [] ==> h.expected == Some(count))
            && (rows == [] || h.expected != Some(count) ==> h == g)
            && (rows != [] && h.expected == Some(count) ==> h.records == g.records + YearRecords(year, rows[1..]))
  {
  }

  /**
   * One descriptor row whose G and K cells are filled: `int(year)` raises on a value that is not
   * an integer; a year the file name does not claim, or outside the window, is passed over; a
   * reference that is not text raises in `split`; a sheet the workbook lacks is passed over.
   */
  function DescriptorRow(wb: Workbook, req: Sheet, years: set<int>, row: nat, g: Gathered): Result<Gathered>
    requires CellAt(req, row, COL_K).Some?
  {
    match IntOf(CellAt(req, row, COL_G))
    case None => Raised("ValueError")
    case Some(year) =>
      if year !in years || !(START_YEAR <= year <= END_YEAR) then Ok(g)
      else
        var ref := CellAt(req, row, COL_K).value;
        if !ref.Str? then Raised("AttributeError")
        else
          match Lookup(wb, ExtractSheetName(ref.s))
          case None => Ok(g)
          case Some(sheet) => Ok(TakeSheet(g, year, sheet, CellAt(req, row, COL_O)))
  }

  /** The `while True` loop from descriptor row `row` on, which stops at the first row whose G or K cell is empty. */
  function ScanFrom(wb: Workbook, req: Sheet, years: set<int>, row: nat, g: Gathered): Result<Gathered>
    decreases |req| + 1 - row
  {
    if CellAt(req, row, COL_G).None? || CellAt(req, row, COL_K).None? then Ok(g)
    else
      match DescriptorRow(wb, req, years, row, g)
      case Raised(e) => Raised(e)
      case Ok(h) => ScanFrom(wb, req, years, row + 1, h)
  }

  /** One file of the country; a workbook without REQUEST_TABLE is passed over, one that cannot be opened raises. */
  function FileStep(books: map<string, Workbook>, fname: string, g: Gathered): Result<Gathered> {
    if fname !in books then Raised("load_workbook")
    else
      match Lookup(books[fname], REQUEST_TABLE)
      case None => Ok(g)
      case Some(req) => ScanFrom(books[fname], req, ParseYearsFromFilename(fname), DESC_FIRST_ROW, g)
  }

  /** The files of a country in turn, until one raises. */
  function FilesFrom(books: map<string, Workbook>, files: seq<string>, g: Gathered): Result<Gathered> {
    if files == [] then Ok(g)
    else
      match FileStep(books, files[0], g)
      case Raised(e) => Raised(e)
      case Ok(h) => FilesFrom(books, files[1..], h)
  }

  /** Rows below the first descriptor row with an empty G or K cell are never read. */
  lemma {:induction false} ScanIgnoresRest(wb: Workbook, req: Sheet, years: set<int>, row: nat, stop: nat, g: Gathered)
    requires row <= stop <= |req|
    requires CellAt(req, stop, COL_G).None? || CellAt(req, stop, COL_K).None?
    ensures ScanFrom(wb, req[..stop], years, row, g) == ScanFrom(wb, req, years, row, g)
    decreases stop - row
  {
    CellAtPrefix(req, stop, row);
    assert CellAt(req[..stop], row, COL_G) == CellAt(req, row, COL_G);
    assert CellAt(req[..stop], row, COL_K) == CellAt(req, row, COL_K);
    if row < stop && CellAt(req, row, COL_G).Some? && CellAt(req, row, COL_K).Some? {
      assert CellAt(req[..stop], row, COL_O) == CellAt(req, row, COL_O);
      assert DescriptorRow(wb, req[..stop], years, row, g) == DescriptorRow(wb, req, years, row, g);
      match DescriptorRow(wb, req, years, row, g)
      case Raised(_) =>
      case Ok(h) => ScanIgnoresRest(wb, req, years, row + 1, stop, h);
    }
  }

  /** The first `stop` rows of a sheet hold the same cells as the sheet in those rows. */
  lemma CellAtPrefix(req: Sheet, stop: nat, row: nat)
    requires row <= stop <= |req|
    ensures forall c :: CellAt(req[..stop], row, c) == CellAt(req, row, c)
  {
  }

  // ---------------------------------------------------------------------------------------------
  // What the records hold

  /** A record starts with its year. */
  predicate StartsWithYear(r: Row) {
    |r| >= 1 && r[0].Some? && r[0].value.Int?
  }

  /** `x[0]`, the key the records are sorted by. */
  function YearOf(r: Row): int {
    if StartsWithYear(r) then r[0].value.n else 0
  }

  /** Every record starts with a year of `allowed`. */
  predicate YearsIn(records: seq<Row>, allowed: set<int>) {
    forall i :: 0 <= i < |records| ==> StartsWithYear(records[i]) && YearOf(records[i]) in allowed
  }

  /**
   * `h` continues `g`: the same records followed by new ones whose years are in `allowed`, the
   * header and the variable count kept once set, and a header as soon as a record was added.
   */
  predicate Grows(g: Gathered, h: Gathered, allowed: set<int>) {
    |g.records| <= |h.records| && h.records[..|g.records|] == g.records
    && YearsIn(h.records[|g.records|..], allowed)
    && (g.header.Some? ==> h.header == g.header)
    && (g.expected.Some? ==> h.expected == g.expected)
    && (|h.records| > |g.records| ==> h.header.Some?)
  }

  lemma GrowsRefl(g: Gathered, allowed: set<int>)
    ensures Grows(g, g, allowed)
  {
    assert g.records[..|g.records|] == g.records;
  }

  lemma GrowsTrans(g: Gathered, h: Gathered, k: Gathered, allowed: set<int>)
    requires Grows(g, h, allowed) && Grows(h, k, allowed)
    ensures Grows(g, k, allowed)
  {
    var n, m := |g.records|, |h.records|;
    assert k.records[..n] == k.records[..m][..n];
    forall i | 0 <= i < |k.records| - n
      ensures StartsWithYear(k.records[n..][i]) && YearOf(k.records[n..][i]) in allowed
    {
      if n + i < m {
        assert k.records[n..][i] == k.records[..m][n + i] == h.records[n..][i];
      } else {
        assert k.records[n..][i] == k.records[m..][n + i - m];
      }
    }
  }

  lemma GrowsWithin(g: Gathered, h: Gathered, allowed: set<int>, wider: set<int>)
    requires Grows(g, h, allowed) && allowed <= wider
    ensures Grows(g, h, wider)
  {
  }

  /** A sheet adds records of its own year only. */
  lemma TakeSheetGrows(g: Gathered, year: int, sheet: Sheet, o: Cell)
    ensures Grows(g, TakeSheet(g, year, sheet, o), {year})
  {
    var h := TakeSheet(g, year, sheet, o);
    if h.records == g.records {
      GrowsRefl(g, {year});
    } else {
      var rows := NonBlank(IterRows(sheet, 1));
      assert h.records == g.records + YearRecords(year, rows[1..]);
      assert h.records[|g.records|..] == YearRecords(year, rows[1..]);
      assert h.records[..|g.records|] == g.records;
    }
  }

  /** A descriptor row adds records of its year only when the file name claims it and it lies in the window. */
  lemma DescriptorRowGrows(wb: Workbook, req: Sheet, years: set<int>, row: nat, g: Gathered)
    requires CellAt(req, row, COL_K).Some?
    ensures DescriptorRow(wb, req, years, row, g).Ok? ==> Grows(g, DescriptorRow(wb, req, years, row, g).value, years * Window())
  {
    match IntOf(CellAt(req, row, COL_G))
    case None =>
    case Some(year) =>
      if year !in years || !(START_YEAR <= year <= END_YEAR) {
        GrowsRefl(g, years * Window());
      } else {
        var ref := CellAt(req, row, COL_K).value;
        if ref.Str? {
          match Lookup(wb, ExtractSheetName(ref.s))
          case None => GrowsRefl(g, years * Window());
          case Some(sheet) =>
            TakeSheetGrows(g, year, sheet, CellAt(req, row, COL_O));
            GrowsWithin(g, TakeSheet(g, year, sheet, CellAt(req, row, COL_O)), {year}, years * Window());
        }
      }
  }

  /** A descriptor row whose G and K cells are filled either raises or hands on to the next row. */
  lemma ScanFromUnfold(wb: Workbook, req: Sheet, years: set<int>, row: nat, g: Gathered)
    requires CellAt(req, row, COL_G).Some? && CellAt(req, row, COL_K).Some?
    ensures var d := DescriptorRow(wb, req, years, row, g);
            d.Ok? ==> ScanFrom(wb, req, years, row, g) == ScanFrom(wb, req, years, row + 1, d.value)
    ensures DescriptorRow(wb, req, years, row, g).Raised? ==> ScanFrom(wb, req, years, row, g).Raised?
    ensures DescriptorRow(wb, req, years, row, g).Raised? ==> ScanFrom(wb, req, years, row, g) == DescriptorRow(wb, req, years, row, g)
  {
  }

  /** A file's scan adds records only of years its name claims and the window holds. */
  lemma {:induction false} ScanFromGrows(wb: Workbook, req: Sheet, years: set<int>, row: nat, g: Gathered)
    ensures ScanFrom(wb, req, years, row, g).Ok? ==> Grows(g, ScanFrom(wb, req, years, row, g).value, years * Window())
    decreases |req| + 1 - row
  {
    if CellAt(req, row, COL_G).Some? && CellAt(req, row, COL_K).Some? && DescriptorRow(wb, req, years, row, g).Ok? {
      var d := DescriptorRow(wb, req, years, row, g).value;
      ScanFromGrows(wb, req, years, row + 1, d);
      ScanFromGrowsStep(wb, req, years, row, g, d);
    } else {
      ScanFromStays(wb, req, years, row, g);
    }
  }

  /** A row that ends the scan or raises leaves what has been gathered as it was, if anything. */
  lemma ScanFromStays(wb: Workbook, req: Sheet, years: set<int>, row: nat, g: Gathered)
    requires !(CellAt(req, row, COL_G).Some? && CellAt(req, row, COL_K).Some? && DescriptorRow(wb, req, years, row, g).Ok?)
    ensures ScanFrom(wb, req, years, row, g).Ok? ==> Grows(g, ScanFrom(wb, req, years, row, g).value, years * Window())
  {
    GrowsRefl(g, years * Window());
    if CellAt(req, row, COL_G).Some? && CellAt(req, row, COL_K).Some? {
      ScanFromUnfold(wb, req, years, row, g);
    }
  }

  /** A row that hands `d` on grows within the window when the rest of the scan does from `d`. */
  lemma ScanFromGrowsStep(wb: Workbook, req: Sheet, years: set<int>, row: nat, g: Gathered, d: Gathered)
    requires CellAt(req, row, COL_G).Some? && CellAt(req, row, COL_K).Some? && DescriptorRow(wb, req, years, row, g) == Ok(d)
    requires ScanFrom(wb, req, years, row + 1, d).Ok? ==> Grows(d, ScanFrom(wb, req, years, row + 1, d).value, years * Window())
    ensures ScanFrom(wb, req, years, row, g).Ok? ==> Grows(g, ScanFrom(wb, req, years, row, g).value, years * Window())
  {
    DescriptorRowGrows(wb, req, years, row, g);
    ScanFromUnfold(wb, req, years, row, g);
    GrowsThen(g, d, ScanFrom(wb, req, years, row + 1, d), years * Window());
  }

  /** Growing within the allowed years twice in a row is growing within them once. */
  lemma GrowsThen(g: Gathered, h: Gathered, r: Result<Gathered>, allowed: set<int>)
    requires Grows(g, h, allowed)
    ensures r.Ok? && Grows(h, r.value, allowed) ==> Grows(g, r.value, allowed)
  {
    if r.Ok? && Grows(h, r.value, allowed) {
      GrowsTrans(g, h, r.value, allowed);
    }
  }

  /** The years the names of `files` claim. */
  function Claimed(files: seq<string>): set<int> {
    if files == [] then {} else ParseYearsFromFilename(files[0]) + Claimed(files[1..])
  }

  /**
   * A country's files add records only of years in the window that one of their names claims,
   * and once a record is there so is the header.
   */
  lemma {:induction false} FilesFromGrows(books: map<string, Workbook>, files: seq<string>, g: Gathered)
    ensures FilesFrom(books, files, g).Ok? ==> Grows(g, FilesFrom(books, files, g).value, Claimed(files) * Window())
  {
    var allowed := Claimed(files) * Window();
    if files == [] {
      GrowsRefl(g, allowed);
    } else if files[0] in books {
      var f := files[0];
      match FileStep(books, f, g)
      case Raised(_) =>
      case Ok(h) =>
        match Lookup(books[f], REQUEST_TABLE) {
          case None => GrowsRefl(g, allowed);
          case Some(req) =>
            ScanFromGrows(books[f], req, ParseYearsFromFilename(f), DESC_FIRST_ROW, g);
            GrowsWithin(g, h, ParseYearsFromFilename(f) * Window(), allowed);
        }
        FilesFromGrows(books, files[1..], h);
        if FilesFrom(books, files[1..], h).Ok? {
          GrowsWithin(h, FilesFrom(books, files[1..], h).value, Claimed(files[1..]) * Window(), allowed);
          GrowsTrans(g, h, FilesFrom(books, files[1..], h).value, allowed);
        }
    }
  }

  /** What a country's gathering guarantees: records of years in the window, and a header once there is a record. */
  predicate Consistent(g: Gathered) {
    YearsIn(g.records, Window()) && (g.records != [] ==> g.header.Some?)
  }

  lemma GatheredConsistent(books: map<string, Workbook>, files: seq<string>)
    ensures FilesFrom(books, files, EMPTY).Ok? ==> Consistent(FilesFrom(books, files, EMPTY).value)
  {
    FilesFromGrows(books, files, EMPTY);
    if FilesFrom(books, files, EMPTY).Ok? {
      var h := FilesFrom(books, files, EMPTY).value;
      assert h.records[0..] == h.records;
    }
  }

  // ---------------------------------------------------------------------------------------------
  // Reading a country's files, step by step

  /** `for data_row in rows[1:]: records.append([year] + list(data_row))`. */
  method AppendRecords(records: seq<Row>, year: int, data: seq<Row>) returns (out: seq<Row>)
    ensures out == records + YearRecords(year, data)
  {
    out := records;
    for i := 0 to |data|
      invariant out == records + YearRecords(year, data[..i])
    {
      assert YearRecords(year, data[..i + 1]) == YearRecords(year, data[..i]) + [[Some(Int(year))] + data[i]];
      out := out + [[Some(Int(year))] + data[i]];
    }
    assert data[..|data|] == data;
  }

  /** The body of the descriptor loop once the data sheet of an accepted year is found. */
  method AddSheet(g: Gathered, year: int, sheet: Sheet, o: Cell) returns (h: Gathered)
    ensures h == TakeSheet(g, year, sheet, o)
  {
    var rows := NonBlank(IterRows(sheet, 1));
    if rows == [] {
      return g;
    }
    var nCols := if o.Some? && o.value.Int? then o.value.n else MaxColumn(sheet);
    var count := nCols - 1;
    var expected := g.expected;
    if expected.None? {
      expected := Some(count);
    } else if count != expected.value {
      return g;
    }
    var header := if g.header.None? then Some([Some(Str("YEAR"))] + rows[0]) else g.header;
    var records := AppendRecords(g.records, year, rows[1..]);
    h := Gathered(records, header, expected);
  }

  /** The `while True` loop over the descriptor rows of REQUEST_TABLE, from row 7 down. */
  method ScanRequestTable(wb: Workbook, req: Sheet, years: set<int>, g: Gathered) returns (r: Result<Gathered>)
    ensures r == ScanFrom(wb, req, years, DESC_FIRST_ROW, g)
  {
    var row := DESC_FIRST_ROW;
    var cur := g;
    while true
      invariant ScanFrom(wb, req, years, row, cur) == ScanFrom(wb, req, years, DESC_FIRST_ROW, g)
      decreases |req| + 1 - row
    {
      var yearCell, ref := CellAt(req, row, COL_G), CellAt(req, row, COL_K);
      if yearCell.None? || ref.None? {
        return Ok(cur);
      }
      assert row <= |req|;
      ghost var d := DescriptorRow(wb, req, years, row, cur);
      ScanFromUnfold(wb, req, years, row, cur);
      var year := IntOf(yearCell);
      if year.None? {
        assert d == Raised("ValueError");
        return Raised("ValueError");
      }
      if year.value in years && START_YEAR <= year.value <= END_YEAR {
        if !ref.value.Str? {
          assert d == Raised("AttributeError");
          return Raised("AttributeError");
        }
        var sheet := Lookup(wb, ExtractSheetName(ref.value.s));
        if sheet.Some? {
          cur := AddSheet(cur, year.value, sheet.value, CellAt(req, row, COL_O));
        }
      }
      assert d == Ok(cur);
      row := row + 1;
    }
  }

  /** The file loop of a country; a workbook that cannot be opened ends the run. */
  method GatherCountry(books: map<string, Workbook>, files: seq<string>) returns (r: Result<Gathered>)
    ensures r == FilesFrom(books, files, EMPTY)
    ensures r.Ok? ==> Consistent(r.value)
  {
    GatheredConsistent(books, files);
    var g := EMPTY;
    for i := 0 to |files|
      invariant FilesFrom(books, files[i..], g) == FilesFrom(books, files, EMPTY)
    {
      var fname := files[i];
      assert files[i..][0] == fname && files[i..][1..] == files[i + 1..];
      if fname !in books {
        return Raised("load_workbook");
      }
      var wb := books[fname];
      var req := Lookup(wb, REQUEST_TABLE);
      if req.Some? {
        var scanned := ScanRequestTable(wb, req.value, ParseYearsFromFilename(fname), g);
        if scanned.Raised? {
          return scanned;
        }
        g := scanned.value;
      }
    }
    r := Ok(g);
  }

  // ---------------------------------------------------------------------------------------------
  // The master table of a country

  /** A country's two codes from country-code.xlsx. */
  datatype Codes = Codes(code: string, code2: string)

  /** `{"Country_code": "", "Country_code2": ""}`, for a country the code table does not list. */
  const NO_CODES: Codes := Codes("", "")

  const MASTER_TABLE: string := "MASTER_TABLE"

  /** `["COUNTRY", "COUNTRY_CODE", "COUNTRY_CODE2"]`. */
  const HEADER_FIELDS: Row := [Some(Str("COUNTRY")), Some(Str("COUNTRY_CODE")), Some(Str("COUNTRY_CODE2"))]

  /** `country.replace("-", " ")`: the name written in the COUNTRY column and looked up in the code table. */
  function DisplayName(country: string): (d: string)
    ensures |d| == |country| && '-' !in d
    ensures forall i :: 0 <= i < |d| ==> d[i] == country[i] || (country[i] == '-' && d[i] == ' ')
  {
    if country == [] then []
    else [if country[0] == '-' then ' ' else country[0]] + DisplayName(country[1..])
  }

  /** `country_code_map.get(display_country, ...)`; the map is keyed by the stripped `Country_name` column. */
  function CodesFor(codes: map<string, Codes>, display: string): Codes {
    if display in codes then codes[display] else NO_CODES
  }

  /** `[display_country, country_code, country_code2]`. */
  function Metadata(display: string, c: Codes): Row {
    [Some(Str(display)), Some(Str(c.code)), Some(Str(c.code2))]
  }

  /**
   * `row[:1] + fields + row[1:]`: the fields go right after the first column, and taking them out
   * again gives the row back.
   */
  function WithFields(row: Row, fields: Row): (r: Row)
    ensures |r| == |row| + |fields|
    ensures row == [] ==> r == fields
    ensures row != [] ==> r[..1] + r[1 + |fields|..] == row && r[1..1 + |fields|] == fields
  {
    if row == [] then fields
    else
      var r := row[..1] + fields + row[1..];
      assert r[..1] + r[1 + |fields|..] == row;
      r
  }

  /** `new_records` before sorting: every record with the fields after its year. */
  function Tagged(records: seq<Row>, fields: Row): seq<Row> {
    seq(|records|, i requires 0 <= i < |records| => WithFields(records[i], fields))
  }

  /** `{row[0] for row in new_records}`. */
  function YearsOf(records: seq<Row>): set<int> {
    set i | 0 <= i < |records| :: YearOf(records[i])
  }

  /** What a country's master table is written as. */
  datatype Output = Output(name: string, book: Workbook)

  /** The name of a master table that covers the window: `{country}-2015-2024.xlsx`. */
  function CompleteName(country: string): string {
    country + ("-" + IntToString(START_YEAR) + "-" + IntToString(END_YEAR) + ".xlsx")
  }

  /** Everything after `if len(records) == 0`: the master table of a country, or `None` when it is skipped. */
  function OutputFor(country: string, codes: map<string, Codes>, g: Gathered): Option<Output>
    requires Consistent(g)
  {
    if g.records == [] then None
    else
      var display := DisplayName(country);
      var fields := Metadata(display, CodesFor(codes, display));
      Gate(country, WithFields(g.header.value, HEADER_FIELDS), SortByKey(Tagged(g.records, fields), YearOf))
  }

  /**
   * The year checks on the sorted records and the table written when they pass: `min_year` and
   * `max_year` are the years of the first and the last record.
   */
  function Gate(country: string, header: Row, recs: seq<Row>): Option<Output>
    requires recs != []
  {
    var present := YearsOf(recs);
    var lo, hi := YearOf(recs[0]), YearOf(recs[|recs| - 1]);
    if Window() - present != {} || Range(lo, hi) - present != {} then None
    else
      Some(Output(country + ("-" + IntToString(lo) + "-" + IntToString(hi) + ".xlsx"),
                  Workbook([NamedSheet(MASTER_TABLE, [header] + recs)])))
  }

  /**
   * Sorted records of window years pass the checks exactly when they hold every year of the
   * window, and then the file is `{country}-2015-2024.xlsx`.
   */
  lemma GateMeans(country: string, header: Row, recs: seq<Row>)
    requires recs != [] && SortedBy(recs, YearOf) && YearsOf(recs) <= Window()
    ensures Gate(country, header, recs).Some? <==> YearsOf(recs) == Window()
    ensures Gate(country, header, recs).Some? ==> Gate(country, header, recs).value.name == CompleteName(country)
  {
    var present := YearsOf(recs);
    if present == Window() {
      GatePasses(country, header, recs);
    } else {
      assert Window() - present != {};
    }
  }

  /** Sorted records that hold exactly the window's years give the table `{country}-2015-2024.xlsx`. */
  lemma GatePasses(country: string, header: Row, recs: seq<Row>)
    requires recs != [] && SortedBy(recs, YearOf) && YearsOf(recs) == Window()
    ensures Gate(country, header, recs) == Some(Output(CompleteName(country), Workbook([NamedSheet(MASTER_TABLE, [header] + recs)])))
  {
    WindowEnds(recs);
    assert Range(YearOf(recs[0]), YearOf(recs[|recs| - 1])) == Window();
  }

  /** Sorted records that hold exactly the window's years run from 2015 to 2024. */
  lemma WindowEnds(recs: seq<Row>)
    requires recs != [] && SortedBy(recs, YearOf) && YearsOf(recs) == Window()
    ensures YearOf(recs[0]) == START_YEAR && YearOf(recs[|recs| - 1]) == END_YEAR
  {
    SortedEnds(recs);
    assert START_YEAR in YearsOf(recs) && END_YEAR in YearsOf(recs);
  }

  /** Tagging a record keeps its year. */
  lemma TaggedYears(records: seq<Row>, fields: Row)
    requires forall i :: 0 <= i < |records| ==> StartsWithYear(records[i])
    ensures |Tagged(records, fields)| == |records|
    ensures forall i :: 0 <= i < |records| ==> StartsWithYear(Tagged(records, fields)[i])
                                               && YearOf(Tagged(records, fields)[i]) == YearOf(records[i])
    ensures YearsOf(Tagged(records, fields)) == YearsOf(records)
  {
    var t := Tagged(records, fields);
    forall i | 0 <= i < |records| ensures StartsWithYear(t[i]) && YearOf(t[i]) == YearOf(records[i]) {
      assert t[i][..1] == records[i][..1];
      assert t[i][0] == t[i][..1][0];
    }
  }

  /** Records that are a permutation of each other hold the same years. */
  lemma YearsOfPermutation(a: seq<Row>, b: seq<Row>)
    requires multiset(a) == multiset(b)
    ensures YearsOf(a) == YearsOf(b)
  {
    forall y | y in YearsOf(a) ensures y in YearsOf(b) {
      var i :| 0 <= i < |a| && YearOf(a[i]) == y;
      assert a[i] in multiset(b);
      var j :| 0 <= j < |b| && b[j] == a[i];
    }
    forall y | y in YearsOf(b) ensures y in YearsOf(a) {
      var j :| 0 <= j < |b| && YearOf(b[j]) == y;
      assert b[j] in multiset(a);
      var i :| 0 <= i < |a| && a[i] == b[j];
    }
  }

  /** In records sorted by year, the first holds `min(years_present)` and the last `max(years_present)`. */
  lemma SortedEnds(recs: seq<Row>)
    requires recs != [] && SortedBy(recs, YearOf)
    ensures YearOf(recs[0]) in YearsOf(recs) && YearOf(recs[|recs| - 1]) in YearsOf(recs)
    ensures forall y :: y in YearsOf(recs) ==> YearOf(recs[0]) <= y <= YearOf(recs[|recs| - 1])
  {
    forall y | y in YearsOf(recs) ensures YearOf(recs[0]) <= y <= YearOf(recs[|recs| - 1]) {
      var i :| 0 <= i < |recs| && YearOf(recs[i]) == y;
      assert 0 < i ==> YearOf(recs[0]) <= YearOf(recs[i]);
      assert i < |recs| - 1 ==> YearOf(recs[i]) <= YearOf(recs[|recs| - 1]);
    }
  }

  /** The years of records that lie in `allowed`. */
  lemma YearsOfWithin(records: seq<Row>, allowed: set<int>)
    requires YearsIn(records, allowed)
    ensures YearsOf(records) <= allowed
  {
    forall y | y in YearsOf(records) ensures y in allowed {
      var i :| 0 <= i < |records| && YearOf(records[i]) == y;
    }
  }

  /**
   * A country is written exactly when it has records and their years are the whole window, so the
   * continuity check never decides on its own; the file is always `{country}-2015-2024.xlsx`.
   */
  lemma OutputForMeans(country: string, codes: map<string, Codes>, g: Gathered)
    requires Consistent(g)
    ensures OutputFor(country, codes, g).Some? <==> g.records != [] && YearsOf(g.records) == Window()
    ensures OutputFor(country, codes, g).Some? ==> OutputFor(country, codes, g).value.name == CompleteName(country)
  {
    if g.records != [] {
      var display := DisplayName(country);
      var fields := Metadata(display, CodesFor(codes, display));
      var tagged := Tagged(g.records, fields);
      var recs := SortByKey(tagged, YearOf);
      TaggedYears(g.records, fields);
      YearsOfPermutation(recs, tagged);
      YearsOfWithin(g.records, Window());
      GateMeans(country, WithFields(g.header.value, HEADER_FIELDS), recs);
    }
  }

  /**
   * The master table: one MASTER_TABLE sheet whose first row is the header with the three fields
   * after YEAR, followed by the tagged records sorted by year, all of them, and in their order of
   * reading within a year (the sort is stable).
   */
  lemma OutputForSheet(country: string, codes: map<string, Codes>, g: Gathered)
    requires Consistent(g) && OutputFor(country, codes, g).Some?
    ensures var display := DisplayName(country);
            var tagged := Tagged(g.records, Metadata(display, CodesFor(codes, display)));
            var sheets := OutputFor(country, codes, g).value.book.sheets;
            && |sheets| == 1 && sheets[0].title == MASTER_TABLE
            && |sheets[0].rows| == |g.records| + 1
            && sheets[0].rows[0] == WithFields(g.header.value, HEADER_FIELDS)
            && SortedBy(sheets[0].rows[1..], YearOf)
            && multiset(sheets[0].rows[1..]) == multiset(tagged)
            && forall y :: WithKey(sheets[0].rows[1..], YearOf, y) == WithKey(tagged, YearOf, y)
  {
    var display := DisplayName(country);
    var tagged := Tagged(g.records, Metadata(display, CodesFor(codes, display)));
    var rows := OutputFor(country, codes, g).value.book.sheets[0].rows;
    assert rows[1..] == SortByKey(tagged, YearOf);
    forall y ensures WithKey(rows[1..], YearOf, y) == WithKey(tagged, YearOf, y) {
      SortByKeyStable(tagged, YearOf, y);
    }
  }

  /** Two countries never share a master table name. */
  lemma CompleteNameInjective(a: string, b: string)
    ensures CompleteName(a) == CompleteName(b) ==> a == b
  {
    assert a == CompleteName(a)[..|a|] && b == CompleteName(b)[..|b|];
  }

  /** The steps after the gathering of a country: tag, sort, check the years, build the table. */
  method WriteCountry(country: string, codes: map<string, Codes>, g: Gathered) returns (out: Option<Output>)
    requires Consistent(g)
    ensures out == OutputFor(country, codes, g)
  {
    if g.records == [] {
      return None;
    }
    var display := DisplayName(country);
    var fields := Metadata(display, CodesFor(codes, display));
    var header := WithFields(g.header.value, HEADER_FIELDS);
    var newRecords := [];
    for i := 0 to |g.records|
      invariant newRecords == Tagged(g.records[..i], fields)
    {
      assert Tagged(g.records[..i + 1], fields) == Tagged(g.records[..i], fields) + [WithFields(g.records[i], fields)];
      newRecords := newRecords + [WithFields(g.records[i], fields)];
    }
    assert g.records[..|g.records|] == g.records;
    newRecords := SortByKey(newRecords, YearOf);
    var present := YearsOf(newRecords);
    var minYear, maxYear := YearOf(newRecords[0]), YearOf(newRecords[|newRecords| - 1]);
    if Window() - present != {} || Range(minYear, maxYear) - present != {} {
      return None;
    }
    var book := Workbook([NamedSheet(MASTER_TABLE, [header] + newRecords)]);
    out := Some(Output(country + ("-" + IntToString(minYear) + "-" + IntToString(maxYear) + ".xlsx"), book));
  }

  // ---------------------------------------------------------------------------------------------
  // The whole run

  /** How a run of the script ends: with the output folder it leaves, after an exception or not. */
  datatype YearRun = Crashed(outputs: map<string, Workbook>) | Finished(outputs: map<string, Workbook>)

  /** `out_wb.save(out_path)` when the country has a master table; an existing file is replaced. */
  function Saved(dir: map<string, Workbook>, o: Option<Output>): map<string, Workbook> {
    if o.Some? then dir[o.value.name := o.value.book] else dir
  }

  /** The country loop of `main` from `countries` on, over the output folder `dir`. */
  function CountriesFrom(listing: seq<string>, books: map<string, Workbook>, codes: map<string, Codes>,
                         dir: map<string, Workbook>, countries: seq<string>): YearRun
    decreases |countries|
  {
    if countries == [] then Finished(dir)
    else
      var country, rest := countries[0], countries[1..];
      var files := FilesOf(listing, country);
      match FilesFrom(books, files, EMPTY)
      case Raised(_) => Crashed(dir)
      case Ok(g) =>
        GatheredConsistent(books, files);
        CountriesFrom(listing, books, codes, Saved(dir, OutputFor(country, codes, g)), rest)
  }

  /** One country of the loop: a raise ends the run, otherwise its table, if any, is saved and the loop goes on. */
  lemma CountriesFromNext(listing: seq<string>, books: map<string, Workbook>, codes: map<string, Codes>,
                          dir: map<string, Workbook>, countries: seq<string>, i: nat, g: Result<Gathered>)
    requires i < |countries| && g == FilesFrom(books, FilesOf(listing, countries[i]), EMPTY)
    ensures g.Raised? ==> CountriesFrom(listing, books, codes, dir, countries[i..]) == Crashed(dir)
    ensures g.Ok? ==> Consistent(g.value)
    ensures g.Ok? ==> CountriesFrom(listing, books, codes, dir, countries[i..])
                      == CountriesFrom(listing, books, codes, Saved(dir, OutputFor(countries[i], codes, g.value)), countries[i + 1..])
  {
    assert countries[i..][0] == countries[i] && countries[i..][1..] == countries[i + 1..];
    CountriesFromFirst(listing, books, codes, dir, countries[i..], g);
  }

  /** The country loop either stops at its first country, which raises, or saves that country's output and goes on. */
  lemma CountriesFromFirst(listing: seq<string>, books: map<string, Workbook>, codes: map<string, Codes>,
                           dir: map<string, Workbook>, countries: seq<string>, g: Result<Gathered>)
    requires countries != [] && g == FilesFrom(books, FilesOf(listing, countries[0]), EMPTY)
    ensures g.Raised? ==> CountriesFrom(listing, books, codes, dir, countries) == Crashed(dir)
    ensures g.Ok? ==> Consistent(g.value)
    ensures g.Ok? ==> CountriesFrom(listing, books, codes, dir, countries)
                      == CountriesFrom(listing, books, codes, Saved(dir, OutputFor(countries[0], codes, g.value)), countries[1..])
  {
    GatheredConsistent(books, FilesOf(listing, countries[0]));
  }

  /** The whole run: group the listing of the input folder by country, then process the countries in turn. */
  function Outcome(listing: seq<string>, books: map<string, Workbook>, codes: map<string, Codes>,
                   dir: map<string, Workbook>): YearRun
  {
    CountriesFrom(listing, books, codes, dir, CountriesOf(listing))
  }

  /** The run ends normally exactly when every country's files can be read without an exception. */
  lemma {:induction false} CountriesFromFinishes(listing: seq<string>, books: map<string, Workbook>, codes: map<string, Codes>,
                                                 dir: map<string, Workbook>, countries: seq<string>)
    ensures CountriesFrom(listing, books, codes, dir, countries).Finished?
        <==> forall c :: c in countries ==> FilesFrom(books, FilesOf(listing, c), EMPTY).Ok?
    decreases |countries|
  {
    if countries != [] {
      var files := FilesOf(listing, countries[0]);
      match FilesFrom(books, files, EMPTY)
      case Raised(_) =>
        assert countries[0] in countries;
      case Ok(g) =>
        GatheredConsistent(books, files);
        var next := Saved(dir, OutputFor(countries[0], codes, g));
        CountriesFromFinishes(listing, books, codes, next, countries[1..]);
        assert forall c :: c in countries <==> c == countries[0] || c in countries[1..];
    }
  }

  /** Two output folders agree on the file `n`: both lack it, or both hold the same workbook. */
  predicate SameAt(a: map<string, Workbook>, b: map<string, Workbook>, n: string) {
    (n in a <==> n in b) && (n in a ==> a[n] == b[n])
  }

  /** A file no country of `countries` would be written to is left as it was. */
  lemma {:induction false} CountriesFromLeaves(listing: seq<string>, books: map<string, Workbook>, codes: map<string, Codes>,
                                               dir: map<string, Workbook>, countries: seq<string>, n: string)
    ensures (forall c :: c in countries ==> CompleteName(c) != n)
            ==> SameAt(CountriesFrom(listing, books, codes, dir, countries).outputs, dir, n)
    decreases |countries|
  {
    if countries != [] && forall c :: c in countries ==> CompleteName(c) != n {
      assert countries[0] in countries;
      assert forall c :: c in countries[1..] ==> c in countries;
      assert forall c :: c in countries[1..] ==> CompleteName(c) != n;
      var r := FilesFrom(books, FilesOf(listing, countries[0]), EMPTY);
      GatheredConsistent(books, FilesOf(listing, countries[0]));
      if r.Ok? {
        var next := Saved(dir, OutputFor(countries[0], codes, r.value));
        CountriesFromLeaves(listing, books, codes, next, countries[1..], n);
        assert SameAt(CountriesFrom(listing, books, codes, next, countries[1..]).outputs, next, n);
      }
      CountriesFromLeavesStep(listing, books, codes, dir, countries, n);
    }
  }

  /** The first country does not write `n`, and the rest of the loop leaves `n` as the first country left it. */
  lemma CountriesFromLeavesStep(listing: seq<string>, books: map<string, Workbook>, codes: map<string, Codes>,
                                dir: map<string, Workbook>, countries: seq<string>, n: string)
    requires countries != [] && CompleteName(countries[0]) != n
    requires var r := FilesFrom(books, FilesOf(listing, countries[0]), EMPTY);
             r.Ok? ==> && Consistent(r.value)
                       && var next := Saved(dir, OutputFor(countries[0], codes, r.value));
                          SameAt(CountriesFrom(listing, books, codes, next, countries[1..]).outputs, next, n)
    ensures SameAt(CountriesFrom(listing, books, codes, dir, countries).outputs, dir, n)
  {
    var r := FilesFrom(books, FilesOf(listing, countries[0]), EMPTY);
    CountriesFromFirst(listing, books, codes, dir, countries, r);
    if r.Ok? {
      var o := OutputFor(countries[0], codes, r.value);
      OutputForMeans(countries[0], codes, r.value);
      SavedLeaves(dir, o, CompleteName(countries[0]), n);
      SameAtTrans(CountriesFrom(listing, books, codes, Saved(dir, o), countries[1..]).outputs, Saved(dir, o), dir, n);
    }
  }

  /** Saving an output under another name leaves `n` as it was. */
  lemma SavedLeaves(dir: map<string, Workbook>, o: Option<Output>, name: string, n: string)
    requires o.Some? ==> o.value.name == name
    requires name != n
    ensures SameAt(Saved(dir, o), dir, n)
  {
  }

  lemma SameAtTrans(a: map<string, Workbook>, b: map<string, Workbook>, c: map<string, Workbook>, n: string)
    requires SameAt(a, b, n) && SameAt(b, c, n)
    ensures SameAt(a, c, n)
  {
  }

  /** Every file already in the output folder is still there after the run. */
  lemma {:induction false} CountriesFromKeeps(listing: seq<string>, books: map<string, Workbook>, codes: map<string, Codes>,
                                              dir: map<string, Workbook>, countries: seq<string>)
    ensures forall n :: n in dir ==> n in CountriesFrom(listing, books, codes, dir, countries).outputs
    decreases |countries|
  {
    if countries != [] {
      var files := FilesOf(listing, countries[0]);
      match FilesFrom(books, files, EMPTY)
      case Raised(_) =>
      case Ok(g) =>
        GatheredConsistent(books, files);
        CountriesFromKeeps(listing, books, codes, Saved(dir, OutputFor(countries[0], codes, g)), countries[1..]);
    }
  }

  /**
   * After a run that ends normally, the file of a country of a list without repetitions is what
   * saving that country's master table, if it has one, into the original folder leaves there.
   */
  lemma {:induction false} CountriesFromWrites(listing: seq<string>, books: map<string, Workbook>, codes: map<string, Codes>,
                                               dir: map<string, Workbook>, countries: seq<string>, c: string)
    requires Distinct(countries) && c in countries
    requires CountriesFrom(listing, books, codes, dir, countries).Finished?
    ensures var g := FilesFrom(books, FilesOf(listing, c), EMPTY);
            && g.Ok? && Consistent(g.value)
            && SameAt(CountriesFrom(listing, books, codes, dir, countries).outputs,
                      Saved(dir, OutputFor(c, codes, g.value)), CompleteName(c))
    decreases |countries|
  {
    if c == countries[0] {
      FirstCountryWrites(listing, books, codes, dir, countries);
    } else {
      var rest := countries[1..];
      var r := FilesFrom(books, FilesOf(listing, countries[0]), EMPTY);
      CountriesFromFirst(listing, books, codes, dir, countries, r);
      var g := r.value;
      OutputForMeans(countries[0], codes, g);
      var next := Saved(dir, OutputFor(countries[0], codes, g));
      assert Distinct(rest);
      CountriesFromWrites(listing, books, codes, next, rest, c);
      CompleteNameInjective(countries[0], c);
      var gc := FilesFrom(books, FilesOf(listing, c), EMPTY).value;
      SavedElsewhere(CountriesFrom(listing, books, codes, next, rest).outputs, dir,
                     OutputFor(countries[0], codes, g), OutputFor(c, codes, gc), CompleteName(c));
    }
  }

  /** The first country's file is not written again by the countries after it. */
  lemma FirstCountryWrites(listing: seq<string>, books: map<string, Workbook>, codes: map<string, Codes>,
                           dir: map<string, Workbook>, countries: seq<string>)
    requires Distinct(countries) && countries != []
    requires CountriesFrom(listing, books, codes, dir, countries).Finished?
    ensures var g := FilesFrom(books, FilesOf(listing, countries[0]), EMPTY);
            && g.Ok? && Consistent(g.value)
            && SameAt(CountriesFrom(listing, books, codes, dir, countries).outputs,
                      Saved(dir, OutputFor(countries[0], codes, g.value)), CompleteName(countries[0]))
  {
    var c, rest := countries[0], countries[1..];
    var files := FilesOf(listing, c);
    GatheredConsistent(books, files);
    var g := FilesFrom(books, files, EMPTY).value;
    var next := Saved(dir, OutputFor(c, codes, g));
    forall d | d in rest ensures CompleteName(d) != CompleteName(c) {
      var j :| 0 <= j < |rest| && rest[j] == d;
      assert countries[j + 1] == d;
      CompleteNameInjective(d, c);
    }
    CountriesFromLeaves(listing, books, codes, next, rest, CompleteName(c));
  }

  /**
   * A folder that agrees on `n` with `o` saved after `first` agrees with `o` saved without
   * `first`, when `first` is not written to `n`.
   */
  lemma SavedElsewhere(out: map<string, Workbook>, dir: map<string, Workbook>, first: Option<Output>, o: Option<Output>, n: string)
    requires first.None? || first.value.name != n
    requires SameAt(out, Saved(Saved(dir, first), o), n)
    ensures SameAt(out, Saved(dir, o), n)
  {
  }

  /**
   * A run ends normally exactly when no country's files raise; the output folder keeps its files
   * and gains only `{country}-2015-2024.xlsx` tables; after a normal end, a country of the listing
   * has its table exactly when its records cover the window or the folder already had the file.
   */
  lemma OutcomeMeans(listing: seq<string>, books: map<string, Workbook>, codes: map<string, Codes>,
                     dir: map<string, Workbook>, c: string)
    ensures var r := Outcome(listing, books, codes, dir);
            && (r.Finished? <==> forall d :: d in CountriesOf(listing) ==> FilesFrom(books, FilesOf(listing, d), EMPTY).Ok?)
            && (forall n :: n in dir ==> n in r.outputs)
            && (forall n :: n in r.outputs ==> n in dir || exists d :: d in CountriesOf(listing) && n == CompleteName(d))
    ensures var r := Outcome(listing, books, codes, dir);
            var g := FilesFrom(books, FilesOf(listing, c), EMPTY);
            r.Finished? && c in CountriesOf(listing) ==>
              && g.Ok? && Consistent(g.value)
              && (CompleteName(c) in r.outputs <==> (g.value.records != [] && YearsOf(g.value.records) == Window()) || CompleteName(c) in dir)
  {
    var countries := CountriesOf(listing);
    var r := Outcome(listing, books, codes, dir);
    CountriesFromFinishes(listing, books, codes, dir, countries);
    CountriesFromKeeps(listing, books, codes, dir, countries);
    forall n | n in r.outputs && n !in dir ensures exists d :: d in countries && n == CompleteName(d) {
      CountriesFromLeaves(listing, books, codes, dir, countries, n);
      assert !SameAt(r.outputs, dir, n);
    }
    if r.Finished? && c in countries {
      CountriesOfDistinct(listing);
      CountriesFromWrites(listing, books, codes, dir, countries, c);
      OutputForMeans(c, codes, FilesFrom(books, FilesOf(listing, c), EMPTY).value);
    }
  }

  /** `main`: group the input folder's workbooks by country, then gather and write each country in turn. */
  method Run(listing: seq<string>, books: map<string, Workbook>, codes: map<string, Codes>, outDir: map<string, Workbook>)
    returns (r: YearRun)
    ensures r == Outcome(listing, books, codes, outDir)
  {
    var countries, files := GroupFiles(listing);
    var dir := outDir;
    assert countries[0..] == countries;
    for i := 0 to |countries|
      invariant CountriesFrom(listing, books, codes, dir, countries[i..]) == Outcome(listing, books, codes, outDir)
    {
      var c := countries[i];
      assert c in countries;
      assert c in files;
      assert FilesOf(listing, c) == files[c];
      var g := GatherCountry(books, files[c]);
      CountriesFromNext(listing, books, codes, dir, countries, i, g);
      if g.Raised? {
        return Crashed(dir);
      }
      var o := WriteCountry(c, codes, g.value);
      ghost var before := dir;
      if o.Some? {
        dir := dir[o.value.name := o.value.book];
      }
      assert dir == Saved(before, o);
    }
    assert countries[|countries|..] == [];
    r := Finished(dir);
  }
}
