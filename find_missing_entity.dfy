/**
 * find-missing-entity-before-variable-integrate.py: before the per-variable files of one country
 * and period are merged, lists for every sheet the Types (column A labels) that one variable
 * group's file lacks although another group's file has them, with the rows where they appear.
 */
module FindMissingEntity {
  import opened Common
  import opened Text
  import opened Sorting
  import opened Workbooks

  /** The first data row of a sheet; row 1 is the header. */
  const START_ROW: nat := 2
  /** Column A (1-based), where the Type is. */
  const TYPE_COL: nat := 1

  // ---------------------------------------------------------------------------------------------
  // parse_filename
  // ---------------------------------------------------------------------------------------------

  /** A parsed file name: the group key (`Country-YYYY` or `Country-YYYY-YYYY`) and the variable group. */
  datatype Parsed = Parsed(key: string, group: string)

  /** `.xlsx` or `.xlsm`, letters in either case (`re.IGNORECASE`). */
  predicate IsExtension(e: string) {
    |e| == 5 && (ToLower(e) == ".xlsx" || ToLower(e) == ".xlsm")
  }

  /**
   * What the first group of the pattern matches: at least one character that is not a newline,
   * then `-` and four digits (a second `-YYYY` is a special case of the same shape).
   */
  predicate IsGroupKey(k: string) {
    |k| >= 6 && '\n' !in k && k[|k| - 5] == '-' && AllDigits(k[|k| - 4..])
  }

  /** How many ASCII letters end `s`. */
  function TrailingLetters(s: string): (n: nat)
    ensures n <= |s| && forall i :: |s| - n <= i < |s| ==> IsLetter(s[i])
    ensures n < |s| ==> !IsLetter(s[|s| - n - 1])
  {
    if s == [] || !IsLetter(s[|s| - 1]) then 0 else TrailingLetters(s[..|s| - 1]) + 1
  }

  /**
   * `parse_filename`: a key ending in `-YYYY`, one or more letters (any case), then the extension.
   */
  function ParseFilename(name: string): (r: Option<Parsed>) {
    var t := Unterminated(name);
    if |t| < 5 || !IsExtension(t[|t| - 5..]) then None else ParseBody(t[..|t| - 5])
  }

  /** The name in front of the extension: the letters follow a digit, so they are the whole final run of letters. */
  function ParseBody(body: string): (r: Option<Parsed>) {
    var n := TrailingLetters(body);
    if n == 0 || !IsGroupKey(body[..|body| - n]) then None
    else Some(Parsed(body[..|body| - n], body[|body| - n..]))
  }

  /** A name that parses is a group key, a non-empty run of letters and an extension, in that order. */
  lemma ParseFilenameSound(name: string)
    ensures ParseFilename(name).Some? ==>
      var p, t := ParseFilename(name).value, Unterminated(name);
      IsGroupKey(p.key) && |p.group| >= 1 && AllLetters(p.group)
      && |t| >= 5 && IsExtension(t[|t| - 5..]) && t == p.key + p.group + t[|t| - 5..]
  {
    var t := Unterminated(name);
    if ParseFilename(name).Some? {
      var body := t[..|t| - 5];
      ParseBodySound(body);
      assert t == body + t[|t| - 5..];
    }
  }

  lemma ParseBodySound(body: string)
    ensures ParseBody(body).Some? ==>
      var p := ParseBody(body).value;
      IsGroupKey(p.key) && |p.group| >= 1 && AllLetters(p.group) && body == p.key + p.group
  {
    var n := TrailingLetters(body);
    var group := body[|body| - n..];
    assert forall i :: 0 <= i < |group| ==> group[i] == body[|body| - n + i];
    assert AllLetters(group);
    assert body == body[..|body| - n] + group;
  }

  /** Every name of that shape parses, into exactly its key and group, with or without a final newline. */
  lemma ParseFilenameOf(key: string, group: string, ext: string, newline: bool)
    requires IsGroupKey(key) && |group| >= 1 && AllLetters(group) && IsExtension(ext)
    ensures ParseFilename(key + group + ext + (if newline then "\n" else "")) == Some(Parsed(key, group))
  {
    var t := key + group + ext;
    assert ext[4] != '\n' by {
      assert ToLower(ext)[4] != '\n';
    }
    assert Unterminated(t + (if newline then "\n" else "")) == t;
    assert t[|t| - 5..] == ext && t[..|t| - 5] == key + group;
    ParseBodyOf(key, group);
  }

  lemma ParseBodyOf(key: string, group: string)
    requires IsGroupKey(key) && |group| >= 1 && AllLetters(group)
    ensures ParseBody(key + group) == Some(Parsed(key, group))
  {
    var body := key + group;
    assert IsDigit(key[|key| - 1]) by {
      assert key[|key| - 1] == key[|key| - 4..][3];
    }
    TrailingLettersAfter(key, group);
    assert body[..|body| - |group|] == key && body[|body| - |group|..] == group;
  }

  /** The letters after a key that ends in a digit are exactly the trailing letters. */
  lemma {:induction false} TrailingLettersAfter(key: string, group: string)
    requires |key| >= 1 && !IsLetter(key[|key| - 1]) && AllLetters(group)
    ensures TrailingLetters(key + group) == |group|
    decreases |group|
  {
    var s := key + group;
    if group == [] {
      assert s == key;
    } else {
      assert s[..|s| - 1] == key + group[..|group| - 1];
      assert s[|s| - 1] == group[|group| - 1];
      TrailingLettersAfter(key, group[..|group| - 1]);
    }
  }

  // ---------------------------------------------------------------------------------------------
  // read_excel_types
  // ---------------------------------------------------------------------------------------------

  /** `{Type: row}` for one sheet. */
  type Types = map<string, nat>

  /**
   * The Type a column-A cell gives, `str(value).strip()`, or `None` where `if type_val:` skips the
   * row: an empty cell, `0`, or the empty string.
   */
  function TypeKey(c: Cell): Option<string> {
    match c
    case None => None
    case Some(Int(n)) => if n == 0 then None else Some(IntToString(n))
    case Some(Str(s)) => if s == "" then None else Some(Strip(s))
  }

  /** The Types of rows `START_ROW..r` of a sheet; a later row with the same Type replaces an earlier one. */
  function TypesUpTo(rows: Sheet, r: int): Types
    decreases r
  {
    if r < START_ROW then map[]
    else
      var m := TypesUpTo(rows, r - 1);
      match TypeKey(CellAt(rows, r, TYPE_COL))
      case None => m
      case Some(k) => m[k := r]
  }

  /** The `type_map` of a whole sheet. */
  function TypesOf(rows: Sheet): Types {
    TypesUpTo(rows, |rows|)
  }

  /** The last row in `START_ROW..r` whose Type is `k`, if any. */
  function LastRowOf(rows: Sheet, r: int, k: string): (i: Option<nat>)
    ensures i.Some? ==> START_ROW <= i.value <= r && TypeKey(CellAt(rows, i.value, TYPE_COL)) == Some(k)
                        && forall j :: i.value < j <= r ==> TypeKey(CellAt(rows, j, TYPE_COL)) != Some(k)
    ensures i.None? ==> forall j :: START_ROW <= j <= r ==> TypeKey(CellAt(rows, j, TYPE_COL)) != Some(k)
    decreases r
  {
    if r < START_ROW then None
    else if TypeKey(CellAt(rows, r, TYPE_COL)) == Some(k) then Some(r)
    else LastRowOf(rows, r - 1, k)
  }

  /** A Type is in the map exactly when some row from `START_ROW` on gives it, and it maps to the last such row. */
  lemma {:induction false} TypesUpToMeans(rows: Sheet, r: int, k: string)
    ensures k in TypesUpTo(rows, r) <==> LastRowOf(rows, r, k).Some?
    ensures k in TypesUpTo(rows, r) ==> TypesUpTo(rows, r)[k] == LastRowOf(rows, r, k).value
    decreases r
  {
    if r >= START_ROW {
      TypesUpToMeans(rows, r - 1, k);
    }
  }

  /** The row loop of `read_excel_types` for one sheet. */
  method TypeMap(rows: Sheet) returns (typeMap: Types)
    ensures typeMap == TypesOf(rows)
  {
    typeMap := map[];
    if |rows| < START_ROW {
      return;
    }
    for rowIdx := START_ROW to |rows| + 1
      invariant typeMap == TypesUpTo(rows, rowIdx - 1)
    {
      var typeVal := TypeKey(CellAt(rows, rowIdx, TYPE_COL));
      TypesUpToNext(rows, rowIdx, typeVal);
      if typeVal.Some? {
        typeMap := typeMap[typeVal.value := rowIdx];
      }
      assert typeMap == TypesUpTo(rows, (rowIdx + 1) - 1);
    }
  }

  /** One more row adds its Type, if it has one, pointing at that row. */
  lemma TypesUpToNext(rows: Sheet, r: int, t: Option<string>)
    requires r >= START_ROW && t == TypeKey(CellAt(rows, r, TYPE_COL))
    ensures t.None? ==> TypesUpTo(rows, r) == TypesUpTo(rows, r - 1)
    ensures t.Some? ==> TypesUpTo(rows, r) == TypesUpTo(rows, r - 1)[t.value := r]
  {
  }

  /** `read_excel_types`' result: sheet titles in insertion order and each title's Types. */
  datatype SheetTypes = SheetTypes(titles: seq<string>, types: map<string, Types>)

  const NO_SHEETS := SheetTypes([], map[])

  /** `result[title] = types` on a Python dict: a new title goes last, an existing one keeps its place. */
  function Assign(st: SheetTypes, title: string, t: Types): SheetTypes {
    SheetTypes(if title in st.types then st.titles else st.titles + [title], st.types[title := t])
  }

  /** `read_excel_types` over the sheets of a workbook, in order, skipping `REQUEST_TABLE`. */
  function TypesOfSheets(sheets: seq<NamedSheet>): SheetTypes {
    if sheets == [] then NO_SHEETS
    else
      var st := TypesOfSheets(sheets[..|sheets| - 1]);
      var s := sheets[|sheets| - 1];
      if s.title == REQUEST_TABLE then st else Assign(st, s.title, TypesOf(s.rows))
  }

  /** The titles are the map's keys, each listed once. */
  ghost predicate Ordered(st: SheetTypes) {
    Distinct(st.titles) && forall t :: t in st.titles <==> t in st.types
  }

  /** The titles of the result are its keys, each listed once. */
  lemma {:induction false} TypesOfSheetsOrdered(sheets: seq<NamedSheet>)
    ensures Ordered(TypesOfSheets(sheets))
  {
    if sheets != [] {
      var init, s := sheets[..|sheets| - 1], sheets[|sheets| - 1];
      TypesOfSheetsOrdered(init);
      var st := TypesOfSheets(init);
      if s.title != REQUEST_TABLE && s.title !in st.types {
        assert forall i :: 0 <= i < |st.titles| ==> st.titles[i] in st.types;
      }
    }
  }

  /** The position of the last sheet titled `title`, if any. */
  function LastTitled(sheets: seq<NamedSheet>, title: string): (r: Option<nat>)
    ensures r.Some? ==> r.value < |sheets| && sheets[r.value].title == title
                        && forall j :: r.value < j < |sheets| ==> sheets[j].title != title
    ensures r.None? ==> forall j :: 0 <= j < |sheets| ==> sheets[j].title != title
  {
    if sheets == [] then None
    else if sheets[|sheets| - 1].title == title then Some(|sheets| - 1)
    else LastTitled(sheets[..|sheets| - 1], title)
  }

  /**
   * Every sheet but `REQUEST_TABLE` gets an entry, and a title maps to the Types of the last sheet
   * carrying it.
   */
  lemma {:induction false} TypesOfSheetsMeans(sheets: seq<NamedSheet>, title: string)
    ensures title in TypesOfSheets(sheets).types <==> title != REQUEST_TABLE && LastTitled(sheets, title).Some?
    ensures title in TypesOfSheets(sheets).types ==>
      TypesOfSheets(sheets).types[title] == TypesOf(sheets[LastTitled(sheets, title).value].rows)
  {
    if sheets != [] {
      TypesOfSheetsMeans(sheets[..|sheets| - 1], title);
    }
  }

  /** `read_excel_types` on a loaded workbook. */
  method ReadExcelTypes(wb: Workbook) returns (result: SheetTypes)
    ensures result == TypesOfSheets(wb.sheets)
  {
    result := NO_SHEETS;
    for i := 0 to |wb.sheets|
      invariant result == TypesOfSheets(wb.sheets[..i])
    {
      var sheet := wb.sheets[i];
      assert wb.sheets[..i + 1][..i] == wb.sheets[..i];
      if sheet.title == REQUEST_TABLE {
        continue;
      }
      var typeMap := TypeMap(sheet.rows);
      result := SheetTypes(if sheet.title in result.types then result.titles else result.titles + [sheet.title],
                           result.types[sheet.title := typeMap]);
    }
    assert wb.sheets[..|wb.sheets|] == wb.sheets;
  }

  // ---------------------------------------------------------------------------------------------
  // main: reading the listing
  // ---------------------------------------------------------------------------------------------

  /** `data`: group keys in the order they were first stored, and each key's `{variable group: Types}`. */
  datatype Data = Data(keys: seq<string>, groups: map<string, map<string, SheetTypes>>)

  const NO_DATA := Data([], map[])

  /** `data[key][group] = types` on the `defaultdict(dict)`. */
  function Store(d: Data, p: Parsed, st: SheetTypes): Data {
    var inner := if p.key in d.groups then d.groups[p.key] else map[];
    Data(if p.key in d.groups then d.keys else d.keys + [p.key], d.groups[p.key := inner[p.group := st]])
  }

  /** The keys are listed once each, and each has at least one variable group. */
  ghost predicate DataOk(d: Data) {
    Distinct(d.keys) && (forall k :: k in d.keys <==> k in d.groups)
    && forall k :: k in d.groups ==> d.groups[k] != map[]
  }

  /**
   * The file loop of `main` from `files` on, starting with `d`: names that do not parse are
   * skipped; a file that cannot be loaded ends the run.
   */
  function ReadFrom(books: map<string, Workbook>, files: seq<string>, d: Data): Result<Data>
    decreases |files|
  {
    if files == [] then Ok(d)
    else
      match ParseFilename(files[0])
      case None => ReadFrom(books, files[1..], d)
      case Some(p) =>
        if files[0] !in books then Raised("load_workbook")
        else ReadFrom(books, files[1..], Store(d, p, TypesOfSheets(books[files[0]].sheets)))
  }

  lemma StoreOk(d: Data, p: Parsed, st: SheetTypes)
    requires DataOk(d)
    ensures DataOk(Store(d, p, st))
  {
    var inner := if p.key in d.groups then d.groups[p.key] else map[];
    assert p.group in inner[p.group := st];
    if p.key !in d.groups {
      assert forall i :: 0 <= i < |d.keys| ==> d.keys[i] in d.groups;
    }
  }

  /** Reading keeps the data well formed. */
  lemma {:induction false} ReadFromOk(books: map<string, Workbook>, files: seq<string>, d: Data)
    requires DataOk(d)
    ensures ReadFrom(books, files, d).Ok? ==> DataOk(ReadFrom(books, files, d).value)
    decreases |files|
  {
    if files != [] {
      match ParseFilename(files[0])
      case None => ReadFromOk(books, files[1..], d);
      case Some(p) =>
        if files[0] in books {
          var st := TypesOfSheets(books[files[0]].sheets);
          StoreOk(d, p, st);
          ReadFromOk(books, files[1..], Store(d, p, st));
        }
    }
  }

  /** A listed file whose name parses but which cannot be loaded. */
  predicate Unloadable(books: map<string, Workbook>, f: string) {
    ParseFilename(f).Some? && f !in books
  }

  /** The run reads every file that parses: it fails exactly when one of them cannot be loaded. */
  lemma {:induction false} ReadFromFails(books: map<string, Workbook>, files: seq<string>, d: Data)
    ensures ReadFrom(books, files, d).Raised? <==> exists f :: f in files && Unloadable(books, f)
    decreases |files|
  {
    if files != [] {
      assert files == [files[0]] + files[1..];
      match ParseFilename(files[0])
      case None => ReadFromFails(books, files[1..], d);
      case Some(p) =>
        if files[0] in books {
          ReadFromFails(books, files[1..], Store(d, p, TypesOfSheets(books[files[0]].sheets)));
        } else {
          assert Unloadable(books, files[0]);
        }
    }
  }

  /** The position of the last file whose name parses to `p`, if any. */
  function LastFileOf(files: seq<string>, p: Parsed): (i: Option<nat>)
    ensures i.Some? ==> i.value < |files| && ParseFilename(files[i.value]) == Some(p)
                        && forall j :: i.value < j < |files| ==> ParseFilename(files[j]) != Some(p)
    ensures i.None? ==> forall j :: 0 <= j < |files| ==> ParseFilename(files[j]) != Some(p)
    decreases |files|
  {
    if files == [] then None
    else
      var rest := LastFileOf(files[1..], p);
      assert forall j :: 0 <= j < |files[1..]| ==> files[1..][j] == files[j + 1];
      if rest.Some? then Some(rest.value + 1)
      else if ParseFilename(files[0]) == Some(p) then Some(0)
      else None
  }

  /** Storing under another key or group leaves an entry as it was. */
  lemma StoreKeeps(d: Data, q: Parsed, st: SheetTypes, p: Parsed)
    requires p.key in d.groups && p.group in d.groups[p.key] && q != p
    ensures var e := Store(d, q, st);
      p.key in e.groups && p.group in e.groups[p.key] && e.groups[p.key][p.group] == d.groups[p.key][p.group]
  {
  }

  /** An entry that no listed file parses to keeps its value. */
  lemma {:induction false} ReadFromKeeps(books: map<string, Workbook>, files: seq<string>, d: Data, p: Parsed)
    requires ReadFrom(books, files, d).Ok? && LastFileOf(files, p).None?
    requires p.key in d.groups && p.group in d.groups[p.key]
    ensures var r := ReadFrom(books, files, d).value;
      p.key in r.groups && p.group in r.groups[p.key] && r.groups[p.key][p.group] == d.groups[p.key][p.group]
    decreases |files|
  {
    if files != [] {
      match ParseFilename(files[0])
      case None => ReadFromKeeps(books, files[1..], d, p);
      case Some(q) =>
        var st := TypesOfSheets(books[files[0]].sheets);
        StoreKeeps(d, q, st, p);
        ReadFromKeeps(books, files[1..], Store(d, q, st), p);
    }
  }

  /**
   * Later files overwrite: the Types stored for a key and variable group are those of the last
   * file whose name parses to them.
   */
  lemma {:induction false} ReadFromStores(books: map<string, Workbook>, files: seq<string>, d: Data, p: Parsed)
    requires ReadFrom(books, files, d).Ok? && LastFileOf(files, p).Some?
    ensures var r, i := ReadFrom(books, files, d).value, LastFileOf(files, p).value;
      files[i] in books && p.key in r.groups && p.group in r.groups[p.key]
      && r.groups[p.key][p.group] == TypesOfSheets(books[files[i]].sheets)
    decreases |files|
  {
    var rest := LastFileOf(files[1..], p);
    var d' := if ParseFilename(files[0]).Some? then Store(d, ParseFilename(files[0]).value, TypesOfSheets(books[files[0]].sheets)) else d;
    assert ReadFrom(books, files, d) == ReadFrom(books, files[1..], d');
    if rest.Some? {
      ReadFromStores(books, files[1..], d', p);
      assert files[1..][rest.value] == files[rest.value + 1];
    } else {
      ReadFromKeeps(books, files[1..], d', p);
    }
  }

  /** The reading loop of `main`. */
  method CollectData(books: map<string, Workbook>, files: seq<string>) returns (r: Result<Data>)
    ensures r == ReadFrom(books, files, NO_DATA)
  {
    var data := NO_DATA;
    for i := 0 to |files|
      invariant ReadFrom(books, files[i..], data) == ReadFrom(books, files, NO_DATA)
    {
      var f := files[i];
      var parsed := ParseFilename(f);
      assert files[i..][1..] == files[i + 1..];
      if parsed.None? {
        continue;
      }
      if f !in books {
        return Raised("load_workbook");
      }
      var types := ReadExcelTypes(books[f]);
      var groupKey, varGroup := parsed.value.key, parsed.value.group;
      var keys := if groupKey in data.groups then data.keys else data.keys + [groupKey];
      var inner := if groupKey in data.groups then data.groups[groupKey] else map[];
      data := Data(keys, data.groups[groupKey := inner[varGroup := types]]);
    }
    return Ok(data);
  }

  // ---------------------------------------------------------------------------------------------
  // main: the comparison
  // ---------------------------------------------------------------------------------------------

  /**
   * One printed line: on sheet `sheet` of `key`, variable group `group` lacks Type `typ`;
   * `existsIn` maps the other groups that have it to its row there.
   */
  datatype Missing = Missing(key: string, sheet: string, group: string, typ: string, existsIn: map<string, nat>)

  /** What a run prints, in order, and whether it ends by raising. */
  datatype Report = Report(lines: seq<Missing>, crashed: bool)

  /** Lines printed in front of a report. */
  function Then(lines: seq<Missing>, r: Report): Report {
    Report(lines + r.lines, r.crashed)
  }

  /** Every group has the sheet, so that `group_data[g][sheet]` does not raise `KeyError`. */
  ghost predicate AllHave(gd: map<string, SheetTypes>, groups: seq<string>, sheet: string) {
    forall g :: g in groups ==> g in gd && sheet in gd[g].types
  }

  /** `all_types`: the union of the groups' Types on the sheet. */
  function UnionOver(gd: map<string, SheetTypes>, groups: seq<string>, sheet: string): set<string>
    requires AllHave(gd, groups, sheet)
  {
    set g, t | g in groups && t in gd[g].types[sheet] :: t
  }

  /** `exists_in`: each other group that has the Type on the sheet, with its row. */
  function ExistsIn(gd: map<string, SheetTypes>, sheet: string, g: string, t: string): map<string, nat> {
    map o | o in gd && o != g && sheet in gd[o].types && t in gd[o].types[sheet] :: gd[o].types[sheet][t]
  }

  /** The line for Type `t` missing from group `g`. */
  function Line(key: string, sheet: string, gd: map<string, SheetTypes>, g: string, t: string): Missing {
    Missing(key, sheet, g, t, ExistsIn(gd, sheet, g, t))
  }

  /** The lines for group `g`, one per Type of `ts`, in that order. */
  function GroupLines(key: string, sheet: string, gd: map<string, SheetTypes>, g: string, ts: seq<string>): (ls: seq<Missing>)
    ensures |ls| == |ts| && forall i :: 0 <= i < |ts| ==> ls[i] == Line(key, sheet, gd, g, ts[i])
  {
    if ts == [] then [] else GroupLines(key, sheet, gd, g, ts[..|ts| - 1]) + [Line(key, sheet, gd, g, ts[|ts| - 1])]
  }

  /** The lines for the groups of `gs`, in order, each with its missing Types in sorted order. */
  ghost function LinesFrom(key: string, sheet: string, gd: map<string, SheetTypes>, all: set<string>, gs: seq<string>): seq<Missing>
    requires AllHave(gd, gs, sheet)
  {
    if gs == [] then []
    else
      var g := gs[|gs| - 1];
      LinesFrom(key, sheet, gd, all, gs[..|gs| - 1])
      + GroupLines(key, sheet, gd, g, LexAscending(all - gd[g].types[sheet].Keys))
  }

  /** What one sheet prints, or `None` when a group lacks the sheet and the union loop raises. */
  ghost function SheetLines(key: string, gd: map<string, SheetTypes>, groups: seq<string>, sheet: string): Option<seq<Missing>> {
    if !AllHave(gd, groups, sheet) then None
    else Some(LinesFrom(key, sheet, gd, UnionOver(gd, groups, sheet), groups))
  }

  /** The sheets of `sheets` in order; the first one that raises ends the report. */
  ghost function SheetsFrom(key: string, gd: map<string, SheetTypes>, groups: seq<string>, sheets: seq<string>): Report
    decreases |sheets|
  {
    if sheets == [] then Report([], false)
    else
      match SheetLines(key, gd, groups, sheets[0])
      case None => Report([], true)
      case Some(ls) => Then(ls, SheetsFrom(key, gd, groups, sheets[1..]))
  }

  /** The variable groups of a key, sorted; a stored key has at least one. */
  ghost function SortedGroups(gd: map<string, SheetTypes>): (groups: seq<string>)
    requires gd != map[]
    ensures |groups| >= 1 && forall g :: g in groups <==> g in gd
  {
    var g :| g in gd;
    var groups := LexAscending(gd.Keys);
    assert g in groups;
    groups
  }

  /** What one group key prints: the sheets of its first variable group (in sorted order) are compared. */
  ghost function KeyReport(key: string, gd: map<string, SheetTypes>): Report
    requires gd != map[]
  {
    var groups := SortedGroups(gd);
    SheetsFrom(key, gd, groups, gd[groups[0]].titles)
  }

  /** The keys of `keys` in order; a key whose report raises ends the run. */
  ghost function KeysFrom(d: Data, keys: seq<string>): Report
    requires forall k :: k in keys ==> k in d.groups && d.groups[k] != map[]
    decreases |keys|
  {
    if keys == [] then Report([], false)
    else
      var r := KeyReport(keys[0], d.groups[keys[0]]);
      if r.crashed then r else Then(r.lines, KeysFrom(d, keys[1..]))
  }

  /** The whole run of `main` over a directory listing; `books` holds the files that load. */
  ghost function Outcome(listing: seq<string>, books: map<string, Workbook>): Report {
    match ReadFrom(books, listing, NO_DATA)
    case Raised(_) => Report([], true)
    case Ok(d) =>
      ReadFromOk(books, listing, NO_DATA);
      KeysFrom(d, d.keys)
  }

  /**
   * What a line promises: the group has the sheet but not the Type, `existsIn` maps exactly the
   * other groups that have the Type there to its row, and there is at least one such group.
   */
  ghost predicate Justified(gd: map<string, SheetTypes>, m: Missing) {
    m.group in gd && m.sheet in gd[m.group].types && m.typ !in gd[m.group].types[m.sheet]
    && m.existsIn != map[]
    && (forall o :: o in m.existsIn ==>
          o in gd && o != m.group && m.sheet in gd[o].types && m.typ in gd[o].types[m.sheet]
          && m.existsIn[o] == gd[o].types[m.sheet][m.typ])
    && (forall o :: o in gd && o != m.group && m.sheet in gd[o].types && m.typ in gd[o].types[m.sheet] ==>
          o in m.existsIn)
  }

  /** The lines of a group come in the sorted order of the groups, and within one group in the sorted order of the Types. */
  ghost predicate InOrder(ls: seq<Missing>) {
    forall i, j :: 0 <= i < j < |ls| ==>
      LexLess(ls[i].group, ls[j].group) || (ls[i].group == ls[j].group && LexLess(ls[i].typ, ls[j].typ))
  }

  /** A Type that is in the union but missing from `g` gives a justified line. */
  lemma LineJustified(key: string, sheet: string, gd: map<string, SheetTypes>, groups: seq<string>, g: string, t: string)
    requires AllHave(gd, groups, sheet) && g in gd && sheet in gd[g].types
    requires t in UnionOver(gd, groups, sheet) && t !in gd[g].types[sheet]
    ensures Justified(gd, Line(key, sheet, gd, g, t))
  {
    var o, u :| o in groups && u in gd[o].types[sheet] && u == t;
    assert o in ExistsIn(gd, sheet, g, t);
  }

  /** Each line of the groups of `gs` is for one of them and for a Type of the union it lacks. */
  lemma {:induction false} LinesFromSound(key: string, sheet: string, gd: map<string, SheetTypes>, all: set<string>, gs: seq<string>)
    requires AllHave(gd, gs, sheet)
    ensures forall m :: m in LinesFrom(key, sheet, gd, all, gs) ==>
      m.group in gs && m.typ in all && m.typ !in gd[m.group].types[sheet] && m == Line(key, sheet, gd, m.group, m.typ)
  {
    if gs != [] {
      var init, g := gs[..|gs| - 1], gs[|gs| - 1];
      LinesFromSound(key, sheet, gd, all, init);
      var ts := LexAscending(all - gd[g].types[sheet].Keys);
      forall m | m in GroupLines(key, sheet, gd, g, ts)
        ensures m.group == g && m.typ in all && m.typ !in gd[g].types[sheet] && m == Line(key, sheet, gd, g, m.typ)
      {
        var i :| 0 <= i < |ts| && GroupLines(key, sheet, gd, g, ts)[i] == m;
        assert ts[i] in ts;
      }
    }
  }

  /** Each Type of the union that a group of `gs` lacks gets its line. */
  lemma {:induction false} LinesFromComplete(key: string, sheet: string, gd: map<string, SheetTypes>, all: set<string>, gs: seq<string>)
    requires AllHave(gd, gs, sheet)
    ensures forall g, t :: g in gs && t in all && t !in gd[g].types[sheet] ==>
      Line(key, sheet, gd, g, t) in LinesFrom(key, sheet, gd, all, gs)
  {
    if gs != [] {
      var init, last := gs[..|gs| - 1], gs[|gs| - 1];
      LinesFromComplete(key, sheet, gd, all, init);
      forall g, t | g in gs && t in all && t !in gd[g].types[sheet]
        ensures Line(key, sheet, gd, g, t) in LinesFrom(key, sheet, gd, all, gs)
      {
        if g != last {
          assert g in init;
        } else {
          var ts := LexAscending(all - gd[g].types[sheet].Keys);
          assert t in all - gd[g].types[sheet].Keys;
          var i :| 0 <= i < |ts| && ts[i] == t;
          assert GroupLines(key, sheet, gd, g, ts)[i] == Line(key, sheet, gd, g, t);
        }
      }
    }
  }

  /** One group's lines, for sorted Types, are in order. */
  lemma GroupLinesInOrder(key: string, sheet: string, gd: map<string, SheetTypes>, g: string, ts: seq<string>)
    requires LexSorted(ts)
    ensures InOrder(GroupLines(key, sheet, gd, g, ts))
  {
  }

  /** Lines of earlier groups followed by the lines of a later group stay in order. */
  lemma InOrderAppend(head: seq<Missing>, tail: seq<Missing>, g: string)
    requires InOrder(head) && InOrder(tail)
    requires forall i :: 0 <= i < |head| ==> LexLess(head[i].group, g)
    requires forall i :: 0 <= i < |tail| ==> tail[i].group == g
    ensures InOrder(head + tail)
  {
    var ls := head + tail;
    forall i, j | 0 <= i < j < |ls|
      ensures LexLess(ls[i].group, ls[j].group) || (ls[i].group == ls[j].group && LexLess(ls[i].typ, ls[j].typ))
    {
      if j < |head| {
        assert ls[i] == head[i] && ls[j] == head[j];
      } else if i < |head| {
        assert ls[i] == head[i] && ls[j] == tail[j - |head|];
      } else {
        assert ls[i] == tail[i - |head|] && ls[j] == tail[j - |head|];
      }
    }
  }

  /** For groups in sorted order, the lines come ordered by group, then by Type. */
  lemma {:induction false} LinesFromInOrder(key: string, sheet: string, gd: map<string, SheetTypes>, all: set<string>, gs: seq<string>)
    requires AllHave(gd, gs, sheet) && LexSorted(gs)
    ensures InOrder(LinesFrom(key, sheet, gd, all, gs))
  {
    if gs != [] {
      var init, g := gs[..|gs| - 1], gs[|gs| - 1];
      assert LexSorted(init);
      LinesFromInOrder(key, sheet, gd, all, init);
      LinesFromSound(key, sheet, gd, all, init);
      var head := LinesFrom(key, sheet, gd, all, init);
      forall i | 0 <= i < |head| ensures LexLess(head[i].group, g) {
        assert head[i] in head;
        var k :| 0 <= k < |init| && init[k] == head[i].group;
        assert gs[k] == init[k];
      }
      var ts := LexAscending(all - gd[g].types[sheet].Keys);
      GroupLinesInOrder(key, sheet, gd, g, ts);
      InOrderAppend(head, GroupLines(key, sheet, gd, g, ts), g);
    }
  }

  /**
   * One sheet: it raises exactly when a group lacks it; otherwise its lines are in order, each is
   * justified, and every Type some group has and another lacks gets a line.
   */
  lemma SheetLinesMeans(key: string, gd: map<string, SheetTypes>, groups: seq<string>, sheet: string)
    requires LexSorted(groups) && forall g :: g in groups <==> g in gd
    ensures SheetLines(key, gd, groups, sheet).None? <==> exists g :: g in gd && sheet !in gd[g].types
    ensures SheetLines(key, gd, groups, sheet).Some? ==>
      var ls := SheetLines(key, gd, groups, sheet).value;
      InOrder(ls)
      && (forall m :: m in ls ==> m.key == key && m.sheet == sheet && Justified(gd, m))
      && forall g, o, t :: g in gd && o in gd && t in gd[o].types[sheet] && t !in gd[g].types[sheet] ==>
           Line(key, sheet, gd, g, t) in ls
  {
    if AllHave(gd, groups, sheet) {
      var all := UnionOver(gd, groups, sheet);
      LinesFromInOrder(key, sheet, gd, all, groups);
      LinesFromSound(key, sheet, gd, all, groups);
      LinesFromComplete(key, sheet, gd, all, groups);
      forall m | m in LinesFrom(key, sheet, gd, all, groups) ensures Justified(gd, m) {
        LineJustified(key, sheet, gd, groups, m.group, m.typ);
      }
      forall g, o, t | g in gd && o in gd && t in gd[o].types[sheet] && t !in gd[g].types[sheet]
        ensures t in all
      {
        assert o in groups;
      }
    }
  }

  /** Every line of a run of sheets is justified and names the key and a compared sheet. */
  lemma {:induction false} SheetsFromSound(key: string, gd: map<string, SheetTypes>, groups: seq<string>, sheets: seq<string>)
    requires LexSorted(groups) && forall g :: g in groups <==> g in gd
    ensures forall m :: m in SheetsFrom(key, gd, groups, sheets).lines ==>
      m.key == key && m.sheet in sheets && Justified(gd, m)
    decreases |sheets|
  {
    if sheets != [] {
      SheetLinesMeans(key, gd, groups, sheets[0]);
      SheetsFromSound(key, gd, groups, sheets[1..]);
    }
  }

  /** The sheets stop exactly at the first one that some group lacks. */
  lemma {:induction false} SheetsFromCrashes(key: string, gd: map<string, SheetTypes>, groups: seq<string>, sheets: seq<string>)
    ensures SheetsFrom(key, gd, groups, sheets).crashed <==>
      exists i :: 0 <= i < |sheets| && !AllHave(gd, groups, sheets[i])
    decreases |sheets|
  {
    if sheets != [] {
      SheetsFromCrashes(key, gd, groups, sheets[1..]);
      assert forall i :: 0 <= i < |sheets[1..]| ==> sheets[1..][i] == sheets[i + 1];
      if exists i :: 0 <= i < |sheets| && !AllHave(gd, groups, sheets[i]) {
        var i :| 0 <= i < |sheets| && !AllHave(gd, groups, sheets[i]);
        if i > 0 {
          assert !AllHave(gd, groups, sheets[1..][i - 1]);
        }
      }
    }
  }

  /** Every line of a run of keys is justified for its own key's groups. */
  lemma {:induction false} KeysFromSound(d: Data, keys: seq<string>)
    requires forall k :: k in keys ==> k in d.groups && d.groups[k] != map[]
    ensures forall m :: m in KeysFrom(d, keys).lines ==>
      m.key in keys && Justified(d.groups[m.key], m)
    decreases |keys|
  {
    if keys != [] {
      var gd := d.groups[keys[0]];
      var groups := SortedGroups(gd);
      SheetsFromSound(keys[0], gd, groups, gd[groups[0]].titles);
      KeysFromSound(d, keys[1..]);
    }
  }

  /**
   * What `main` promises about each line it prints: the variable group lacks the Type on that
   * sheet, another group of the same key has it, and the map names exactly those groups with
   * their rows. In particular a Type that every group has is never reported.
   */
  lemma OutcomeJustified(listing: seq<string>, books: map<string, Workbook>)
    ensures forall m :: m in Outcome(listing, books).lines ==>
      var r := ReadFrom(books, listing, NO_DATA);
      r.Ok? && m.key in r.value.groups && Justified(r.value.groups[m.key], m)
  {
    var r := ReadFrom(books, listing, NO_DATA);
    if r.Ok? {
      ReadFromOk(books, listing, NO_DATA);
      KeysFromSound(r.value, r.value.keys);
    }
  }

  /** A Type present on a sheet in every variable group of a key is never reported for it. */
  lemma NeverReportedIfEverywhere(listing: seq<string>, books: map<string, Workbook>, key: string, sheet: string, t: string)
    ensures var r := ReadFrom(books, listing, NO_DATA);
      r.Ok? && key in r.value.groups
      && (forall g :: g in r.value.groups[key] ==> sheet in r.value.groups[key][g].types && t in r.value.groups[key][g].types[sheet])
      ==> forall m :: m in Outcome(listing, books).lines ==> !(m.key == key && m.sheet == sheet && m.typ == t)
  {
    OutcomeJustified(listing, books);
  }

  // ---------------------------------------------------------------------------------------------
  // main: the comparison, step by step
  // ---------------------------------------------------------------------------------------------

  lemma UnionNext(gd: map<string, SheetTypes>, groups: seq<string>, sheet: string, i: nat)
    requires i < |groups| && AllHave(gd, groups[..i + 1], sheet)
    ensures AllHave(gd, groups[..i], sheet)
    ensures UnionOver(gd, groups[..i + 1], sheet) == UnionOver(gd, groups[..i], sheet) + gd[groups[i]].types[sheet].Keys
  {
    assert groups[..i + 1] == groups[..i] + [groups[i]];
    var a, b := UnionOver(gd, groups[..i + 1], sheet), UnionOver(gd, groups[..i], sheet) + gd[groups[i]].types[sheet].Keys;
    forall t | t in a ensures t in b {
      var g :| g in groups[..i + 1] && t in gd[g].types[sheet];
    }
    forall t | t in b ensures t in a {
      if t !in gd[groups[i]].types[sheet] {
        var g :| g in groups[..i] && t in gd[g].types[sheet];
        assert g in groups[..i + 1];
      } else {
        assert groups[i] in groups[..i + 1];
      }
    }
  }

  /** One more group's lines. */
  lemma LinesFromNext(key: string, sheet: string, gd: map<string, SheetTypes>, all: set<string>, gs: seq<string>, i: nat)
    requires i < |gs| && AllHave(gd, gs, sheet)
    ensures AllHave(gd, gs[..i], sheet) && AllHave(gd, gs[..i + 1], sheet)
    ensures LinesFrom(key, sheet, gd, all, gs[..i + 1])
         == LinesFrom(key, sheet, gd, all, gs[..i]) + GroupLines(key, sheet, gd, gs[i], LexAscending(all - gd[gs[i]].types[sheet].Keys))
  {
    assert gs[..i + 1][..i] == gs[..i];
  }

  /** The union loop of one sheet: `None` when a group lacks the sheet (the `KeyError`). */
  method UnionTypes(gd: map<string, SheetTypes>, groups: seq<string>, sheet: string) returns (r: Option<set<string>>)
    requires forall g :: g in groups ==> g in gd
    ensures r.None? <==> !AllHave(gd, groups, sheet)
    ensures r.Some? ==> r.value == UnionOver(gd, groups, sheet)
  {
    var allTypes: set<string> := {};
    for i := 0 to |groups|
      invariant AllHave(gd, groups[..i], sheet)
      invariant allTypes == UnionOver(gd, groups[..i], sheet)
    {
      var g := groups[i];
      if sheet !in gd[g].types {
        return None;
      }
      assert AllHave(gd, groups[..i + 1], sheet) by {
        assert groups[..i + 1] == groups[..i] + [g];
      }
      UnionNext(gd, groups, sheet, i);
      allTypes := allTypes + gd[g].types[sheet].Keys;
    }
    assert groups[..|groups|] == groups;
    return Some(allTypes);
  }

  /** One more missing Type of a group. */
  lemma GroupLinesNext(key: string, sheet: string, gd: map<string, SheetTypes>, g: string, ts: seq<string>, j: nat)
    requires j < |ts|
    ensures GroupLines(key, sheet, gd, g, ts[..j + 1]) == GroupLines(key, sheet, gd, g, ts[..j]) + [Line(key, sheet, gd, g, ts[j])]
  {
    assert ts[..j + 1][..j] == ts[..j];
  }

  /** The report of one group on one sheet: its missing Types, sorted, each with the groups that have it. */
  method ReportGroup(key: string, sheet: string, gd: map<string, SheetTypes>, g: string, allTypes: set<string>)
    returns (lines: seq<Missing>)
    requires g in gd && sheet in gd[g].types
    ensures lines == GroupLines(key, sheet, gd, g, LexAscending(allTypes - gd[g].types[sheet].Keys))
  {
    var currentTypes := gd[g].types[sheet].Keys;
    var missing := SortedStrings(allTypes - currentTypes);
    lines := [];
    for j := 0 to |missing|
      invariant lines == GroupLines(key, sheet, gd, g, missing[..j])
    {
      var t := missing[j];
      var existsIn := ExistsIn(gd, sheet, g, t);
      GroupLinesNext(key, sheet, gd, g, missing, j);
      lines := lines + [Missing(key, sheet, g, t, existsIn)];
    }
    assert missing[..|missing|] == missing;
  }

  /** The comparison of one sheet: the union loop, then each group's report in sorted order. */
  method ReportSheet(key: string, gd: map<string, SheetTypes>, groups: seq<string>, sheet: string) returns (r: Option<seq<Missing>>)
    requires forall g :: g in groups ==> g in gd
    ensures r == SheetLines(key, gd, groups, sheet)
  {
    var union := UnionTypes(gd, groups, sheet);
    if union.None? {
      return None;
    }
    var allTypes := union.value;
    var lines: seq<Missing> := [];
    for i := 0 to |groups|
      invariant AllHave(gd, groups[..i], sheet)
      invariant lines == LinesFrom(key, sheet, gd, allTypes, groups[..i])
    {
      LinesFromNext(key, sheet, gd, allTypes, groups, i);
      var groupLines := ReportGroup(key, sheet, gd, groups[i], allTypes);
      lines := lines + groupLines;
    }
    assert groups[..|groups|] == groups;
    return Some(lines);
  }

  /** One more sheet of a key, after the lines printed so far. */
  lemma SheetsFromNext(key: string, gd: map<string, SheetTypes>, groups: seq<string>, sheets: seq<string>, i: nat, lines: seq<Missing>)
    requires i < |sheets|
    ensures var ls := SheetLines(key, gd, groups, sheets[i]);
      Then(lines, SheetsFrom(key, gd, groups, sheets[i..]))
      == if ls.None? then Report(lines, true) else Then(lines + ls.value, SheetsFrom(key, gd, groups, sheets[i + 1..]))
  {
    assert sheets[i..][1..] == sheets[i + 1..];
  }

  /** One more group key, after the lines printed so far. */
  lemma KeysFromNext(d: Data, keys: seq<string>, i: nat, lines: seq<Missing>)
    requires i < |keys| && forall k :: k in keys ==> k in d.groups && d.groups[k] != map[]
    ensures var r := KeyReport(keys[i], d.groups[keys[i]]);
      Then(lines, KeysFrom(d, keys[i..]))
      == if r.crashed then Report(lines + r.lines, true) else Then(lines + r.lines, KeysFrom(d, keys[i + 1..]))
  {
    assert keys[i..][1..] == keys[i + 1..];
  }

  /** The comparison of one group key: its variable groups sorted, then the first group's sheets in order. */
  method ReportKey(key: string, gd: map<string, SheetTypes>) returns (r: Report)
    requires gd != map[]
    ensures r == KeyReport(key, gd)
  {
    var varGroups := SortedStrings(gd.Keys);
    assert varGroups == SortedGroups(gd);
    var sheetNames := gd[varGroups[0]].titles;
    var lines: seq<Missing> := [];
    for i := 0 to |sheetNames|
      invariant Then(lines, SheetsFrom(key, gd, varGroups, sheetNames[i..])) == KeyReport(key, gd)
    {
      SheetsFromNext(key, gd, varGroups, sheetNames, i, lines);
      var sheetLines := ReportSheet(key, gd, varGroups, sheetNames[i]);
      if sheetLines.None? {
        return Report(lines, true);
      }
      lines := lines + sheetLines.value;
    }
    assert lines + [] == lines;
    return Report(lines, false);
  }

  /** The loop of `main` over the group keys, in the order they were first stored. */
  method ReportKeys(data: Data) returns (r: Report)
    requires forall k :: k in data.keys ==> k in data.groups && data.groups[k] != map[]
    ensures r == KeysFrom(data, data.keys)
  {
    var lines: seq<Missing> := [];
    for i := 0 to |data.keys|
      invariant forall k :: k in data.keys[i..] ==> k in data.groups && data.groups[k] != map[]
      invariant Then(lines, KeysFrom(data, data.keys[i..])) == KeysFrom(data, data.keys)
    {
      KeysFromNext(data, data.keys, i, lines);
      var keyReport := ReportKey(data.keys[i], data.groups[data.keys[i]]);
      if keyReport.crashed {
        return Report(lines + keyReport.lines, true);
      }
      lines := lines + keyReport.lines;
    }
    assert lines + [] == lines;
    return Report(lines, false);
  }

  /** `main`: read every file that parses, then compare each group key's variable groups sheet by sheet. */
  method Run(listing: seq<string>, books: map<string, Workbook>) returns (r: Report)
    ensures r == Outcome(listing, books)
  {
    var read := CollectData(books, listing);
    if read.Raised? {
      return Report([], true);
    }
    ReadFromOk(books, listing, NO_DATA);
    r := ReportKeys(read.value);
  }
}
