/**
 * variable-integrate.py: for each country, the files split by variable group (`A`, `B`, ...) of
 * one year span are combined into one workbook. The group-A file is copied as the template, and
 * for every other group and every year of the span the data sheet the descriptor names is pasted,
 * without its key column, to the right of the columns already in the output's sheet of that name.
 * A span that fails a shape check is deleted and ends the country.
 */
module VariableIntegrate {
  import opened Common
  import opened Text
  import opened Sorting
  import opened Workbooks

  // ---------------------------------------------------------------------------------------------
  // File names

  predicate Year4(s: string) {
    |s| == 4 && AllDigits(s)
  }

  /** The groups of `(.+?)-(\d{4})(?:-(\d{4}))?([A-Z])$`: country, first year, second year, tag. */
  datatype NameGroups = NameGroups(country: string, y1: string, y2: Option<string>, tag: char)

  /** What the groups can hold: `.` matches any character but a newline, so the country holds none. */
  predicate WellFormedGroups(g: NameGroups) {
    |g.country| >= 1 && '\n' !in g.country && Year4(g.y1) && (g.y2.Some? ==> Year4(g.y2.value)) && IsUpper(g.tag)
  }

  /** The extension-less name the groups were matched from. */
  function Spelling(g: NameGroups): string {
    g.country + "-" + g.y1 + (if g.y2.Some? then "-" + g.y2.value else "") + [g.tag]
  }

  /** `-dddd-ddddL`: both years and the tag. */
  predicate SpanTail(t: string) {
    |t| == 11 && t[0] == '-' && Year4(t[1..5]) && t[5] == '-' && Year4(t[6..10]) && IsUpper(t[10])
  }

  /** `-ddddL`: one year and the tag. */
  predicate YearTail(t: string) {
    |t| == 6 && t[0] == '-' && Year4(t[1..5]) && IsUpper(t[5])
  }

  /** A country that itself ends in `-dddd`, which the lazy country group would not take whole. */
  predicate EndsInYear(country: string) {
    |country| >= 6 && country[|country| - 5] == '-' && Year4(country[|country| - 4..])
  }

  /**
   * The match of the pattern against an extension-less name. The rest is anchored by `$`, at the
   * end or in front of one final newline, and the country group is lazy, so only a country leaving
   * 11 or 6 characters can match, and the shorter country, the one with two years, is tried first.
   * The country holds no newline; when the shorter one holds one, so does the longer.
   */
  function MatchName(name: string): Option<NameGroups> {
    MatchBody(Unterminated(name))
  }

  /** The match ending at the end of `b`. */
  function MatchBody(b: string): Option<NameGroups> {
    var n := |b|;
    if n >= 12 && SpanTail(b[n - 11..]) && '\n' !in b[..n - 11] then Some(GroupsOf(b[..n - 11], b[n - 11..]))
    else if n >= 7 && YearTail(b[n - 6..]) && '\n' !in b[..n - 6] then Some(GroupsOf(b[..n - 6], b[n - 6..]))
    else None
  }

  /** The groups of a country and a matched `-dddd-ddddL` or `-ddddL` tail. */
  function GroupsOf(country: string, t: string): NameGroups
    requires |t| == 11 || |t| == 6
  {
    if |t| == 11 then NameGroups(country, t[1..5], Some(t[6..10]), t[10])
    else NameGroups(country, t[1..5], None, t[5])
  }

  /**
   * What the pattern matches is a well-formed name spelling the input back, less the one final
   * newline that `$` allows.
   */
  lemma MatchNameSound(name: string)
    ensures MatchName(name).Some? ==>
              WellFormedGroups(MatchName(name).value)
              && (name == Spelling(MatchName(name).value) || name == Spelling(MatchName(name).value) + "\n")
  {
    var b := Unterminated(name);
    var n := |b|;
    assert MatchName(name) == MatchBody(b);
    if n >= 12 && SpanTail(b[n - 11..]) && '\n' !in b[..n - 11] {
      assert MatchBody(b) == Some(GroupsOf(b[..n - 11], b[n - 11..]));
      SplitSpelling(b, n - 11);
    } else if n >= 7 && YearTail(b[n - 6..]) && '\n' !in b[..n - 6] {
      assert MatchBody(b) == Some(GroupsOf(b[..n - 6], b[n - 6..]));
      SplitSpelling(b, n - 6);
    }
  }

  /** Splitting a name before a matched tail and spelling the groups back gives the name. */
  lemma SplitSpelling(name: string, m: nat)
    requires 1 <= m <= |name| && (SpanTail(name[m..]) || YearTail(name[m..])) && '\n' !in name[..m]
    ensures WellFormedGroups(GroupsOf(name[..m], name[m..])) && Spelling(GroupsOf(name[..m], name[m..])) == name
  {
    TailSpelling(name[..m], name[m..]);
    assert name == name[..m] + name[m..];
  }

  lemma TailSpelling(country: string, t: string)
    requires |country| >= 1 && '\n' !in country && (SpanTail(t) || YearTail(t))
    ensures WellFormedGroups(GroupsOf(country, t)) && Spelling(GroupsOf(country, t)) == country + t
  {
    if |t| == 11 {
      assert t == "-" + t[1..5] + ("-" + t[6..10]) + [t[10]];
    } else {
      assert t == "-" + t[1..5] + "" + [t[5]];
    }
  }

  /**
   * Every name of the form matches, with or without one final newline; a name with two years, or
   * whose country does not itself end in `-dddd`, gives back exactly its own groups.
   */
  lemma MatchNameComplete(g: NameGroups, newline: bool)
    requires WellFormedGroups(g)
    ensures MatchName(Spelling(g) + (if newline then "\n" else "")).Some?
    ensures g.y2.Some? || !EndsInYear(g.country) ==> MatchName(Spelling(g) + (if newline then "\n" else "")) == Some(g)
  {
    var name := Spelling(g);
    assert name[|name| - 1] == g.tag;
    assert Unterminated(name + (if newline then "\n" else "")) == name;
    if g.y2.Some? { MatchTwoYears(g); } else { MatchOneYear(g); }
  }

  lemma MatchTwoYears(g: NameGroups)
    requires WellFormedGroups(g) && g.y2.Some?
    ensures MatchBody(Spelling(g)) == Some(g)
  {
    var name := Spelling(g);
    var t := "-" + g.y1 + "-" + g.y2.value + [g.tag];
    assert name == g.country + t;
    assert name[|name| - 11..] == t && name[..|name| - 11] == g.country;
    assert t[1..5] == g.y1 && t[6..10] == g.y2.value;
  }

  lemma MatchOneYear(g: NameGroups)
    requires WellFormedGroups(g) && g.y2.None?
    ensures MatchBody(Spelling(g)).Some?
    ensures !EndsInYear(g.country) ==> MatchBody(Spelling(g)) == Some(g)
  {
    var name := Spelling(g);
    var n := |name|;
    OneYearSpelling(g);
    if n >= 12 && SpanTail(name[n - 11..]) {
      SpanTailEndsInYear(g.country, "-" + g.y1 + [g.tag]);
      assert '\n' !in name[..n - 11] by {
        assert forall k :: 0 <= k < n - 11 ==> name[k] == g.country[k];
      }
    }
  }

  lemma OneYearSpelling(g: NameGroups)
    requires WellFormedGroups(g) && g.y2.None?
    ensures Spelling(g) == g.country + ("-" + g.y1 + [g.tag])
    ensures Spelling(g)[|Spelling(g)| - 6..] == "-" + g.y1 + [g.tag]
    ensures Spelling(g)[..|Spelling(g)| - 6] == g.country
    ensures YearTail(Spelling(g)[|Spelling(g)| - 6..])
    ensures GroupsOf(g.country, "-" + g.y1 + [g.tag]) == g
  {
    var t := "-" + g.y1 + [g.tag];
    assert Spelling(g) == g.country + t;
    assert t[1..5] == g.y1;
  }

  /** A two-year tail found across a country's end means the country itself ends in `-dddd`. */
  lemma SpanTailEndsInYear(country: string, t: string)
    requires |t| == 6 && |country| >= 6
    requires SpanTail((country + t)[|country| + 6 - 11..])
    ensures EndsInYear(country)
  {
    var s := country + t;
    var c := |country|;
    var u := s[c - 5..];
    assert u[0] == country[c - 5];
    var y, v := u[1..5], country[c - 4..];
    forall i | 0 <= i < 4 ensures IsDigit(v[i]) {
      assert y[i] == u[i + 1] == s[c - 4 + i] == v[i];
    }
  }

  /** A file of a variable group, as `parse_filename` returns it: `(country, int(y1), int(y2), var)`. */
  datatype VarName = VarName(country: string, start: int, end: int, tag: char)

  /** `parse_filename`: the groups of the extension-less name, the years as integers, the second year defaulting to the first. */
  function ParseFilename(fname: string): Option<VarName> {
    match MatchName(Stem(fname))
    case None => None
    case Some(g) =>
      MatchNameSound(Stem(fname));
      var y2 := if g.y2.Some? then g.y2.value else g.y1;
      Some(VarName(g.country, DigitsValue(g.y1), DigitsValue(y2), g.tag))
  }

  /**
   * A well-formed name saved as .xlsx or .xlsm parses to its country, its years as integers (the
   * end year being the start year when the name has one year) and its tag.
   */
  lemma ParseFilenameOf(g: NameGroups, ext: string)
    requires WellFormedGroups(g) && (g.y2.Some? || !EndsInYear(g.country))
    requires ext == ".xlsx" || ext == ".xlsm"
    ensures ParseFilename(Spelling(g) + ext)
         == Some(VarName(g.country, DigitsValue(g.y1), DigitsValue(if g.y2.Some? then g.y2.value else g.y1), g.tag))
  {
    var name := Spelling(g);
    assert name[|name| - 1] == g.tag;
    StemOfExtension(name, ext);
    MatchNameComplete(g, false);
    assert MatchName(name) == Some(g) by {
      assert name + (if false then "\n" else "") == name;
    }
  }

  /** A parsed file has a non-empty country, four-digit years and an upper-case tag. */
  lemma ParseFilenameBounds(fname: string)
    ensures ParseFilename(fname).Some? ==>
              var v := ParseFilename(fname).value;
              |v.country| >= 1 && 0 <= v.start <= 9999 && 0 <= v.end <= 9999 && IsUpper(v.tag)
  {
    var name := Stem(fname);
    MatchNameSound(name);
    if MatchName(name).Some? {
      var g := MatchName(name).value;
      FourDigitsBound(g.y1);
      if g.y2.Some? { FourDigitsBound(g.y2.value); }
    }
  }

  lemma FourDigitsBound(s: string)
    requires Year4(s)
    ensures DigitsValue(s) <= 9999
  {
    DigitsValueBelow(s);
    assert Pow10(4) == 10000;
  }

  /** The name of a span's output: `{country}-{start}.xlsx`, or `{country}-{start}-{end}.xlsx` when the years differ. */
  function OutputName(country: string, start: int, end: int): string {
    if end == start then country + "-" + IntToString(start) + ".xlsx"
    else country + "-" + IntToString(start) + "-" + IntToString(end) + ".xlsx"
  }

  // ---------------------------------------------------------------------------------------------
  // Finding a group's file

  /** `tag.xlsx` or `tag.xlsm`. */
  predicate ExtensionOf(t: string, tag: string) {
    t == tag + ".xlsx" || t == tag + ".xlsm"
  }

  /** The part after `{country}-{start}`: an optional `-dddd`, the tag and the extension. */
  predicate FileTail(t: string, tag: string) {
    ExtensionOf(t, tag) || (|t| >= 5 && t[0] == '-' && AllDigits(t[1..5]) && ExtensionOf(t[5..], tag))
  }

  /**
   * The match of `^{country}-{start}(?:-\d{4})?{tag}\.(xlsx|xlsm)$` against a file name: the
   * escaped country is taken literally, and `$` matches at the end or in front of one final newline.
   */
  predicate MatchesFile(f: string, country: string, start: int, tag: string) {
    var t := Unterminated(f);
    var p := country + "-" + IntToString(start);
    |p| <= |t| && t[..|p|] == p && FileTail(t[|p|..], tag)
  }

  /** The files matching the pattern, in listing order. */
  function Candidates(files: seq<string>, country: string, start: int, tag: string): seq<string> {
    if files == [] then []
    else
      var f := files[|files| - 1];
      Candidates(files[..|files| - 1], country, start, tag) + (if MatchesFile(f, country, start, tag) then [f] else [])
  }

  /** The candidates are exactly the listed files that match. */
  lemma {:induction false} CandidatesMeans(files: seq<string>, country: string, start: int, tag: string)
    ensures forall f :: f in Candidates(files, country, start, tag) <==> f in files && MatchesFile(f, country, start, tag)
  {
    if files != [] {
      var init, last := files[..|files| - 1], files[|files| - 1];
      CandidatesMeans(init, country, start, tag);
      assert files == init + [last];
      forall f ensures f in files <==> f in init || f == last {
      }
    }
  }

  /** The sort key `x.endswith(".xlsm")`: False (0) sorts before True (1). */
  function XlsmLast(f: string): int {
    if EndsWith(f, ".xlsm") then 1 else 0
  }

  /**
   * `find_excel_file`: the head of the matching files sorted, stably, by whether they end in
   * `.xlsm`; with no match the call raises FileNotFoundError.
   */
  function FindExcelFile(country: string, start: int, tag: string, files: seq<string>): (r: Result<string>)
    ensures r.Ok? ==> r.value in files
  {
    var c := Candidates(files, country, start, tag);
    if c == [] then Raised("FileNotFoundError: no file for the group")
    else
      CandidatesMeans(files, country, start, tag);
      SortByKeyHead(c, XlsmLast);
      Ok(SortByKey(c, XlsmLast)[0])
  }

  /** The search raises exactly when no listed file matches, and otherwise finds a listed match. */
  lemma FindExcelFileMeans(country: string, start: int, tag: string, files: seq<string>)
    ensures var r := FindExcelFile(country, start, tag, files);
            r.Raised? <==> forall f :: f in files ==> !MatchesFile(f, country, start, tag)
    ensures var r := FindExcelFile(country, start, tag, files);
            r.Ok? ==> r.value in files && MatchesFile(r.value, country, start, tag)
  {
    var c := Candidates(files, country, start, tag);
    CandidatesMeans(files, country, start, tag);
    if c != [] {
      assert c[0] in c;
      SortByKeyHead(c, XlsmLast);
    }
  }

  /**
   * The file found is an `.xlsx` match whenever there is one, and the first listed match of its
   * kind.
   */
  lemma FindExcelFilePrefers(country: string, start: int, tag: string, files: seq<string>)
    ensures var r := FindExcelFile(country, start, tag, files);
            r.Ok? && XlsmLast(r.value) == 1 ==>
              forall f :: f in files && MatchesFile(f, country, start, tag) ==> XlsmLast(f) == 1
    ensures var r := FindExcelFile(country, start, tag, files);
            var c := Candidates(files, country, start, tag);
            r.Ok? ==>
              exists i :: 0 <= i < |c| && c[i] == r.value && forall j :: 0 <= j < i ==> XlsmLast(c[j]) != XlsmLast(r.value)
  {
    var c := Candidates(files, country, start, tag);
    CandidatesMeans(files, country, start, tag);
    if c != [] {
      FindExcelFileIsHead(country, start, tag, files);
      SortByKeyHead(c, XlsmLast);
      SortByKeyHeadFirst(c, XlsmLast);
    }
  }

  lemma FindExcelFileIsHead(country: string, start: int, tag: string, files: seq<string>)
    requires Candidates(files, country, start, tag) != []
    ensures FindExcelFile(country, start, tag, files) == Ok(SortByKey(Candidates(files, country, start, tag), XlsmLast)[0])
  {
  }

  // ---------------------------------------------------------------------------------------------
  // Year spans

  /** The years `(y1, y2)` of one file; the second year has already defaulted to the first. */
  datatype Span = Span(start: int, end: int)

  function SpanStart(s: Span): int {
    s.start
  }

  /**
   * The pass of `check_year_span_consistency` over spans sorted by start: `current` is the span of
   * the group being read and `closed` the groups already ended. A span starting inside the current
   * one must be that very span, and a span starting after it ends the group and starts the next.
   */
  function Leaders(rest: seq<Span>, current: Span, closed: seq<Span>): Option<seq<Span>> {
    if rest == [] then Some(closed + [current])
    else if rest[0].start <= current.end then
      if rest[0] != current then None else Leaders(rest[1..], current, closed)
    else Leaders(rest[1..], rest[0], closed + [current])
  }

  /** Some span of the list starts no later than the one before it ends. */
  predicate Overlapping(list: seq<Span>) {
    exists i :: 1 <= i < |list| && list[i].start <= list[i - 1].end
  }

  /**
   * `check_year_span_consistency`: the spans sorted (stably) by start, the pass above, then the
   * check that no listed span overlaps the one before it; None stands for `(False, None)`.
   */
  function SpanCheck(spans: seq<Span>): Option<seq<Span>>
    requires spans != []
  {
    var sorted := SortByKey(spans, SpanStart);
    match Leaders(sorted[1..], sorted[0], [])
    case None => None
    case Some(list) => if Overlapping(list) then None else Some(list)
  }

  method CheckYearSpanConsistency(spans: seq<Span>) returns (r: Option<seq<Span>>)
    requires spans != []
    ensures r == SpanCheck(spans)
  {
    var sorted := SortByKey(spans, SpanStart);
    r := GroupLeaders(sorted);
    if r.Some? {
      var overlap := HasOverlap(r.value);
      if overlap {
        r := None;
      }
    }
  }

  /** The first loop of the check over the sorted spans. */
  method GroupLeaders(sorted: seq<Span>) returns (r: Option<seq<Span>>)
    requires sorted != []
    ensures r == Leaders(sorted[1..], sorted[0], [])
  {
    var list: seq<Span> := [];
    var current := sorted[0];
    for k := 1 to |sorted|
      invariant Leaders(sorted[1..], sorted[0], []) == Leaders(sorted[k..], current, list)
    {
      var s := sorted[k];
      assert sorted[k..][0] == s && sorted[k..][1..] == sorted[k + 1..];
      if s.start <= current.end {
        if s != current {
          return None;
        }
      } else {
        list := list + [current];
        current := s;
      }
    }
    r := Some(list + [current]);
  }

  /** The second loop of the check: some listed span starts no later than the one before it ends. */
  method HasOverlap(list: seq<Span>) returns (b: bool)
    ensures b <==> Overlapping(list)
  {
    if list == [] {
      return false;
    }
    for i := 1 to |list|
      invariant forall j :: 1 <= j < i ==> list[j].start > list[j - 1].end
    {
      if list[i].start <= list[i - 1].end {
        return true;
      }
    }
    b := false;
  }

  /** In start order, every span that starts inside an earlier span is that same span. */
  predicate Agreeing(sorted: seq<Span>) {
    forall i, j :: 0 <= i < j < |sorted| && sorted[j].start <= sorted[i].end ==> sorted[j] == sorted[i]
  }

  /** Each span starts after the one before it ends, and no earlier than it starts. */
  predicate Separated(list: seq<Span>) {
    forall i :: 1 <= i < |list| ==> list[i - 1].end < list[i].start && list[i - 1].start <= list[i].start
  }

  /**
   * The check passes exactly when the sorted spans agree; it then returns its groups in order,
   * each starting after the previous one ends, and these are exactly the distinct spans given.
   */
  lemma SpanCheckMeans(spans: seq<Span>)
    requires spans != []
    ensures SpanCheck(spans).Some? <==> Agreeing(SortByKey(spans, SpanStart))
    ensures SpanCheck(spans).Some? ==>
              var list := SpanCheck(spans).value;
              Separated(list) && forall s :: s in list <==> s in spans
  {
    var sorted := SortByKey(spans, SpanStart);
    assert [sorted[0]] + sorted[1..] == sorted;
    LeadersAgree(sorted[1..], sorted[0], []);
    LeadersShape(sorted[1..], sorted[0], []);
    OverlapNeverRejects(spans);
    forall s ensures s in sorted <==> s in spans {
      assert s in sorted <==> s in multiset(sorted);
    }
  }

  /** The overlap loop never rejects: the groups the first pass lists are already separated. */
  lemma OverlapNeverRejects(spans: seq<Span>)
    requires spans != []
    ensures var sorted := SortByKey(spans, SpanStart);
            SpanCheck(spans) == Leaders(sorted[1..], sorted[0], [])
  {
    var sorted := SortByKey(spans, SpanStart);
    assert [sorted[0]] + sorted[1..] == sorted;
    LeadersShape(sorted[1..], sorted[0], []);
  }

  lemma {:induction false} LeadersAgree(rest: seq<Span>, current: Span, closed: seq<Span>)
    requires SortedBy([current] + rest, SpanStart)
    ensures Leaders(rest, current, closed).Some? <==> Agreeing([current] + rest)
  {
    var s := [current] + rest;
    if rest != [] {
      assert s[1..] == rest;
      SortedTail(s, SpanStart);
      if rest[0].start <= current.end {
        if rest[0] != current {
          assert s[1].start <= s[0].end && s[1] != s[0];
        } else {
          assert [current] + rest[1..] == rest;
          LeadersAgree(rest[1..], current, closed);
          AgreeingCons(current, rest);
        }
      } else {
        assert [rest[0]] + rest[1..] == rest;
        LeadersAgree(rest[1..], rest[0], closed + [current]);
        AgreeingCons(current, rest);
      }
    }
  }

  /** Putting a span in front of sorted spans that either repeat it or start after it ends keeps them agreeing. */
  lemma AgreeingCons(current: Span, rest: seq<Span>)
    requires rest != [] && SortedBy([current] + rest, SpanStart)
    requires rest[0] == current || rest[0].start > current.end
    ensures Agreeing([current] + rest) <==> Agreeing(rest)
  {
    var s := [current] + rest;
    if Agreeing(s) {
      forall i, j | 0 <= i < j < |rest| && rest[j].start <= rest[i].end ensures rest[j] == rest[i] {
        assert rest[i] == s[i + 1] && rest[j] == s[j + 1];
      }
    }
    if Agreeing(rest) {
      forall i, j | 0 <= i < j < |s| && s[j].start <= s[i].end ensures s[j] == s[i] {
        if i == 0 {
          assert SpanStart(s[1]) <= SpanStart(s[j]);
          assert s[1] == rest[0];
          if j > 1 { assert s[j] == rest[j - 1]; }
        } else {
          assert s[i] == rest[i - 1] && s[j] == rest[j - 1];
        }
      }
    }
  }

  lemma {:induction false} LeadersShape(rest: seq<Span>, current: Span, closed: seq<Span>)
    requires SortedBy([current] + rest, SpanStart)
    requires Separated(closed + [current])
    ensures Leaders(rest, current, closed).Some? ==>
              var list := Leaders(rest, current, closed).value;
              && Separated(list) && !Overlapping(list)
              && (forall x :: x in list <==> x in closed || x in [current] + rest)
  {
    var s := [current] + rest;
    if rest == [] {
      assert forall x :: x in s <==> x == current;
    } else {
      assert s[1..] == rest;
      SortedTail(s, SpanStart);
      if rest[0].start <= current.end {
        if rest[0] == current {
          assert [current] + rest[1..] == rest;
          LeadersShape(rest[1..], current, closed);
        }
      } else {
        assert [rest[0]] + rest[1..] == rest;
        var next := closed + [current] + [rest[0]];
        assert SpanStart(s[0]) <= SpanStart(s[1]);
        assert forall k :: 0 <= k < |next| - 1 ==> next[k] == (closed + [current])[k];
        LeadersShape(rest[1..], rest[0], closed + [current]);
      }
    }
  }

  // ---------------------------------------------------------------------------------------------
  // The descriptor row of a year

  /** The data sheet of a year as the descriptor names it, with the shape it promises. */
  datatype SheetLoc = SheetLoc(sheet: string, rows: int, cols: int)

  /** The first descriptor row from sheet row `r` on whose year cell (column G) holds `year`. */
  function YearRow(req: Sheet, year: int, r: nat): Option<nat>
    decreases |req| + 1 - r
  {
    if r > |req| then None
    else if IntOf(CellAt(req, r, COL_G)) == Some(year) then Some(r)
    else YearRow(req, year, r + 1)
  }

  /** The row found holds the year and no row between `r` and it does; without one, no row from `r` on does. */
  lemma {:induction false} YearRowFirst(req: Sheet, year: int, r: nat)
    ensures var found := YearRow(req, year, r);
            found.Some? ==> r <= found.value <= |req| && IntOf(CellAt(req, found.value, COL_G)) == Some(year)
    ensures var found := YearRow(req, year, r);
            forall k :: r <= k && (found.None? || k < found.value) ==> IntOf(CellAt(req, k, COL_G)) != Some(year)
    decreases |req| + 1 - r
  {
    if r <= |req| && IntOf(CellAt(req, r, COL_G)) != Some(year) {
      YearRowFirst(req, year, r + 1);
    }
  }

  /**
   * `get_sheet_for_year`: the first row from row 7 whose year is `year` gives the sheet named by its
   * reference (column K) and the expected rows (N) and columns (O). No such row raises ValueError;
   * a reference that is not text, or a count that is not an integer, raises as well.
   */
  function GetSheetForYear(req: Sheet, year: int): (r: Result<SheetLoc>)
    ensures r.Ok? ==> '!' !in r.value.sheet && '\'' !in r.value.sheet
  {
    match YearRow(req, year, DESC_FIRST_ROW)
    case None => Raised("ValueError: the year is not in REQUEST_TABLE")
    case Some(row) =>
      var ref := CellAt(req, row, COL_K);
      var rows := IntOf(CellAt(req, row, COL_N));
      var cols := IntOf(CellAt(req, row, COL_O));
      if !(ref.Some? && ref.value.Str?) then Raised("AttributeError: the sheet reference is not text")
      else if rows.None? || cols.None? then Raised("ValueError: the expected size is not an integer")
      else Ok(SheetLoc(ExtractSheetName(ref.value.s), rows.value, cols.value))
  }

  /** A year no descriptor row holds raises. */
  lemma GetSheetForYearMissing(req: Sheet, year: int)
    requires forall k :: DESC_FIRST_ROW <= k ==> IntOf(CellAt(req, k, COL_G)) != Some(year)
    ensures GetSheetForYear(req, year).Raised?
  {
    YearRowFirst(req, year, DESC_FIRST_ROW);
  }

  /** The row read is the first one holding the year: a later row with the same year is never used. */
  lemma GetSheetForYearFirst(req: Sheet, year: int, row: nat, ref: string, rows: int, cols: int)
    requires DESC_FIRST_ROW <= row && IntOf(CellAt(req, row, COL_G)) == Some(year)
    requires forall k :: DESC_FIRST_ROW <= k < row ==> IntOf(CellAt(req, k, COL_G)) != Some(year)
    requires CellAt(req, row, COL_K) == Some(Str(ref))
    requires IntOf(CellAt(req, row, COL_N)) == Some(rows) && IntOf(CellAt(req, row, COL_O)) == Some(cols)
    ensures GetSheetForYear(req, year) == Ok(SheetLoc(ExtractSheetName(ref), rows, cols))
  {
    YearRowIs(req, year, DESC_FIRST_ROW, row);
  }

  /** The row holding the year with no row before it holding it is the row found. */
  lemma YearRowIs(req: Sheet, year: int, r: nat, row: nat)
    requires r <= row && IntOf(CellAt(req, row, COL_G)) == Some(year)
    requires forall k :: r <= k < row ==> IntOf(CellAt(req, k, COL_G)) != Some(year)
    ensures YearRow(req, year, r) == Some(row)
  {
    YearRowFirst(req, year, r);
    var found := YearRow(req, year, r);
    assert found.Some? && found.value <= row;
    assert found.value >= row;
  }

  // ---------------------------------------------------------------------------------------------
  // Pasting a data sheet

  /** A data sheet as `pd.read_excel` reads it: the header row's values and the rows below it. */
  datatype Frame = Frame(columns: Row, data: seq<Row>)

  /** Every row of the frame has one value per column. */
  predicate Rectangular(f: Frame) {
    forall i :: 0 <= i < |f.data| ==> |f.data[i]| == |f.columns|
  }

  /** A row without its first cell (`iloc[:, 1:]`). */
  function DropFirst(row: Row): Row {
    if row == [] then [] else row[1..]
  }

  function DropFirstAll(rows: seq<Row>): (r: seq<Row>)
    ensures |r| == |rows|
    ensures forall i :: 0 <= i < |rows| ==> r[i] == DropFirst(rows[i])
  {
    if rows == [] then [] else [DropFirst(rows[0])] + DropFirstAll(rows[1..])
  }

  /**
   * `dataframe_to_rows(df.iloc[:, 1:], index=False, header=True)`: the header, then the data rows,
   * each without the first (key) column.
   */
  function RowsToWrite(f: Frame): seq<Row> {
    [DropFirst(f.columns)] + DropFirstAll(f.data)
  }

  /** The sheet holds no value at all. */
  predicate NoValues(rows: Sheet) {
    forall i :: 0 <= i < |rows| ==> IsBlankRow(rows[i])
  }

  /**
   * `append_column`'s first column to write to: column 1 when `max_column` is 1 and A1 is empty,
   * the column after `max_column` otherwise.
   */
  function StartColumn(rows: Sheet): (c: nat)
    ensures c >= 1
  {
    if MaxColumn(rows) == 1 && CellAt(rows, 1, 1).None? then 1 else MaxColumn(rows) + 1
  }

  /** The first column as the comments at the test intend: column 1 only on a sheet with no value. */
  function IntendedStartColumn(rows: Sheet): (c: nat)
    ensures c >= 1
  {
    if MaxColumn(rows) == 1 && NoValues(rows) then 1 else MaxColumn(rows) + 1
  }

  /**
   * The two rules part exactly on a sheet whose only column holds a value below an empty A1, and
   * there the paste starts in column 1 rather than column 2.
   */
  lemma StartColumnsDiffer(rows: Sheet)
    ensures StartColumn(rows) != IntendedStartColumn(rows)
            <==> MaxColumn(rows) == 1 && CellAt(rows, 1, 1).None? && !NoValues(rows)
    ensures StartColumn(rows) != IntendedStartColumn(rows) ==> StartColumn(rows) == 1 && IntendedStartColumn(rows) == 2
  {
    if NoValues(rows) && 1 <= |rows| && 1 <= |rows[0]| {
      assert IsBlankRow(rows[0]);
    }
  }

  /**
   * From the start column rightwards the sheet holds no value, except in column 1 below the
   * header row, which an empty A1 leaves unchecked.
   */
  lemma StartColumnClear(rows: Sheet)
    ensures forall r, c :: StartColumn(rows) <= c && (r == 1 || c >= 2) ==> CellAt(rows, r, c).None?
  {
    MaxWidthBounds(rows);
  }

  /** From the intended start column rightwards the sheet holds no value, so nothing written there overwrites one. */
  lemma IntendedStartColumnClear(rows: Sheet)
    ensures forall r, c :: IntendedStartColumn(rows) <= c ==> CellAt(rows, r, c).None?
  {
    MaxWidthBounds(rows);
    forall r, c | IntendedStartColumn(rows) <= c ensures CellAt(rows, r, c).None? {
      if 1 <= r <= |rows| && 1 <= c <= |rows[r - 1]| {
        assert IsBlankRow(rows[r - 1]);
      }
    }
  }

  /** The cells of the sheet after `append_column` pastes the frame from its start column on, header in row 1. */
  function ColumnWritten(rows: Sheet, f: Frame): Sheet {
    WriteBlock(rows, RowsToWrite(f), StartColumn(rows))
  }

  /** The cells of the sheet after the frame is pasted from the intended start column on. */
  function IntendedColumnWritten(rows: Sheet, f: Frame): Sheet {
    WriteBlock(rows, RowsToWrite(f), IntendedStartColumn(rows))
  }

  /**
   * A sheet whose only column holds a value below an empty A1 is taken for an empty sheet: the
   * paste starts in column 1 and overwrites that value, where the intended paste keeps it.
   */
  lemma AsWrittenOverwrites()
    ensures var rows: Sheet := [[None], [Some(Str("x"))]];
            var f := Frame([Some(Str("key")), Some(Str("v"))], [[Some(Str("k")), Some(Str("y"))]]);
            && CellAt(rows, 2, 1) == Some(Str("x"))
            && CellAt(ColumnWritten(rows, f), 2, 1) == Some(Str("y"))
            && CellAt(IntendedColumnWritten(rows, f), 2, 1) == Some(Str("x"))
  {
    var rows: Sheet := [[None], [Some(Str("x"))]];
    var f := Frame([Some(Str("key")), Some(Str("v"))], [[Some(Str("k")), Some(Str("y"))]]);
    assert MaxWidth(rows) == 1;
    assert !NoValues(rows) by {
      assert rows[1][0].Some?;
      assert !IsBlankRow(rows[1]);
    }
    var block := RowsToWrite(f);
    assert block[1] == [Some(Str("y"))];
    WriteBlockCells(rows, block, 1);
    WriteBlockCells(rows, block, 2);
  }

  /**
   * The paste changes a value already in the sheet only where the two rules part, and only in
   * column 1, below the header row and within the frame's rows.
   */
  lemma ColumnWrittenOverwrites(rows: Sheet, f: Frame)
    ensures forall r, c :: CellAt(rows, r, c).Some? && CellAt(ColumnWritten(rows, f), r, c) != CellAt(rows, r, c) ==>
              StartColumn(rows) != IntendedStartColumn(rows) && c == 1 && 2 <= r <= |f.data| + 1
  {
    var block, start := RowsToWrite(f), StartColumn(rows);
    WriteBlockCells(rows, block, start);
    StartColumnClear(rows);
    StartColumnsDiffer(rows);
    forall r, c | CellAt(rows, r, c).Some? && CellAt(ColumnWritten(rows, f), r, c) != CellAt(rows, r, c)
      ensures StartColumn(rows) != IntendedStartColumn(rows) && c == 1 && 2 <= r <= |f.data| + 1
    {
      assert !NoValues(rows) by {
        assert !IsBlankRow(rows[r - 1]) by { assert rows[r - 1][c - 1].Some?; }
      }
    }
  }

  /**
   * Row 1 receives the header and row i + 2 data row i, each without its key column, from the
   * start column on; a data cell without a value leaves a value already there in place.
   */
  lemma ColumnWrittenPlaces(rows: Sheet, f: Frame)
    ensures var w, start := ColumnWritten(rows, f), StartColumn(rows);
            && (forall k :: 1 <= k < |f.columns| ==> CellAt(w, 1, start + k - 1) == f.columns[k])
            && (forall i, k :: 0 <= i < |f.data| && 1 <= k < |f.data[i]| ==>
                  CellAt(w, i + 2, start + k - 1) == if f.data[i][k].Some? then f.data[i][k] else CellAt(rows, i + 2, start + k - 1))
  {
    var block, start := RowsToWrite(f), StartColumn(rows);
    var w := ColumnWritten(rows, f);
    WriteBlockCells(rows, block, start);
    forall k | 1 <= k < |f.columns| ensures CellAt(w, 1, start + k - 1) == f.columns[k] {
      HeaderPlaced(rows, f, k);
    }
    forall i, k | 0 <= i < |f.data| && 1 <= k < |f.data[i]|
      ensures CellAt(w, i + 2, start + k - 1) == if f.data[i][k].Some? then f.data[i][k] else CellAt(rows, i + 2, start + k - 1)
    {
      assert block[i + 1] == DropFirst(f.data[i]);
      assert block[i + 1][k - 1] == f.data[i][k];
    }
  }

  /** One header cell lands in row 1, where the sheet held no value from the start column on. */
  lemma HeaderPlaced(rows: Sheet, f: Frame, k: nat)
    requires 1 <= k < |f.columns|
    ensures CellAt(ColumnWritten(rows, f), 1, StartColumn(rows) + k - 1) == f.columns[k]
  {
    var block, start := RowsToWrite(f), StartColumn(rows);
    WriteBlockCells(rows, block, start);
    StartColumnClear(rows);
    assert block[0][k - 1] == f.columns[k];
  }

  /**
   * When the frame has a key column and at least one more, the sheet afterwards ends in the last
   * column pasted, so the next paste starts right after it.
   */
  lemma ColumnWrittenWidth(rows: Sheet, f: Frame)
    requires Rectangular(f) && |f.columns| >= 2
    ensures MaxColumn(ColumnWritten(rows, f)) == StartColumn(rows) + |f.columns| - 2
  {
    var block := RowsToWrite(f);
    var w := |f.columns| - 1;
    assert forall i :: 0 <= i < |block| ==> |block[i]| == w by {
      forall i | 0 <= i < |block| ensures |block[i]| == w {
        if i > 0 { assert block[i] == DropFirst(f.data[i - 1]); }
      }
    }
    WriteBlockWidth(rows, block, StartColumn(rows), w);
  }

  /**
   * The intended paste changes exactly the cells of its block: cell (r, c) with r within the
   * block's rows and c within row r's width from the start column holds the block's value there,
   * and every other cell keeps its value.
   */
  lemma IntendedColumnWrittenCells(rows: Sheet, f: Frame)
    ensures var block, start := RowsToWrite(f), IntendedStartColumn(rows);
            forall r, c :: CellAt(IntendedColumnWritten(rows, f), r, c)
                        == if 1 <= r <= |block| && start <= c < start + |block[r - 1]| then block[r - 1][c - start]
                           else CellAt(rows, r, c)
  {
    var block, start := RowsToWrite(f), IntendedStartColumn(rows);
    WriteBlockCells(rows, block, start);
    IntendedStartColumnClear(rows);
  }

  /** No value of the sheet is changed by the intended paste. */
  lemma IntendedColumnWrittenKeeps(rows: Sheet, f: Frame)
    ensures forall r, c :: CellAt(rows, r, c).Some? ==> CellAt(IntendedColumnWritten(rows, f), r, c) == CellAt(rows, r, c)
  {
    IntendedColumnWrittenCells(rows, f);
    IntendedStartColumnClear(rows);
  }

  /** `append_column`: the frame pasted into the sheet `title` of the workbook, which is created when missing. */
  method AppendColumn(wb: Workbook, f: Frame, title: string) returns (r: Workbook)
    ensures r == PutSheet(wb, title, ColumnWritten(SheetOr(wb, title), f))
  {
    var ws := new Worksheet(SheetOr(wb, title));
    var col := StartColumn(ws.rows);
    WriteBlockAt(ws, RowsToWrite(f), col);
    r := PutSheet(wb, title, ws.rows);
  }

  /** The outer loop of `append_column`: row i of the block written into sheet row i + 1 from column `col` on. */
  method WriteBlockAt(ws: Worksheet, block: seq<Row>, col: nat)
    requires col >= 1
    modifies ws
    ensures ws.rows == WriteBlock(old(ws.rows), block, col)
  {
    for i := 0 to |block|
      invariant ws.rows == WriteBlock(old(ws.rows), block[..i], col)
    {
      WriteRowAt(ws, i + 1, block[i], col);
      assert block[..i + 1][..i] == block[..i];
    }
    assert block[..|block|] == block;
  }

  /** The inner loop of `append_column`: the cells of one row written into sheet row `r` from column `col` on. */
  method WriteRowAt(ws: Worksheet, r: nat, row: Row, col: nat)
    requires r >= 1 && col >= 1
    modifies ws
    ensures ws.rows == WriteRow(old(ws.rows), r, row, col)
  {
    for j := 0 to |row|
      invariant ws.rows == WriteRow(old(ws.rows), r, row[..j], col)
    {
      ws.SetCell(r, col + j, row[j]);
      assert row[..j + 1][..j] == row[..j];
    }
    assert row[..|row|] == row;
  }

  // ---------------------------------------------------------------------------------------------
  // Grouping the files

  /** The files that parse, in listing order (`parsed` once the None entries are dropped). */
  function ParsedNames(files: seq<string>): seq<VarName> {
    Somes(seq(|files|, i requires 0 <= i < |files| => ParseFilename(files[i])))
  }

  /** A name is parsed exactly when some listed file parses to it. */
  lemma ParsedNamesMeans(files: seq<string>, v: VarName)
    ensures v in ParsedNames(files) <==> exists f :: f in files && ParseFilename(f) == Some(v)
  {
    var opts := seq(|files|, i requires 0 <= i < |files| => ParseFilename(files[i]));
    SomesMeans(opts, v);
    if Some(v) in opts {
      var i :| 0 <= i < |opts| && opts[i] == Some(v);
      assert files[i] in files;
    }
    if exists f :: f in files && ParseFilename(f) == Some(v) {
      var f :| f in files && ParseFilename(f) == Some(v);
      var i :| 0 <= i < |files| && files[i] == f;
      assert opts[i] == Some(v);
    }
  }

  /**
   * The countries in the order `grouped` first sees them: a country enters with its first file
   * whose span holds at least one year (`range(y1, y2 + 1)` is not empty).
   */
  function CountriesOf(parsed: seq<VarName>): (cs: seq<string>)
    ensures forall c :: c in cs <==> exists v :: v in parsed && v.country == c && v.start <= v.end
    ensures forall i, j :: 0 <= i < j < |cs| ==> cs[i] != cs[j]
  {
    if parsed == [] then []
    else
      var cs := CountriesOf(parsed[..|parsed| - 1]);
      var v := parsed[|parsed| - 1];
      if v.start <= v.end && v.country !in cs then cs + [v.country] else cs
  }

  /** `country_year_spans[c]`: the spans of the country's files, in listing order. */
  function SpansOf(parsed: seq<VarName>, c: string): (spans: seq<Span>)
    ensures forall s :: s in spans <==> exists v :: v in parsed && v.country == c && s == Span(v.start, v.end)
  {
    if parsed == [] then []
    else
      var v := parsed[|parsed| - 1];
      SpansOf(parsed[..|parsed| - 1], c) + (if v.country == c then [Span(v.start, v.end)] else [])
  }

  /** The grouping loop of `main`: the keys of `grouped` in order, and `country_year_spans`. */
  method GroupSpans(parsed: seq<VarName>) returns (countries: seq<string>, spans: map<string, seq<Span>>)
    ensures countries == CountriesOf(parsed)
    ensures forall c :: SpansOf(parsed, c) == if c in spans then spans[c] else []
  {
    countries := [];
    spans := map[];
    for i := 0 to |parsed|
      invariant countries == CountriesOf(parsed[..i])
      invariant forall c :: SpansOf(parsed[..i], c) == if c in spans then spans[c] else []
    {
      var v := parsed[i];
      assert parsed[..i + 1][..i] == parsed[..i] && parsed[..i + 1][i] == v;
      var prior := if v.country in spans then spans[v.country] else [];
      spans := spans[v.country := prior + [Span(v.start, v.end)]];
      if v.start <= v.end && v.country !in countries {
        countries := countries + [v.country];
      }
    }
    assert parsed[..|parsed|] == parsed;
  }

  /** A country of `grouped` has at least one span, so the span check may index its first. */
  lemma CountrySpans(parsed: seq<VarName>, c: string)
    requires c in CountriesOf(parsed)
    ensures SpansOf(parsed, c) != []
  {
    var v :| v in parsed && v.country == c && v.start <= v.end;
    assert Span(v.start, v.end) in SpansOf(parsed, c);
  }

  /** The files of a span (`block_files` before sorting): the country's files lying within it, in listing order. */
  function BlockOf(parsed: seq<VarName>, country: string, span: Span): (r: seq<VarName>)
    ensures forall v :: v in r <==> v in parsed && v.country == country && v.start >= span.start && v.end <= span.end
  {
    if parsed == [] then []
    else
      var v := parsed[|parsed| - 1];
      BlockOf(parsed[..|parsed| - 1], country, span)
      + (if v.country == country && v.start >= span.start && v.end <= span.end then [v] else [])
  }

  function TagKey(v: VarName): int {
    v.tag as int
  }

  /** `sorted(block_files, key=lambda x: x[2])`. */
  function Block(parsed: seq<VarName>, country: string, span: Span): seq<VarName> {
    SortByKey(BlockOf(parsed, country, span), TagKey)
  }

  /**
   * The block holds exactly the span's files, in tag order, and files of the same tag keep their
   * listing order.
   */
  lemma BlockInTagOrder(parsed: seq<VarName>, country: string, span: Span)
    ensures var b := Block(parsed, country, span);
            && SortedBy(b, TagKey)
            && (forall v :: v in b <==> v in parsed && v.country == country && v.start >= span.start && v.end <= span.end)
            && forall k :: WithKey(b, TagKey, k) == WithKey(BlockOf(parsed, country, span), TagKey, k)
  {
    var b, u := Block(parsed, country, span), BlockOf(parsed, country, span);
    forall v ensures v in b <==> v in u {
      assert v in b <==> v in multiset(b);
    }
    forall k ensures WithKey(b, TagKey, k) == WithKey(u, TagKey, k) {
      SortByKeyStable(u, TagKey, k);
    }
  }

  // ---------------------------------------------------------------------------------------------
  // The run

  /** A workbook of the input folder: its sheets, and each data sheet as `pd.read_excel` reads it. */
  datatype SourceBook = SourceBook(wb: Workbook, frames: map<string, Frame>)

  /** The input folder's Excel files in listing order, their contents, and the names that parse. */
  datatype Inputs = Inputs(files: seq<string>, books: map<string, SourceBook>, parsed: seq<VarName>)

  /** Every listed file can be opened. */
  predicate Loadable(ins: Inputs) {
    forall f :: f in ins.files ==> f in ins.books
  }

  /** How far a span's block got: the output workbook, whether a file failed (`skip_country`), whether an exception ended the run. */
  datatype Progress = Progress(out: Workbook, failed: bool, crashed: bool)

  /** How far the run got: the output folder, whether the last span failed, whether an exception ended the run. */
  datatype Step = Step(dir: map<string, Workbook>, failed: bool, crashed: bool)

  /** A year of a non-A file fails: no descriptor row, no such sheet, or a shape other than the descriptor's. */
  predicate YearFails(req: Sheet, src: SourceBook, year: int) {
    match GetSheetForYear(req, year)
    case Raised(_) => true
    case Ok(loc) =>
      loc.sheet !in src.frames
      || |src.frames[loc.sheet].data| + 1 != loc.rows || |src.frames[loc.sheet].columns| != loc.cols
  }

  /** The `try` block for one year: the data sheet pasted into the output workbook, or None when the year fails. */
  function PasteYear(req: Sheet, src: SourceBook, out: Workbook, year: int): (r: Option<Workbook>)
    ensures r.None? <==> YearFails(req, src, year)
  {
    match GetSheetForYear(req, year)
    case Raised(_) => None
    case Ok(loc) =>
      if loc.sheet !in src.frames then None
      else
        var f := src.frames[loc.sheet];
        if |f.data| + 1 != loc.rows || |f.columns| != loc.cols then None
        else Some(PutSheet(out, loc.sheet, ColumnWritten(SheetOr(out, loc.sheet), f)))
  }

  /**
   * The years `s..y-1` of a file pasted in turn into the output, and whether one of them failed:
   * the first year that fails ends the loop and leaves the output as the years before it made it.
   */
  function YearsTo(req: Sheet, src: SourceBook, out: Workbook, s: int, y: int): (Workbook, bool)
    decreases y - s
  {
    if y <= s then (out, false)
    else
      var (o, failed) := YearsTo(req, src, out, s, y - 1);
      if failed then (o, true)
      else
        match PasteYear(req, src, o, y - 1)
        case None => (o, true)
        case Some(wb) => (wb, false)
  }

  /** Once a year has failed, later years change nothing. */
  lemma {:induction false} YearsToStays(req: Sheet, src: SourceBook, out: Workbook, s: int, y: int, z: int)
    requires y <= z && YearsTo(req, src, out, s, y).1
    ensures YearsTo(req, src, out, s, z) == YearsTo(req, src, out, s, y)
    decreases z - y
  {
    if y < z {
      YearsToStays(req, src, out, s, y, z - 1);
    }
  }

  /** The loop fails exactly when one of its years fails. */
  lemma {:induction false} YearsToFails(req: Sheet, src: SourceBook, out: Workbook, s: int, y: int)
    ensures YearsTo(req, src, out, s, y).1 <==> exists k :: s <= k < y && YearFails(req, src, k)
    decreases y - s
  {
    if y > s {
      YearsToFails(req, src, out, s, y - 1);
      if !YearsTo(req, src, out, s, y - 1).1 && !YearsTo(req, src, out, s, y).1 {
        forall k | s <= k < y ensures !YearFails(req, src, k) {
          if k == y - 1 {
          }
        }
      }
    }
  }

  /** The file of a block entry cannot be found or has no descriptor: `find_excel_file` or `read_request_table` raises. */
  predicate FileCrashes(ins: Inputs, country: string, v: VarName)
    requires Loadable(ins)
  {
    match FindExcelFile(country, v.start, [v.tag], ins.files)
    case Raised(_) => true
    case Ok(f) => REQUEST_TABLE !in SheetNames(ins.books[f].wb)
  }

  /** The descriptor of the file a block entry names. */
  function RequestTable(ins: Inputs, country: string, v: VarName): Sheet
    requires Loadable(ins) && !FileCrashes(ins, country, v)
  {
    Lookup(ins.books[FindExcelFile(country, v.start, [v.tag], ins.files).value].wb, REQUEST_TABLE).value
  }

  /** The workbook of the file a block entry names. */
  function SourceOf(ins: Inputs, country: string, v: VarName): SourceBook
    requires Loadable(ins) && !FileCrashes(ins, country, v)
  {
    ins.books[FindExcelFile(country, v.start, [v.tag], ins.files).value]
  }

  /** A block entry of a group other than A has a year that fails. */
  predicate FileFails(ins: Inputs, country: string, v: VarName)
    requires Loadable(ins) && !FileCrashes(ins, country, v)
  {
    v.tag != 'A' && exists y :: v.start <= y <= v.end && YearFails(RequestTable(ins, country, v), SourceOf(ins, country, v), y)
  }

  /** One block entry: its file found and its descriptor read; a group-A file then adds nothing. */
  function FileStep(ins: Inputs, out: Workbook, country: string, v: VarName): Progress
    requires Loadable(ins)
  {
    match FindExcelFile(country, v.start, [v.tag], ins.files)
    case Raised(_) => Progress(out, false, true)
    case Ok(f) =>
      match Lookup(ins.books[f].wb, REQUEST_TABLE)
      case None => Progress(out, false, true)
      case Some(req) =>
        if v.tag == 'A' then Progress(out, false, false)
        else
          var (wb, failed) := YearsTo(req, ins.books[f], out, v.start, v.end + 1);
          Progress(wb, failed, false)
  }

  /** The block entries in turn; a failure is remembered and the loop goes on, an exception ends it. */
  function BlockFrom(ins: Inputs, out: Workbook, country: string, block: seq<VarName>, failed: bool): Progress
    requires Loadable(ins)
    decreases |block|
  {
    if block == [] then Progress(out, failed, false)
    else
      var p := FileStep(ins, out, country, block[0]);
      if p.crashed then Progress(p.out, failed, true)
      else BlockFrom(ins, p.out, country, block[1..], failed || p.failed)
  }

  /**
   * One span of a country: skipped when its output exists; otherwise the group-A file is copied as
   * the output (it must exist and have a descriptor) and the block is processed. The output is
   * saved after every paste, so an exception leaves what was pasted so far; a failed span's output
   * is deleted.
   */
  function SpanStep(ins: Inputs, dir: map<string, Workbook>, country: string, span: Span): Step
    requires Loadable(ins)
  {
    var name := OutputName(country, span.start, span.end);
    if name in dir then Step(dir, false, false)
    else
      match FindExcelFile(country, span.start, "A", ins.files)
      case Raised(_) => Step(dir, false, true)
      case Ok(t) =>
        if REQUEST_TABLE !in SheetNames(ins.books[t].wb) then Step(dir, false, true)
        else
          SpanEnd(dir, name, BlockFrom(ins, ins.books[t].wb, country, Block(ins.parsed, country, span), false))
  }

  /** The output folder after a span's block: the output kept unless the block failed without an exception. */
  function SpanEnd(dir: map<string, Workbook>, name: string, p: Progress): Step {
    if p.crashed then Step(dir[name := p.out], false, true)
    else if p.failed then Step(dir, true, false)
    else Step(dir[name := p.out], false, false)
  }

  /** The spans of a country in turn; the first failed span ends the country. */
  function SpansFrom(ins: Inputs, dir: map<string, Workbook>, country: string, spans: seq<Span>): Step
    requires Loadable(ins)
    decreases |spans|
  {
    if spans == [] then Step(dir, false, false)
    else
      var s := SpanStep(ins, dir, country, spans[0]);
      if s.crashed || s.failed then s else SpansFrom(ins, s.dir, country, spans[1..])
  }

  /** The countries in turn: one whose spans disagree is skipped, the others have their spans processed. */
  function CountriesFrom(ins: Inputs, dir: map<string, Workbook>, countries: seq<string>): (s: Step)
    requires Loadable(ins)
    requires forall c :: c in countries ==> SpansOf(ins.parsed, c) != []
    ensures !s.failed
    decreases |countries|
  {
    if countries == [] then Step(dir, false, false)
    else
      match SpanCheck(SpansOf(ins.parsed, countries[0]))
      case None => CountriesFrom(ins, dir, countries[1..])
      case Some(list) =>
        var s := SpansFrom(ins, dir, countries[0], list);
        if s.crashed then Step(s.dir, false, true) else CountriesFrom(ins, s.dir, countries[1..])
  }

  /** How a run of the script ends: with the output folder it leaves, after an exception or not. */
  datatype VariableRun = Crashed(outputs: map<string, Workbook>) | Finished(outputs: map<string, Workbook>)

  /** The inputs the script reads from the listing of the input folder. */
  function InputsOf(listing: seq<string>, books: map<string, SourceBook>): Inputs {
    var files := ExcelFiles(listing);
    Inputs(files, books, ParsedNames(files))
  }

  /** The whole run over the output folder `outDir`. */
  function Outcome(listing: seq<string>, books: map<string, SourceBook>, outDir: map<string, Workbook>): VariableRun
    requires forall f :: f in listing ==> f in books
  {
    var ins := InputsOf(listing, books);
    var countries := CountriesOf(ins.parsed);
    CountriesSpans(ins.parsed, countries);
    var s := CountriesFrom(ins, outDir, countries);
    if s.crashed then Crashed(s.dir) else Finished(s.dir)
  }

  lemma CountriesSpans(parsed: seq<VarName>, countries: seq<string>)
    requires countries == CountriesOf(parsed)
    ensures forall c :: c in countries ==> SpansOf(parsed, c) != []
  {
    forall c | c in countries ensures SpansOf(parsed, c) != [] {
      CountrySpans(parsed, c);
    }
  }

  /**
   * One block entry raises exactly when its file or its descriptor is missing; otherwise it fails
   * exactly when it belongs to a group other than A and one of its years fails, and a group-A
   * entry leaves the output as it was.
   */
  lemma FileStepMeans(ins: Inputs, out: Workbook, country: string, v: VarName)
    requires Loadable(ins)
    ensures FileStep(ins, out, country, v).crashed <==> FileCrashes(ins, country, v)
    ensures !FileCrashes(ins, country, v) ==> (FileStep(ins, out, country, v).failed <==> FileFails(ins, country, v))
    ensures !FileCrashes(ins, country, v) && v.tag == 'A' ==> FileStep(ins, out, country, v).out == out
  {
    if !FileCrashes(ins, country, v) && v.tag != 'A' {
      YearsToFails(RequestTable(ins, country, v), SourceOf(ins, country, v), out, v.start, v.end + 1);
    }
  }

  /** A span's block raises exactly when one of its entries does. */
  lemma {:induction false} BlockFromCrashes(ins: Inputs, out: Workbook, country: string, block: seq<VarName>, failed: bool)
    requires Loadable(ins)
    ensures BlockFrom(ins, out, country, block, failed).crashed
        <==> exists i :: 0 <= i < |block| && FileCrashes(ins, country, block[i])
    decreases |block|
  {
    if block != [] {
      var p := FileStep(ins, out, country, block[0]);
      FileStepMeans(ins, out, country, block[0]);
      if !p.crashed {
        var rest := block[1..];
        BlockFromCrashes(ins, p.out, country, rest, failed || p.failed);
        if exists i :: 0 <= i < |block| && FileCrashes(ins, country, block[i]) {
          var i :| 0 <= i < |block| && FileCrashes(ins, country, block[i]);
          assert i != 0 && rest[i - 1] == block[i];
        }
        if exists i :: 0 <= i < |rest| && FileCrashes(ins, country, rest[i]) {
          var i :| 0 <= i < |rest| && FileCrashes(ins, country, rest[i]);
          assert rest[i] == block[i + 1];
        }
      }
    }
  }

  /** An entry that does not raise hands the block loop on to the next entry. */
  lemma BlockFromNext(ins: Inputs, out: Workbook, country: string, block: seq<VarName>, failed: bool)
    requires Loadable(ins) && block != [] && !FileStep(ins, out, country, block[0]).crashed
    ensures var p := FileStep(ins, out, country, block[0]);
            BlockFrom(ins, out, country, block, failed) == BlockFrom(ins, p.out, country, block[1..], failed || p.failed)
  {
  }

  /** When a span's block does not raise, it has failed exactly when it entered failed or one of its entries fails. */
  lemma {:induction false} BlockFromFails(ins: Inputs, out: Workbook, country: string, block: seq<VarName>, failed: bool)
    requires Loadable(ins)
    requires forall i :: 0 <= i < |block| ==> !FileCrashes(ins, country, block[i])
    ensures BlockFrom(ins, out, country, block, failed).failed
        <==> failed || exists i :: 0 <= i < |block| && FileFails(ins, country, block[i])
    decreases |block|
  {
    if block != [] {
      var p := FileStep(ins, out, country, block[0]);
      FileStepMeans(ins, out, country, block[0]);
      SomeFailsSplit(ins, country, block);
      BlockFromNext(ins, out, country, block, failed);
      BlockFromFails(ins, p.out, country, block[1..], failed || p.failed);
    }
  }

  /** Some entry of a block fails exactly when its first entry or some entry of the rest fails. */
  lemma SomeFailsSplit(ins: Inputs, country: string, block: seq<VarName>)
    requires Loadable(ins) && block != []
    requires forall i :: 0 <= i < |block| ==> !FileCrashes(ins, country, block[i])
    ensures forall i :: 0 <= i < |block[1..]| ==> !FileCrashes(ins, country, block[1..][i])
    ensures (exists i :: 0 <= i < |block| && FileFails(ins, country, block[i]))
        <==> FileFails(ins, country, block[0]) || exists i :: 0 <= i < |block[1..]| && FileFails(ins, country, block[1..][i])
  {
    var rest := block[1..];
    assert forall i :: 0 <= i < |rest| ==> rest[i] == block[i + 1];
    if exists i :: 0 <= i < |block| && FileFails(ins, country, block[i]) {
      var i :| 0 <= i < |block| && FileFails(ins, country, block[i]);
      if i != 0 { assert rest[i - 1] == block[i]; }
    }
  }

  /** Every output the folder held is still there, unchanged. */
  predicate Keeps(dir: map<string, Workbook>, after: map<string, Workbook>) {
    forall n :: n in dir ==> n in after && after[n] == dir[n]
  }

  /** The year loop of a non-A file: each year's sheet pasted into the output; the first failing year breaks out. */
  method PasteYears(req: Sheet, src: SourceBook, out0: Workbook, s: int, e: int) returns (out: Workbook, failed: bool)
    ensures (out, failed) == YearsTo(req, src, out0, s, e + 1)
  {
    out, failed := out0, false;
    var year := s;
    while year <= e && !failed
      invariant s <= year && (year <= e + 1 || year == s)
      invariant YearsTo(req, src, out0, s, year) == (out, failed)
      decreases e - year
    {
      var pasted := TryYear(req, src, out, year);
      if pasted.None? {
        failed := true;
      } else {
        out := pasted.value;
      }
      year := year + 1;
    }
    if failed {
      YearsToStays(req, src, out0, s, year, e + 1);
    }
  }

  /** The `try` block of one year; None stands for the exception caught or the shape mismatch. */
  method TryYear(req: Sheet, src: SourceBook, out: Workbook, year: int) returns (r: Option<Workbook>)
    ensures r == PasteYear(req, src, out, year)
  {
    var loc := GetSheetForYear(req, year);
    if loc.Raised? || loc.value.sheet !in src.frames {
      return None;
    }
    var f := src.frames[loc.value.sheet];
    if |f.data| + 1 != loc.value.rows || |f.columns| != loc.value.cols {
      return None;
    }
    var wb := AppendColumn(out, f, loc.value.sheet);
    r := Some(wb);
  }

  /** One entry of the block loop. */
  method ProcessFile(ins: Inputs, out: Workbook, country: string, v: VarName) returns (p: Progress)
    requires Loadable(ins)
    ensures p == FileStep(ins, out, country, v)
  {
    var found := FindExcelFile(country, v.start, [v.tag], ins.files);
    if found.Raised? {
      return Progress(out, false, true);
    }
    var src := ins.books[found.value];
    var req := Lookup(src.wb, REQUEST_TABLE);
    if req.None? {
      return Progress(out, false, true);
    }
    if v.tag == 'A' {
      return Progress(out, false, false);
    }
    var wb, failed := PasteYears(req.value, src, out, v.start, v.end);
    p := Progress(wb, failed, false);
  }

  /** The loop over a span's block: `skip_country` is set by a failing file and the loop goes on. */
  method ProcessBlock(ins: Inputs, out0: Workbook, country: string, block: seq<VarName>) returns (p: Progress)
    requires Loadable(ins)
    ensures p == BlockFrom(ins, out0, country, block, false)
  {
    var out := out0;
    var failed := false;
    for i := 0 to |block|
      invariant BlockFrom(ins, out0, country, block, false) == BlockFrom(ins, out, country, block[i..], failed)
    {
      assert block[i..][0] == block[i] && block[i..][1..] == block[i + 1..];
      var step := ProcessFile(ins, out, country, block[i]);
      if step.crashed {
        return Progress(step.out, failed, true);
      }
      out := step.out;
      failed := failed || step.failed;
    }
    p := Progress(out, failed, false);
  }

  /** One span: `create_output_file`, the block, and the deletion of a failed span's output. */
  method ProcessSpan(ins: Inputs, dir: map<string, Workbook>, country: string, span: Span) returns (s: Step)
    requires Loadable(ins)
    ensures s == SpanStep(ins, dir, country, span)
    ensures var name := OutputName(country, span.start, span.end);
            && Keeps(dir, s.dir)
            && (forall n :: n in s.dir ==> n in dir || n == name)
            && (name in dir || s.failed ==> s.dir == dir)
  {
    var name := OutputName(country, span.start, span.end);
    if name in dir {
      return Step(dir, false, false);
    }
    var template := FindExcelFile(country, span.start, "A", ins.files);
    if template.Raised? {
      return Step(dir, false, true);
    }
    var wb := ins.books[template.value].wb;
    if REQUEST_TABLE !in SheetNames(wb) {
      return Step(dir, false, true);
    }
    var block := SortByKey(BlockOf(ins.parsed, country, span), TagKey);
    var p := ProcessBlock(ins, wb, country, block);
    s := FinishSpan(dir, name, p);
  }

  /** The output file written as the block left it, then deleted when a file of the block failed. */
  method FinishSpan(dir: map<string, Workbook>, name: string, p: Progress) returns (s: Step)
    requires name !in dir
    ensures s == SpanEnd(dir, name, p)
    ensures Keeps(dir, s.dir) && forall n :: n in s.dir ==> n in dir || n == name
    ensures s.failed ==> s.dir == dir
    ensures !s.crashed && !s.failed ==> name in s.dir
  {
    var out := dir[name := p.out];
    if !p.crashed && p.failed {
      out := out - {name};
      assert out == dir;
    }
    s := Step(out, !p.crashed && p.failed, p.crashed);
  }

  /** The span loop of a country; a failed span breaks out of it. */
  method ProcessSpans(ins: Inputs, dir: map<string, Workbook>, country: string, spans: seq<Span>) returns (s: Step)
    requires Loadable(ins)
    ensures s == SpansFrom(ins, dir, country, spans)
    ensures Keeps(dir, s.dir)
  {
    var out := dir;
    for i := 0 to |spans|
      invariant SpansFrom(ins, dir, country, spans) == SpansFrom(ins, out, country, spans[i..])
      invariant Keeps(dir, out)
    {
      assert spans[i..][0] == spans[i] && spans[i..][1..] == spans[i + 1..];
      s := ProcessSpan(ins, out, country, spans[i]);
      if s.crashed || s.failed {
        return;
      }
      out := s.dir;
    }
    s := Step(out, false, false);
  }

  /** The country loop of `main`: a country whose spans disagree is skipped (`continue`). */
  method ProcessCountries(ins: Inputs, dir: map<string, Workbook>, countries: seq<string>, spans: map<string, seq<Span>>)
    returns (s: Step)
    requires Loadable(ins)
    requires forall c :: c in countries ==> SpansOf(ins.parsed, c) != []
    requires forall c :: SpansOf(ins.parsed, c) == if c in spans then spans[c] else []
    ensures s == CountriesFrom(ins, dir, countries)
    ensures Keeps(dir, s.dir)
  {
    var out := dir;
    for i := 0 to |countries|
      invariant CountriesFrom(ins, dir, countries) == CountriesFrom(ins, out, countries[i..])
      invariant Keeps(dir, out)
    {
      var c := countries[i];
      assert countries[i..][0] == c && countries[i..][1..] == countries[i + 1..];
      assert SpansOf(ins.parsed, c) == spans[c];
      var list := CheckYearSpanConsistency(spans[c]);
      if list.Some? {
        var step := ProcessSpans(ins, out, c, list.value);
        if step.crashed {
          return Step(step.dir, false, true);
        }
        out := step.dir;
      }
    }
    s := Step(out, false, false);
  }

  /** `main`: list and parse the input files, group them by country, then process the countries. */
  method Run(listing: seq<string>, books: map<string, SourceBook>, outDir: map<string, Workbook>) returns (r: VariableRun)
    requires forall f :: f in listing ==> f in books
    ensures r == Outcome(listing, books, outDir)
    ensures Keeps(outDir, r.outputs)
  {
    var files := ExcelFiles(listing);
    var parsed := ParsedNames(files);
    var ins := Inputs(files, books, parsed);
    var countries, spans := GroupSpans(parsed);
    CountriesSpans(parsed, countries);
    var s := ProcessCountries(ins, outDir, countries, spans);
    if s.crashed {
      r := Crashed(s.dir);
    } else {
      r := Finished(s.dir);
    }
  }
}
