# Excel country-data integration pipeline, modelled in Dafny

The repository is a set of scripts that turn Datastream-style Excel exports into one master table
per country. Every workbook carries a `REQUEST_TABLE` descriptor sheet: from row 7 down, column E
holds the series, G the year, K a reference to the data sheet of that year, and N and O the rows
and columns that sheet should have. The four stages modelled here are:

- **entity-integrate.py** (module `EntityIntegrate`). The per-company files
  `<Country><company>-<yyyy>[-<yyyy>]<suffix>.xlsx` are grouped by country, span and suffix.
  Company 1's workbook is validated against its descriptor. Every other company's workbook is then
  validated too, and its data rows are appended below company 1's, sheet by sheet, when the column
  extents agree. The merged workbook is saved as `<Country>-<span><suffix>.xlsx`. Company numbers
  missing from 1..N are reported. Existing outputs are only overwritten after the user agrees.
- **find-missing-entity-before-variable-integrate.py** (module `FindMissingEntity`). This is a
  check to run before the variable stage. For every group key (`country-yyyy[-yyyy]`) and every
  sheet, it lists the Types (column A labels) that one variable group's file lacks although
  another group's file has them. Each line also gives the rows where the other groups hold the
  Type.
- **variable-integrate.py** (module `VariableIntegrate`). The per-variable-group files
  `<Country>-<yyyy>[-<yyyy>]<A|B|...>.xlsx` are checked for consistent year spans per country.
  For each span, group A's file is copied as the template. For every other group and every year,
  the data sheet named by the descriptor is pasted, without its key column, to the right of what
  the output sheet already holds. A span whose shapes disagree with the descriptor is deleted, and
  that ends the country.
- **year-integrate.py** (module `YearIntegrate`). For each country, the years the descriptors
  name are read. Only years that the file name claims and that fall in 2015-2024 are kept. Every
  data row becomes a record tagged with its year, the country's display name and its two codes.
  The records are sorted by year. A `MASTER_TABLE` workbook `<Country>-2015-2024.xlsx` is written
  when the years cover the window exactly.

Shared modules:
- `Common` holds `Option`/`Result`, where `Raised` stands for a Python exception.
- `Text` covers digits, `str`/`int` of integers, `strip`, `os.path.splitext` and Python's string
  order.
- `Sorting` covers Python's stable `sorted`/`list.sort` by an integer key, and `sorted` of string
  and integer sets.
- `Workbooks` models openpyxl's view of a workbook. A worksheet is a sequence of rows. `iter_rows`
  pads the rows to `max_column`. The `Worksheet` class holds the in-place `append` and
  `cell(row, column, value)`.

The scripts' file system is a parameter of the model:
- a directory listing is a `seq<string>` in listing order;
- the workbooks that can be opened are a map from file name to contents;
- an output folder is a map from file name to the workbook saved there.

Each script's `main` is a method proved equal to a functional description of the whole run. The
properties are proved about those descriptions.

## Model

| member | source | states |
|---|---|---|
| EntityIntegrate.ParseYearsSound | entity-integrate.py:17-20 | what the years-and-suffix part of the pattern accepts is four digits, an optional second four digits and a letter run, which spell the part again |
| EntityIntegrate.ParseYearsOf | entity-integrate.py:17-20 | well-formed years and suffix, spelled out, are matched back to exactly themselves |
| EntityIntegrate.ParseFilenameSound | entity-integrate.py:25-28 | a name that `parse_filename` accepts yields well-formed groups (letters, digits, four-digit years, letters) that spell the extension-less name |
| EntityIntegrate.ParseStemSound | entity-integrate.py:13-27 | the full match of the verbose pattern yields well-formed groups that spell the name |
| EntityIntegrate.ParseSpelling | entity-integrate.py:13-28 | round trip: every well-formed name saved as .xlsx or .xlsm parses back to its own groups |
| EntityIntegrate.ParseSpellingStem | entity-integrate.py:13-27 | round trip on the extension-less name |
| EntityIntegrate.SeriesInjective | entity-integrate.py:32 | distinct company numbers expect distinct series `FDEALL{company_no}`, so a descriptor's series names one company |
| EntityIntegrate.NoStopBefore | entity-integrate.py:41 | after `idx` matching descriptor rows, none of them ended the walk |
| EntityIntegrate.RejectedAt | entity-integrate.py:41-74 | a wrong series, an extra row or a wrong or unreadable year after matching rows gives False, neither a pass nor a raise |
| EntityIntegrate.ShortAt | entity-integrate.py:79-84 | a walk that stops before the last year of the file name raises ValueError |
| EntityIntegrate.PassedAt | entity-integrate.py:79-84 | a walk that stops right after the last year does not raise |
| EntityIntegrate.CheckRequestTable | entity-integrate.py:30-84 | returns None exactly when the descriptor lists the series with the years start..end in order and then stops; raises exactly when it stops early after matching rows; False otherwise |
| EntityIntegrate.DataSheetNames | entity-integrate.py:95 | the data sheets are exactly the sheet names other than REQUEST_TABLE, no more of them than sheets, distinct when the titles are |
| EntityIntegrate.ValidateWb | entity-integrate.py:86-99 | passes exactly when REQUEST_TABLE exists, the descriptor does not raise and there are at least `years` data sheets; a False from the descriptor check is ignored |
| EntityIntegrate.LastFilledMeans | entity-integrate.py:136-139 | the position found holds a value and no cell after it does |
| EntityIntegrate.MaxLastFilledMeans | entity-integrate.py:131-140 | no row reaches past the maximum, and a positive maximum is reached by some row |
| EntityIntegrate.ActualRows | entity-integrate.py:117-125 | the count is the position of the last non-blank row below the header: that row is non-blank and every later one blank |
| EntityIntegrate.ActualCols | entity-integrate.py:127-140 | the column extent is the largest last-filled position over the rows below the header |
| EntityIntegrate.MaxFilled | entity-integrate.py:131-140 | the outer loop computes the largest last-filled position |
| EntityIntegrate.RowLastFilled | entity-integrate.py:136-139 | the right-to-left scan finds the last non-None cell (0 for none) |
| EntityIntegrate.LastFilledPadded | entity-integrate.py:132 | the padding `iter_rows` adds never moves a row's last filled cell |
| EntityIntegrate.ColsOfIterRows | entity-integrate.py:132-140 | counting over the padded rows gives the sheet's column extent |
| EntityIntegrate.AppendKeepsCols | entity-integrate.py:149-158 | appending rows of equal column extent keeps the target's extent |
| EntityIntegrate.AppendSheetRows | entity-integrate.py:143-158 | the target gains the source's rows below its header when the column extents agree, and nothing otherwise |
| EntityIntegrate.MergedAppends | entity-integrate.py:252-276 | after the companies in turn, a sheet is company 1's rows followed by the data rows of exactly those companies whose column extent matched, in order |
| EntityIntegrate.MergedKeepsCols | entity-integrate.py:252-276 | the template sheet's column extent survives every append |
| EntityIntegrate.MissingCompanies | entity-integrate.py:226-228 | the report lists, ascending, exactly the numbers 1..N without a file |
| EntityIntegrate.CompanyFilesLast | entity-integrate.py:225 | a company appears exactly when some item has it, and the last item of a company wins |
| EntityIntegrate.CompanyFilesFrom | entity-integrate.py:225 | each company's file is one listed for it |
| EntityIntegrate.EntryOf | entity-integrate.py:179-189 | a parsed file gives a well-formed merge key |
| EntityIntegrate.Parsed | entity-integrate.py:179-182 | entries come only from listed files and carry well-formed keys |
| EntityIntegrate.ParsedMembers | entity-integrate.py:179-189 | an entry is parsed exactly from a listed file whose name parses to it |
| EntityIntegrate.KeysOfDistinct | entity-integrate.py:189 | `groups.keys()` names no key twice |
| EntityIntegrate.KeysOfMembers | entity-integrate.py:189 | a group exists exactly for the keys some parsed file has |
| EntityIntegrate.MembersMeans | entity-integrate.py:189 | a group's members are exactly the (company, file) pairs of its entries |
| EntityIntegrate.ParseFiles | entity-integrate.py:179-182 | the parsing loop keeps the files that parse, in listing order |
| EntityIntegrate.GroupEntries | entity-integrate.py:183-189 | the grouping loop builds the keys in first-seen order and each key's members |
| EntityIntegrate.OutputNameInjective | entity-integrate.py:191-193 | distinct groups never write the same output file |
| EntityIntegrate.OutputLayout | entity-integrate.py:192 | where country, start, optional end and suffix sit in the output name |
| EntityIntegrate.RowsAfterSnoc | entity-integrate.py:261-276 | one more merged workbook appends its same-titled sheet to every data sheet and leaves REQUEST_TABLE alone |
| EntityIntegrate.MergeSheets | entity-integrate.py:261-276 | every sheet keeps its title and position and gets the rows merged into it |
| EntityIntegrate.MergedBookLookup | entity-integrate.py:252-276 | the merged workbook keeps company 1's sheet names; each data sheet is the template followed by the contributed rows |
| EntityIntegrate.OpenSheets | entity-integrate.py:246 | one fresh worksheet object per sheet, holding that sheet's rows |
| EntityIntegrate.AppendCompany | entity-integrate.py:261-276 | succeeds exactly when the source has every data sheet of company 1 (else `wb_src[ws_name]` raises); every sheet then takes its step |
| EntityIntegrate.AppendTitle | entity-integrate.py:263-276 | REQUEST_TABLE is skipped; another title is appended from the source when the source has it |
| EntityIntegrate.SaveSheets | entity-integrate.py:284 | the saved workbook is company 1's with the workbooks used merged in |
| EntityIntegrate.AllMergeMeans | entity-integrate.py:252-259 | the merge loop completes exactly when every company other than 1 merges |
| EntityIntegrate.MergeSucceedsInOrder | entity-integrate.py:238-276 | with company 1 valid, the group merges exactly when every company in ascending order merges |
| EntityIntegrate.MergeOne | entity-integrate.py:255-276 | one company merges exactly when it validates and has every data sheet; its sheets are then appended |
| EntityIntegrate.MergeCompanies | entity-integrate.py:252-276 | the loop succeeds exactly when all companies merge, and the sheets then hold every source merged in ascending order |
| EntityIntegrate.MergeGroup | entity-integrate.py:225-284 | a group yields a workbook exactly when company 1 exists and validates and every other company merges; that workbook is the merge result |
| EntityIntegrate.YearsOfSpan | entity-integrate.py:247 | the `years` global counts the years from start to end inclusive when they are in order |
| EntityIntegrate.Report | entity-integrate.py:230-235 | at most one report row per group |
| EntityIntegrate.ExistingOutputs | entity-integrate.py:196-203 | exactly the group output names already present in the output folder |
| EntityIntegrate.MergeGroups | entity-integrate.py:224-286 | the folder after the loop holds every group's saved merge until the first that raises; it completes exactly when every group merges, and then the report holds every group's row |
| EntityIntegrate.MergeKey | entity-integrate.py:224-284 | one group's report row, and its merged workbook exactly when it merges |
| EntityIntegrate.RunGroups | entity-integrate.py:195-297 | cancelled exactly on a bad company count or a refused overwrite; otherwise existing outputs are cleared and groups saved; finished exactly when every group merges, with the full report |
| EntityIntegrate.Run | entity-integrate.py:161-297 | the whole script: the same outcome over the groups parsed from the Excel files of the listing |
| FindMissingEntity.ParseFilenameSound | find-missing-entity-before-variable-integrate.py:19-33 | an accepted name is a group key `...-dddd[-dddd]`, a letter run and a case-insensitive .xlsx/.xlsm extension, in that order |
| FindMissingEntity.ParseBodySound | find-missing-entity-before-variable-integrate.py:26-27 | the split of the extension-less part gives a group key and a letter run that spell it |
| FindMissingEntity.ParseFilenameOf | find-missing-entity-before-variable-integrate.py:19-33 | round trip: any group key, letter run and extension (with or without one trailing newline, which `$` allows) parse back to that key and group |
| FindMissingEntity.ParseBodyOf | find-missing-entity-before-variable-integrate.py:26-27 | the lazy key and the greedy letter group split a key-plus-letters body at the letters |
| FindMissingEntity.LastRowOf | find-missing-entity-before-variable-integrate.py:53-60 | the last data row up to `r` whose column A strips to the Type, or none |
| FindMissingEntity.TypesUpToMeans | find-missing-entity-before-variable-integrate.py:53-60 | a Type is in the map exactly when some data row holds it (falsy cells skipped), mapped to the last such row |
| FindMissingEntity.TypeMap | find-missing-entity-before-variable-integrate.py:53-60 | the row loop builds that Type map |
| FindMissingEntity.TypesOfSheetsOrdered | find-missing-entity-before-variable-integrate.py:47-62 | the sheet titles kept are exactly the keys of the result, each listed once |
| FindMissingEntity.TypesOfSheetsMeans | find-missing-entity-before-variable-integrate.py:49-62 | a sheet has a map exactly when it is not REQUEST_TABLE and exists; its map is that of the last sheet with the title |
| FindMissingEntity.ReadExcelTypes | find-missing-entity-before-variable-integrate.py:36-64 | the sheet loop builds those maps |
| FindMissingEntity.ReadFromOk | find-missing-entity-before-variable-integrate.py:75-86 | the gathered data lists each group key once, exactly the keys it holds, each with at least one variable group |
| FindMissingEntity.ReadFromFails | find-missing-entity-before-variable-integrate.py:77-86 | reading raises exactly when some parsed file cannot be opened |
| FindMissingEntity.LastFileOf | find-missing-entity-before-variable-integrate.py:77-86 | the last listed file parsing to a (key, group), or none |
| FindMissingEntity.ReadFromKeeps | find-missing-entity-before-variable-integrate.py:86 | a (key, group) no later file parses to keeps what it held |
| FindMissingEntity.ReadFromStores | find-missing-entity-before-variable-integrate.py:86 | a (key, group) holds the types of the last listed file parsing to it |
| FindMissingEntity.CollectData | find-missing-entity-before-variable-integrate.py:71-86 | the file loop gathers that data or raises |
| FindMissingEntity.GroupLines | find-missing-entity-before-variable-integrate.py:106-117 | one line per missing Type, in the order given |
| FindMissingEntity.SortedGroups | find-missing-entity-before-variable-integrate.py:93 | the variable groups of a key, at least one, each once |
| FindMissingEntity.LineJustified | find-missing-entity-before-variable-integrate.py:102-117 | a reported Type is absent from its group and `exists_in` names exactly the other groups holding it, with their rows |
| FindMissingEntity.LinesFromSound | find-missing-entity-before-variable-integrate.py:102-117 | every line is for a group of the key and a Type of the union that the group lacks |
| FindMissingEntity.LinesFromComplete | find-missing-entity-before-variable-integrate.py:102-117 | every Type of the union that a group lacks is reported |
| FindMissingEntity.LinesFromInOrder | find-missing-entity-before-variable-integrate.py:102-106 | lines come by group, then by Type, both ascending |
| FindMissingEntity.SheetLinesMeans | find-missing-entity-before-variable-integrate.py:94-117 | a sheet raises KeyError exactly when some group lacks it; otherwise its lines are ordered, justified and complete |
| FindMissingEntity.SheetsFromSound | find-missing-entity-before-variable-integrate.py:96-117 | every line of a key is for one of its sheets and is justified |
| FindMissingEntity.SheetsFromCrashes | find-missing-entity-before-variable-integrate.py:94-100 | a key's report ends in KeyError exactly when one of its sheets is missing from some group |
| FindMissingEntity.KeysFromSound | find-missing-entity-before-variable-integrate.py:90-117 | every line printed for the keys is justified in its key's data |
| FindMissingEntity.OutcomeJustified | find-missing-entity-before-variable-integrate.py:71-117 | every reported line comes from data that was read, and is justified there |
| FindMissingEntity.NeverReportedIfEverywhere | find-missing-entity-before-variable-integrate.py:98-110 | a Type every group of a key has on a sheet is never reported for that sheet |
| FindMissingEntity.UnionTypes | find-missing-entity-before-variable-integrate.py:98-100 | the union of the groups' Types, or the KeyError when a group lacks the sheet |
| FindMissingEntity.ReportGroup | find-missing-entity-before-variable-integrate.py:103-117 | the lines of a group's missing Types in ascending order |
| FindMissingEntity.ReportSheet | find-missing-entity-before-variable-integrate.py:96-117 | the lines of one sheet, or the KeyError |
| FindMissingEntity.ReportKey | find-missing-entity-before-variable-integrate.py:90-119 | the lines of one key, stopping at a KeyError |
| FindMissingEntity.ReportKeys | find-missing-entity-before-variable-integrate.py:90-119 | the lines of all keys in first-seen order, stopping at a KeyError |
| FindMissingEntity.Run | find-missing-entity-before-variable-integrate.py:71-119 | the whole script's report |
| Sorting.SortByKey | year-integrate.py:204 | a permutation of the input, sorted by the key |
| Sorting.SortByKeyStable | year-integrate.py:204 | stability: the items of each key keep their order |
| Sorting.SortByKeyHeadFirst | variable-integrate.py:82-83 | the head of the sort is the first item of the input with its key |
| Sorting.SortedStrings | find-missing-entity-before-variable-integrate.py:93 | `sorted` of a set of strings: the unique ascending sequence of its elements |
| Sorting.LexSortedUnique | find-missing-entity-before-variable-integrate.py:106 | two ascending sequences with the same elements are equal |
| Sorting.SortedNats | entity-integrate.py:252 | `sorted` of a set of company numbers: the unique increasing sequence of its elements |
| Text.NatToString | find-missing-entity-before-variable-integrate.py:60 | `str` of a number is canonical digits worth that number |
| Text.ParseIntOfString | entity-integrate.py:61 | `int(str(i))` is `i` |
| Text.StripEnds | find-missing-entity-before-variable-integrate.py:60 | the result neither starts nor ends with white space, taken as the whole set Python's `str.isspace()` accepts (U+00A0 and the other Unicode spaces included) |
| Text.StripMeans | find-missing-entity-before-variable-integrate.py:60 | the result is a slice of the input with only white space before and after it: white space is removed from both ends and nothing else |
| Text.ExcelFiles | entity-integrate.py:171-174 | exactly the listed names ending in .xlsx or .xlsm |
| Text.Stem | variable-integrate.py:20 | `splitext(...)[0]` is a prefix of the name |
| Text.StemOfExtension | variable-integrate.py:20 | a name with an extension loses exactly that extension |
| Workbooks.IterRowsPadded | year-integrate.py:124 | row `i` of `iter_rows` is sheet row `m + i` padded to the sheet's width |
| Workbooks.IntOfText | entity-integrate.py:61 | reading a cell as an integer is `int(str(cell).strip())` |
| Workbooks.ExtractSheetName | year-integrate.py:55-57 | the name holds no `!` and no quote, and only characters of the reference |
| Workbooks.ExtractSheetNameOfRef | year-integrate.py:55-57 | quoted or not, `name!cell` gives back `name` |
| Workbooks.PutSheetMeans | variable-integrate.py:174-178 | the stored sheet is found under its title, other titles are unchanged, and a new title goes last |
| Workbooks.WriteCell | variable-integrate.py:189 | `ws.cell(..., value=v)` sets exactly that cell (unless `v` is None) and grows the sheet to that row |
| Workbooks.WriteBlockCells | variable-integrate.py:187-189 | writing a block sets exactly its non-None cells from the start column on |
| Workbooks.Worksheet.Append | year-integrate.py:234-236 | `append` adds the row below the last |
| Workbooks.Worksheet.AppendAll | entity-integrate.py:157-158 | the rows are appended in order |
| Workbooks.Worksheet.SetCell | variable-integrate.py:189 | the sheet after `cell(row, column, value)` |
| VariableIntegrate.MatchNameSound | variable-integrate.py:20-24 | what the pattern accepts is a well-formed country-years-tag split, with no newline in the country, that spells the extension-less name less the one final newline `$` allows |
| VariableIntegrate.MatchNameComplete | variable-integrate.py:21-24 | every well-formed spelling matches, with or without one final newline; with two years, or a country not ending in `-dddd`, the groups come back unchanged |
| VariableIntegrate.MatchTwoYears | variable-integrate.py:21 | a two-year spelling matches back to its groups |
| VariableIntegrate.MatchOneYear | variable-integrate.py:21 | a one-year spelling matches, back to its groups unless the lazy country stops at its own `-dddd` |
| VariableIntegrate.ParseFilenameOf | variable-integrate.py:13-28 | round trip: a well-formed name saved as .xlsx/.xlsm parses to its country, integer years (the second defaulting to the first) and tag |
| VariableIntegrate.ParseFilenameBounds | variable-integrate.py:20-28 | a parsed file has a non-empty country, years in 0..9999 and an upper-case tag |
| VariableIntegrate.CandidatesMeans | variable-integrate.py:71-74 | the candidates are exactly the listed files the anchored pattern matches, a final newline allowed by `$` included |
| VariableIntegrate.FindExcelFile | variable-integrate.py:65-83 | a found file is a listed file |
| VariableIntegrate.FindExcelFileMeans | variable-integrate.py:65-83 | raises exactly when no listed file matches, and otherwise returns a listed match |
| VariableIntegrate.FindExcelFilePrefers | variable-integrate.py:81-83 | an .xlsm is chosen only when no .xlsx matches; the result is the first candidate of its kind |
| VariableIntegrate.FindExcelFileIsHead | variable-integrate.py:82-83 | the result is the head of the stable sort on "ends with .xlsm" |
| VariableIntegrate.CheckYearSpanConsistency | variable-integrate.py:86-128 | the check returns its specification `SpanCheck` |
| VariableIntegrate.GroupLeaders | variable-integrate.py:102-116 | the first loop returns the span list or the inconsistency |
| VariableIntegrate.HasOverlap | variable-integrate.py:118-126 | true exactly when some span starts no later than the one before it ends |
| VariableIntegrate.SpanCheckMeans | variable-integrate.py:86-128 | accepted exactly when, in start order, every span starting inside the current one equals it; the list is then separated and holds exactly the input spans |
| VariableIntegrate.OverlapNeverRejects | variable-integrate.py:118-126 | the overlap loop never rejects what the first loop accepted |
| VariableIntegrate.LeadersAgree | variable-integrate.py:105-111 | the first loop succeeds exactly when the sorted spans agree |
| VariableIntegrate.LeadersShape | variable-integrate.py:105-116 | the list it builds is separated, without overlap, and holds exactly the spans seen |
| VariableIntegrate.YearRowFirst | variable-integrate.py:140-149 | the row found is the first from row 7 whose G cell holds the year |
| VariableIntegrate.GetSheetForYear | variable-integrate.py:136-159 | the sheet name found holds no `!` and no quote |
| VariableIntegrate.GetSheetForYearMissing | variable-integrate.py:143-146 | a year no descriptor row holds raises |
| VariableIntegrate.GetSheetForYearFirst | variable-integrate.py:148-159 | the first row holding the year gives its sheet name and N/O counts; later rows are never used |
| VariableIntegrate.DropFirstAll | variable-integrate.py:185 | every row loses exactly its first (key) cell |
| VariableIntegrate.StartColumnsDiffer | variable-integrate.py:180-183 | the test as written and the intended one pick different columns exactly when the sheet's only column holds a value below an empty A1; the paste then starts in column 1 instead of 2 |
| VariableIntegrate.StartColumnClear | variable-integrate.py:180-183 | from the start column rightwards the sheet holds no value, except in column 1 below row 1, which the test does not look at |
| VariableIntegrate.AsWrittenOverwrites | variable-integrate.py:180-189 | on a sheet with an empty A1 and `x` in A2, the paste writes `y` over A2, where the intended paste keeps `x` |
| VariableIntegrate.ColumnWrittenOverwrites | variable-integrate.py:180-189 | the paste changes a value already in the sheet only where the two tests part, and then only in column 1, below row 1 and within the frame's rows |
| VariableIntegrate.ColumnWrittenPlaces | variable-integrate.py:185-189 | the header goes to row 1 and data row `i` to row `i + 2`, shifted left by the dropped key column; a data cell without a value leaves what was there |
| VariableIntegrate.ColumnWrittenWidth | variable-integrate.py:183-189 | `max_column` grows by the frame's width less the key column |
| VariableIntegrate.IntendedStartColumnClear | variable-integrate.py:181-183 | from the intended start column rightwards the sheet holds no value |
| VariableIntegrate.IntendedColumnWrittenCells | variable-integrate.py:183-189 | the intended paste changes exactly the cells of its block |
| VariableIntegrate.IntendedColumnWrittenKeeps | variable-integrate.py:183-189 | no value already in the sheet is changed by the intended paste |
| VariableIntegrate.AppendColumn | variable-integrate.py:166-191 | the workbook with the sheet (created when missing) replaced by the frame pasted from the column the test at line 180 picks |
| VariableIntegrate.WriteBlockAt | variable-integrate.py:187-189 | the outer write loop leaves the block written from row 1 |
| VariableIntegrate.WriteRowAt | variable-integrate.py:188-189 | the inner write loop leaves the row written from the start column |
| VariableIntegrate.ParsedNamesMeans | variable-integrate.py:196-197 | a name is parsed exactly when some listed file parses to it |
| VariableIntegrate.CountriesOf | variable-integrate.py:200-208 | the countries of `grouped` are those with a file whose years are in order, each once |
| VariableIntegrate.SpansOf | variable-integrate.py:201-204 | a country's spans are exactly those of its files |
| VariableIntegrate.GroupSpans | variable-integrate.py:200-206 | the grouping loop builds the countries and their spans |
| VariableIntegrate.CountrySpans | variable-integrate.py:208-213 | a country of `grouped` has a span, so the check can index its first |
| VariableIntegrate.BlockOf | variable-integrate.py:226-230 | a block holds exactly the country's files lying within the span |
| VariableIntegrate.BlockInTagOrder | variable-integrate.py:231 | the block is sorted by tag, holds the same files, and keeps listing order within a tag |
| VariableIntegrate.PasteYear | variable-integrate.py:244-267 | a year yields no workbook exactly when it fails: no descriptor row, no such sheet, or the wrong shape |
| VariableIntegrate.YearsToStays | variable-integrate.py:241-272 | after a failing year, later years change nothing (`break`) |
| VariableIntegrate.YearsToFails | variable-integrate.py:241-272 | the year loop fails exactly when one of its years fails |
| VariableIntegrate.FileStepMeans | variable-integrate.py:233-243 | an entry raises exactly when its file is not found or has no descriptor; otherwise it fails exactly when a year fails; a group-A file adds nothing |
| VariableIntegrate.BlockFromCrashes | variable-integrate.py:233-239 | a block raises exactly when one of its entries does |
| VariableIntegrate.BlockFromFails | variable-integrate.py:233-272 | without a raise, a block fails exactly when one of its entries fails, since the entry loop goes on |
| VariableIntegrate.CountriesFrom | variable-integrate.py:208-278 | the country loop never ends with a pending failure |
| VariableIntegrate.PasteYears | variable-integrate.py:241-272 | the year loop computes its specification |
| VariableIntegrate.TryYear | variable-integrate.py:244-272 | the `try` block of one year computes its specification |
| VariableIntegrate.ProcessFile | variable-integrate.py:233-272 | one block entry computes its specification |
| VariableIntegrate.ProcessBlock | variable-integrate.py:233-272 | the block loop computes its specification |
| VariableIntegrate.ProcessSpan | variable-integrate.py:219-278 | one span keeps every existing output, writes only its own name, and changes nothing when that output exists or the span failed |
| VariableIntegrate.FinishSpan | variable-integrate.py:274-278 | a failed span's output is deleted and a successful one is kept |
| VariableIntegrate.ProcessSpans | variable-integrate.py:219-278 | the span loop keeps every existing output |
| VariableIntegrate.ProcessCountries | variable-integrate.py:208-278 | the country loop keeps every existing output |
| VariableIntegrate.Run | variable-integrate.py:193-280 | the whole script computes its specification and never deletes or changes an output that existed before |
| YearIntegrate.Range | year-integrate.py:47 | `set(range(start, end + 1))` holds exactly start..end |
| YearIntegrate.FirstYearFrom | year-integrate.py:40 | the leftmost `-dddd` from a position on |
| YearIntegrate.ParseYearsFromFilename | year-integrate.py:38-42 | a name without `-dddd` claims no year |
| YearIntegrate.ParseYearsOfNamed | year-integrate.py:32-47 | `{country}-{start}[-{end}]{tail}{ext}` claims exactly start..end |
| YearIntegrate.YearsOfLayout | year-integrate.py:38-47 | the years claimed by a name whose first `-dddd` is known |
| YearIntegrate.ParseCountry | year-integrate.py:49-53 | the country is a prefix of the extension-less name |
| YearIntegrate.ParseCountryOfNamed | year-integrate.py:49-53 | `{country}-{start}[-{end}]{ext}` gives back the country |
| YearIntegrate.CountryOfLayout | year-integrate.py:51-52 | the trailing one or two `-dddd` are removed and nothing else |
| YearIntegrate.OutputNameIsNamed | variable-integrate.py:30-34 | the previous stage's output names have this layout |
| YearIntegrate.VariableOutputReadBack | year-integrate.py:49-53 | the previous stage's output name reads back as its country and its span's years |
| YearIntegrate.FilesOfMeans | year-integrate.py:61-65 | a country's files are exactly the listed workbooks whose name carries that country |
| YearIntegrate.CountriesOfMeans | year-integrate.py:61-65 | the countries are those with at least one file |
| YearIntegrate.CountriesOfDistinct | year-integrate.py:61-74 | each country is processed once |
| YearIntegrate.GroupFiles | year-integrate.py:61-65 | the grouping loop builds the countries in first-seen order and their files |
| YearIntegrate.AddName | year-integrate.py:64-65 | a workbook name joins its country's list; a new country is appended |
| YearIntegrate.NonBlankMeans | year-integrate.py:124-131 | the filter keeps exactly the non-blank rows, and drops some exactly when one is blank |
| YearIntegrate.NonBlankAppend | year-integrate.py:125-128 | the filter keeps the rows' order |
| YearIntegrate.TakeSheetMeans | year-integrate.py:137-179 | the first country's sheet fixes the variable count; a sheet with another count, or no rows, adds nothing; otherwise its data rows are added with their year |
| YearIntegrate.ScanIgnoresRest | year-integrate.py:98-105 | rows below the first with an empty G or K cell are never read |
| YearIntegrate.TakeSheetGrows | year-integrate.py:175-179 | a sheet adds records of its own year only, after the earlier records |
| YearIntegrate.DescriptorRowGrows | year-integrate.py:99-122 | a descriptor row adds records only of a year the name claims and the window holds |
| YearIntegrate.ScanFromGrows | year-integrate.py:98-181 | a file adds records only of years its name claims inside the window |
| YearIntegrate.FilesFromGrows | year-integrate.py:85-183 | a country's records are only of years some file name claims inside the window |
| YearIntegrate.GatheredConsistent | year-integrate.py:79-183 | every record starts with a window year, and there is a header once there is a record |
| YearIntegrate.AppendRecords | year-integrate.py:178-179 | every data row is appended with its year in front |
| YearIntegrate.AddSheet | year-integrate.py:137-179 | the loop body for an accepted sheet computes its specification |
| YearIntegrate.ScanRequestTable | year-integrate.py:94-181 | the descriptor loop computes its specification |
| YearIntegrate.GatherCountry | year-integrate.py:85-183 | the file loop computes its specification, and the result is consistent |
| YearIntegrate.DisplayName | year-integrate.py:77 | every `-` becomes a space and nothing else changes |
| YearIntegrate.WithFields | year-integrate.py:195-201 | the three fields go right after the first cell, the rest follows unchanged |
| YearIntegrate.GateMeans | year-integrate.py:203-227 | sorted records pass the completeness and continuity gates exactly when their years are the window, and are then named `{country}-2015-2024` |
| YearIntegrate.GatePasses | year-integrate.py:229-241 | records that pass give one MASTER_TABLE sheet with the header then the records |
| YearIntegrate.WindowEnds | year-integrate.py:214-215 | such records run from 2015 to 2024 |
| YearIntegrate.TaggedYears | year-integrate.py:198-201 | tagging keeps every record's year |
| YearIntegrate.YearsOfPermutation | year-integrate.py:204-207 | sorting does not change the years present |
| YearIntegrate.SortedEnds | year-integrate.py:207-215 | in year order the first record holds the minimum and the last the maximum |
| YearIntegrate.YearsOfWithin | year-integrate.py:119 | records of window years have only window years |
| YearIntegrate.OutputForMeans | year-integrate.py:185-241 | a country gets a master table exactly when it has records and their years are the window; it is named `{country}-2015-2024.xlsx` |
| YearIntegrate.OutputForSheet | year-integrate.py:189-241 | the table is the header with the fields, then the tagged records sorted by year as a stable permutation |
| YearIntegrate.CompleteNameInjective | year-integrate.py:238-240 | two countries never share a master table name |
| YearIntegrate.WriteCountry | year-integrate.py:185-243 | the steps after gathering compute the country's table or skip it |
| YearIntegrate.CountriesFromFinishes | year-integrate.py:74-264 | the run ends normally exactly when every country's files are read without an exception |
| YearIntegrate.CountriesFromLeaves | year-integrate.py:238-241 | a file no country writes keeps its contents |
| YearIntegrate.CountriesFromKeeps | year-integrate.py:238-241 | every file already in the output folder is still there |
| YearIntegrate.CountriesFromWrites | year-integrate.py:74-243 | after a normal run, each country's file holds its own table (or is as before when skipped) |
| YearIntegrate.FirstCountryWrites | year-integrate.py:74-243 | the first country's file is not written again by later countries |
| YearIntegrate.OutcomeMeans | year-integrate.py:59-264 | the run finishes exactly when every country reads; it adds only master table names; a country's table is there exactly when its years are the window or the file existed |
| YearIntegrate.Run | year-integrate.py:59-264 | `main` under its `try` computes the whole run |

## Left out

- Reading and writing files, pandas, `print`, the `Tee` log, time stamps and `exit` are not modelled. Printed warnings are not modelled, except in find-missing-entity, whose printed lines are its result (`Missing` lines).
- Directory listings are input sequences in listing order. Opened workbooks are a map from file name to contents, and an output folder is a map from name to workbook.
- A workbook that cannot be opened is modelled as a file absent from that map. In year-integrate and find-missing-entity this raises (`Raised`). Entity and variable integration require every listed file to be present.
- EntityIntegrate.Run: both `input()` answers are parameters. A file that exists but fails to load is not modelled.
- VariableIntegrate.Run: every listed file is given with its contents. A corrupt workbook, and pandas read errors other than a missing sheet, are not modelled.
- Cell values are whole numbers or text. Floats, dates, booleans and formulas are not modelled. This affects the year cells (`int(year)` in year-integrate.py:107) and column A in find-missing-entity, where a bool or float Type is not modelled.
- pandas coercions are not modelled (`pd.to_numeric(..., errors='coerce')`, NaN). The descriptor's G, N and O cells are read as whole numbers or integer text.
- Text.ParseInt: Python's `int()` also accepts `_` between digits and non-ASCII decimal digits. Only an optional sign and ASCII digits are modelled.
- `\d` in the regular expressions is modelled as ASCII digits, and letters as ASCII letters. Python also accepts other Unicode digits. With `re.IGNORECASE`, Python also matches a few non-ASCII letters (`ſ`, `K`, `İ`, `ı`); these are not modelled.
- YearIntegrate.ParseCountry: `$` also matches before one trailing newline of the name. That case is not modelled, since listed names do not end in a newline.
- year-integrate.py:68-71: the country-code table is a `codes` parameter, a map from stripped country name to its two codes. NaN codes and the ValueError on duplicate names are not modelled.
- `year_col_count` (year-integrate.py:82, 159, 169) is not modelled. It only feeds a printed message.
- `new_records.sort` is modelled as a stable sort by reassignment.
- Shape printing (`print_sheet_shapes`) is not modelled.
- country-integrate.py is not part of this model.

## Findings

| source | as written | input that shows it | evidently intended | confidence | as-written member | corrected member |
|---|---|---|---|---|---|---|
| variable-integrate.py:180-183 | a sheet with `max_column == 1` and an empty A1 counts as empty, so the paste starts at column 1 | a sheet whose A1 is empty but whose A2 holds `x`; pasting a frame with one value column writes over A2 | paste at column 1 only when the sheet holds no value, so existing values are never overwritten | not executed | VariableIntegrate.AsWrittenOverwrites | VariableIntegrate.IntendedColumnWrittenKeeps |

The rest of the model follows the code as written: `AppendColumn`, and through it every year
pasted, starts at `StartColumn`. `ColumnWrittenOverwrites` bounds what that overwrites for all
sheets. The intended rule is `IntendedStartColumn`, and `StartColumnsDiffer` says exactly where the
two part.
