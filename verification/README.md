# teirubrics, modelled in Dafny

teirubrics reads TEI-encoded lectionary manuscripts, one XML document per witness.
It collects the *rubrics* of each witness: `div[@type='rubric']` elements that
announce a reading and cite a verse (`corresp`) and one or more feast dates
(`date/@when-custom`). It then exports an HTML table with one row per date or
verse and one column per witness siglum.

This project models the core of that pipeline over an abstract, already parsed
and XInclude-resolved document tree:

- `basics.dfy`: `Option`, `Result` and the exceptions the code lets escape.
- `strings.dfy`: the Python string operations the pipeline relies on.
  These are `str.strip`, `str.join`, `str.replace` and `str(n)`.
- `tei.dfy` (from `teirubrics/tei.py`):
  - local tag names
  - the two-pass element locator (`find_element`, `find_elements`)
  - canonical text extraction (`extract_text`), as a recursive method proved against a function
  - the nearest tagged ancestor (`find_parent`)
  - NCName sanitising
  - the witness siglum
- `export.py`'s normalisers and table building, in `export.dfy`:
  - Roman book numbers (`convert_roman_prefix`)
  - the space before chapter:verse (`add_space_after_book`)
  - the fields of a rubric
  - the rows and cells loops of `export_data`, up to the template call
- `grouping.dfy`: the two-level insertion-ordered dictionary the reports fill.
  - `defaultdict(lambda: defaultdict(list))` with append, for dates.
  - `defaultdict(dict)` with assignment, for verses.
  - `dict(sorted(data.items(), key=...))`, the stable reordering.
- `ranking.dfy`: Python's stable `sorted` on a key, as an insertion sort proved to permute, sort and keep ties in input order.
- `reports.dfy` (from `teirubrics/main.py`): the bodies of `by_date` and `by_verse`.
  - The date table is read from the first document.
  - The nested filing loops are methods, proved against fold functions, with loop invariants.
  - The place filter.
  - The rank functions and the "not found" notices.
  - The full reports up to the exported table.

Errors the Python code raises are `Err` values:
- `AssertionFailed`: the locator's `assert doc is not None`.
- `AttributeMissing`: an attribute read on `None`.
- `KeyMissing`: `attrib[...]` on a missing attribute.
- `IndexOutOfRange`: `tei_list[0]` on an empty list.
- `QuerySyntax`: an unresolvable prefix.

The first error escapes, as an exception would.

## Model

| member | source | states |
|---|---|---|
| Strings.Strip | teirubrics/tei.py:38 | the result has no whitespace at either end |
| Strings.StripInfix | teirubrics/tei.py:38 | stripping removes only a whitespace prefix and a whitespace suffix |
| Strings.StripStripped | teirubrics/tei.py:38 | a string without whitespace at its ends is unchanged, so stripping is idempotent |
| Strings.StripEmpty | teirubrics/tei.py:38 | the result is empty exactly when the string is all whitespace |
| Strings.Join | teirubrics/export.py:71 | a single item joins to itself; the length is the parts plus one separator between each two |
| Strings.Replace | teirubrics/export.py:47 | a string with no occurrence of the pattern is unchanged |
| Strings.ReplaceShrinks | teirubrics/export.py:47 | replacing " ." by "." never lengthens the translation |
| Strings.Decimal | teirubrics/export.py:12 | `str(len(roman))`: all decimal digits, never a leading zero |
| Strings.DecimalRoundTrip | teirubrics/export.py:12 | reading the digits back gives the number |
| Tei.LocalName | teirubrics/tei.py:20 | never longer than the tag; a tag without `{` is its own local name |
| Tei.LocalNameOfQualified | teirubrics/tei.py:98 | `{uri}local` gives `local` |
| Tei.Compile | teirubrics/tei.py:53-57 | a prefixed step fails exactly when the pass has no binding for the prefix; an unprefixed step in the bare pass tests the bare name |
| Tei.First | teirubrics/tei.py:54 | the first descendant in document order that passes the compiled test, or None (`Element.find`) |
| Tei.FindElement | teirubrics/tei.py:49-60 | an absent document fails the assertion; the lookup fails exactly when the namespaced pass cannot compile; unprefixed steps never fail |
| Tei.FindElementFound | teirubrics/tei.py:54-60 | what is found is a descendant; a namespaced match takes precedence; otherwise the result is the bare pass's first match, or None when the bare query cannot compile |
| Tei.FirstMatch | teirubrics/tei.py:54 | the search gives None exactly when nothing matches, else the earliest match in document order |
| Tei.FindElements | teirubrics/tei.py:63-69 | an absent document fails; a prefixed step is a syntax error; otherwise the result is the namespaced matches among the descendants followed by the bare matches; every result is a descendant |
| Tei.All | teirubrics/tei.py:66-67 | every descendant that passes the compiled test, in document order (`Element.findall`); never longer than its input |
| Tei.AllMembers | teirubrics/tei.py:66-67 | a pass keeps exactly the descendants that match it |
| Tei.AllConcat | teirubrics/tei.py:66-67 | the matches of two runs of elements are those of the first followed by those of the second, so document order is kept |
| Tei.AllSingle | teirubrics/tei.py:66-67 | one element is kept exactly when it matches |
| Tei.FindElementsTwice | teirubrics/tei.py:66-68 | without a default namespace both passes find the same elements, so each is reported twice |
| Tei.LeafFindsNothing | teirubrics/tei.py:49-69 | for an unprefixed step, a childless element gives None and the empty list, never an error |
| Tei.LeafPrefixedQuery | teirubrics/tei.py:49-69 | for a prefixed step on a childless element, the single lookup fails exactly when the prefix is unbound and otherwise gives None; the multiple lookup always fails |
| Tei.BareSyntaxErrorIsNone | teirubrics/tei.py:55-59 | a prefixed step that the namespaced pass does not match gives None, the bare pass's syntax error being swallowed |
| Tei.AppReading | teirubrics/tei.py:24-27 | the reading an apparatus resolves to lies strictly below it |
| Tei.Text | teirubrics/tei.py:16-38 | the canonical text is always stripped |
| Tei.TextOf | teirubrics/tei.py:17-18 | an absent element has the empty text |
| Tei.ExtractText | teirubrics/tei.py:16-38 | the recursive extraction returns "" for None and otherwise the canonical text |
| Tei.ExtractNode | teirubrics/tei.py:20-38 | extraction of a present element equals its canonical text |
| Tei.ExtractAssembled | teirubrics/tei.py:31-38 | the general case is the stripped concatenation of text, children and tail |
| Tei.ExtractChildren | teirubrics/tei.py:31-33 | the children loop appends each child's text with its tail after one space |
| Tei.ExcludedIsSilent | teirubrics/tei.py:22-23 | `pc`, `witDetail` and `note` yield "" whatever they contain |
| Tei.AppIgnoresOwnText | teirubrics/tei.py:24-28 | an apparatus entry's own text and tail never contribute |
| Tei.SameScopeSameReading | teirubrics/tei.py:25-27 | the reading depends only on the children and the namespaces in scope |
| Tei.AppWithLeadingLemma | teirubrics/tei.py:24-28 | an apparatus whose first child is its lemma yields the lemma's text, tail included |
| Tei.NoTailNoDifference | teirubrics/tei.py:35-36 | without a tail the `include_tail` switch changes nothing |
| Tei.LeafText | teirubrics/tei.py:31-38 | a childless, tail-less ordinary element yields its stripped text |
| Tei.FindParent | teirubrics/tei.py:97-102 | the result is the nearest element on the path to the root, the start included, with the tag; None exactly when there is none |
| Tei.MakeNcName | teirubrics/tei.py:7-13 | same length; each invalid character becomes `_`, others are kept; no invalid character remains |
| Tei.MakeNcNameIdempotent | teirubrics/tei.py:7-13 | sanitising twice is sanitising once |
| Tei.GetSiglum | teirubrics/tei.py:110-121 | fails exactly when there is no `titleStmt`; otherwise the `n` of the first `title` under it, or "" when there is no such title or it has no `n`; a non-empty siglum is the `n` of a descendant |
| Tei.DescendantsTransitive | teirubrics/tei.py:116-117 | a title under the title statement is a descendant of the document |
| Export.RomanPrefix | teirubrics/export.py:9 | None exactly when the regex cannot match; otherwise the longest `I` run after which a capitalised word follows |
| Export.ConvertRomanPrefix | teirubrics/export.py:8-13 | unchanged without a match; otherwise the count of `I`s in decimal followed by the rest of the line |
| Export.ConvertRomanPrefixIdempotent | teirubrics/export.py:8-13 | converting twice is converting once |
| Export.ConvertMatched | teirubrics/export.py:10-12 | on a single line the whole remainder is kept after the count |
| Export.ConvertThirdJohn | teirubrics/export.py:8-13 | "IIIJohn4:5" becomes "3John4:5" |
| Export.ConvertFirstIsaiah | teirubrics/export.py:9 | the greedy run backtracks: "IIsaiah" becomes "1Isaiah" |
| Export.SplitPoint | teirubrics/export.py:17 | a match of book then chapter:verse can split the string in only one way |
| Export.AddSpaceAfterBook | teirubrics/export.py:16-17 | a full match gets one space between book and locator; any other string is unchanged |
| Export.AddSpaceAfterBookIdempotent | teirubrics/export.py:16-17 | spacing twice is spacing once |
| Export.SpaceThirdJohn | teirubrics/export.py:17 | "3John4:5" becomes "3John 4:5" |
| Export.NormaliseThirdJohn | teirubrics/export.py:58-59 | the two normalisers together turn "IIIJohn4:5" into "3John 4:5" |
| Export.DropHash | teirubrics/export.py:52-53 | one leading `#` removed, otherwise unchanged |
| Export.RubricFieldsDefaults | teirubrics/export.py:40-56 | a rubric contributes exactly when it has a head; the original text is stripped; a missing translation or anchor gives empty fields; the verse is the normalised `corresp` |
| Export.RubricFields | teirubrics/export.py:40-59 | the fields of one rubric: None without a head, else the stripped original, the translation with " ." closed up, the anchor's link, source without `#` and folio, and the normalised verse |
| Export.ReadFields | teirubrics/export.py:40-59 | reading the fields agrees with the field function |
| Export.ShownWithoutFolio | teirubrics/export.py:65-68 | with folios off, link, source and folio are blank whatever the link switch says |
| Export.Shown | teirubrics/export.py:62-68 | the fields the template sees: the verse only when verses are shown; source and folio only when folios are; the link only when both folios and links are |
| Export.ShownEverything | teirubrics/export.py:62-69 | with every switch on the template sees the fields as read |
| Export.ItemsConcat | teirubrics/export.py:39-70 | each rubric contributes on its own, in list order |
| Export.ItemOf | teirubrics/export.py:39-70 | a headless rubric gives no item; any other gives its one rendering |
| Export.Items | teirubrics/export.py:39-70 | the items of a list of rubrics: each rubric's item, if any, in list order |
| Export.ItemsAllHeaded | teirubrics/export.py:39-42 | when every rubric has a head there is one item per rubric |
| Export.RenderItems | teirubrics/export.py:38-70 | the items loop skips headless rubrics and renders the rest in order |
| Export.CellSingle | teirubrics/export.py:37-73 | a single headed rubric's cell is exactly its rendering |
| Export.Cell | teirubrics/export.py:36-73 | a cell is its rubrics' items joined by `"<hr>\n"` when the witness has a list under the key, and "" otherwise |
| Export.BuildCell | teirubrics/export.py:36-73 | the joined items when the witness has a list under the key, "" otherwise |
| Export.BuildRow | teirubrics/export.py:35-74 | the key, then one cell per siglum in siglum order |
| Export.ExportData | teirubrics/export.py:33-80 | headers `[key_name] + sigla`; one row per key in key order, each the key and its cells |
| Grouping.WithKey | teirubrics/main.py:81 | a new key goes last and an existing one keeps its place; distinctness is kept |
| Grouping.Append | teirubrics/main.py:81 | appends to exactly one list, creating missing levels; nothing else changes |
| Grouping.Put | teirubrics/main.py:125 | replaces exactly one list by a singleton; nothing else changes |
| Grouping.AppendAllLookup | teirubrics/main.py:66-81 | after a run of appends each list is its old contents plus that key's and siglum's rubrics, in run order |
| Grouping.AppendAll | teirubrics/main.py:81 | filing a run of entries by appending each in turn; keeps the grouping well formed |
| Grouping.AppendAllHasCell | teirubrics/main.py:66-81 | a list exists exactly where one existed or something was filed |
| Grouping.PutAllLookup | teirubrics/main.py:115-125 | with assignment only the last rubric filed under a key and siglum survives |
| Grouping.PutAll | teirubrics/main.py:125 | filing a run of entries by assigning each in turn; keeps the grouping well formed |
| Grouping.PutAllHasCell | teirubrics/main.py:115-125 | a list exists exactly where one existed or something was filed |
| Grouping.AppendAllConcat | teirubrics/main.py:66-81 | filing two runs in turn is filing their concatenation |
| Grouping.PutAllConcat | teirubrics/main.py:115-125 | filing two runs in turn is filing their concatenation |
| Grouping.AppendAllKeys | teirubrics/main.py:81 | keys appear in order of first filing |
| Grouping.PutAllKeys | teirubrics/main.py:125 | keys appear in order of first filing |
| Grouping.KeysAfterPrefix | teirubrics/main.py:81 | keys are never reordered by later filings |
| Grouping.Reorder | teirubrics/main.py:92 | the same cells, the keys a permutation |
| Grouping.ReorderValid | teirubrics/main.py:92 | each key still listed exactly once |
| Grouping.ReorderSorted | teirubrics/main.py:92 | the keys come out in ascending rank |
| Grouping.ReorderIsStable | teirubrics/main.py:92 | keys of equal rank keep the order they were filed in |
| Grouping.UnrankedFirst | teirubrics/main.py:85-92 | a key of rank -1 is preceded only by keys of rank -1 |
| Grouping.ReorderDescending | teirubrics/main.py:132 | three keys in descending rank come out reversed |
| Ranking.InsertPermutes | teirubrics/main.py:92 | insertion adds exactly the one element |
| Ranking.InsertSorted | teirubrics/main.py:92 | insertion keeps the order by rank |
| Ranking.SortByRankSorts | teirubrics/main.py:92 | the sort permutes its input, orders it by rank and keeps keys distinct |
| Ranking.SortByRank | teirubrics/main.py:92 | `sorted` by rank: insertion sort, each element placed after every element of equal or lower rank |
| Ranking.SortIsStable | teirubrics/main.py:92 | within each rank the sorted order is the input order |
| Ranking.SortDescending | teirubrics/main.py:132 | three elements in descending rank come out reversed |
| Reports.MapAllOk | teirubrics/main.py:53 | the list of sigla exists exactly when each siglum does, and holds them in document order |
| Reports.Sigla | teirubrics/main.py:53 | the siglum of every document, in document order, or the first document's failure |
| Reports.MapAllErr | teirubrics/main.py:53 | a failure is the failure of some document's siglum |
| Reports.CollectOk | teirubrics/main.py:66-81 | a run of filings succeeds exactly when each step does |
| Reports.EventName | teirubrics/main.py:60-64 | fails exactly without `xml:id`; otherwise the id, named by the label, or by the id itself when the label is empty |
| Reports.DateTableFails | teirubrics/main.py:60-61 | building the table fails exactly when an event has no id, with that missing key |
| Reports.Label | teirubrics/main.py:62-63 | the extracted text of an event's first `label`, "" without one |
| Reports.DateTableOf | teirubrics/main.py:59-64 | the date table: each event's id and name defined in event order, or the first event's missing-id failure |
| Reports.DefineAllIds | teirubrics/main.py:59-64 | ids are listed once each, and are exactly those defined |
| Reports.DefineAllLast | teirubrics/main.py:64 | the last definition of an id gives its name |
| Reports.DateTableIds | teirubrics/main.py:59-64 | the table lists each id once, and exactly the ids the events carry |
| Reports.DateTableLast | teirubrics/main.py:59-64 | an id's name comes from the last event defining it |
| Reports.Labels | teirubrics/main.py:83 | the names in order of first definition |
| Reports.BuildDateTable | teirubrics/main.py:59-64 | the loop builds the table the events define, or fails on the first event without an id |
| Reports.DateNameFallback | teirubrics/main.py:77-80 | a reference resolves alike with or without `#`; an unknown id resolves to itself |
| Reports.DateName | teirubrics/main.py:77-80 | the name a `when-custom` reference files under: its id without a leading `#`, looked up in the table, or the id itself |
| Reports.DatesFiled | teirubrics/main.py:75-81 | succeeds exactly when every date has `when-custom`; the i-th date files the rubric under its resolved name |
| Reports.FileDates | teirubrics/main.py:75-81 | the date loop appends what the date filings give, or fails on the first missing `when-custom` |
| Reports.FileRubricsByDate | teirubrics/main.py:68-81 | the rubric loop skips rubrics the place filter drops and files the rest |
| Reports.FileByDate | teirubrics/main.py:66-81 | the document loop files every document's rubrics in order, or fails as the filings do |
| Reports.FileRubricByVerse | teirubrics/main.py:119-125 | a rubric the place filter drops leaves the grouping as it was; a kept one is assigned under its `corresp` |
| Reports.FileRubricsByVerse | teirubrics/main.py:117-125 | the rubric loop assigns each kept rubric under its `corresp` |
| Reports.FileByVerse | teirubrics/main.py:115-125 | the document loop files every document's rubrics in order |
| Reports.DocDatesKept | teirubrics/main.py:67-81 | every rubric filed passes the place filter, under its own document's siglum |
| Reports.Kept | teirubrics/main.py:71-73 | the place filter: every rubric is kept when no place is given, otherwise those with a `placeName` whose `ref` is the place (also main.py:120-122) |
| Reports.DateEntriesKept | teirubrics/main.py:69-73 | no rubric the place filter drops reaches the date report |
| Reports.DocVersesKept | teirubrics/main.py:116-125 | every rubric filed passes the filter, under its `corresp` and its document's siglum |
| Reports.VerseEntriesKept | teirubrics/main.py:118-125 | the verse report's filings all pass the filter and use their rubric's `corresp` |
| Reports.VerseEntriesOk | teirubrics/main.py:114-125 | once the sigla exist the verse filing cannot fail |
| Reports.VerseCellsSingle | teirubrics/main.py:125 | each verse list holds at most one rubric: the last filed |
| Reports.LastIndex | teirubrics/main.py:83 | -1 exactly when absent, otherwise the last position of the name |
| Reports.DateRank | teirubrics/main.py:83-90 | `sort_by_date`: a key's rank is its last position among the table's names, -1 when absent |
| Reports.FirstIndex | teirubrics/main.py:130 | -1 exactly when absent, otherwise the first position (`list.index`) |
| Reports.VerseRank | teirubrics/main.py:127-130 | `sort_by_verse`: a key's rank is the first position of the key, less a final `b`, in the verse list, -1 when absent |
| Reports.Notices | teirubrics/main.py:85-90 | at most one notice per key |
| Reports.NoticesMembers | teirubrics/main.py:85-90 | a notice for every key without a date name, and each notice names such a key |
| Reports.NoticesConcat | teirubrics/main.py:85-90 | the notices of two runs of keys are those of the first followed by those of the second |
| Reports.NoticesSingle | teirubrics/main.py:87-89 | one key gives a notice exactly when it has no date name |
| Reports.StripFinalB | teirubrics/main.py:129 | a final `b`, or a `b` before a final newline, is removed; any other string is unchanged |
| Reports.UnrankedFirstByDate | teirubrics/main.py:85-92 | date names missing from the table sort before all others |
| Reports.UnrankedFirstByVerse | teirubrics/main.py:127-132 | verses missing from the list sort before all others |
| Reports.VerseOrderExample | teirubrics/main.py:127-132 | keys "c", "a", "x" against the list "a", "b", "c" come out "x", "a", "c" |
| Reports.DateData | teirubrics/main.py:55-81 | a table and grouping read from the documents are well formed |
| Reports.ByDate | teirubrics/main.py:51-99 | fails as the sigla, the empty list, the date table or the filing fail; otherwise exports the grouping reordered by date rank under "Date", with one notice per unnamed key |
| Reports.ByVerse | teirubrics/main.py:110-140 | fails only as the sigla fail; otherwise exports the verse grouping reordered by verse rank under "Verse", with the verse field hidden |

## Left out

- Reading and parsing files, XInclude resolution and `write_tei`.
  The model starts from a parsed tree; comments and processing instructions are not modelled.
- XPath is not parsed. Each query is given as a step: prefix, name and optional attribute test.
  A place containing a quote, which would break the place query's syntax, is therefore not modelled.
- The Jinja templates are a `render` parameter.
  The table and page templates, the page title and the writing of the output file are left out.
  `ExportData` returns the rows and headers handed to the table template.
- `print` calls: the date report returns its "not found" notices instead of printing them.
- `plot_verses` and its plotting library, the command-line layer, and reading the verse list file.
  The verse list is a parameter.
- Regex `\d` is ASCII digits only. Python also accepts other Unicode decimal digits.
- `Strings.Replace` requires a non-empty pattern. The only pattern used is " .".
- The greedy `{.*}` of the local-name regex stops at a newline. This is modelled, but tags never hold one.

## Where the code and a plain reading of it differ

The model follows the code in each case:

- `get_siglum`'s docstring (teirubrics/tei.py:112) reads the `n` of `<title type="document">`.
  Line 117 takes the first `.//title` of any type, so a `titleStmt` whose first title is another one gives that title's `n`.
- `get_siglum`'s docstring (teirubrics/tei.py:111-115) promises "" when the element is not found.
  On a document without `titleStmt`, line 117 passes None to `find_element`.
  That fails the locator's assertion (line 50) instead of giving "".
- An apparatus entry reads as "the text of its lemma".
  But `extract_text(lemma)` (teirubrics/tei.py:28) leaves `include_tail` at its default, True, so the lemma's tail is part of the text.
- `convert_roman_prefix` (teirubrics/export.py:8-13) inserts no space after the numeral.
  `add_space_after_book(convert_roman_prefix("IIIJohn4:5"))` is "3John 4:5", not "3 John 4:5".
- A sort key named by rank suggests that unknown keys go last.
  In both reports (teirubrics/main.py:85-90, 127-132) a key without a rank gets -1, so it sorts before every ranked key.
- A plain reading of `find_elements` (teirubrics/tei.py:63-69) is "each matching element once".
  It concatenates the namespaced and bare passes, so an element without a default namespace is reported twice.
- Searching a subtree with no matches reads as "nothing found", never an error.
  That holds for unprefixed steps only. With a prefixed step, `find_elements` always raises from its bare pass (teirubrics/tei.py:68).
  `find_element` raises when the element does not bind the prefix, since the namespaced search (line 54) is outside the `try`.
- The date rank is built from `date_dict.values()` (teirubrics/main.py:83), and a dictionary keeps the last index written.
  A name given to two ids therefore ranks by its last position, not its first.
