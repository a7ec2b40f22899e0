# Toronto Report Parser, modelled in Dafny

The Toronto Report Parser reads the PDF reports of an optical biometer and
turns them into nested dictionaries. It handles three IOL-calculation
variants (Haigis, Holladay 1, SRK/T) and the "MMT-Full" measurement report.
The parser sees a page as positioned text spans. Each span has a text, the
(x, y) of its origin and font flags. The parser then:

- cuts the page into named rectangular regions;
- groups each region's spans into visual lines;
- reads key/value pairs, lens tables and measurement readings from those
  lines.

A small driver flattens the nested result into one level of
`parent_child` keys for a spreadsheet.

This project models that core as imperative Dafny. Each loop of the
original is a `method` with loop invariants. Each method is proved equal to
a specification function, and the properties the code promises are lemmas
about those functions.

| module (file) | models |
|---|---|
| `Basics` (basics.dfy) | `Option`/`Result`, the exceptions that can escape, `f"{stem}_{n}"` keys, and the string built-ins the code calls: `strip`, `split(sep, 1)`, `replace`, `endswith`, `s[:-1]` |
| `Dicts` (dicts.dfy) | Python's insertion-ordered dictionary: assignment, `update`, `items()`, `values()`, last write wins |
| `Records` (records.dfy) | the values a result holds: texts, numbers, rows of texts, nested dictionaries |
| `Layout` (layout.dfy) | the page's blocks, lines and spans, and `get_spans_by_origin` |
| `Sorting` (sorting.dfy) | `sorted(..., key=y)` and `key=x` as a stable insertion sort |
| `Lines` (lines.dfy) | the tolerance line grouping of `spans_to_lines` and `get_mmt_data` |
| `KeyValues` (key_values.dfy) | `get_key_values` |
| `LensTable`, `LensFacts` (lens_table.dfy, lens_facts.dfy) | `get_lens_values` and what its result holds |
| `Measurements`, `MeasurementFacts` (measurements.dfy, measurement_facts.dfy) | `get_mmt_data` with `get_next_key_value`, and what its result holds |
| `Report`, `ReportFacts`, `MmtReportFacts` (report.dfy, report_facts.dfy, mmt_report_facts.dfy) | `get_pdf_data`, the two extractors, their region tables and the OS translation |
| `Flatten` (flatten.dfy) | `flatten_dict` |

Conventions of the model:

- **Float parsing.** Python's `float()` is a parameter
  `parse: string -> Option<real>`, with `None` where `float` raises
  `ValueError`.
- **Exceptions.** An exception that escapes an extractor is an `Err` of
  `Result`:
  - `AssertionError` for an empty lens region;
  - `IndexError` for each unguarded `v[1]` or `v[i-1]`.
- **Exceptions the code catches.** An `IndexError` or `ValueError` inside
  the code's own `try` blocks is caught there, and the model does the same.
- **Region names.** Each region name is a value of the datatype
  `RegionName`, rendered by `RegionKey` to the same string the code writes.
- **Loops over eyes and lens columns.** These are specified over the
  sequence of what each read gives. The first exception ends the loop, as
  in the code. The reads have no side effects, so reading every column in
  advance gives the same result.

Two facts about the code that a reader might expect otherwise:

- **The anchor does not drift.** `prev_y` changes only when a line starts
  (toronto_report_parser/__init__.py:164-171). So every span of a line lies
  within 1 of the line's first y, and `Lines.LinesShape` proves it.
- **The ACD line is scanned too.** The line after `ACD:` goes through the
  key/value scan first, and then `ACD_i` is written (:309-329). See
  `MeasurementFacts.MmtStepAcd`.

Two behaviours of the code are kept exactly as written:

- **Shadowed `i`.** The counter loop of `K1`/`K2`/`DeltaK` reassigns the
  `enumerate` variable `i` (:318-321). A later bare `K` in the same span
  text then checks `v[i-1]` at the wrong place, or raises `IndexError`.
  `MeasurementFacts.SuffixReuseError` states exactly when it raises.
- **Unguarded `v[1]`.** The AL header test reads `v[1]` without a guard
  (:333), so a line made of a lone "AL" raises.

## Model

| member | source | states |
|---|---|---|
| Layout.SpansByOrigin | toronto_report_parser/__init__.py:144-155 | the three nested loops return exactly the selection of the page's spans, in block, line, span order |
| Layout.BlockSpansByOrigin | toronto_report_parser/__init__.py:150-154 | the line and span loops for one block keep the block's spans that are strictly inside, in order |
| Layout.SelectMembers | toronto_report_parser/__init__.py:152-154 | a span is kept iff it is among the input spans and its origin is strictly inside the rectangle (a span on an edge is out); never more spans than given |
| Layout.SelectAppend | toronto_report_parser/__init__.py:149-154 | selection distributes over concatenation, so the kept spans keep the page's traversal order |
| Sorting.SortOnSorted | toronto_report_parser/__init__.py:161 | `sorted` returns its input ordered by the key and as a permutation (same multiset, same length) |
| Sorting.SortOnStable | toronto_report_parser/__init__.py:161 | `sorted` is stable: spans with equal keys keep their input order |
| Sorting.SortOnIdentity | toronto_report_parser/__init__.py:175 | sorting an already sorted line changes nothing |
| Sorting.SortOnHead | toronto_report_parser/__init__.py:207-211 | the first span after sorting is the first input span with the smallest key |
| Lines.GroupByAnchor | toronto_report_parser/__init__.py:162-171 | the `prev_y` loop builds `spans_by_y` with one entry per line of the tolerance rule, keyed by the line's first y, in line order |
| Lines.FileSpan | toronto_report_parser/__init__.py:165-171 | one turn: a span more than 1 from `prev_y` opens a line under its own y, any other is appended to the line of `prev_y`, and `prev_y` stays the last key |
| Lines.NewAnchorIsFresh | toronto_report_parser/__init__.py:167-168 | on y-sorted input a span that opens a line never hits a y already in `spans_by_y`, so `spans_by_y[y] = [span]` never discards a line |
| Lines.SortLinesByX | toronto_report_parser/__init__.py:174-175 | the in-place x sort replaces each line by its sorted version and keeps the keys and their order |
| Lines.GroupLines | toronto_report_parser/__init__.py:161-175 | grouping then sorting gives the tolerance lines of the y-sorted spans, each sorted by x |
| Lines.SpansToLines | toronto_report_parser/__init__.py:157-177 | `spans_to_lines` returns the texts of those lines |
| Lines.ClusterConcat | toronto_report_parser/__init__.py:165-171 | the lines cut the y-sorted spans into consecutive pieces |
| Lines.LinesPartition | toronto_report_parser/__init__.py:161-177 | every span lands in exactly one line: the lines together are the input, occurrence for occurrence |
| Lines.LinesShape | toronto_report_parser/__init__.py:161-177 | the anchors rise by more than 1 from line to line; every span of a line lies within [anchor, anchor + 1]; the anchor is a span's y; each line is non-empty and ordered by x |
| Lines.AnchorsAscend | toronto_report_parser/__init__.py:164-171 | anchors strictly increase along the lines |
| KeyValues.GetKeyValues | toronto_report_parser/__init__.py:179-199 | `get_key_values` returns the colon rule applied to the exact-y groups in first-seen order |
| KeyValues.GroupByExactY | toronto_report_parser/__init__.py:182-187 | the first loop builds the groups of equal y in first-seen order |
| KeyValues.ApplyColonRule | toronto_report_parser/__init__.py:189-197 | the second loop assigns, in group order, the key and value the colon rule finds in each x-sorted group |
| KeyValues.ExactGroupsContent | toronto_report_parser/__init__.py:182-187 | a y is a key iff some span has it; its group is exactly the spans with that y, in input order |
| KeyValues.ColonRule | toronto_report_parser/__init__.py:191-197 | a group yields nothing iff it has fewer than 2 spans or its leftmost text does not end with ":"; otherwise the key is the leftmost text without its last character and the value is the text of a span of smallest x among the others |
| KeyValues.SecondLeftmost | toronto_report_parser/__init__.py:191-197 | in an x-sorted group, `v[1]` has the smallest x among the spans other than `v[0]` |
| KeyValues.KeyValuesLookup | toronto_report_parser/__init__.py:179-199 | a key is in the result iff the group of some y yields it, and it holds the value of the last such group |
| LensTable.GetLensValues | toronto_report_parser/__init__.py:201-250 | `get_lens_values` returns the name, then the scan of the x-sorted exact-y lines; `AssertionError` on no spans |
| LensTable.LensLines | toronto_report_parser/__init__.py:207-211 | `spans_by_y` and `name`: the x-sorted runs of equal y, and the first text of the line with the smallest y |
| LensTable.ScanLens | toronto_report_parser/__init__.py:214-248 | the loop over the lines is the step function applied line by line, stopping at the first exception |
| LensTable.ScanLensLine | toronto_report_parser/__init__.py:216-248 | one iteration: the table row, the header test, the label rules |
| LensTable.ReadTableRow | toronto_report_parser/__init__.py:219-235 | the `try` block: both numbers stored under `iol_n`/`ref_n`, the counter advanced, the bold keys set when `flags == 20`, the mode switched off on a failure |
| LensTable.ApplyLabel | toronto_report_parser/__init__.py:241-248 | `key:` plus the next text, else `key: value` split at the first ": ", else nothing; `IndexError` for a lone span ending in ":" |
| LensTable.StartName | toronto_report_parser/__init__.py:208-211 | the comprehension's values are the x-sorted runs and `min(keys)` picks the first run, whose first text is the name |
| LensTable.RunsByYLines | toronto_report_parser/__init__.py:207-208 | the comprehension keys the runs by their y, which are distinct and ascending, so its smallest key is the first run's y |
| LensTable.MinKey | toronto_report_parser/__init__.py:211 | `min` returns a key that is at most every key |
| LensTable.LensRunStops | toronto_report_parser/__init__.py:243-244 | once a line raises, the later lines change nothing |
| LensFacts.RunsAreGroups | toronto_report_parser/__init__.py:207-208 | each `groupby` run is exactly the spans with its y, in input order |
| LensFacts.GroupsOfRuns | toronto_report_parser/__init__.py:207-208 | the runs have strictly ascending y, and the spans of any y are the run with that y |
| LensFacts.LensNameTopLeft | toronto_report_parser/__init__.py:207-211 | `name` is the leftmost text among the spans of the smallest y (the first in input order on an x tie) |
| LensFacts.LensEmptyRegion | toronto_report_parser/__init__.py:203 | the assertion fails exactly on an empty span list |
| LensFacts.LensIndexError | toronto_report_parser/__init__.py:243-244 | the scan raises `IndexError` exactly when some span ending in ":" is alone on its y |
| LensFacts.LabelError | toronto_report_parser/__init__.py:243-244 | the label rules raise exactly on a line of one span ending in ":" |
| LensFacts.LensRunErrLine | toronto_report_parser/__init__.py:243-244 | when the scan raises, some line's label rules raise and the exception is `IndexError` |
| LensFacts.LensRunErrFrom | toronto_report_parser/__init__.py:243-244 | a line whose label rules raise makes the whole scan raise |
| LensFacts.TableOnStep | toronto_report_parser/__init__.py:219-239 | after one more line the table mode is on iff that line is the header, or the mode was on and the line parses |
| LensFacts.LensStepFacts | toronto_report_parser/__init__.py:216-248 | what one line does to the mode, the counter and the entries |
| LensFacts.LensRunTable | toronto_report_parser/__init__.py:214-239 | the scan's `iol_numbers_flag` and `iol_count` agree with the declarative table: some header, every later line a row; the count is the number of rows read |
| LensFacts.NoHeaderNoRows | toronto_report_parser/__init__.py:219-239 | without an `IOL (D)`/`REF (D)` line no row is read |
| LensFacts.FailureEndsTable | toronto_report_parser/__init__.py:234-235 | a line that does not parse ends the mode unless a later header restarts it |
| LensFacts.LastBoldIsLast | toronto_report_parser/__init__.py:231-233 | the last bold row is bold and no later row is bold; none iff no row is bold |
| LensFacts.LensRunTableKey | toronto_report_parser/__init__.py:219-225 | `iol_n`/`ref_n` exist exactly for n below the number of rows read and hold row n's numbers, numbered from 0 in reading order |
| LensFacts.LensRunBoldKey | toronto_report_parser/__init__.py:231-233 | `iolbold`/`refbold` hold the numbers of the last bold row read and are absent when no row read was bold |
| LensFacts.LensRunLabel | toronto_report_parser/__init__.py:241-248 | a label key holds the value of the last line whose label rules store it |
| LensFacts.LensRunFrame | toronto_report_parser/__init__.py:214-248 | a key that neither the table nor a label writes keeps its value, or stays absent |
| LensFacts.LensValuesTable | toronto_report_parser/__init__.py:214-225 | the same for the returned dictionary: `iol_n`/`ref_n` are present exactly for the rows read, each with its row's numbers |
| LensFacts.LensValuesBold | toronto_report_parser/__init__.py:226-233 | the returned `iolbold`/`refbold` hold the last bold row read, and are absent when none was bold |
| LensFacts.LensValuesLabel | toronto_report_parser/__init__.py:241-248 | a label key no table row can write, stored by a line and by no later line, is in the returned dictionary with that line's text |
| LensFacts.LensValuesName | toronto_report_parser/__init__.py:210-212 | `name` keeps the top-left text unless a label stores `name` |
| LensFacts.LensValuesOnlyTable | toronto_report_parser/__init__.py:201-250 | no key other than `name`, the table keys and the label keys is ever present |
| LensFacts.LensValuesHaveName | toronto_report_parser/__init__.py:210-212 | the returned dictionary always has a text under `name`, so `lens["name"]` in the lens loop of `get_pdf_data_iol` never raises |
| Measurements.NextDelimiter | toronto_report_parser/__init__.py:281-290 | the scan stops at the first ':' or '=' at or after its start, or at the end |
| Measurements.BackToSpace | toronto_report_parser/__init__.py:294-295 | the back-track stops just after the nearest space, never before the value's start, and passes over no space |
| Measurements.GetNextKeyValue | toronto_report_parser/__init__.py:276-301 | the tokenizer's index loops compute the key, value and rest |
| Measurements.FreeSuffix | toronto_report_parser/__init__.py:318-320 | the suffix is free and every smaller suffix is taken |
| Measurements.FindFreeSuffix | toronto_report_parser/__init__.py:318-320 | the `while f"{key}_{i}" in result` loop finds that suffix and terminates |
| Measurements.FreeSuffixUnique | toronto_report_parser/__init__.py:318-320 | those two properties determine the suffix |
| Measurements.StoreKey | toronto_report_parser/__init__.py:314-322 | one pair: the `DeltaK` renaming, the numbering of counted keys, the stripped store |
| Measurements.StoreNamed | toronto_report_parser/__init__.py:317-322 | the store of a renamed key with its suffix loop |
| Measurements.ScanSpan | toronto_report_parser/__init__.py:312-322 | `while text:` consumes one span's text pair by pair |
| Measurements.ScanLine | toronto_report_parser/__init__.py:310-322 | the span loop of one line, stopping at the first exception |
| Measurements.LineScanStops | toronto_report_parser/__init__.py:310-322 | an exception in one span ends the line |
| Measurements.CaptureAcd | toronto_report_parser/__init__.py:324-327 | the `ACD_i` loop |
| Measurements.ReadAlLine | toronto_report_parser/__init__.py:333-346 | the AL/SNR part of one line |
| Measurements.ScanMmtLine | toronto_report_parser/__init__.py:309-346 | one line: scan, then ACD, then AL/SNR |
| Measurements.ScanMmtLines | toronto_report_parser/__init__.py:306-346 | the loop over the lines, stopping at the first exception |
| Measurements.MmtRunStops | toronto_report_parser/__init__.py:309-346 | once a line raises, the later lines change nothing |
| Measurements.GetMmtData | toronto_report_parser/__init__.py:252-348 | `get_mmt_data` is the line loop over the tolerance lines of its spans |
| MeasurementFacts.NextKeyValueNone | toronto_report_parser/__init__.py:281-285 | `(None, None, "")` exactly for a text without ':' or '=' |
| MeasurementFacts.NextKeyValueParts | toronto_report_parser/__init__.py:279-301 | the text is the key, one delimiter, the value and the rest, in that order; neither key nor value holds a delimiter |
| Measurements.NextKeyValue | toronto_report_parser/__init__.py:312-313 | the rest is strictly shorter than the text, so `while text:` terminates |
| MeasurementFacts.NextKeyValueRest | toronto_report_parser/__init__.py:287-301 | the rest is empty iff no second delimiter follows; otherwise the value is empty or ends with the space before the next key, and that next key holds no space |
| MeasurementFacts.TwoReadingsCut | toronto_report_parser/__init__.py:274-301 | "K1:43.25 K2:44.10" gives key "K1", value "43.25 " and rest "K2:44.10" |
| MeasurementFacts.StoreCountedKey | toronto_report_parser/__init__.py:317-322 | `K1`, `K2`, `DeltaK` take the smallest free suffix, never overwriting an earlier reading; the value is stored stripped and `i` becomes the suffix |
| MeasurementFacts.StorePlainKey | toronto_report_parser/__init__.py:322 | any other key is stored stripped of " ()", with its value stripped, and leaves `i` alone |
| MeasurementFacts.DeltaKRenaming | toronto_report_parser/__init__.py:315-316 | a bare `K` after the span "∆" becomes `DeltaK`; no other key is renamed |
| MeasurementFacts.StoreKeyValueError | toronto_report_parser/__init__.py:314-315 | an empty pair stores nothing; the store raises `IndexError` exactly for a bare `K` whose `i` points past the line |
| MeasurementFacts.SuffixReuseError | toronto_report_parser/__init__.py:315-321 | after a `K1`, a bare `K` in the same span text raises exactly when `K1_0` to `K1_{len(v)}` were all taken |
| MeasurementFacts.SpanScanError | toronto_report_parser/__init__.py:312-322 | the only exception of the span scan is `IndexError` |
| MeasurementFacts.LineScanError | toronto_report_parser/__init__.py:310-322 | the same for the span loop of a line |
| MeasurementFacts.AcdCaptureWrites | toronto_report_parser/__init__.py:324-327 | the line after `ACD:` is copied raw: `ACD_i` holds the unstripped text of span i |
| MeasurementFacts.AcdCaptureFrame | toronto_report_parser/__init__.py:325-326 | the copy changes no key other than `ACD_0` to `ACD_{n-1}` |
| MeasurementFacts.MmtStepAcd | toronto_report_parser/__init__.py:309-329 | the flag is set only by an unflagged line whose first text starts with `ACD:`, so it lasts one line; after a flagged line, `ACD_i` holds the raw text of its span i, whatever the scan of that line wrote |
| MeasurementFacts.AlOnStep | toronto_report_parser/__init__.py:333-346 | after one more line the AL/SNR mode is on iff the line is the header, or the mode was on and the line parses |
| MeasurementFacts.AlRowMillimetres | toronto_report_parser/__init__.py:339-341 | a value line `a + " mm"` with a parsable `a` and a parsable second text reads as that pair |
| MeasurementFacts.AlStepFacts | toronto_report_parser/__init__.py:333-346 | what the AL/SNR part of one line does to the mode, the counter and the result |
| MeasurementFacts.MmtStepAl | toronto_report_parser/__init__.py:306-346 | one whole line leaves the AL/SNR mode and counter as that part sets them |
| MeasurementFacts.MmtRunAl | toronto_report_parser/__init__.py:306-346 | the scan's `al_snr_flag` and `al_snr_count` agree with the declarative table |
| MeasurementFacts.MmtRunAlWrite | toronto_report_parser/__init__.py:338-344 | the n-th row read is stored as `AL_n` and `SNR_n`, numbered from 0, by the line that holds it |
| MeasurementFacts.AlFailureEnds | toronto_report_parser/__init__.py:345-346 | the first line that does not parse turns the capture off; no later row is read unless a header restarts it |
| MeasurementFacts.MmtStepError | toronto_report_parser/__init__.py:309-346 | a line raises exactly when its scan raises or it is a lone "AL"; the exception is `IndexError` |
| MeasurementFacts.MmtRunError | toronto_report_parser/__init__.py:309-346 | when `get_mmt_data` raises, the lines before some line went through and that line raised the exception, which is `IndexError` |
| Basics.Strip | toronto_report_parser/__init__.py:322 | `strip(" ()")` returns the longest infix that neither starts nor ends with those characters, cutting only those characters |
| Basics.StripCutsOnlyChars | toronto_report_parser/__init__.py:322 | what `strip` leaves is stripped, and everything it cut from the right end is one of the strip characters |
| Basics.StripStripped | toronto_report_parser/__init__.py:322 | stripping an already stripped text changes nothing |
| Basics.SplitOnce | toronto_report_parser/__init__.py:246-248 | `split(": ", 1)` gives two parts iff ": " occurs; then the text is the first part, ": " and the second part, and the first part holds no ": " |
| Basics.DropLast | toronto_report_parser/__init__.py:197 | `s[:-1]` plus the last character gives back `s` |
| Basics.NatToStringInjective | toronto_report_parser/__init__.py:319-321 | different counters render to different digits |
| Basics.IndexedInjective | toronto_report_parser/__init__.py:319-321 | `f"{stem}_{n}"` determines both its stem and its counter |
| Basics.IndexedKeysBound | toronto_report_parser/__init__.py:319-320 | only as many suffixes can be taken as the result has keys, so the suffix loop ends |
| Basics.ReplaceUnitSuffix | toronto_report_parser/__init__.py:340 | `replace(" mm", "")` on `a + " mm"` gives back `a` when `a` holds no " mm" |
| Dicts.UpdateEntries | toronto_report_parser/__init__.py:87-88 | `update` takes the new dictionary's value for each of its keys and keeps the others |
| Dicts.UpdateOrder | toronto_report_parser/__init__.py:87-88 | `update` keeps the old keys in place and appends the new keys in their order |
| Dicts.GetSetAll | toronto_report_parser/__init__.py:139-140 | after a run of assignments a key holds its last assigned value; an unassigned key keeps its old value |
| Dicts.SetAllDistinct | toronto_report_parser/__init__.py:139-140 | assignments to distinct keys append the new keys in order |
| Report.GetPdfData | toronto_report_parser/__init__.py:19-29 | routes "IOL…" titles to the IOL extractor and "MMT-Full" to the MMT one; any other title gives `{}` |
| Report.GetPdfDataIol | toronto_report_parser/__init__.py:31-100 | the IOL extractor: file name and title, region table, OS regions, headers, then both eyes |
| Report.IolRegionTable | toronto_report_parser/__init__.py:41-63 | a table, when the variant has one, holds exactly the OD region names: both headers, the OD header column and the four OD lens columns |
| Report.IolRegionNames | toronto_report_parser/__init__.py:41-77 | after the OS loop a known variant has both headers and, for both eyes, the header column and the four lens columns, so every region lookup of the extractor succeeds |
| ReportFacts.OsPairNames | toronto_report_parser/__init__.py:65-71 | the OS loop walks five pairs, and their names render to exactly the (OD, OS) name pairs the code lists, `region_od_header`/`region_os_header` then `region_od_lens_1`/`region_os_lens_1` to `_4`, in that order |
| Report.AddOsRegions | toronto_report_parser/__init__.py:65-77 | the OS loop performs its five rounds |
| ReportFacts.SpansOfMembers | toronto_report_parser/__init__.py:82-85 | every region of the table gets a list, and a span is in it iff it is on the page and strictly inside the region's rectangle; the list is never longer than the page's spans |
| ReportFacts.RegionSpansMembers | toronto_report_parser/__init__.py:120-123 | over the ordered MMT-Full table the regions keep the table's order, and a span is in a region's list iff it is on the page and strictly inside the region |
| Report.ReadHeaders | toronto_report_parser/__init__.py:87-88 | the two header regions' key/values are merged in, the second last |
| ReportFacts.LensColumnByKey | toronto_report_parser/__init__.py:92-93 | the only region whose name renders to `f"region_{eye}_lens_{i}"` is the eye's i-th lens column, and the i-th column read is that region's spans |
| Report.ReadIolEyes | toronto_report_parser/__init__.py:89-94 | the eye loop stores each eye under "od"/"os"; the first exception ends it |
| Report.ReadIolEye | toronto_report_parser/__init__.py:90-94 | one eye: its header key/values with `lenses` added |
| Report.ReadLenses | toronto_report_parser/__init__.py:92-94 | the lens loop stores each lens under its name; the first exception ends it |
| Report.StoreEyesStops | toronto_report_parser/__init__.py:89-94 | once an eye raises, the later eyes change nothing |
| Report.LensesOfStops | toronto_report_parser/__init__.py:92-94 | once a column raises, the later columns change nothing |
| Report.MmtRegions | toronto_report_parser/__init__.py:111-117 | the MMT-Full table lists the two headers and the two measurement regions, in that order |
| Report.MmtRegionsComplete | toronto_report_parser/__init__.py:111-123 | the span selection keeps every MMT-Full region, so every lookup of the extractor succeeds |
| Report.GetPdfDataMmtFull | toronto_report_parser/__init__.py:102-142 | the MMT-Full extractor: file name and title, headers, both eyes, then every region's lines |
| Report.ReadMmtEyes | toronto_report_parser/__init__.py:134-135 | the eye loop of the MMT-Full extractor |
| Report.ReadMmtEye | toronto_report_parser/__init__.py:134-135 | one eye of the MMT-Full loop is `get_mmt_data` of its measurement region |
| Report.StoreRegionLines | toronto_report_parser/__init__.py:139-140 | the loop stores each region's lines under its name, in table order |
| ReportFacts.UnknownTitleEmpty | toronto_report_parser/__init__.py:27-29 | an unknown title gives an empty dictionary, without even `filename` and `title` |
| ReportFacts.UnknownIolVariant | toronto_report_parser/__init__.py:32-63 | an IOL title without a table gives exactly `filename` then `title` |
| ReportFacts.IolTableTitles | toronto_report_parser/__init__.py:41-63 | exactly IOL-Haigis, IOL-Holladay-1 and IOL-SRK-T have a region table: Haigis its own, the other two the shared one; every title with a table starts with "IOL", so it reaches the IOL extractor |
| ReportFacts.IolTitleRoute | toronto_report_parser/__init__.py:23-24 | a title starting with "IOL" gives what the IOL extractor gives |
| ReportFacts.MmtTitleRoute | toronto_report_parser/__init__.py:25-26 | "MMT-Full" does not start with "IOL" and gives what the MMT-Full extractor gives |
| ReportFacts.WithOsRegionsShifts | toronto_report_parser/__init__.py:65-77 | after n rounds the OS regions of the first n columns exist, each its OD region moved right by `316.08 - 54`, and no earlier region changed |
| ReportFacts.IolRegionsShifted | toronto_report_parser/__init__.py:41-77 | an IOL report's regions are the table's own, unchanged, plus the five shifted OS ones |
| ReportFacts.ShiftedInside | toronto_report_parser/__init__.py:72-77 | a span is in an OD region iff the same span moved by the shift is in the OS region made from it |
| ReportFacts.IolTablesInOdColumn | toronto_report_parser/__init__.py:42-60 | both tables keep their OD regions between the page margin and the OD column's right edge |
| ReportFacts.EyesApart | toronto_report_parser/__init__.py:42-77 | no span is selected by both an OD and an OS region of an IOL report |
| ReportFacts.MmtEyesApart | toronto_report_parser/__init__.py:115-116 | no span is selected by both measurement regions |
| ReportFacts.LensesOk | toronto_report_parser/__init__.py:92-94 | the lens loop finishes iff every column reads |
| ReportFacts.LensesKeys | toronto_report_parser/__init__.py:92-94 | `lenses` holds exactly the names of the lenses read |
| ReportFacts.LastLensWins | toronto_report_parser/__init__.py:94 | two lenses with one name keep one entry: the one read last |
| ReportFacts.HeadersMerge | toronto_report_parser/__init__.py:87-88 | the headers' key/values are merged over `filename` and `title`, the second region last |
| ReportFacts.EyesResult | toronto_report_parser/__init__.py:89-94 | the eye loop raises iff an eye raises; otherwise both eyes are stored and every other key is untouched |
| ReportFacts.IolResult | toronto_report_parser/__init__.py:31-100 | an IOL report raises iff a lens loop raises; otherwise "od"/"os" hold the eyes and every other key holds what the headers gave it |
| ReportFacts.RegionKeyShape | toronto_report_parser/__init__.py:111-117 | every region key starts with `region_`; its kind, eye and part sit at named offsets and its number is the digits at its end |
| ReportFacts.RegionKeyInjective | toronto_report_parser/__init__.py:139-140 | two regions never share a result key |
| ReportFacts.RegionKeyNotEye | toronto_report_parser/__init__.py:134-140 | a region key is never "od" or "os", so the region lines never overwrite an eye |
| MmtReportFacts.LinesResult | toronto_report_parser/__init__.py:139-140 | each region's key holds its lines, and every key not starting with `region_` is untouched |
| MmtReportFacts.EyesThenLines | toronto_report_parser/__init__.py:134-140 | the eyes survive the later region loop |
| MmtReportFacts.MmtResultEyes | toronto_report_parser/__init__.py:102-142 | an MMT-Full report raises iff an eye raises; otherwise "od"/"os" hold the eyes |
| MmtReportFacts.MmtResultRegions | toronto_report_parser/__init__.py:102-142 | a finished MMT-Full report holds each region's lines under its key, and every other key holds what the headers gave it |
| Flatten.JoinKeySiblings | parse_pdf_reports.py:34-35 | two child keys of the same dictionary that join to the same flat key are equal, so siblings never collide |
| Flatten.FlattenRecord | parse_pdf_reports.py:31-40 | the loop with its recursive `update` computes the flattening of all the items, whose entries `Flatten.FlattenedLeaves` gives |
| Flatten.FlattenDict | parse_pdf_reports.py:31-40 | `flatten_dict(d)` with the default separator "_" |
| Flatten.FlattenedLeaves | parse_pdf_reports.py:31-40 | the result is the leaves, depth first in insertion order, assigned under their joined keys |
| Flatten.LastLeafWins | parse_pdf_reports.py:37-39 | when two paths flatten to one key, the one visited later wins |
| Flatten.FlattenedHasNoRecords | parse_pdf_reports.py:36-39 | no value of the result is a dictionary |
| Flatten.TopLevelLeaf | parse_pdf_reports.py:35-39 | a top-level leaf keeps its own key |
| Flatten.NestedLeaf | parse_pdf_reports.py:35-37 | a leaf under key b of a dictionary under key a appears under `a + "_" + b` |
| Flatten.EmptyNestedAddsNothing | parse_pdf_reports.py:34-37 | an empty nested dictionary contributes no key |
| Flatten.FlatteningLosesNesting | parse_pdf_reports.py:31-40 | `{"a_b": 1}` and `{"a": {"b": 1}}` flatten to the same dictionary |

## Left out

- PDF access is not modelled. This covers `fitz.open`, `close`, the context manager, `doc.metadata` and `page.get_text("dict")`. A `Document` gives the file name, the title and the blocks of the first page instead.
- `warnings.warn` is a side effect only, so only the returned values are modelled.
- Python's `float()` is the abstract parameter `parse`. Texts that Python parses to `nan` or `inf` are outside the model, because `parse` yields reals.
- Coordinates and region constants are exact reals, not IEEE doubles.
- The CLI, `glob`, grouping by title and the pandas/Excel output of parse_pdf_reports.py are I/O or foreign library calls.
- setup.py is packaging only.
- The IOL region table is a map, not an ordered dictionary. Its regions are only ever looked up by name; the commented-out lines loop that would have used their order is not live code.
- Flatten.FlattenedLeaves: states the entries of the flattened dictionary, not the order of its keys.
- Flatten.FlattenDict: fixes `sep` to its default "_", the only separator the driver uses.
- Measurements.NextKeyValue: the `(None, None, "")` of a text without a delimiter is `None`. The driving loop only tests `key or value` and takes the empty rest, so the loop behaves the same.
- LensFacts.LensValuesName: holds only when no label line stores the same key; in the code a label line may overwrite it, which LensFacts.LensRunLabel covers.
- LensFacts.LensValuesTable: holds only when no label line stores the same key; in the code a label line may overwrite it, which LensFacts.LensRunLabel covers.
- LensFacts.LensValuesBold: holds only when no label line stores the same key; in the code a label line may overwrite it, which LensFacts.LensRunLabel covers.
- LensFacts.LensRunTableKey: holds only when no label line stores the same key; in the code a label line may overwrite it, which LensFacts.LensRunLabel covers.
- LensFacts.LensRunBoldKey: holds only when no label line stores the same key; in the code a label line may overwrite it, which LensFacts.LensRunLabel covers.
