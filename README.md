# oxide table extraction, modelled in Dafny

oxide merges a directory of `.xlsx` survey workbooks into one CSV file. Each
workbook holds one table. The table is found by marker text in the first
cell of a row, not by fixed coordinates:

- a `"Hole Number"` row starts the table, and the row after it holds the sub-headers;
- a `"Sub-Totals"` row ends the data;
- the first `"Remarks"` row that reaches the remarks test is skipped.

The whole run writes at most one header line, and none when no workbook has
a `"Hole Number"` row. That line comes from the first `"Hole Number"` row
met in any workbook:

- empty main-header cells are forward-filled from the left;
- each name is joined with its sub-header and normalised by `format_header`;
- a final `date` field is added.

Every data row is written as its cells' display texts joined by commas,
followed by the workbook's report date (cell (1, 0)).

The model follows `src/main.rs` function by function:

- `normalize.dfy` models `format_header` as pure functions. `trim`, `to_lowercase` and the three `replace` passes are modelled for ASCII. A lemma proves that the chain equals one character-by-character map.
- `header.dfy` models the header-building closure of `generate_output` as the method `BuildHeader`. Its loop carries `prev_main_header`. It is proved equal to the declarative header `Composite`.
- `locator.dfy` gives the row classification as predicates. They say, for every row, where the header bound lies and whether the Sub-Totals and remarks markers are set when the scan reaches it; whether they are set is all the scan ever tests of them. The lemmas state the emission rule without replaying the scan.
- `worksheet.dfy` models the scan of one worksheet:
  - `ScanSheet` is the row loop.
  - `ScanRow` is one iteration, with the source's if-chain.
  - Both are proved against the state machine `Step`/`Scan`.
  - `Scan` is then proved to agree with the classification (`ScanAgrees`). So a worksheet's output is its header line, when the run still needs one, followed by the record line of every row the classification calls emitted.
- `aggregator.dfy` models the loop of `generate_output` over directory entries as `GenerateOutput`. Its output is proved to be at most one header line (none when no worksheet has a `"Hole Number"` row) followed by every worksheet's records, in order. It stops at the first unreadable entry.
- `section_patch.dfy` models the in-place section update of `update_binary` on an `array`, twice:
  - `ApplyUpdatesAsWritten` is the code's loop. Each update zero-fills its section and then copies its data with no length check, so data longer than its section overwrites the bytes after it (see "## Findings"). It is proved to keep only the bytes that no section and no copy covers.
  - `ApplyUpdates` is the corrected loop. It refuses data longer than its section. It is proved to keep every byte outside every section, and to write the same bytes as the code's loop when every update fits.
  - The file also models the trailing-NUL trim that `main` applies when reading a section back. A lemma proves the round trip for data that fits and does not end in a zero byte.

Cells are abstract. A `Cell` is `Empty`, a text cell `Str(s)`, or
`Other(display, asText, blank)`. An `Other` cell carries the decoder's
results for `to_string`, `as_string` and `is_empty`, because the decoder's
conversion rules are not part of this model. Directory entries are given as
a sequence in listing order:

- `Foreign`: not an `.xlsx` file;
- `Broken`: the entry or the workbook cannot be read;
- `NoSheet`: no worksheet is named after the file, or that worksheet cannot be read (`worksheet_range` fails);
- `Sheet(rows)`: a readable worksheet.

Output lines are strings without their line terminator.

Four behaviours of the code that are easy to misread:

- A repeated `"Hole Number"` row moves `table_header_row` forward (src/main.rs:201-202). It is not ignored for bound tracking.
- Rows after the remarks row are still written when otherwise eligible (src/main.rs:249-257). Only the remarks row itself is skipped.
- A field name is `format_header(main + "_" + sub)` (src/main.rs:227). It is not the two names normalised separately and then joined. So whitespace at the end of `main` or the start of `sub` is not trimmed. Spaces and line feeds there become underscores; a tab, carriage return, vertical tab or form feed stays in the name.
- After a `"Sub-Totals"` row, a later `"Hole Number"` row is still classified. It still writes the run's header line if none has been written yet.

## Model

| member | source | states |
|---|---|---|
| Normalize.Trim | src/main.rs:272 | `trim` as the start trim followed by the end trim; its properties are those of TrimSpec |
| Normalize.ToLower | src/main.rs:273 | `to_lowercase` keeps the length; each character is lowered as ToLowerSpec states |
| Normalize.Replace | src/main.rs:274-276 | one `replace` pass keeps the length; its effect is stated by ReplaceSpec |
| Normalize.FormatHeader | src/main.rs:270-277 | `format_header` itself: trim, lower-case, then replace spaces, hyphens and line feeds; its meaning is stated by FormatHeaderSpec |
| Normalize.TrimStartSpec | src/main.rs:272 | trimming the start keeps a suffix that is empty or starts with non-whitespace, and drops only whitespace |
| Normalize.TrimEndSpec | src/main.rs:272 | trimming the end keeps a prefix that is empty or ends with non-whitespace, and drops only whitespace |
| Normalize.TrimSpec | src/main.rs:272 | `trim` keeps an infix that neither begins nor ends with whitespace, and everything it drops on either side is whitespace |
| Normalize.TrimFixpoint | src/main.rs:272 | a string that neither begins nor ends with whitespace is its own trim |
| Normalize.LowerChar | src/main.rs:273 | lower-casing leaves no upper-case ASCII letter, changes nothing else, and keeps separators and whitespace as they were |
| Normalize.ToLowerSpec | src/main.rs:273 | `to_lowercase` lower-cases each character in place |
| Normalize.ReplaceSpec | src/main.rs:274-276 | a one-character `replace` swaps every occurrence of the pattern and keeps every other character |
| Normalize.NormChar | src/main.rs:274-276 | one normalised character is never a space, hyphen, line feed or upper-case letter, and is whitespace only if the original was |
| Normalize.NormMapSpec | src/main.rs:270-277 | the single-pass reference maps each character through NormChar |
| Normalize.FormatHeaderSpec | src/main.rs:270-277 | `format_header` equals the single-pass map over the trimmed text: same length as the trimmed text, no space, hyphen, line feed or upper-case letter, and no whitespace at either end |
| Normalize.FormatHeaderIdempotent | src/main.rs:270-277 | normalising a normalised header changes nothing |
| Normalize.FormatHeaderExample | src/main.rs:270-277 | `"Pit-No"` normalises to `"pit_no"` |
| Header.Filled | src/main.rs:213-220 | the forward-filled main header of a column; its meaning is stated by FilledIsNearestLeft |
| Header.Combine | src/main.rs:222-230 | a field name: `format_header(main + "_" + sub)` when the sub-header is not empty, else `format_header(main)`; CompositeExample shows both cases |
| Header.Composite | src/main.rs:208-234 | the declarative header: one field name per column, then `"date"`; its shape is stated by CompositeShape |
| Header.FieldNamesSpec | src/main.rs:210-232 | column `i` of the collected names is the field name built for column `i` |
| Header.BuildHeader | src/main.rs:208-234 | the closure that carries `prev_main_header`, plus the pushed `"date"`, yields exactly the composite header |
| Header.HeaderFromFields | src/main.rs:232-234 | names that match column by column, followed by `"date"`, are the composite header |
| Header.FilledIsNearestLeft | src/main.rs:214-220 | the forward-filled main header of column `i` is `""` exactly when every main cell up to `i` is empty; otherwise it is the text of the nearest non-empty cell at or left of `i` |
| Header.CompositeShape | src/main.rs:208-234 | the header has one field per header-row cell plus a last field `"date"`, and no field holds a space, hyphen or line feed |
| Header.SubRowBeyondHeaderIgnored | src/main.rs:222-225 | sub-header cells past the header row's length do not change the header |
| Header.CompositeExample | src/main.rs:213-231 | main row `[a, empty, b]` over sub row `[x, y, empty]` gives `a_x`, `a_y`, `b`, `date`: a merged cell spans the empty cell to its right, and an empty sub-header leaves the name alone |
| Locator.EndSeenIff | src/main.rs:240-243 | `table_end_row >= 0` at row `i` exactly when some earlier row is a "Sub-Totals" row |
| Locator.RemarksTakenIff | src/main.rs:249-252 | `remarks_start_row` is set at row `i` exactly when some earlier row reached the remarks test as a "Remarks" row |
| Locator.LastStartIsLatest | src/main.rs:200-202 | the bound comes from the latest "Hole Number" row before `n`, and none means there is none |
| Locator.EmittedIff | src/main.rs:197-262 | a row is written exactly when the latest "Hole Number" row `h` before it has `h + 1 < i`, no "Sub-Totals" row occurs at or before it, it is no "Hole Number" row, its first cell is not empty, and it is not the remarks row |
| Locator.EmittedPastEveryHeader | src/main.rs:245-247 | no written row lies at or above the sub-header row of any earlier "Hole Number" row |
| Locator.NothingAfterEnd | src/main.rs:240-254 | no row at or after a "Sub-Totals" row is written, whatever follows it |
| Locator.RemarksRowUnique | src/main.rs:249-252 | at most one row per worksheet is taken as the remarks row, and the marker stays set afterwards |
| Locator.LaterRowsAfterRemarks | src/main.rs:249-261 | after the remarks row, later rows, "Remarks" rows included, are written whenever otherwise eligible |
| Locator.EarlyRemarksTakesSlot | src/main.rs:245-252 | a "Remarks" row above every "Hole Number" row sets `remarks_start_row`, since no index is at or below -1 |
| Worksheet.ReportDate | src/main.rs:193-196 | the text of cell (1, 0), or `""` when that cell is missing or not text |
| Worksheet.RecordLine | src/main.rs:259-261 | the output line of a data row; its shape is stated by RecordLineShape |
| Worksheet.Step | src/main.rs:197-262 | one iteration of the row loop on the scan's variables; proved equal to ScanRow, and its effect on the classification is stated by StepStart and StepOther |
| Worksheet.Scan | src/main.rs:197-262 | the scan's variables after a prefix of the rows; ScanAgrees states what they are |
| Worksheet.Texts | src/main.rs:259 | one display text per cell |
| Worksheet.TextsSpec | src/main.rs:259 | each cell's display text sits at the cell's own column |
| Worksheet.JoinSnoc | src/main.rs:260-261 | joining one more field adds a comma and the field |
| Worksheet.RecordLineShape | src/main.rs:259-261 | a record line is the row's texts joined by commas, then a comma and the report date: one field per cell plus the date |
| Worksheet.ScanRow | src/main.rs:199-262 | one iteration updates the markers, the flag and the written lines exactly as the row step does |
| Worksheet.ScanSheet | src/main.rs:189-263 | the scan writes the worksheet's header line only when the run has none and the worksheet has a "Hole Number" row, then its records; the new flag is set exactly when either held |
| Worksheet.StepStart | src/main.rs:200-206 | at a "Hole Number" row the bound becomes the next row, no Sub-Totals or remarks state changes, no record is added, and the first start row is fixed if it was not yet |
| Worksheet.StepOther | src/main.rs:239-262 | at any other row the bound and first start row stay, the end and remarks markers grow as the row says, and the records grow by this row's line exactly when it is emitted |
| Worksheet.NoHeaderNoRecords | src/main.rs:254 | rows before any "Hole Number" row yield no records |
| Worksheet.FirstStartBound | src/main.rs:200 | the first "Hole Number" row lies among the rows searched |
| Worksheet.ScanAgrees | src/main.rs:197-262 | after any number of rows the scan's markers, flag and written lines are those the row classification predicts |
| Worksheet.AgreesAtStart | src/main.rs:200-237 | the agreement survives a "Hole Number" row |
| Worksheet.AgreesAtOther | src/main.rs:239-262 | the agreement survives any other row |
| Worksheet.DocRecordsMembers | src/main.rs:254-261 | the records are exactly the record lines of the emitted rows, each tagged with the same report date |
| Worksheet.NoneEmittedNoRecords | src/main.rs:254-261 | when no row is emitted the worksheet yields no records |
| Worksheet.FirstStartIsFirst | src/main.rs:200-206 | FirstStart finds the earliest "Hole Number" row, and None means there is none |
| Worksheet.DocHeaderIsFirstStart | src/main.rs:200-236 | a worksheet offers a header exactly when it has a "Hole Number" row, and the header is built from the earliest one |
| Worksheet.EndBeforeHeaderSuppresses | src/main.rs:240-254 | a "Sub-Totals" row above every "Hole Number" row silences the whole worksheet |
| Aggregator.Output | src/main.rs:175-265 | the output file entry after entry as the run writes it; OutputIsHeaderThenRecords states its shape |
| Aggregator.Lines | src/main.rs:175-265 | the reference output: the run's header line, if any, then all records in entry order |
| Aggregator.Completed | src/main.rs:176-186 | the run processes no more entries than there are |
| Aggregator.CompletedStep | src/main.rs:176-186 | an unreadable entry stops the run there; any other entry lets it go on |
| Aggregator.CompletedIsFirstBroken | src/main.rs:176-186 | the run covers the entries before the first unreadable one, and covers all of them exactly when none is unreadable |
| Aggregator.GenerateOutput | src/main.rs:175-265 | the run writes what the entries before the first unreadable one produce, and reports success exactly when no entry is unreadable |
| Aggregator.ProcessSheet | src/main.rs:188-263 | a readable worksheet appends its scan's output and updates the run's header flag |
| Aggregator.SkipStep | src/main.rs:178-188 | a non-`.xlsx` entry or one without a matching worksheet changes neither the output nor the header |
| Aggregator.RunStep | src/main.rs:176-265 | one more entry: the run's header stays once set, else it is the entry's; records and output grow by the entry's part |
| Aggregator.EntryOutputShape | src/main.rs:204-261 | an entry writes the header line only when it supplies the run's first header, then its records |
| Aggregator.OutputIsHeaderThenRecords | src/main.rs:175-265 | the output is at most one header line, from the first worksheet with a "Hole Number" row, followed by every worksheet's records in order |
| Aggregator.OutputStep | src/main.rs:176-265 | the header-then-records shape survives one more entry |
| Aggregator.OutputStepWithHeader | src/main.rs:204-206 | once the run has its header, an entry only adds its records |
| Aggregator.OutputStepWithoutHeader | src/main.rs:234-236 | before the run has a header there is no output, and an entry writes its own header and records |
| Aggregator.NoHeaderNoRun | src/main.rs:254 | no data record is written before the run has a header line |
| Aggregator.FirstHeaderIsFirst | src/main.rs:175-236 | the run's header is that of the first entry whose worksheet has a "Hole Number" row; there is none exactly when no entry has one |
| SectionPatch.Patched | src/main.rs:305-309 | the intended patch keeps the buffer's length |
| SectionPatch.PatchedSpec | src/main.rs:305-309 | after the patch the section holds the data, then zeros to its end, and every byte outside the section is unchanged |
| SectionPatch.PatchedAsWritten | src/main.rs:307-308 | the code's zero-fill then copy keeps the buffer's length |
| SectionPatch.PatchedAsWrittenSpec | src/main.rs:307-308 | after the code's patch the data sits at the section's start, zeros follow up to the section's end, and every byte that neither the section nor the copy covers is kept |
| SectionPatch.AsWrittenAgreesWhenFits | src/main.rs:307-308 | when the data fits, the code's two steps are the intended patch |
| SectionPatch.AsWrittenOverrunsSection | src/main.rs:308 | data longer than its section overwrites bytes after the section |
| SectionPatch.FillZero | src/main.rs:307 | `fill(0)` zeroes exactly the range and keeps the rest |
| SectionPatch.CopyInto | src/main.rs:308 | `copy_from_slice` stores the data at the range and keeps the rest |
| SectionPatch.PatchAsWritten | src/main.rs:306-308 | one update on the array is the code's zero-fill then copy |
| SectionPatch.PatchSection | src/main.rs:306-308 | the corrected update: the intended patch when the data fits, and the buffer unchanged when it does not |
| SectionPatch.ApplyAllAsWritten | src/main.rs:305-309 | the code's updates, applied in order with no length check, keep the buffer's length |
| SectionPatch.ApplyUpdatesAsWritten | src/main.rs:305-309 | the code's loop on the array applies every update's zero-fill and copy in order |
| SectionPatch.ApplyAllAsWrittenKeepsUntouched | src/main.rs:305-309 | the code's loop keeps exactly the guarantee its slices give: a byte is kept when no section and no copy covers it |
| SectionPatch.ApplyOne | src/main.rs:306-308 | one update of the corrected loop keeps the buffer's length |
| SectionPatch.ApplyAll | src/main.rs:305-309 | the corrected loop's updates in order keep the buffer's length |
| SectionPatch.ApplyUpdates | src/main.rs:305-309 | the corrected loop on the array applies every update in order through the checked patch, and reports whether all of them fitted |
| SectionPatch.ApplyAllKeepsOutside | src/main.rs:305-309 | the corrected loop never changes a byte that lies outside every update's section |
| SectionPatch.AsWrittenLoopAgreesWhenAllFit | src/main.rs:305-309 | when every update fits its section, the code's loop and the corrected loop write the same bytes |
| SectionPatch.AsWrittenSkipMatters | src/main.rs:296-308 | skipping an update whose data equals its section changes what the code's loop writes when an earlier copy overruns into that section: `[7, 7, 1]` instead of `[7, 1, 1]` |
| SectionPatch.TrimNul | src/main.rs:351-355 | `trim_end_matches` of the NUL character on the section's bytes; its properties are those of TrimNulSpec |
| SectionPatch.TrimNulSpec | src/main.rs:351-355 | trimming NULs keeps the longest prefix that does not end in a zero byte, and drops only zeros |
| SectionPatch.TrimNulZeros | src/main.rs:351-355 | zeros after data that does not end in a zero byte trim away |
| SectionPatch.TrimNulRoundTrip | src/main.rs:351-355 | reading a patched section back recovers the data, when it fits and does not end in a zero byte |

## Left out

- The GUI (`App`, the `eframe` update loop, file dialogs) and the shared `Arc<Mutex<…>>` state: these are user interface, not extraction logic.
- File-system effects in `generate_output`: removing and reopening the output file, `read_dir`, the extension test and the file-stem lookup. The entries arrive as a sequence already classified (`Foreign`, `Broken`, `NoSheet`, `Sheet`). Directory order is the sequence's order.
- A failing `read_dir` (before any entry) and failing `write!`/`writeln!` calls: the model has no write errors, and an unreadable entry or workbook is the only failure.
- The line terminator written by `writeln!`, and CSV quoting: cells are joined by bare commas, as in the source, and a line is modelled without its `"\n"`.
- The spreadsheet decoder (`open_workbook`, `worksheet_range`, `as_string`, `to_string`, `is_empty`): it is a foreign library. Its results are carried by the `Other` cell.
- ASCII only: `trim` removes only ASCII whitespace and `to_lowercase` lowers only `A`-`Z`. Unicode whitespace and case mapping are not modelled.
- Row indices are unbounded integers. The `i32` casts of `row_idx` are not modelled, because they only matter beyond 2^31 rows.
- The object-file parsing in `update_binary` and `get_section`, the memory map, the temporary copy, renames and permissions: these are foreign calls and OS effects. The model starts from the buffer and a list of pending updates with their file ranges.
- The comparison of the new value with the whole section before queuing an update (src/main.rs:296), which skips an update only when the data equals all `size` bytes: when every queued copy fits its section and no two sections overlap, a skipped update would rewrite the bytes already there, so the skip decides only whether the file is rewritten. With the code's loop, an overrunning copy into a skipped section stays, so the skip does change what is written; `AsWrittenSkipMatters` shows this on a concrete buffer, but the update list is taken as already filtered.
- `from_utf8_lossy` in `main`: the NUL trim is modelled on bytes, before UTF-8 decoding. The unsafe link-section statics are just the buffer.
- SectionPatch.PatchAsWritten, SectionPatch.PatchedAsWritten and SectionPatch.ApplyAllAsWritten: data that would run past the end of the whole buffer makes the source's slice panic. The model requires the copy to stay inside the buffer, so it does not model the panic.
- SectionPatch.PatchSection: for data longer than its section, the corrected update refuses the write and leaves the buffer unchanged. The source has no such check; its behaviour is `PatchAsWritten`.
- SectionPatch.ApplyUpdates: this is the corrected loop, which skips an update whose data is longer than its section. The source's loop is `ApplyUpdatesAsWritten`.
- SectionPatch.ApplyOne: this is one step of the corrected loop, not the source's fill and copy (`PatchedAsWritten`).
- SectionPatch.ApplyAll: this is the corrected loop's fold. The source's fold is `ApplyAllAsWritten`.
- SectionPatch.ApplyUpdatesAsWritten: like `PatchAsWritten`, it requires every copy to stay inside the buffer, so the source's panic on a copy past the buffer's end is not modelled.

## Findings

| source | as written | input that shows it | evidently intended | confidence | as-written member | corrected member |
|---|---|---|---|---|---|---|
| src/main.rs:307-308 | the section is zero-filled over `size` bytes, but the data is then copied over `data.len()` bytes from the section's start with no check that it fits | a 1-byte section at offset 0 of buffer `[1, 1, 1]` patched with `[7, 7]` gives `[7, 7, 1]`: byte 1, outside the section, is overwritten | a configured value longer than its section is refused, so bytes outside the section never change | medium, not executed | SectionPatch.PatchedAsWritten, SectionPatch.AsWrittenOverrunsSection, SectionPatch.ApplyUpdatesAsWritten | SectionPatch.Patched, SectionPatch.PatchSection, SectionPatch.ApplyUpdates |
