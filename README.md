# Verified model of the MP3 splitter, the PDF rename tools and the backup namer

This project is a Dafny model of four small desktop tools from one Python
repository. It proves properties about each:

- **`mp3_splitter.py`: the MP3 splitter.** `split_mp3` works in this order:
  - It checks the input file and output folder.
  - It plans split points, either at a fixed interval or from a
    comma-separated list of times parsed by `parse_time_to_seconds`.
  - It maps each point to a byte offset in proportion to time, then cuts
    the bytes into segments.
  - It names each segment from `format_time` labels, passes the name
    through `sanitize_filename`, and writes one file per segment. A write
    that fails is logged and the loop goes on.

  The output folder is a map from path to bytes. Which writes fail is an
  input.
- **`rename_pdf_file_send_mail.py`: the PDF rename-and-mail tool.** It has
  three parts:
  - the page viewer with wrap-around navigation;
  - the backend's grow-on-demand display-list cache;
  - `rename_pdf`'s checks and new file name, and the body and attachment of
    the mail it prepares.
- **`rename_pdf_file.py`: the plain PDF rename tool.** It has the same
  viewer. Its backend renders each page afresh, and its execute button
  renames the document to `{date}_{partner}_{amount}.pdf`.
- **`create_backup_zip.py`: the backup namer.**
  `generate_unique_backup_filename` tries `{folder}_1.zip`, `{folder}_2.zip`
  and so on, and returns the first path that does not exist. The paths that
  exist are a finite set.

The modules follow the program's structure:

- **`Strings`** covers strip, split, join, digits and decimal rendering.
- **`Arith`** holds two integer facts about remainders.
- **`Paths`** covers POSIX `basename`, `dirname`, `join` and `splitext`.
- **`TimeCodec`** covers `parse_time_to_seconds` and `format_time`.
- **`FileNames`** covers `sanitize_filename`.
- **`SplitPlanner`** covers the fixed and custom split-point plans.
- **`Segmenter`** covers byte offsets, segments, slices and segment names.
- **`Mp3Split`** covers `split_mp3` as a whole.
- **`PdfViewer`** covers the shared page navigation and the navigation part
  of `event_loop`.
- **`PdfRenameMail`** covers the caching backend, `rename_pdf` and
  `send_email`.
- **`PdfRename`** covers the plain tool's backend and execute button.
- **`BackupZip`** covers the backup namer.

Some code changes state step by step, so the model keeps it as methods with
loops:

- the `while` loop over interval multiples;
- the loop that parses each custom time (`ParseAll`);
- the `replace` loop of `sanitize_filename`;
- the segment-building and segment-writing loops;
- the backup-name search.

Each of these methods is proved equal to a specification function, and the
properties are proved about that function.

The objects whose fields the tools update in place are classes with those
fields:

- the viewer's `page`, `total_page` and `doc_name`;
- each tool's `GuiBackend`.

## Model

| member | source | states |
|---|---|---|
| Strings.Strip | mp3_splitter.py:161 | the result neither starts nor ends with whitespace |
| Strings.StripSlice | mp3_splitter.py:161 | the stripped text is a slice of the input with only whitespace cut off either end |
| Strings.NatToDigits | create_backup_zip.py:18 | `str(n)` is a non-empty run of digits with no `:`, `_`, `.` or `/` |
| Strings.NatToDigitsRoundTrip | create_backup_zip.py:18 | reading back the decimal digits of `n` gives `n` |
| Strings.NatToDigitsInjective | create_backup_zip.py:18 | different numbers render differently |
| Strings.SplitJoin | rename_pdf_file_send_mail.py:216 | splitting text joined with a separator gives the pieces back when no piece holds the separator |
| Strings.JoinAvoids | rename_pdf_file_send_mail.py:216 | a character that is neither the separator nor in any piece is not in the joined text |
| Strings.Split | mp3_splitter.py:163-171 | `str.split` has one more piece than the text has separators, and no piece holds the separator; `Strings.SplitJoin` states that it undoes a join |
| Paths.LastIndex | mp3_splitter.py:199 | `rfind`: -1 or a position of `c`, and no `c` after it |
| Paths.BaseName | mp3_splitter.py:275 | `os.path.basename` is the slash-free tail of the path that starts right after its last `/`, or the whole path when it has none |
| Paths.DirName | rename_pdf_file_send_mail.py:217 | posix `dirname`, with no contract of its own: `Paths.DirNameOfJoin` states that a name joined onto `dirname(p)` keeps that folder |
| Paths.JoinPath | mp3_splitter.py:327 | `os.path.join` returns an absolute second part as it is, and otherwise the two parts with at most one `/` between them |
| Paths.JoinPathInjective | create_backup_zip.py:17-19 | two relative names joined onto the same folder give the same path only when they are the same name |
| Paths.BaseNameOfJoin | rename_pdf_file_send_mail.py:217 | a slash-free name joined onto any folder is the base name of the result |
| Paths.DirNameOfJoin | rename_pdf_file_send_mail.py:217 | a name joined onto a path's folder has that same folder |
| Paths.SplitExt | mp3_splitter.py:199 | `os.path.splitext`: root plus extension is the path, and the extension is empty or a dot with no further dot or slash |
| Paths.SplitExtOf | mp3_splitter.py:276 | `stem + ext` splits back into `stem` and `ext` |
| Paths.SplitExtNoDot | mp3_splitter.py:199 | a name without a dot has no extension |
| TimeCodec.ParseTimeToSeconds | mp3_splitter.py:159-175 | `parse_time_to_seconds`, with no contract of its own: `ParseInt`, `ParseRejectsManyColons`, `ParseTwoFields`, `ParseThreeFields` and `FormatTimeRoundTrip` state what it computes |
| TimeCodec.ParseInt | mp3_splitter.py:175 | `int(text)` succeeds exactly when the stripped text is a non-empty run of ASCII digits |
| TimeCodec.ParseRejectsManyColons | mp3_splitter.py:163-175 | text with three or more colons falls to the `int` branch and is rejected |
| TimeCodec.ParseTwoFields | mp3_splitter.py:169-171 | `m:s` with digit fields parses to `m * 60 + s` |
| TimeCodec.ParseThreeFields | mp3_splitter.py:164-166 | `h:m:s` with digit fields parses to `h * 3600 + m * 60 + s` |
| TimeCodec.Pad2 | mp3_splitter.py:184-186 | `{x:02d}` is a digit string whose value is `x`, with no separator in it, at least two characters long and exactly two below 100 |
| TimeCodec.FloatMod | mp3_splitter.py:180-181 | Python's float `%` by a positive divisor lies in `[0, y)` and leaves `x` minus it a whole multiple of `y`, so `x == (x // y) * y + x % y` |
| TimeCodec.FormatTime | mp3_splitter.py:177-186 | `format_time`, with no contract of its own: `FormatTimeShape`, `FormatTimeFloor`, `ClockWidth` and `FormatTimeRoundTrip` state what it computes |
| TimeCodec.FormatTimeShape | mp3_splitter.py:177-186 | every `format_time` result is digits and colons, ending in a digit |
| TimeCodec.MinutesField | mp3_splitter.py:180 | the minutes field of a float equals the minutes field of its whole seconds |
| TimeCodec.FormatTimeFloor | mp3_splitter.py:177-186 | formatting a float formats its whole seconds: the fraction is dropped |
| TimeCodec.ClockWidth | mp3_splitter.py:183-186 | below 100 hours the text is three two-digit fields (8 characters) from one hour on and two (5 characters) below it |
| TimeCodec.ClockRoundTrip | mp3_splitter.py:159-186 | every clock rendering parses back to its number of seconds |
| TimeCodec.FormatTimeRoundTrip | mp3_splitter.py:159-186 | `parse_time_to_seconds(format_time(n)) == n` for every whole number of seconds |
| FileNames.ReplaceInvalid | mp3_splitter.py:191-195 | every invalid character becomes `_`, and every other character and the length are kept |
| FileNames.PySliceTo | mp3_splitter.py:200 | `s[:stop]` with Python's negative and out-of-range stops is the prefix of the clamped length |
| FileNames.SanitizeFilename | mp3_splitter.py:188-202 | the replace loop and the length check compute `Sanitized` |
| FileNames.SanitizedIsClean | mp3_splitter.py:191-200 | no invalid character is left in a sanitised name |
| FileNames.SanitizedShort | mp3_splitter.py:194-198 | a name of at most 240 characters keeps its length and changes exactly at its invalid characters |
| FileNames.SanitizedLong | mp3_splitter.py:198-200 | a longer name with an extension that fits becomes exactly 240 characters: the start of the stem, then the whole extension |
| FileNames.SanitizedBounded | mp3_splitter.py:197-200 | a sanitised name has at most 240 characters whenever its extension does |
| FileNames.SanitizedIdempotent | mp3_splitter.py:188-202 | sanitising twice is sanitising once when the extension fits |
| FileNames.LongExtensionOverflow | mp3_splitter.py:198-200 | `"a."` plus 300 `x` sanitises to 301 characters, and sanitising again gives 240 |
| FileNames.StemDropped | mp3_splitter.py:198-200 | a clean name whose extension is at least 240 characters longer than its stem comes out as the bare extension |
| FileNames.ExtensionCut | mp3_splitter.py:198-200 | a clean name over 240 characters whose only dot leads it is cut to 240 characters |
| FileNames.SanitizedCapped | mp3_splitter.py:197-200 | the corrected truncation never exceeds 240 characters |
| FileNames.CappedAgrees | mp3_splitter.py:188-202 | the corrected sanitiser equals the one as written whenever the extension fits |
| FileNames.CappedIdempotent | mp3_splitter.py:188-202 | the corrected sanitiser is clean and idempotent on every input |
| SplitPlanner.LastBelow | mp3_splitter.py:242 | the largest integer strictly below the duration |
| SplitPlanner.IntervalCount | mp3_splitter.py:241-244 | the `k`-th multiple of the interval is below the duration exactly for `k` up to the count |
| SplitPlanner.IntervalSplitPoints | mp3_splitter.py:241-244 | the `while current_time < total_duration` loop yields `IntervalPoints` |
| SplitPlanner.IntervalPointsExact | mp3_splitter.py:241-244 | the fixed points are `interval, 2*interval, …`, each below the duration, and the next multiple is not |
| SplitPlanner.IntervalPointsIncreasing | mp3_splitter.py:241-244 | the fixed points are positive and strictly increasing |
| SplitPlanner.InsertSorted | mp3_splitter.py:258 | inserting keeps the list ascending and adds exactly the new element |
| SplitPlanner.Sorted | mp3_splitter.py:258 | `sort()` yields an ascending permutation |
| SplitPlanner.AscendingUnique | mp3_splitter.py:258 | there is only one ascending permutation, so `Sorted` is Python's sort |
| SplitPlanner.AllValues | mp3_splitter.py:254-255 | the collected values exist exactly when every piece parsed, and are the parsed values in order |
| SplitPlanner.ParseAll | mp3_splitter.py:253-255 | the loop that parses each piece in turn yields every parsed value in order, or nothing as soon as one piece fails |
| SplitPlanner.CustomSplitPoints | mp3_splitter.py:248-262 | the strip, the empty check, the parse loop and the sort compute `CustomPoints` |
| SplitPlanner.CustomPointsEmpty | mp3_splitter.py:248-251 | custom mode fails as empty exactly when the stripped text is empty |
| SplitPlanner.CustomPointsRejects | mp3_splitter.py:253-262 | one piece that does not parse rejects the whole plan |
| SplitPlanner.CustomPointsAccepts | mp3_splitter.py:253-258 | when every piece parses, the plan has one point per piece in ascending order, as a permutation of the parsed values |
| SplitPlanner.PlanSplitPoints | mp3_splitter.py:226-262 | the planning step with the chosen mode's loops computes `PlanPoints`, for spinbox values of either sign; a non-positive interval that is not all zeros is rejected instead of looping (see Findings) |
| SplitPlanner.FixedPlanSpec | mp3_splitter.py:230-244 | over integer fields of either sign: the all-zero error exactly when all three are 0, the non-positive-interval error exactly when they are not all 0 but the interval is at most 0, and a plan exactly when the interval is positive |
| SplitPlanner.NonPositiveIntervalHangs | mp3_splitter.py:234-244 | as written, fields that are not all 0 with an interval of at most 0 keep `current_time` below a positive duration after any number of passes, so the loop never ends |
| SplitPlanner.PlanAscending | mp3_splitter.py:226-262 | every plan that succeeds is in ascending order |
| Segmenter.ByteOffsetMonotone | mp3_splitter.py:291 | a later split point never maps to an earlier byte |
| Segmenter.ByteOffsetBounded | mp3_splitter.py:291 | a point within the duration maps into the file |
| Segmenter.ByteOffsets | mp3_splitter.py:291 | one offset per split point, each `int(p / duration * size)` |
| Segmenter.ByteOffsetsOrdered | mp3_splitter.py:291 | ascending points give ascending offsets, and points within the duration give offsets within the file |
| Segmenter.SegmentsOf | mp3_splitter.py:294-302 | there is one more segment than there are offsets |
| Segmenter.BuildSegments | mp3_splitter.py:294-302 | the segment loop computes `SegmentsOf` |
| Segmenter.SegmentsChain | mp3_splitter.py:294-302 | segments start at 0, end at the file size, each starts where the previous ends, and segment `i` ends at offset `i` |
| Segmenter.PySlice | mp3_splitter.py:306 | `data[start:end]` is the clamped range, or empty when the range is reversed |
| Segmenter.Reassembly | mp3_splitter.py:294-306 | with ascending offsets, the segment chunks concatenate back to the original bytes |
| Segmenter.Label | mp3_splitter.py:312 | a label is underscores and digits, ending in a digit |
| Segmenter.LabelRoundTrip | mp3_splitter.py:312 | putting the colons back into the label of `n` seconds and parsing it gives `n` |
| Segmenter.StartTime | mp3_splitter.py:309-321 | segment 0 starts at `00_00_00`; segment `i > 0` starts at a label that reads back as split point `i - 1` |
| Segmenter.EndTime | mp3_splitter.py:312-322 | segment `i` ends at a label that reads back as split point `i`, and the last segment at one that reads back as the duration's whole seconds |
| Segmenter.LabelOfFloor | mp3_splitter.py:316 | the label of a time equals the label of its whole seconds |
| Segmenter.SegmentTimesChain | mp3_splitter.py:309-322 | the first segment starts at `00_00_00`, the last ends at the duration's label, and each segment starts at the label the one before it ends at |
| Segmenter.RawSegmentName | mp3_splitter.py:309-322 | the unsanitised name, with no contract of its own: `SegmentNameDefined` and `SegmentNameShort` state what it is |
| Segmenter.SegmentName | mp3_splitter.py:309-327 | the sanitised name, with no contract of its own: `SegmentNameDefined`, `SegmentNameValid` and `SegmentNameShort` state what it is |
| Segmenter.SegmentNameDefined | mp3_splitter.py:309-312 | naming a segment fails (`split_points[0]` raises) exactly when there is no split point |
| Segmenter.SegmentNameValid | mp3_splitter.py:309-327 | every segment name has at most 240 characters, ends in `.mp3` and is clean |
| Segmenter.SegmentNameShort | mp3_splitter.py:309-326 | a short segment name is the cleaned stem, `_`, the start label, `-`, the end label and `.mp3` |
| Mp3Split.Outcomes | mp3_splitter.py:330-338 | one log line per segment |
| Mp3Split.SegmentNames | mp3_splitter.py:305-326 | one name per segment, one more than the split points |
| Mp3Split.SplitPlan | mp3_splitter.py:210-262 | a plan that reaches the writes has at least one point and a positive duration |
| Mp3Split.SegmentPaths | mp3_splitter.py:327 | one output path per segment |
| Mp3Split.WriteSegment | mp3_splitter.py:305-338 | one pass writes segment `i`'s slice at its sanitised path, or logs a save error; a failed save is taken to leave the folder as it was (see Left out) |
| Mp3Split.WriteSegments | mp3_splitter.py:305-338 | the segment loop produces exactly `Outcomes` and `Written` over all segments |
| Mp3Split.SplitMp3 | mp3_splitter.py:204-342 | `split_mp3` returns the report or error of `SplitOutcome` and leaves the folder as it describes |
| Mp3Split.FailureWritesNothing | mp3_splitter.py:210-262 | every error is raised before any write, so a failed run leaves the folder unchanged |
| Mp3Split.PlanExactly | mp3_splitter.py:210-262 | the run reaches the writes exactly when both paths are chosen, the folder exists or can be made, the plan succeeds with a point, and the duration is positive; the points are then the plan's, ascending |
| Mp3Split.WritesReport | mp3_splitter.py:305-342 | the completion count is one more than the split points and equals the log's length, and line `k` is a save error exactly when path `k` fails |
| Mp3Split.OutcomesMatch | mp3_splitter.py:330-338 | the log flags exactly the failing paths |
| Mp3Split.WrittenKeys | mp3_splitter.py:330-338 | afterwards the folder holds the files already there plus every path whose write succeeded; a path whose save failed is taken to be untouched (see Left out) |
| Mp3Split.WrittenElsewhere | mp3_splitter.py:330-338 | a path the run never writes keeps its contents |
| Mp3Split.WrittenLast | mp3_splitter.py:330-338 | a path whose write succeeds holds the chunk of its last write |
| Mp3Split.WrittenAll | mp3_splitter.py:330-338 | with distinct paths and no failure, each path holds its own chunk |
| Mp3Split.ChunksReassemble | mp3_splitter.py:291-306 | the chunks of ascending split points make up the whole file |
| Mp3Split.FilesReassemble | mp3_splitter.py:291-338 | with distinct paths and no failed write, reading the segment files back in order gives the original bytes |
| Mp3Split.ShortRecordingFails | mp3_splitter.py:241-244 | a recording no longer than the interval has no split point, and the run stops at naming the first segment |
| PdfViewer.NextPage | rename_pdf_file_send_mail.py:112-120 | the next page is `page + 1` or 0, and on the document it is `(page + 1) % total` |
| PdfViewer.PrevPage | rename_pdf_file_send_mail.py:122-130 | the previous page is `page - 1` or the last page, and on the document it is `(page - 1 + total) % total` |
| PdfViewer.NextPrevInverse | rename_pdf_file_send_mail.py:112-130 | previous undoes next and next undoes previous on every page |
| PdfViewer.NextPagesWrap | rename_pdf_file_send_mail.py:112-120 | `k` presses of next move to `(page + k) % total` |
| PdfViewer.FullCircle | rename_pdf_file_send_mail.py:112-120 | one press per page comes back to the starting page |
| PdfViewer.StepKeepsInRange | rename_pdf_file_send_mail.py:137-171 | on a document with at least one page, every event keeps the page on the document, so every page rendered exists (a document with no page is under Left out) |
| PdfViewer.OpenShowsFirstPage | rename_pdf_file_send_mail.py:145-152 | choosing a document shows its page 0 with its page count |
| PdfViewer.NoDocumentIgnored | rename_pdf_file_send_mail.py:154-156 | with no document open, every event except closing and choosing one is skipped and changes nothing |
| PdfViewer.Viewer.constructor | rename_pdf_file_send_mail.py:108-110 | the viewer starts on page 0 of no document |
| PdfViewer.Viewer.HandleEvent | rename_pdf_file_send_mail.py:137-166 | the loop's in-place updates of one iteration follow `Step` |
| PdfRenameMail.Padding | rename_pdf_file_send_mail.py:84 | padding brings the list to at least `k + 1` entries, all `None` |
| PdfRenameMail.LookupShape | rename_pdf_file_send_mail.py:83-88 | the list grows to at least `k + 1`, other old slots are kept, new slots are empty, and slot `k` holds the result |
| PdfRenameMail.LookupRenders | rename_pdf_file_send_mail.py:83-88 | a page of the open document is always returned, and is cached afterwards |
| PdfRenameMail.LookupKeeps | rename_pdf_file_send_mail.py:83-88 | a filled slot is returned as it is and nothing changes |
| PdfRenameMail.LookupTwice | rename_pdf_file_send_mail.py:83-88 | asking again for a returned page gives the same display list and changes nothing |
| PdfRenameMail.LookupBelongs | rename_pdf_file_send_mail.py:83-88 | while the cache belongs to the open document, a lookup keeps it so and returns that document's page `k` |
| PdfRenameMail.StalePageAfterReopen | rename_pdf_file_send_mail.py:64-68 | after `a.pdf` showed page 0 and `b.pdf` is opened, page 0 is still `a.pdf`'s |
| PdfRenameMail.FreshCacheBelongs | rename_pdf_file_send_mail.py:60-62 | an empty cache belongs to any document |
| PdfRenameMail.GuiBackend.constructor | rename_pdf_file_send_mail.py:60-62 | no document and an empty cache |
| PdfRenameMail.GuiBackend.SetDoc | rename_pdf_file_send_mail.py:64-68 | the document changes, the cache is kept, and the base name is returned |
| PdfRenameMail.GuiBackend.SetDocFresh | rename_pdf_file_send_mail.py:64-68 | the corrected `set_doc` also empties the cache, so the cache belongs to the new document |
| PdfRenameMail.GuiBackend.GetPage | rename_pdf_file_send_mail.py:74-88 | the in-place `extend` and slot assignment follow `Lookup` |
| PdfRenameMail.RenamePdf | rename_pdf_file_send_mail.py:198-226 | `rename_pdf`, with no contract of its own: `RenameExactly`, `RenameRejections`, `RenamedInPlace` and `NewFileNameFields` state what it does |
| PdfRenameMail.RenameExactly | rename_pdf_file_send_mail.py:198-224 | the file is renamed exactly when the date is eight digits, the amount is digits, section and partner are non-empty, and a document is open |
| PdfRenameMail.RenameRejections | rename_pdf_file_send_mail.py:200-226 | each rejection is the first failing check, and an empty partner is the only way to reach "enter everything" |
| PdfRenameMail.RenamedInPlace | rename_pdf_file_send_mail.py:216-219 | the renamed file stays in the document's folder under the new name |
| PdfRenameMail.NameHasNoSlash | rename_pdf_file_send_mail.py:212-216 | the new name is non-empty and holds no `/` when partner and section hold none |
| PdfRenameMail.DigitsAvoid | rename_pdf_file_send_mail.py:200-204 | a digit string holds no other character |
| PdfRenameMail.NewFileNameFields | rename_pdf_file_send_mail.py:212-216 | the new name ends in `.pdf` and splits at `_` into date, partner, amount, section, then `不` exactly for a rejected document |
| PdfRenameMail.NotAdoptedNamesDiffer | rename_pdf_file_send_mail.py:212 | a rejected document gets a different name from an adopted one |
| PdfRenameMail.MailLines | rename_pdf_file_send_mail.py:232-241 | the lines of the body, with no contract of its own: `MailBodyLines` states them |
| PdfRenameMail.MailBody | rename_pdf_file_send_mail.py:228-241 | the body of the mail, with no contract of its own: `MailBodyLines` states that it splits into `MailLines` |
| PdfRenameMail.MailBodyLines | rename_pdf_file_send_mail.py:232-241 | the body's lines are the intro, a blank line, date, partner, amount, section, then the rejection line exactly when not adopted |
| PdfRenameMail.MailAttachesRenamed | rename_pdf_file_send_mail.py:178-183 | a mail is prepared exactly when the rename happened, and it attaches the renamed file |
| PdfRename.GuiBackend.constructor | rename_pdf_file.py:60-61 | no document |
| PdfRename.GuiBackend.SetDoc | rename_pdf_file.py:63-66 | the document is set and its base name returned |
| PdfRename.GuiBackend.GetDocListTab | rename_pdf_file.py:72-74 | one `None` per page |
| PdfRename.GuiBackend.GetPage | rename_pdf_file.py:76-86 | a page is returned exactly when the document has it, and it is that page of that document |
| PdfRename.SameAsCached | rename_pdf_file.py:80-86 | rendering afresh shows what the caching backend shows whenever its cache belongs to the document |
| PdfRename.ExecuteRename | rename_pdf_file.py:172-199 | the execute button, with no contract of its own: `ExecuteExactly`, `AmountNotChecked`, `RenamedInPlace` and `NewFileNameFields` state what it does |
| PdfRename.ExecuteExactly | rename_pdf_file.py:172-199 | the document is renamed exactly when the date is eight digits, partner and amount are non-empty, and a document is open; the date and empty-field rejections are characterised too |
| PdfRename.AmountNotChecked | rename_pdf_file.py:184 | an amount that is not a number is accepted |
| PdfRename.NoDocumentUnreachable | rename_pdf_file.py:154-155 | every event reaching the execute branch has a document, so "Please select a PDF file" is never shown |
| PdfRename.RenamedInPlace | rename_pdf_file.py:189-192 | the renamed file stays in the document's folder under the new name |
| PdfRename.NameHasNoSlash | rename_pdf_file.py:189 | the new name is non-empty and holds no `/` when partner and amount hold none |
| PdfRename.NewFileNameFields | rename_pdf_file.py:189 | the new name ends in `.pdf` and splits at `_` into date, partner and amount |
| BackupZip.BackupFileName | create_backup_zip.py:18 | `f'{folder_name}_{counter}.zip'`, with no contract of its own: `BackupFileNameParts`, `BackupNumberReadsBack` and `BackupFileNameInjective` state what it is |
| BackupZip.Candidate | create_backup_zip.py:15-19 | the path tried for a number, with no contract of its own: `CandidateInjective`, `CandidateUsesLastComponent` and `CandidateInBackupFolder` state what it is |
| BackupZip.BackupFileNameParts | create_backup_zip.py:18 | the name is the folder name, `_`, the digits of the number, `.zip` |
| BackupZip.BackupNumberReadsBack | create_backup_zip.py:18 | the number reads back from the text after the last `_`, and the folder name from what comes before it |
| BackupZip.BackupFileNameInjective | create_backup_zip.py:18 | different numbers give different names |
| BackupZip.CandidateInjective | create_backup_zip.py:18-19 | different numbers give different paths |
| BackupZip.CandidateUsesLastComponent | create_backup_zip.py:15 | only the folder's last component matters |
| BackupZip.CandidateInBackupFolder | create_backup_zip.py:15-19 | the candidate's base name is the backup name built from the folder name |
| BackupZip.GenerateUniqueBackupFilename | create_backup_zip.py:7-22 | the result is the candidate of a number `n >= 1` that does not exist, every smaller candidate exists (so `n` is the least free one), and `n` is at most one more than the number of existing paths, so the search ends |

## Left out

- Reading the window, showing dialogs, rendering pixmaps, and the zoom to
  680 pixels are left out. The same goes for `fitz.open`, closing the
  document, `os.rename`, Outlook and `backup_to_zip`'s zip writing. They
  are I/O or foreign calls.
  - The viewer's events are a datatype.
  - A document is its path and page count.
  - A display list is the path and page number it renders.
- The MP3 data and its duration are inputs. The duration from
  `self.file_info` (fixed mode) and from `mutagen` (the byte mapping) is
  taken to be one value. With no file loaded, `file_info` is `None`. In
  fixed mode the source then raises at mp3_splitter.py:239, after the
  all-zero check; custom mode never reads it. That crash is not modelled.
- Durations are exact reals, not floating-point numbers. `int()` of
  `split_point / total_duration * file_size` is the floor of the exact
  quotient, and may differ from a rounded float in its last unit.
- `int()` in `parse_time_to_seconds` is modelled on surrounding whitespace
  and ASCII digits. The model rejects signs, underscores and non-ASCII
  digits, which Python accepts. A negative custom time is therefore not
  modelled.
- `str.isdigit()` in `rename_pdf` and the execute button is taken as "a
  non-empty run of ASCII digits". Python also accepts other Unicode digits.
- The model raises `IndexError` for a run with no split point before the
  loop, where the source raises it while naming segment 0. Nothing is
  written in either case.
- The outer `except` of `split_mp3` (mp3_splitter.py:344) is not modelled
  as a separate path. The errors it catches are the ones `SplitPlan`
  raises, plus the I/O ones left out above.
- Paths are POSIX paths with `/` as the only separator. `pathlib`'s
  normalisation of `folder.name` (trailing slashes, `.` components) is not
  modelled; `BaseName` stands for it.
- A page number below zero is not modelled, because `GetPage` takes a
  `nat`. On a document with at least one page the viewer never asks for
  one: `PdfViewer.StepKeepsInRange` proves the page stays on the document.
- `PdfViewer.StepKeepsInRange` says nothing about a document with no page.
  There the viewer renders page 0, which raises in `self.doc[page_num]`
  (rename_pdf_file_send_mail.py:86-87), and `get_prev_page` gives -1. That
  crash is not modelled.
- `doc_name` being `None` and `doc_name` being `""` are one state (`""`).
  The loop tests them alike.
- After a successful rename, the source clears only the name shown in the
  window, so `doc_name` still names the old file. A second rename then
  fails inside `os.rename`. That crash is not modelled.
- `PdfRenameMail.GuiBackend.GetPage`: a page the document does not have
  raises in `self.doc[page_num]`. Its `None` result keeps the padding done
  before the raise.
- `get_doc_list` (rename_pdf_file.py:76-78) is inlined into
  `PdfRename.GuiBackend.GetPage`.
- `process_rename` (rename_pdf_file_send_mail.py:185-196) only reads the
  fields, so it is the parameter list of `RenamePdf`.
- The mail's recipient and subject are constants and are not modelled.
- `PdfRenameMail.MailAttachment` and `PdfRenameMail.MailAttachesRenamed`
  attach the joined path as it is. The source passes it through
  `os.path.abspath`, which prefixes the working directory to a relative
  path. The working directory is not modelled, so for a relative
  `doc_name` the two strings differ although they name the same file.
- `Mp3Split.WriteSegment` and `Mp3Split.Written` take a failed save to
  leave its path untouched. In the source, `open(output_path, 'wb')`
  creates or empties the file before `write` runs. A failure inside
  `write` therefore leaves an empty or partial file there and destroys
  what the path held before. Only a failure of `open` itself leaves the
  path as it was.
- `FileNames.SanitizedIdempotent` requires the extension to have at most
  240 characters. Without that, the source is not idempotent; see
  Findings.
- `PdfRenameMail.MailBodyLines` requires the fields to hold no newline.
  Otherwise the body splits into more lines.
- `PdfRenameMail.RenamedInPlace`, `PdfRename.RenamedInPlace` and the
  `NewFileNameFields` lemmas require the free-text fields to hold no `/`
  (or no `_`). With one, the new name escapes the folder (or splits
  differently).

## Findings

| source | as written | input that shows it | evidently intended | confidence | as-written member | corrected member |
|---|---|---|---|---|---|---|
| rename_pdf_file_send_mail.py:64-68 | `set_doc` opens a new document but keeps `doc_list_tab`, so `get_page` returns display lists cached from the previous document | open `a.pdf` and view page 0, then open `b.pdf`: page 0 shows `a.pdf` | opening a document clears the cache, so every page shown belongs to the open document | high, not executed | PdfRenameMail.StalePageAfterReopen | PdfRenameMail.GuiBackend.SetDocFresh |
| mp3_splitter.py:230-244 | the all-zero test lets through spinbox values whose interval is at most 0, and `while current_time < total_duration` then never ends, appending points without bound | fixed mode with hours 0, minutes 0, seconds -5 (typed into the spinbox) on any recording | fixed mode plans only with a positive interval and reports any other interval as an error | high, not executed | SplitPlanner.NonPositiveIntervalHangs | SplitPlanner.FixedPlanSpec |
| mp3_splitter.py:198-200 | with an extension over 240 characters, `240 - len(ext)` is negative and the result keeps the whole extension, exceeding 240 | `"a."` followed by 300 `x`: 301 characters, and sanitising again gives 240 | the result never exceeds 240 characters, and sanitising is idempotent | medium, not executed | FileNames.LongExtensionOverflow | FileNames.SanitizedCapped |

For the third row:

- `FileNames.CappedIdempotent` proves the corrected sanitiser is clean and
  idempotent on every input.
- `FileNames.CappedAgrees` proves it equals the one as written whenever the
  extension fits.

Segment names always end in `.mp3`, so the splitter's names are the same
under both.
