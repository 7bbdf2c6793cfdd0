# pdf-tools: a Dafny model of the desktop application's logic

pdf-tools is a desktop PDF application. A React front end talks to a Rust
backend, and the backend runs Python scripts for the heavy PDF work. This
project models the parts of it that are plain logic over integers, strings
and sequences, and proves properties of them:

- **The page editor** (`EditorPages`, `EditorSession`). It covers:
  - the page cards, selection, rotation and drag-and-drop reordering;
  - the 3-second autosave that a finished drag arms;
  - the save of the page order and the extraction, editing and commit of the document's text;
  - the reader for PDF creation dates (section 7.9.4 of ISO 32000-1).

  The editor is a state record with one pure transition per handler. Backend answers and timer expiries are explicit events.
- **The page commands of the Python backend** (`PageTransforms`): split, rotate, delete, the two reorder definitions, and the quality clamp and tier table of the compressor.
- **The line diff of the text replacer** (`TextReplace`): the common-prefix/suffix diff, the de-duplicated replacement pairs, and the per-page counting shared by both replacement commands.
- **OCR post-processing** (`OcrFormat`): line cleaning, page labels and the framed plain-text output.
- **The file-header checks of the Rust backend** (`PdfSecurity`). This covers the `%PDF-` header and version (section 7.5.2 of ISO 32000-1) and the `/Encrypt` scan, all over bytes.
- **Ghostscript compression** (`PdfCompress`): the quality-to-preset mapping, the command line, and the guards of the ratio computation.
- **The document store** (`Database`): the `get_documents` query builder, and save/update/delete/stats as a keyed table.
- **The application shell** (`AppShell`): the files chosen, the file-name idiom, and the rotate and delete calls planned from the editor's pages.
- **The dialogs and panels**:
  - `SplitModal`: page choice;
  - `RotateModal`: angle normalisation;
  - `PasswordModal`: strength meter and submit guard;
  - `CompressModal`: quality bands;
  - `PdfViewer`: zoom, rotation, image cache and thumbnails;
  - `FileHistory`: the recent-files list: adding, removal and relative dates;
  - `DocumentManager`: filter, type list, new records and the add-document flow.

Shared helpers:
- `Wrappers`: `Option` and `Result`.
- `Strings`: ASCII whitespace and case, trimming, splitting, joining, searching, and JavaScript `parseInt` / Python `int()`.
- `JsMath`: JavaScript's truncating `%`, and integers as Numbers: rounding to the nearest double (ties to even), overflow to an infinity, and `NaN`.
- `Seqs`: splice helpers.

Where JavaScript or Python arithmetic differs from Dafny's, the model writes the source's operator out. Dafny's `%` is Euclidean, so JavaScript's remainder is `JsRem`. `Math.floor` of a division by a positive constant is Dafny's `/`.

## Model

| member | source | states |
|---|---|---|
| EditorPages.LoadPages | src/components/PDFEditor.tsx:80-100 | After loading, the cards are numbered 1..pageCount in order and none is rotated. With a thumbnail list, each card gets the image of the first entry for its page. After a thumbnail error, no card has an image. |
| EditorPages.LoadedPagesAreArranged | src/components/PDFEditor.tsx:80-100 | Freshly loaded cards are a rearrangement of 1..N turned by quarter turns, the invariant the editor keeps. |
| EditorPages.FindThumb | src/components/PDFEditor.tsx:93 | The index found is the first entry for the page. No index means no entry is for that page. |
| EditorPages.ToggleSelection | src/components/PDFEditor.tsx:127-135 | The page is selected afterwards exactly when it was not selected before. Every other page keeps its state. |
| EditorPages.ToggleTwiceRestores | src/components/PDFEditor.tsx:127-135 | Toggling the same page twice gives back the original selection. |
| EditorPages.RotatePage | src/components/PDFEditor.tsx:137-143 | Only cards with the given number turn, by the angle modulo 360. The new angle lies strictly between -360 and 360 and has the sign of the sum, as JavaScript's `%` gives. Count, order and numbers stay. |
| EditorPages.QuarterTurnCycle | src/components/PDFEditor.tsx:137-143 | A 90-degree press keeps every card at a quarter turn and advances the pressed card 0→90→180→270→0. |
| EditorPages.FourQuarterTurnsOfAngle | src/components/PDFEditor.tsx:140 | Four quarter turns with JavaScript's remainder bring a quarter-turn angle back to itself. |
| EditorPages.FourQuarterTurnsAreIdentity | src/components/PDFEditor.tsx:137-143 | Four presses of a card's rotate button leave all the cards as they were. |
| EditorPages.FindPage | src/components/PDFEditor.tsx:182-183 | The index found is the first card with the number. No index means no card has it. |
| EditorPages.MovePage | src/components/PDFEditor.tsx:181-189 | A drop never adds, loses or duplicates a card: the result is a permutation of the cards. |
| EditorPages.MovePageSpec | src/components/PDFEditor.tsx:172-192 | When both cards are present, the dragged card ends at the target's former index. Removing it from the old and new orders leaves the same sequence, so all other cards keep their relative order. |
| EditorPages.MovePageOntoItself | src/components/PDFEditor.tsx:181-189 | Moving a card onto itself gives back the same order. |
| EditorPages.MovePageAbsent | src/components/PDFEditor.tsx:184-185 | When either card is missing, the order is unchanged. |
| EditorPages.MovePreservesArrangement | src/components/PDFEditor.tsx:172-192 | After a drop, the display order is still a rearrangement of 1..N. |
| EditorPages.JsSubstring | src/components/PDFEditor.tsx:116-119 | Within bounds, `substring` is the slice. It is never longer than the string. |
| EditorPages.ParsePdfDate | src/components/PDFEditor.tsx:110-125 | A string not starting with `D:` gives the empty string. Otherwise, with `p` the text after `D:`, the result is `p[6..8]/p[4..6]/p[0..4]`, each slice cut back to the length of `p`. So `D:202206` gives `/06/2022`, and a full date gives `DD/MM/YYYY` of 10 characters. |
| EditorPages.ParsePdfDateFields | src/components/PDFEditor.tsx:110-125 | `D:YYYYMMDD…` reads back as `DD/MM/YYYY`, whatever time fields follow. |
| EditorPages.ParsePdfDateTruncated | src/components/PDFEditor.tsx:116-121 | A date cut short after the year gives empty day and month fields: `//2022`. |
| EditorSession.InitValid | src/components/PDFEditor.tsx:20-42 | The editor's initial state satisfies the timer-bookkeeping and card-arrangement invariant. |
| EditorSession.TimestampedPath | src/components/PDFEditor.tsx:214 | A trailing `.pdf`, in any letter case, becomes the tag, the timestamp and `.pdf`. A path without that ending is left as it is. |
| EditorSession.UpperCaseExtensionReplaced | src/components/PDFEditor.tsx:214 | An upper-case `.PDF` ending is replaced too. |
| EditorSession.ToastName | src/components/PDFEditor.tsx:376 | The toast shows a suffix of the path. It is the text after the last backslash when the path does not end in one, and the whole path when there is no separator. |
| EditorSession.PagesLoaded | src/components/PDFEditor.tsx:76-103 | Loading rebuilds the cards. Text extraction starts exactly when thumbnails arrived; after a thumbnail error, nothing else changes. |
| EditorSession.TogglePage | src/components/PDFEditor.tsx:127-135 | Selection flips one page and touches neither the cards nor anything else. |
| EditorSession.DragStart | src/components/PDFEditor.tsx:145-156 | Starting a drag records the dragged card and clears the hover target, and nothing else. |
| EditorSession.DragOver | src/components/PDFEditor.tsx:158-170 | The hover target changes only during a drag and only to a card other than the dragged one. In that case it always becomes that card. |
| EditorSession.DragLeave | src/components/PDFEditor.tsx:194-201 | Leaving for a point outside the card clears the hover target. Moving within it changes nothing. |
| EditorSession.Drop | src/components/PDFEditor.tsx:172-192 | With no drag, or a drop on the dragged card itself, nothing changes. Otherwise the cards are permuted by the move. The unsaved flag and timers are untouched. |
| EditorSession.DragEnd | src/components/PDFEditor.tsx:269-286 | Every drag end clears the drag state and marks the document unsaved. It cancels the pending autosave and arms exactly one new 3000 ms timer, and keeps cards, path and save flag. |
| EditorSession.SaveChanges | src/components/PDFEditor.tsx:203-221 | With nothing unsaved or no cards, the save does nothing. Otherwise it marks a save in progress and sends the display order of page numbers from the original path to a timestamped sibling. |
| EditorSession.SaveFinished | src/components/PDFEditor.tsx:224-239 | Afterwards no save is in progress. Success clears the unsaved mark. Failure keeps it and shows the failure toast. |
| EditorSession.TimerFired | src/components/PDFEditor.tsx:280-283 | Only an armed timer acts. It is disarmed and runs the save, without consulting the save-in-progress flag. |
| EditorSession.ExtractText | src/components/PDFEditor.tsx:288-298 | Extraction sets the loading flag and asks for OCR text of the open file. |
| EditorSession.ExtractFinished | src/components/PDFEditor.tsx:299-315 | Loading ends. Success replaces the text with the reply's, or with "" when it has none. Failure keeps the old text. |
| EditorSession.ClearText | src/components/PDFEditor.tsx:327-329 | Clearing empties the extracted text and nothing else. |
| EditorSession.EditClick | src/components/PDFEditor.tsx:331-334 | Editing starts with a draft equal to the extracted text. |
| EditorSession.CancelEdit | src/components/PDFEditor.tsx:336-339 | Cancelling leaves edit mode, empties the draft and keeps the extracted text. |
| EditorSession.CommitClick | src/components/PDFEditor.tsx:341-366 | A commit marks a save in progress and asks for the extracted text to be turned into the draft in a timestamped sibling. No staleness check is made. |
| EditorSession.RejectionText | src/components/PDFEditor.tsx:382-386 | A rejected commit reports the backend's message, or the default text when there is none. |
| EditorSession.CommitFinished | src/components/PDFEditor.tsx:372-391 | Success makes the draft from the click the extracted text and leaves edit mode. Failure keeps edit mode, the draft and the text. Either way no save is in progress. |
| EditorSession.Step | src/components/PDFEditor.tsx:19-391 | An event from an unavailable control changes nothing. No event changes the path. A reorder request always names the open file and lists the page numbers of the cards in their current order. |
| EditorSession.HandleReorders | src/components/PDFEditor.tsx:203-221 | Only the save paths send a reorder. It names the open file and lists the page numbers of the cards in their current order. |
| EditorSession.StepPreservesValid | src/components/PDFEditor.tsx:19-391 | Every event keeps the invariant: at most one pending autosave, recorded and 3 s long, and the cards a rearrangement of 1..N at quarter turns. |
| EditorSession.RunPreservesValid | src/components/PDFEditor.tsx:19-391 | Any sequence of events keeps that invariant. |
| EditorSession.DragEndArmsExactlyOneTimer | src/components/PDFEditor.tsx:276-285 | After a drag end exactly one autosave is pending. |
| EditorSession.DebounceCoalesces | src/components/PDFEditor.tsx:276-285 | Of two drag ends in a row, the first timer's expiry does nothing and only the second saves. |
| EditorSession.AutosaveCanOverlapManualSave | src/components/PDFEditor.tsx:280-283 | An autosave can fire during a manual save and send a second reorder request. |
| EditorSession.RotationNotPersisted | src/components/PDFEditor.tsx:137-143 | Rotating a card neither marks the document unsaved nor changes what a later save sends. |
| EditorSession.PathNeverChanges | src/components/PDFEditor.tsx:203-239 | No run of events points the editor at another file, even after a save wrote one. |
| EditorSession.CommitRoundTrip | src/components/PDFEditor.tsx:331-391 | Edit, commit, success: the extracted text becomes the draft as it was at the click, even if it was typed over while waiting. |
| EditorSession.CommitFailureKeepsDraft | src/components/PDFEditor.tsx:384-389 | Edit, type, commit, failure: still editing, the typed draft kept, the extracted text untouched. |
| EditorSession.EditCancelKeepsText | src/components/PDFEditor.tsx:331-339 | Edit then cancel restores the extracted text and discards the draft. |
| EditorSession.LastOfFiveToFront | src/components/PDFEditor.tsx:172-192 | Dropping the last of five fresh cards on the first gives the order 5, 1, 2, 3, 4. |
| EditorSession.MoveLastToFrontScenario | src/components/PDFEditor.tsx:145-286 | Load five pages, drag the last onto the first, end the drag and let the timer fire: one request is sent, with order 5, 1, 2, 3, 4 and the `.PDF` ending timestamped. |
| PageTransforms.Reorder | python-scripts/pdf_editor.py:412-426 | Each output page is the one named by the matching in-range entry. Out-of-range entries are dropped and repeated ones copy the page again. |
| PageTransforms.ReorderStrict | python-scripts/pdf_editor.py:141-161 | The first entry outside 1..N gives the error naming it. Otherwise the pages are copied in the order named. |
| PageTransforms.StrictAgreesWithLenient | python-scripts/pdf_editor.py:141-161 | When every entry names a page, the shadowed strict definition and the effective one give the same pages. |
| PageTransforms.ReorderInRange | python-scripts/pdf_editor.py:419-424 | With every entry in range, the output has one page per entry: the page it names. |
| PageTransforms.ReorderByIdentity | python-scripts/pdf_editor.py:412-426 | Reordering by 1..N gives the document back. |
| PageTransforms.SplitFileNamesDistinct | python-scripts/pdf_editor.py:96 | Different page numbers give different `page_<n>.pdf` names. |
| PageTransforms.Split | python-scripts/pdf_editor.py:84-100 | One file per requested in-range page, in request order, named after its page. Other requests are skipped. |
| PageTransforms.SplitPagesAreReorder | python-scripts/pdf_editor.py:84-100 | The pages a split writes are exactly those the reorder command keeps for the same list. |
| PageTransforms.Kept | python-scripts/pdf_editor.py:129-131 | The kept numbers are those in 1..N that are not listed for deletion, ascending. |
| PageTransforms.Delete | python-scripts/pdf_editor.py:124-132 | The output is the pages not listed, in their original order. |
| PageTransforms.DeleteIsReorderOfKept | python-scripts/pdf_editor.py:124-132 | Deleting equals reordering by the kept numbers, so each kept page appears once, in place. |
| PageTransforms.DeleteNothing | python-scripts/pdf_editor.py:124-132 | Deleting nothing keeps every page. |
| PageTransforms.Rotate | python-scripts/pdf_editor.py:106-115 | Page count and order stay. Page n turns by `rotations[n]` exactly when n is a key; other pages are untouched. |
| PageTransforms.RotateByZero | python-scripts/pdf_editor.py:106-115 | An empty map, or one of zero angles, changes nothing. |
| PageTransforms.CompressQuality | python-scripts/pdf_editor.py:192-199 | The quality used is always in 10..100. An unreadable argument counts as 75. |
| PageTransforms.DefaultQualityIs75 | python-scripts/pdf_editor.py:474 | The default argument `medium` is not a number, so the default quality is 75. |
| PageTransforms.QualityOfNumber | python-scripts/pdf_editor.py:195-199 | A number from 10 to 100, written as text, is used unchanged. |
| PageTransforms.TierFor | python-scripts/pdf_editor.py:264-293 | Each quality band (≥85, ≥70, ≥55, ≥40, ≥25, lower) gets its fixed preset, JPEG quality and equal colour and grey resolutions. |
| PageTransforms.TierMonotone | python-scripts/pdf_editor.py:264-293 | A higher quality never gets a lower JPEG quality or resolution. |
| PageTransforms.CompressWriters | python-scripts/pdf_editor.py:295-360 | Ghostscript runs when found. The pikepdf fallback runs when it is missing or fails. The fallback saves plainly exactly at quality 70 or more and recompresses otherwise. |
| TextReplace.CommonPrefixLen | python-scripts/pdf_text_editor.py:213-216 | The length is a shared prefix that cannot be extended. |
| TextReplace.CommonSuffixLen | python-scripts/pdf_text_editor.py:218-221 | The length is a shared suffix within the bound that cannot be extended. |
| TextReplace.PrefixAndSuffix | python-scripts/pdf_text_editor.py:213-221 | The prefix and the suffix never overlap in either line. |
| TextReplace.LinePair | python-scripts/pdf_text_editor.py:205-226 | Equal lines (after strip) or an empty line give no pair. A pair's old text is non-empty, stripped and found in the old line; its new text is stripped and found in the new line. |
| TextReplace.SubstitutionPair | python-scripts/pdf_text_editor.py:213-226 | When one text replaces another between a shared prefix and suffix, and the two differ in their first and last characters, the pair is the two texts stripped. It is dropped exactly when the old text is blank. |
| TextReplace.SubstitutionLinePair | python-scripts/pdf_text_editor.py:205-226 | The same for whole stripped lines. |
| TextReplace.CatToDog | python-scripts/pdf_text_editor.py:205-226 | Changing "the cat sat" to "the dog sat" gives the pair ("cat", "dog"). |
| TextReplace.PureInsertionNoPair | python-scripts/pdf_text_editor.py:223-226 | Inserting text into a line yields no pair. |
| TextReplace.InsertionCoversOldLine | python-scripts/pdf_text_editor.py:213-221 | For an insertion, the prefix and the bounded suffix cover the whole old line. |
| TextReplace.Candidates | python-scripts/pdf_text_editor.py:208-226 | A pair is a candidate exactly when some line position below both line counts produces it. |
| TextReplace.Dedup | python-scripts/pdf_text_editor.py:226-231 | No two kept pairs share an old text, and every old text of the input is kept. |
| TextReplace.DedupFirstWins | python-scripts/pdf_text_editor.py:226-231 | The kept pair for each old text is the first one with it. |
| TextReplace.CandidatesOfEqualPrefix | python-scripts/pdf_text_editor.py:208-212 | Line positions holding equal lines contribute no pair. |
| TextReplace.AppendedLineNoPairs | python-scripts/pdf_text_editor.py:205-231 | An edit that only adds a line at the end finds nothing to replace. |
| TextReplace.ModifiedPages | python-scripts/pdf_text_editor.py:36-43 | The report lists the 1-based pages with a positive count, in page order, each with its count. |
| TextReplace.ModifiedPagesSum | python-scripts/pdf_text_editor.py:236-254 | The reported counts add up to the total over all pages. |
| TextReplace.SearchedTexts | python-scripts/pdf_text_editor.py:23-28 | Requests whose old text is missing or empty are skipped. The others are searched in order. |
| TextReplace.CountReplacements | python-scripts/pdf_text_editor.py:19-43 | The page loop's total is the sum of per-page hits. The details are exactly the pages with hits. |
| TextReplace.ReplaceTextInPdf | python-scripts/pdf_text_editor.py:13-56 | Skipped requests count nowhere. The details list exactly the pages with a replacement. The total is the sum of the page counts. |
| TextReplace.SmartReplace | python-scripts/pdf_text_editor.py:182-260 | Content unchanged up to surrounding whitespace returns success with 0 replacements and searches nothing. Otherwise the diff pairs are counted on every page. |
| OcrFormat.RStripLines | python-scripts/ocr_processor.py:21 | Every line loses its trailing whitespace; the line count stays. |
| OcrFormat.NonBlank | python-scripts/ocr_processor.py:22 | A line is kept exactly when it is not whitespace only. |
| OcrFormat.SeparatorLineDropped | python-scripts/ocr_processor.py:22 | A line made only of information separators is blank to Python's `strip`, so the cleaning drops it wherever it stands. |
| OcrFormat.CleanLinesAreClean | python-scripts/ocr_processor.py:21-22 | No line of a cleaned page is empty or ends in whitespace. |
| OcrFormat.CleanTextLines | python-scripts/ocr_processor.py:21-22 | Splitting a non-empty cleaned page at line breaks gives back its clean lines. |
| OcrFormat.CleanTextIdempotent | python-scripts/ocr_processor.py:21-22 | Cleaning a cleaned page changes nothing. |
| OcrFormat.CleanLinesOfConcat | python-scripts/ocr_processor.py:21-22 | Cleaning works line by line: the non-blank lines keep their order across a line break. |
| OcrFormat.Results | python-scripts/ocr_processor.py:15-27 | The k-th rendered image gives page label k+1 and its cleaned text. |
| OcrFormat.RenderRange | python-scripts/ocr_processor.py:10-13 | With pages given, the whole range from the least to the greatest is rendered. Without them, everything is. |
| OcrFormat.LabelsIgnoreRequestedPages | python-scripts/ocr_processor.py:10-17 | Requesting pages 5 and 3 renders 3..5, labelled 1, 2 and 3. |
| OcrFormat.OcrPdf | python-scripts/ocr_processor.py:29-39 | Exactly the format `txt` gives plain text. Any other gives the JSON list of all pages, including empty ones. |
| OcrFormat.EditorFormatGetsJson | python-scripts/ocr_processor.py:29-39 | The editor's `text` format takes the JSON branch. |
| OcrFormat.BlockShape | python-scripts/ocr_processor.py:33-36 | A page block is a 55-wide box of `═` around the page number centred in 55 columns: the larger half of the padding on the left, the smaller on the right. A blank line follows, then the text. |
| OcrFormat.FormatTxtEmptyIff | python-scripts/ocr_processor.py:29-37 | The text output is empty exactly when no page has text. |
| OcrFormat.EmptyPageSkipped | python-scripts/ocr_processor.py:31-32 | A page without text contributes nothing, wherever it is. |
| OcrFormat.BlocksAppend | python-scripts/ocr_processor.py:30-36 | The blocks of two runs of pages are the blocks of each, in order. |
| PdfSecurity.Decode | src-tauri/src/pdf_security.rs:82 | Lossy decoding keeps the length. ASCII bytes stand for themselves and other bytes become U+FFFD. |
| PdfSecurity.ReadHeader | src-tauri/src/pdf_security.rs:74-80 | The exact read succeeds exactly for a readable file of 8 or more bytes, with its first 8 bytes. Otherwise it fails with the open error, the read error of a file that opens but cannot be read (a directory), or the short-read error. |
| PdfSecurity.UnreadableFileErrors | src-tauri/src/pdf_security.rs:53-98 | A file that opens but cannot be read fails with its read error: "Failed to read header" from the validator and the version reader, "Failed to read file" from the encryption check. |
| PdfSecurity.ValidateByHeader | src-tauri/src/pdf_security.rs:76-87 | A file of 8 or more bytes is valid exactly when it starts with `%PDF-`. Otherwise the missing-header error is returned. |
| PdfSecurity.ShortFileFailsToRead | src-tauri/src/pdf_security.rs:78-80 | A file shorter than 8 bytes fails both checks with the same read error. |
| PdfSecurity.VersionIffValid | src-tauri/src/pdf_security.rs:68-105 | The version can be read exactly when the file validates. A missing path is reported by the validator as not found and by the version reader as an open failure. |
| PdfSecurity.VersionIsHeaderTail | src-tauri/src/pdf_security.rs:101-102 | The version is bytes 5..8, decoded and trimmed, and so at most three characters. |
| PdfSecurity.VersionOfHeader | src-tauri/src/pdf_security.rs:94-102 | Only the first 8 bytes determine the version. |
| PdfSecurity.VersionOneSeven | src-tauri/src/pdf_security.rs:101-102 | A file starting `%PDF-1.7` has version `1.7`. |
| PdfSecurity.VersionTrimmed | src-tauri/src/pdf_security.rs:102 | `%PDF-2` followed by two spaces gives version `2`. |
| PdfSecurity.ReadChunk | src-tauri/src/pdf_security.rs:51-55 | The 8192-byte buffer holds the file's first bytes followed by zeros. |
| PdfSecurity.EncryptedIffMarkerInFirstChunk | src-tauri/src/pdf_security.rs:51-64 | A file is reported encrypted exactly when `/Encrypt` occurs in its first 8192 bytes. Both password flags equal that flag, and every permission is granted. |
| PdfSecurity.PaddingAddsNoMarker | src-tauri/src/pdf_security.rs:51-58 | The zero padding of the buffer neither creates nor hides a marker. |
| PdfSecurity.SecurityInfoOfMissingFile | src-tauri/src/pdf_security.rs:45-47 | A missing path is reported as not found before any read. |
| PdfCompress.QualitySetting | src-tauri/src/pdf_compress.rs:6-11 | `low` gives `/screen` and `high` gives `/printer`. Everything else, `medium` included, gives `/ebook`. |
| PdfCompress.PresetOfWords | src-tauri/src/pdf_compress.rs:6-11 | Only `low` and `high` leave the medium preset. |
| PdfCompress.GsCommand | src-tauri/src/pdf_compress.rs:22-31 | The bundled executable is used when present, otherwise the platform's command name. |
| PdfCompress.CompressPdf | src-tauri/src/pdf_compress.rs:5-59 | A missing input fails before Ghostscript is started. Otherwise Ghostscript is started with the preset, and the result is success exactly when it ran and succeeded. |
| PdfCompress.InvocationCarriesPreset | src-tauri/src/pdf_compress.rs:33-44 | The command line carries the chosen preset and the output path, with the input path last. |
| PdfCompress.CompressionRatio | src-tauri/src/pdf_compress.rs:67-77 | A size error is reported, the original's first. An empty original gives "Original file is empty" and no division. |
| PdfCompress.RatioMeaning | src-tauri/src/pdf_compress.rs:75 | The ratio is at most 100. It is positive exactly when the file shrank and zero exactly when the size stayed. |
| Database.AddSearch | src-tauri/src/database.rs:137-140 | A search binds `%s%` as the next value. No search changes nothing. |
| Database.AddType | src-tauri/src/database.rs:142-145 | A type filter binds the type as the next value. No type changes nothing. |
| Database.QueryShape | src-tauri/src/database.rs:128-155 | Every query starts with the fixed head and binds one value per filter given. |
| Database.FilteredShape | src-tauri/src/database.rs:128-145 | The type's placeholder number is one more than the number of values bound before it. |
| Database.QueryEnding | src-tauri/src/database.rs:147-155 | The ordering is always present, after the filters and before any LIMIT or OFFSET. |
| Database.PaginateEnding | src-tauri/src/database.rs:149-155 | LIMIT is appended exactly when given, then OFFSET exactly when given. |
| Database.PlainQuery | src-tauri/src/database.rs:128-147 | Without filters the query is the head and the ordering, with no placeholders. |
| Database.BothFiltersQuery | src-tauri/src/database.rs:137-145 | With both filters, the type is bound second, as `?2`. |
| Database.TypeOnlyQuery | src-tauri/src/database.rs:142-145 | With the type alone, it is bound first, as `?1`. |
| Database.OffsetWithoutLimit | src-tauri/src/database.rs:149-155 | An OFFSET may be emitted without a LIMIT. |
| Database.FindPath | src-tauri/src/database.rs:86 | The row found has the path. No row means no row has it. |
| Database.ReadDocument | src-tauri/src/database.rs:6-23 | The command's argument is read exactly when both store times are present. Otherwise the error names `created_at` if it is absent, else `updated_at`. A record read back gives the argument sent. |
| Database.SaveDocument | src-tauri/src/database.rs:76-118 | A save adds a row exactly when the path is new. |
| Database.SaveNewPath | src-tauri/src/database.rs:80-117 | A new path appends a row under the next id, with the caller's content and both times set to now. That id is returned. |
| Database.SaveExistingPath | src-tauri/src/database.rs:86-117 | A stored path rewrites that row alone: id and creation time stay, the content is the caller's, and the id returned is 0. |
| Database.SavePreservesValid | src-tauri/src/database.rs:76-118 | Saves keep ids positive and unique and file paths unique. |
| Database.UpdateKeepsKeys | src-tauri/src/database.rs:223-260 | An update rewrites the row with that id and keeps every row's path and creation time. An unknown id changes nothing. |
| Database.DeleteRemovesId | src-tauri/src/database.rs:263-272 | After a delete no row has the id, and the other rows remain in order. |
| Database.GetDocumentById | src-tauri/src/database.rs:189-220 | Success exactly when a row has the id, and then it is that row. |
| Database.StatsAfterNewSave | src-tauri/src/database.rs:275-293 | Saving a new path adds one to the count and the file's size to the total. |
| Database.Stats | src-tauri/src/database.rs:285-289 | An empty table reports 0 documents and 0 bytes. |
| AppShell.BasenameCases | src/App.tsx:36 | The recorded name is the text after the last backslash. A path with no backslash is recorded whole. The name is always a suffix of the path. |
| AppShell.SlashPathRecordedWhole | src/App.tsx:36 | `dir/name` without backslashes is recorded whole, while the separator-aware name is `name`. |
| AppShell.FileNameShape | src/App.tsx:36 | The corrected name has no separator of either kind. It ends the path, preceded by a separator unless it is the whole path. |
| AppShell.FileNameOnWindowsPaths | src/App.tsx:36 | On backslash-only paths the idiom and the corrected name agree. |
| FileHistory.AddToHistory | src/App.tsx:32-45 | The new entry is first, no later entry has its path, the list has at most 50 entries, and the rest are the earlier other-path entries in order. |
| FileHistory.PathOnceAtFront | src/App.tsx:43 | The path occurs exactly once, at the front. |
| FileHistory.OthersKeepOrder | src/App.tsx:43 | Each earlier other-path entry moves one place back among the kept entries, in order, unless cut off at fifty. |
| FileHistory.ReopenRenews | src/App.tsx:43 | Adding the same path twice equals adding it once with the later time. |
| AppShell.Remember | src/App.tsx:26-30 | A non-empty first chosen file is added to the history. Otherwise the history stays. |
| AppShell.FilesSelected | src/App.tsx:47-52 | The first file becomes current when files are chosen. An empty choice keeps the current file. |
| AppShell.FileFromHistory | src/App.tsx:54-58 | The path becomes the only chosen file and the current one, and the tools tab opens. |
| AppShell.RotationMap | src/App.tsx:73-78 | The map's keys are exactly the numbers of pages with a non-zero rotation. |
| AppShell.RotationMapLastWins | src/App.tsx:74-78 | A rotated page's number maps to its rotation unless a later rotated page has the same number. |
| AppShell.RotationMapOfDistinct | src/App.tsx:73-78 | With distinct page numbers, every rotated page's number maps to its rotation. |
| AppShell.PagesToDelete | src/App.tsx:90-91 | The numbers are exactly those in 1..len that no page carries, in ascending order. |
| AppShell.ArrangementDeletesNothing | src/App.tsx:90-91 | When the numbers are a rearrangement of 1..len, nothing is deleted. |
| AppShell.EditorSave | src/App.tsx:69-106 | Rotation is requested exactly when a page is turned and a file is set. Deletion is requested when pages are missing, a file is set, and no requested rotation failed. |
| AppShell.EditorSaveOfArrangement | src/App.tsx:69-106 | For any arrangement of 1..N, a save never deletes and rotates exactly when some page is turned. |
| SplitModal.TogglePage | src/components/SplitModal.tsx:19-27 | A page is chosen afterwards exactly when it was not chosen before. The other pages and the range fields stay. |
| SplitModal.TogglePageTwice | src/components/SplitModal.tsx:19-27 | Toggling twice restores the dialog. |
| SplitModal.ValidRange | src/components/SplitModal.tsx:30-36 | A range is accepted exactly when both fields parse and 1 ≤ start ≤ end ≤ the page count. |
| SplitModal.SelectRange | src/components/SplitModal.tsx:29-43 | A rejected range alerts and changes nothing. An accepted one adds exactly start..end and keeps earlier choices. |
| SplitModal.SelectAll | src/components/SplitModal.tsx:45-51 | The choice becomes exactly 1..total. |
| SplitModal.ClearAll | src/components/SplitModal.tsx:53-55 | Nothing is chosen afterwards. |
| SplitModal.SortedPages | src/components/SplitModal.tsx:62 | The list is strictly ascending and has exactly the chosen pages. |
| SplitModal.Submit | src/components/SplitModal.tsx:57-64 | An empty choice alerts and submits nothing. Otherwise the ascending pages are submitted and the dialog resets. |
| SplitModal.Close | src/components/SplitModal.tsx:66-71 | The choice and both range fields are reset. |
| RotateModal.Normalize | src/components/RotateModal.tsx:89 | The truncating remainder, raised by 360 when negative, is the Euclidean remainder, in 0..359. |
| RotateModal.AngleInput | src/components/RotateModal.tsx:86-91 | Text without digits gives 0. A number read as a finite double gives that double's Euclidean remainder, in 0..359. A number read as an infinity gives `NaN`, and only such a number does. |
| RotateModal.AngleInputKeepsCanonical | src/components/RotateModal.tsx:86-91 | Typing an angle already in 0..359 keeps it. |
| RotateModal.AngleInputOfInteger | src/components/RotateModal.tsx:86-91 | A typed integer gives the remainder of the double it rounds to, or `NaN` when it overflows to an infinity. |
| RotateModal.AngleInputIsRemainder | src/components/RotateModal.tsx:86-91 | Below 2^53 in magnitude a typed integer gives its own remainder modulo 360, so integers a full turn apart give the same angle. |
| RotateModal.LargeOddInputIsRounded | src/components/RotateModal.tsx:87-88 | An odd integer between 2^53 and 2^54 gives the remainder of one of its even neighbours and never its own. |
| RotateModal.TwentyNinesTyped | src/components/RotateModal.tsx:87-88 | Typing twenty nines gives 280, the remainder of 10^20, while the integer typed has remainder 279. |
| RotateModal.HugeInputIsNaN | src/components/RotateModal.tsx:87-90 | An integer that overflows to an infinity gives `NaN`: the remainder of an infinity is `NaN`, which is neither falsy-replaced nor below 0. |
| RotateModal.Step | src/components/RotateModal.tsx:12-30 | Submit hands on the current angle and resets to 90. Close resets to 90. Only submit hands anything on. |
| RotateModal.RunStaysInRange | src/components/RotateModal.tsx:12-91 | From an angle in range or `NaN`, every later angle and every submitted one is in 0..359 or `NaN`. When no typed text reads as an infinity, all of them are in 0..359. |
| RotateModal.StepStaysInRange | src/components/RotateModal.tsx:12-91 | One event keeps the angle in 0..359 or `NaN`, and submits the current angle. Unless the event is text read as an infinity, an angle in range stays in range. |
| RotateModal.HugeInputSubmitsNaN | src/components/RotateModal.tsx:12-91 | Typing an integer that overflows and then submitting hands on `NaN` and resets the angle to 90. |
| RotateModal.OptionsAreQuarterTurns | src/components/RotateModal.tsx:26-30 | Each preset is a quarter turn in (0, 360) that the input keeps as typed. |
| PasswordModal.RawScore | src/components/PasswordModal.tsx:34-42 | The raw score is between 0 and 6. |
| PasswordModal.PasswordStrength | src/components/PasswordModal.tsx:31-47 | The score is 0 with an empty label exactly for an empty password. Otherwise it is 1 exactly for a raw score ≤2 and 3 exactly for a raw score ≥5. |
| PasswordModal.AppendNeverLowersScore | src/components/PasswordModal.tsx:34-42 | Typing more characters never lowers the raw score. |
| PasswordModal.AppendNeverLowersStrength | src/components/PasswordModal.tsx:31-47 | Typing more characters never lowers the meter. |
| PasswordModal.FullScore | src/components/PasswordModal.tsx:34-46 | Twelve or more characters from all four classes score 6 and are Strong. |
| PasswordModal.LowerOnlyIsNotStrong | src/components/PasswordModal.tsx:34-46 | Lower-case letters alone are never Strong, and fewer than eight are Weak. |
| PasswordModal.ModeIgnoresCase | src/components/PasswordModal.tsx:29 | Encrypt mode does not depend on the title's letter case. |
| PasswordModal.EncryptTitle | src/components/PasswordModal.tsx:29 | A title starting with "Encrypt" puts the dialog in encrypt mode. |
| PasswordModal.Submit | src/components/PasswordModal.tsx:52-66 | A password is handed on exactly when it is not blank and, when encrypting, equals the confirmation. It is handed on untrimmed, and the form resets. A rejected submit changes nothing. |
| PasswordModal.DisabledIffRejected | src/components/PasswordModal.tsx:167 | The submit button is disabled exactly when pressing it would do nothing. |
| PasswordModal.DecryptIgnoresConfirm | src/components/PasswordModal.tsx:50-57 | When decrypting, the confirmation plays no part. |
| PasswordModal.MismatchBlocksSubmit | src/components/PasswordModal.tsx:148 | A shown mismatch warning means submit is refused. Decrypting never shows it. |
| PasswordModal.Close | src/components/PasswordModal.tsx:68-74 | Closing empties both fields and hides both. |
| CompressModal.BandOf | src/components/CompressModal.tsx:27-33 | A quality's band is the first whose upper bound (30, 50, 70, 85) it does not exceed. |
| CompressModal.ChainsShareBands | src/components/CompressModal.tsx:27-94 | The label, the estimate and the class are each a function of the same band. |
| CompressModal.LabelIdentifiesBand | src/components/CompressModal.tsx:27-94 | Two qualities show the same label, or the same class, exactly when they share a band. |
| CompressModal.BandMonotone | src/components/CompressModal.tsx:27-33 | A higher quality is never in a band of more compression. |
| CompressModal.EstimateNonIncreasing | src/components/CompressModal.tsx:35-42 | The estimated reduction never grows with quality and lies in 10..80. |
| CompressModal.PresetBands | src/components/CompressModal.tsx:128-155 | The presets 25, 50, 75, 90 are on the slider and fall in the maximum, high, light and minimal bands. |
| CompressModal.Step | src/components/CompressModal.tsx:13-25 | Submit hands on the current quality and resets to 75. Close resets to 75. A slider move sets its value. |
| CompressModal.RunStaysOnSlider | src/components/CompressModal.tsx:13-155 | With slider moves on its scale, the quality and every submitted quality stay on the slider's scale. |
| CompressModal.InitialOnSlider | src/components/CompressModal.tsx:13 | The initial 75 is on the slider, in the light band. |
| PdfViewer.ZoomIn | src/components/PDFViewer.tsx:126-128 | Zooming in never exceeds 200 and never lowers a level within range. |
| PdfViewer.ZoomOut | src/components/PDFViewer.tsx:130-132 | Zooming out never goes below 50 and never raises a level within range. |
| PdfViewer.ZoomStaysInRange | src/components/PDFViewer.tsx:22-132 | Any sequence of presses from a reachable level stays in 50..200 on a multiple of 25. |
| PdfViewer.InitialZoomIsLevel | src/components/PDFViewer.tsx:22 | The initial 100% is such a level. |
| PdfViewer.ZoomInOutCancel | src/components/PDFViewer.tsx:126-132 | Below the maximum, in then out returns to the level. Above the minimum, out then in does too. |
| PdfViewer.RotateView | src/components/PDFViewer.tsx:134-136 | The view's rotation is in 0..359 and a quarter turn further, modulo 360. |
| PdfViewer.RotationCycle | src/components/PDFViewer.tsx:23-136 | The rotation stays a quarter turn, and four presses restore it. |
| PdfViewer.LoadPageImage | src/components/PDFViewer.tsx:94-117 | The backend is asked exactly when the page has no cached image. Only a non-empty image is stored, and other pages are untouched. |
| PdfViewer.LoadedPageIsNotRequestedAgain | src/components/PDFViewer.tsx:95 | Once a page's image has arrived, loading it or any cached page asks nothing. |
| PdfViewer.PagesToLoad | src/components/PDFViewer.tsx:88-92 | The pages requested are exactly those in 1..total without a cached image, ascending. |
| PdfViewer.ThumbMapDomain | src/components/PDFViewer.tsx:77-80 | The map has exactly the pages of the list. |
| PdfViewer.ThumbMapLastWins | src/components/PDFViewer.tsx:77-80 | A page's thumbnail is that of its last entry. |
| PdfViewer.ThumbMapAppend | src/components/PDFViewer.tsx:77-80 | Building from two lists in turn merges their maps, the second winning. |
| FileHistory.WithoutPath | src/components/FileHistory.tsx:31-34 | No remaining entry has the path, and the list does not grow. |
| FileHistory.RemovalKeepsOrder | src/components/FileHistory.tsx:31-34 | Each other-path entry survives at the place given by the kept entries before it, so relative order is unchanged. |
| FileHistory.RemovalMembership | src/components/FileHistory.tsx:32 | An entry survives exactly when its path differs. |
| FileHistory.RemovalIdempotent | src/components/FileHistory.tsx:32 | Removing twice is removing once. A path no entry has removes nothing. |
| FileHistory.ClearHistory | src/components/FileHistory.tsx:36-40 | A confirmed clear empties the list. An unconfirmed one keeps it. |
| FileHistory.JustNow | src/components/FileHistory.tsx:45-50 | Less than a minute ago, or any time in the future, reads "Just now". |
| FileHistory.MinutesAgo | src/components/FileHistory.tsx:46-51 | 1 to 59 whole minutes read "<m> min ago". |
| FileHistory.HoursAgo | src/components/FileHistory.tsx:47-52 | 1 to 23 whole hours read "<h> hour ago", with an "s" exactly above one. |
| FileHistory.DaysAgo | src/components/FileHistory.tsx:48-53 | 1 to 6 whole days read "<d> day ago", with an "s" exactly above one. |
| FileHistory.WeekOrMore | src/components/FileHistory.tsx:53-55 | A week or more shows the locale date. |
| DocumentManager.FilterDocuments | src/components/DocumentManager.tsx:107-117 | Every listed document matches both conditions, and the list does not grow. |
| DocumentManager.FilterIsSubsequence | src/components/DocumentManager.tsx:108 | The list keeps documents in their loaded order. |
| DocumentManager.FilterMembership | src/components/DocumentManager.tsx:108-116 | A document is listed exactly when it is loaded and matches the case-insensitive search and the type. |
| DocumentManager.NoFilterKeepsAll | src/components/DocumentManager.tsx:109-113 | With no query and no type, every document is listed. |
| DocumentManager.SearchIgnoresQueryCase | src/components/DocumentManager.tsx:110-111 | The search does not depend on the query's letter case. |
| DocumentManager.DocumentTypes | src/components/DocumentManager.tsx:120-123 | The types offered are distinct and non-empty. |
| DocumentManager.TypesMembership | src/components/DocumentManager.tsx:121 | A type is offered exactly when some document has it and it is not empty. |
| DocumentManager.TypesInFirstAppearanceOrder | src/components/DocumentManager.tsx:120-123 | The types are offered in the order of their first appearance. |
| DocumentManager.NewDocument | src/components/DocumentManager.tsx:69-90 | The record is named after the path's recorded name, has type PDF, no tags and empty notes, and leaves out the id and both store times. A name without `.pdf` is its own title. |
| DocumentManager.TitleIsStem | src/components/DocumentManager.tsx:80 | A dot-free stem followed by `.pdf` gets the stem as its title. |
| DocumentManager.WithStoreTimes | src/types/index.ts:55-56 | The two optional store times are present afterwards, and no other field changes. |
| DocumentManager.AddDocument | src/components/DocumentManager.tsx:92-103 | A record without both store times leaves the store unchanged and ends in the failure alert. A complete record is saved, adding a row exactly when its path is new, and the success alert names the file. |
| DocumentManager.AddDocumentRefused | src/components/DocumentManager.tsx:79-103 | As written, every added document is refused for its missing `created_at`: the store is unchanged and the failure alert names that field. |
| DocumentManager.AddedDocumentIsStored | src/components/DocumentManager.tsx:79-99 | With the store times filled in, adding a document at a new path appends it under the next id with type PDF and its path. Both times become the save time whatever was sent, and the success alert names the file. |
| Strings.JsParseIntOfIntToString | src/components/RotateModal.tsx:87 | `parseInt` of an integer's plain decimal digits reads that integer, and as a Number gives the integer rounded to a double, or an infinity when it overflows. |
| Strings.JsParseNumber | src/components/RotateModal.tsx:87 | `parseInt` is `NaN` exactly when no digit is read, and otherwise the integer read, rounded to a double. |
| Strings.SeparatorSpaceOnlyInPython | python-scripts/pdf_text_editor.py:189 | An information separator (U+001C..U+001F) is whitespace to Python and not to JavaScript or Rust. |
| Strings.SeparatorTrimmedOnlyByPython | python-scripts/pdf_text_editor.py:189 | Python's `strip` removes an information separator (U+001C..U+001F) at the end, so `"a\x1f"` and `"a"` strip alike and count as no change. JavaScript's and Rust's `trim` keep it. |
| Strings.PyIntUnderscore | python-scripts/pdf_editor.py:196 | Python's `int()` reads past a single underscore between digits: `1_000` is `1000`. |
| Strings.PyIntDoubleUnderscore | python-scripts/pdf_editor.py:196 | Two underscores in a row make `int()` fail. |
| Strings.Center | python-scripts/ocr_processor.py:33 | Python's `str.center` pads to the width with two pads that differ by at most one space. The extra space goes on the left exactly when the padding and the width are both odd. Text at least as wide is unchanged. |
| Strings.CenterOddWidth | python-scripts/ocr_processor.py:33 | In an odd width the left pad is the larger half of the padding and the right pad the smaller. |
| JsMath.RoundToDouble | src/components/RotateModal.tsx:87 | An integer rounds to a multiple of the spacing of the doubles around it, with a significand of at most 2^53. It lies within half a spacing, and a tie goes to the even significand. Integers below 2^53 are exact. |
| JsMath.RoundIsNearest | src/components/RotateModal.tsx:87 | No multiple of the spacing is nearer to the integer than its rounding. |
| JsMath.OddAbove53Rounds | src/components/RotateModal.tsx:87 | Between 2^53 and 2^54 an odd integer is no double and rounds to one of its neighbours. |
| JsMath.RoundJustAbove53 | src/components/RotateModal.tsx:87 | 2^53 + 1 is a tie that rounds down to 2^53. |
| JsMath.TwentyNinesRound | src/components/RotateModal.tsx:87 | 10^20 - 1 rounds up to 10^20. |
| JsMath.ToNumber | src/components/RotateModal.tsx:87 | The Number of an integer is never `NaN`. It is an infinity exactly when the integer's rounding overflows, with the integer's sign. Otherwise it is within half a spacing of the integer, and exact below 2^53. |
| JsMath.BelowTopBinadeDoesNotOverflow | src/components/RotateModal.tsx:87 | An integer whose spacing is below that of the largest doubles never overflows. |
| JsMath.NumberRem | src/components/RotateModal.tsx:88 | The remainder is `NaN` exactly for a non-finite operand, and otherwise the truncating remainder. |
| Strings.PyIntOfIntToString | python-scripts/pdf_editor.py:196 | Python's `int()` reads back every integer that `str(n)` prints. |

## Left out

- Tauri commands, IPC, dialogs and the file system. Backend answers, file contents and file sizes are inputs: an `Option`/`Result` parameter or an event carrying the reply.
- The PDF, image and OCR libraries and Ghostscript. Page content is abstract (`T`, `C`), and the per-page search count of the text replacer is a function parameter `hits`.
- Floating point: the compression-size estimate in the compress dialog, the file-size formatters, and the dpi scale of the converter.
- PdfCompress.CompressionRatio: computed over exact reals, not 64-bit floats.
- Real timers and React's closure capture. The autosave is an armed-timer map plus a `TimerFired` event. The timer callback saves from the current state, not a stale closure.
- JSON and argv marshalling, including the string-keyed rotation dictionary that JSON hands the Python rotate command. PageTransforms.Rotate takes the map as given. Because of those string keys no page is ever turned, so PyPDF2's refusal of an angle that is not a multiple of 90 (a `ValueError` that `rotate_pages` reports as error JSON) is never reached, and the model adds any angle. The unreachable second `reorder` branch of the script's command switch is left out too.
- SQLite connection handling, schema, indexes and SQL evaluation. The store is a table of rows with distinct ids and paths; the query builder is modelled as strings. Database.SaveDocument returns the connection's last inserted row id, which is 0 on the update path of a fresh connection.
- JsMath.ToNumber: a double's negative zero is merged with zero. A typed `-0` gives the angle 0, as in the source, where `-0 || 0` is 0.
- JsMath.Overflows: the overflow bound is stated through the spacing exponent of the largest doubles, not as a literal near 1.8 * 10^308.
- Strings.JsParseNumber: ECMA-262 lets `parseInt` replace every digit after the 20th significant one by 0 before rounding. The model rounds the exact value; the two can differ only for inputs of more than 20 digits that lie next to a rounding tie.
- Strings.JsParseIntOfIntToString: the text read is the integer's plain decimal digits, not JavaScript's `String(n)`. `String(n)` switches to exponent notation from 10^21 (`1e+21`), and `parseInt` then stops at the `e`. The rotate dialog reads what the user types, so the plain digits are the input that matters.
- AppShell.EditorSave: the page editor declares an `onSave` prop but never calls it, and reads only `pdfPath` from its props (src/components/PDFEditor.tsx:16-19). So `handleEditorSave` is wired up in src/App.tsx:208 but unreachable from the interface. It is modelled as written, as the handler the application would run if the editor called it.
- Unicode: whitespace is the ASCII whitespace of each runtime (for Python, the six common characters and U+001C..U+001F), case folding is ASCII only, and lengths count characters, not UTF-16 units. PdfSecurity.Decode maps each non-ASCII byte to U+FFFD rather than decoding multi-byte UTF-8 sequences. Only the ASCII version field depends on it.
- The locale date format of the history panel (FileHistory.FormatDate returns a `LocaleDate` marker).
- The viewer's dark mode, local storage, scrolling, and the image scale parameter.
- PdfViewer.RotateView: requires rotation ≥ −90. The viewer's rotation starts at 0 and only this handler changes it, so it is never negative.
- The editor's clipboard copy, metadata tabs and `saveDocumentToStorage`. They call backend plugins and compute nothing that is checked. (`saveDocumentToStorage` builds its record without store times, like the document library, so it would be refused the same way.)
- The command layer's wording around an argument error: the model reports the field reader's message, ``missing field `created_at` ``, without the prefix that names the argument and the command.
- Toast expiry: toasts are recorded with their duration, and their dismissal is a plain event.
- `merge_pdfs`, `add_watermark`, `encrypt_pdf`, `decrypt_pdf`, thumbnail and page-image generation in the Python editor script, and the whole converter script. These are library calls.
- The toolbar and tools panel, the uploader, and the UI kit. They hold only dialog and backend sequencing.

## Findings

| source | as written | input that shows it | evidently intended | confidence | as-written member | corrected member |
|---|---|---|---|---|---|---|
| src/App.tsx:36 | The name is the last piece after splitting on backslashes. Splitting on `/` is tried only when that piece is empty, so a path with no backslash is returned whole. The same idiom appears in the document library and the editor. | `/home/u/a.pdf` is recorded with the name `/home/u/a.pdf` | the text after the last separator of either kind: `a.pdf` | high; not executed | AppShell.SlashPathRecordedWhole | AppShell.FileNameShape |
| src/components/DocumentManager.tsx:79-90 | The record sent to `save_document` has no `created_at` or `updated_at`; the frontend type marks both optional (src/types/index.ts:55-56). The backend's record requires both as plain strings (src-tauri/src/database.rs:21-22), so the command refuses the argument and the catch branch shows the failure alert. | any chosen file, e.g. `C:\docs\a.pdf`: "Failed to add document: … missing field `created_at`", store unchanged | the document is stored; the store sets both times itself on a save | high; not executed | DocumentManager.AddDocumentRefused | DocumentManager.AddedDocumentIsStored |

The recent-files list and the new-document record are modelled as written, with `Basename`, because that is what the application stores. `AppShell.FileName` is the corrected definition. `AppShell.FileNameShape` proves the intended property of it, and `AppShell.FileNameOnWindowsPaths` shows the two agree on the paths the idiom does handle.

The add-document flow is modelled as written by `DocumentManager.AddDocument` applied to `DocumentManager.NewDocument`. `DocumentManager.WithStoreTimes` is the correction: it sends both store times, and `DocumentManager.AddedDocumentIsStored` proves the document is then stored.
