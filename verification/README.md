# PDF translation pipeline and batch helpers of KAYY_APP, in Dafny

This project models the part of `scrip.py` (a Streamlit toolbox for PDFs, images and
spreadsheets) that holds real logic. The rest of that file is UI and library glue.

**The PDF-to-Word translation feature**, stage by stage:

1. **Extraction** (`PdfTranslate.ExtractLines`): every page's text is split on `"\n"`, and
   the page marker `---HALAMAN BARU---` is appended after each page.
2. **Line merger** (`Layout.PreprocessTextForLayout`, i.e. `preprocess_text_for_layout`):
   - lines that are blank after `strip()` become `""`;
   - short lines (under 100 characters, not ending in `.`) are glued with `" | "`;
   - other lines flush the pending run and stand alone;
   - every entry then gets one `replace("  ", " ")` pass and a `strip()`.
3. **Content check**: the feature stops (`EmptyContent`) when only markers and `""` remain.
4. **Chunk packer** (`Chunking.PackParagraphs`): the `current_chunk` loop that builds the
   pieces handed to the translator (`CHUNK_SIZE` 4500).
5. **Translation pass** (`Reconstruct.TranslateParts`):
   - markers and `""` are copied as they are;
   - every other piece goes to the translator, and the result is stripped;
   - the translator is a function parameter that may fail (`None`), and the first failure
     stops the feature (`TranslationFailed(i)`).
6. **Rebuild** (`Reconstruct.BuildDocument`): the parts are joined with `"\n\n"`, split again,
   and each segment is stripped. A segment equal to the marker becomes a page break, other
   non-empty text becomes a paragraph, and `""` adds nothing. The Word document is modelled
   as the list of these events.

`PdfTranslate.TranslatePdf` runs the stages in order and is proved equal to
`PdfTranslate.TranslatePdfSpec`.

**The small helpers**:

- the folder-name and column-name cleaners;
- page-order parsing for the reorder tool, and the delete-page filter;
- sequential image and PDF names `prefix_NNN.ext`;
- renaming uploads by a `nama_lama`/`nama_baru` table (images and PDFs);
- batch locking by a filename/password table;
- filing PDFs into folders by a check-up (MCU) table or a filename/folder table;
- extracting a ZIP archive.

Each table tool walks the rows in order. It fills an output map, where a later write under
the same name replaces an earlier one, and a not-found list. The model states the result
through a per-row outcome and two folds, `Batch.OutMap` and `Batch.Missing`.

**How the loops are modelled.** Each loop of the source is a `method` with a `while` loop,
and its `ensures` ties the result to a function defined by recursion over the input prefix.
The properties are proved as lemmas about those functions.

**Python semantics made explicit:**

- `strip()` removes the ten ASCII characters for which `isspace()` holds: space, tab through
  carriage return, and the separators U+001C through U+001F.
- `lower()` and `isdigit()` are ASCII.
- `replace` is one left-to-right pass over non-overlapping matches.
- `split` and `join` follow Python exactly.
- `os.path.splitext` follows the POSIX rule: the dot must lie in the last component and
  must not be its leading character.
- `str()` of a blank spreadsheet cell is `"nan"`.
- A dict comprehension keeps the last value written under a key.

**Where the code departs from what it evidently means to do, the model follows the code:**

- The merger gives the page marker no special treatment, so it is glued to short neighbours.
- The packer appends the stripped buffer after every text paragraph, and never flushes the
  buffer after the loop.
- Its overflow test adds 4, although only `"\n\n"` (2 characters) follows a paragraph.
- On overflow, at markers and at blank entries it flushes the unstripped buffer, which keeps its trailing `"\n\n"`.
- The rebuild splits the joined text, not each chunk.

The two consequences are recorded under "## Findings".

## Model

| member | source | states |
|---|---|---|
| Layout.PreprocessTextForLayout | scrip.py:153-182 | the merger loop computes `Merge(lines)`, the prefix-recursive definition of the loop followed by the closing clean-up |
| Layout.MergeBlankEntries | scrip.py:159-164 | the merged list holds exactly one `""` per input line that is blank after stripping, and every other entry is non-empty with no surrounding whitespace |
| Layout.MergeNoLonger | scrip.py:153-182 | the merged list is never longer than the input |
| Layout.MergeAtBoundary | scrip.py:172-177 | a long line or one ending in `.` cuts the input in two that merge independently, and appears alone (tidied) between them, in input order |
| Layout.MergeShortRun | scrip.py:166-171 | a run of short lines becomes one entry: their stripped texts joined in order by the bar separator (space, bar, space), then tidied |
| Layout.MergeExample | scrip.py:166-182 | `["Name:","John","Age:","30","",S]` with a long or full-stop sentence S merges to the bar-joined entry `Name:`, `John`, `Age:`, `30`, then `""`, then S |
| Layout.MarkerJoinedExample | scrip.py:166-171 | `["a", marker, "b"]` merges to one entry: `a`, the marker and `b` joined by the bar separator |
| Layout.MarkerAbsorbedInRun | scrip.py:166-171 | a marker inside a run of two or more short lines leaves no entry equal to the marker |
| Layout.MarkerAloneBetweenBoundaries | scrip.py:158-182 | a marker whose neighbours are boundary lines (or the ends) survives as its own entry |
| Layout.MergeNewlineFree | scrip.py:153-182 | newline-free lines merge to newline-free entries |
| Layout.TidyAllClean | scrip.py:182 | the clean-up keeps blank entries blank and clean entries clean, one for one |
| Text.StripEmpty | scrip.py:159 | `strip()` gives `""` exactly when the line is all whitespace |
| Text.SplitJoin | scrip.py:705-712 | splitting on the separator undoes joining when no part holds the separator's first character |
| Text.JoinSplit | scrip.py:705-712 | joining the pieces of a split gives the text back |
| Digits.DecimalValue | scrip.py:842-854 | `str(n)` is a digit string that `int()` reads back as n, with no leading zero unless n is 0 |
| Digits.Pad3Value | scrip.py:446 | `f"{n:03d}"` is a digit string reading back as n, of length at least 3 and exactly 3 below 1000 |
| Digits.Pad3Injective | scrip.py:446 | different numbers pad to different strings |
| PdfTranslate.ExtractLines | scrip.py:641-650 | the extraction loop computes `PageLines`: each page's lines followed by the marker, with a page without text read as `""` |
| PdfTranslate.PageLinesShape | scrip.py:641-650 | the extracted lines hold no newline and at least one marker per page |
| PdfTranslate.NoContentIff | scrip.py:653-656 | the joined text is blank after stripping exactly when every merged entry is the marker or `""` |
| PdfTranslate.TranslatePdf | scrip.py:636-718 | the feature's body, stage by stage, computes `TranslatePdfSpec` |
| PdfTranslate.TranslatePdfEmpty | scrip.py:652-657 | the feature stops with `EmptyContent` exactly when the merged entries are all markers or `""` |
| PdfTranslate.TranslatePdfFailure | scrip.py:695-703 | `TranslationFailed(i)` names a piece whose translation fails, and every piece before it translates |
| PdfTranslate.TranslatePdfEvents | scrip.py:712-718 | every paragraph the document gets is non-empty, not the marker, and without surrounding whitespace |
| PdfTranslate.IdentityPageBreaks | scrip.py:641-718 | with the identity translator, the document has as many page breaks as the merged list has entries equal to the marker |
| PdfTranslate.IdentityOnStripped | scrip.py:695-703 | the identity translation gives back pieces that are markers, `""` or already stripped |
| PdfTranslate.RebuildJoined | scrip.py:705-718 | rebuilding newline-free segments joined by `"\n\n"` gives exactly their own events |
| PdfTranslate.PartsSegments | scrip.py:705-712 | parts that are markers, `""` or runs of paragraphs split back into paragraphs with the same number of markers |
| PdfTranslate.RebuildBreaks | scrip.py:712-718 | rebuilding such parts gives one page break per part equal to the marker |
| Chunking.PackParagraphs | scrip.py:664-690 | the packer loop computes `Pack(paragraphs)` |
| Chunking.PackChunksFit | scrip.py:682-690 | every piece is the marker, `""`, at most 4498 characters, or a single paragraph with or without its `"\n\n"`; nothing is split or truncated |
| Chunking.PackCurrentFits | scrip.py:682-687 | the buffer is always within 4498 characters or one paragraph followed by `"\n\n"` |
| Chunking.PackSentinels | scrip.py:668-680 | the pieces equal to the marker or `""` are exactly those of the paragraph list, in order |
| Chunking.PackSentinelCounts | scrip.py:668-680 | as many markers and as many `""` go out as came in |
| Chunking.PackShape | scrip.py:667-690 | every other piece is consecutive whole text paragraphs joined by `"\n\n"`, possibly with a final `"\n\n"` |
| Chunking.PackBuffer | scrip.py:682-687 | the buffer is empty or holds a run of whole text paragraphs ending at the last one read, each followed by `"\n\n"` |
| Chunking.PackGrowing | scrip.py:682-690 | for clean text paragraphs that fit, piece i is the first i+1 paragraphs joined, and the buffer holds them all |
| Chunking.PackTwo | scrip.py:682-690 | two fitting paragraphs p1, p2 give the pieces `"p1"` and `"p1\n\np2"` |
| Reconstruct.TranslateParts | scrip.py:695-703 | the translation loop computes `TranslateAll`, stopping at the first failing piece |
| Reconstruct.TranslateAllOk | scrip.py:695-703 | the pass succeeds exactly when every piece translates; then it keeps the length and translates piece by piece |
| Reconstruct.TranslateAllErr | scrip.py:695-703 | on failure the reported index is the first piece whose translation fails |
| Reconstruct.TranslateKeepsSentinels | scrip.py:695-701 | markers and `""` are copied to the same index, and every other part is stripped |
| Reconstruct.BuildDocument | scrip.py:712-718 | the rebuild loop computes `Rebuild(parts)` |
| Reconstruct.EventsGood | scrip.py:712-718 | no event is an empty, padded or marker paragraph, and there are no more events than segments |
| Reconstruct.RebuildGood | scrip.py:705-718 | the same holds for the rebuild of any parts |
| Reconstruct.EventsOfClean | scrip.py:712-718 | for clean segments, page breaks equal the markers and events equal the segments minus the `""` |
| Intended.RepeatedParagraphs | scrip.py:689-690 | as written: under the identity translator, n fitting paragraphs come out as the document of the prefixes, n(n+1)/2 paragraphs |
| Intended.RepeatedParagraphsExample | scrip.py:682-690 | as written: `["Hello.","World."]` gives the paragraphs Hello., Hello., World. |
| Intended.PageBreaksLost | scrip.py:644-652 | as written: two one-line pages give a document with no page break |
| Intended.PackFixedJoin | scrip.py:682-690 | corrected packer: its pieces, joined, are the paragraphs joined, so nothing is lost or repeated |
| Intended.PackFixedFit | scrip.py:682-690 | corrected packer: every piece is the marker, `""`, at most 4498 characters, or a single paragraph stripped, the same bound as for the packer as written |
| Intended.PackFixedIdentity | scrip.py:682-718 | corrected packer: the identity translation keeps its pieces, and the rebuild gives exactly the paragraphs' own events |
| Intended.FixedPipelineIdentity | scrip.py:641-718 | both corrections: the document is the events of the per-page merged entries, with at least one page break per page |
| Intended.MergePagesShape | scrip.py:641-652 | corrected merger: entries are clean and newline-free, with a marker per page |
| Pages.DefaultOrderParses | scrip.py:842-854 | the field's initial value `"1, 2, ..., n"` parses back to 1..n |
| Pages.ReorderPages | scrip.py:854-864 | the range error occurs exactly when a parsed number is outside 1..pages; otherwise output page k is page `ns[k]` |
| Pages.DefaultOrderInRange | scrip.py:842-864 | with the initial value the tool gives the pages back in order |
| Pages.DeletePage | scrip.py:940-942 | every page except the given 1-based one, or all pages when no page has that number |
| Naming.CleanFolderNameSafe | scrip.py:184-186 | the cleaned name holds no `/` or `\`, has the stripped length, is empty only for blank input, and is idempotent |
| Naming.CleanColumnNameShape | scrip.py:150 | a cleaned column name holds only lower-case word characters and is no longer than the original |
| Naming.CleanColumnNameFixed | scrip.py:150 | a clean name is left unchanged, so cleaning is idempotent |
| Naming.SplitExtParts | scrip.py:435 | `splitext` gives root + ext = the name, with ext `""` or a dot-led extension |
| Naming.ExtOfAppend | scrip.py:500-502 | a valid extension put after an ordinary name is split off again |
| Naming.ImageTargetExt | scrip.py:500-503 | a new name with an extension is kept; one without takes the old file's extension |
| Naming.PdfTargetEnds | scrip.py:778-779 | the PDF target ends in `.pdf` in some case, adds at most `.pdf`, and is its own target |
| Naming.SequentialNameInjective | scrip.py:446 | two names with one prefix are equal only for the same number and extension |
| Naming.SequentialImageNamesDistinct | scrip.py:427-446 | an empty prefix is refused; otherwise there is one name per upload, all distinct |
| Naming.SequentialPdfNamesDistinct | scrip.py:809-817 | an empty prefix is refused; otherwise names are distinct and end with `.pdf` |
| Batch.FileMap | scrip.py:490 | every uploaded name is a key of the file map |
| Batch.FileMapLast | scrip.py:490 | each key is an upload's name, holding the content of the last upload with that name |
| Batch.OutMapKeys | scrip.py:503 | the output map holds exactly the names some row writes |
| Batch.LastWrite | scrip.py:503 | the file under a name is that of the last row writing the name |
| Batch.MissingMembers | scrip.py:505 | the not-found list holds exactly the names some row reports missing |
| Batch.RenameByTable | scrip.py:484-505 | refuses a table without both `nama_lama` and `nama_baru`; otherwise it computes the output map and not-found list of the rows (images and PDFs) |
| Batch.RenameSource | scrip.py:494-503 | each stored file comes from the last row whose old name is uploaded and whose target is that name |
| Batch.RenameComplete | scrip.py:494-505 | every row naming an upload is stored under its target; the not-found names are exactly the old names not uploaded |
| Batch.RenamePdfNames | scrip.py:776-780 | every file stored by the PDF rename ends in `.pdf` in some case |
| Batch.BatchLock | scrip.py:1224-1255 | the lock loop computes the output map and not-found list of the rows |
| Batch.LockResult | scrip.py:1244-1255 | every output is `locked_` plus an uploaded name, holding that file and a non-empty password; every missing name is non-empty and not uploaded |
| Batch.LockComplete | scrip.py:1244-1255 | every row whose file name and password are non-empty is locked under `locked_` plus its name when that file was uploaded, and its name is reported missing when it was not |
| Batch.LockFieldsNamed | scrip.py:1232-1237 | when t is the first column whose lower-cased name is `filename` or `nama_file`, and p the first whose lower-cased name is `password` or `kata_sandi`, the row's fields are its stripped cells under t and p, wherever those stand |
| Batch.LockFieldsPositional | scrip.py:1232-1240 | when no column is named for the file name, or none for the password, the fields are the stripped cells of the first two columns, and a table with fewer than two columns gives none |
| Batch.OrganiseByTable | scrip.py:1428-1465 | refuses tables with neither column set; otherwise it computes the output map and not-found list in the chosen mode |
| Batch.McuRow | scrip.py:1437-1447 | a check-up row files the first upload, in upload order, whose name starts with the number, under dept/position; otherwise it reports the number |
| Batch.McuFolderParts | scrip.py:1439-1440 | the department and position folders hold no `/` |
| Batch.BlankNumberTakesFirst | scrip.py:1438-1445 | a row whose number strips to `""` files the first upload, whatever its name |
| Batch.FolderRow | scrip.py:1455-1461 | a folder row files the named upload under its cleaned folder, or reports the name |
| Batch.ExtractArchive | scrip.py:1357-1359 | the extraction loop computes the output map of the entries |
| Batch.ExtractedFiles | scrip.py:1357-1359 | exactly the entries whose names do not end in `/` are extracted, each with its own content |

## Left out

- The Streamlit UI, session state, menus, CSS, progress bars and previews are not modelled; they are display only.
- File I/O is not modelled: reading PDFs, Word, images, Excel/CSV and ZIP, and writing them.
  - Pages are opaque values, and a page's text layer is an `Option<string>`.
  - Uploads are `(name, content)` pairs.
  - Tables are a list of column names plus rows mapping names to cells.
  - An archive is its list of entry names plus a `read` function.
- The two PDF readers (pdfplumber or PyPDF2) are modelled once, because their loops are identical.
- The translator is a function parameter. The network call, language codes and the 0.1 s sleep between calls are not modelled.
- The `replace(" | ", " | ")` at scrip.py:701 is the identity and is omitted.
- Cells are text or blank (`"nan"`). pandas conversion of numbers, dates and booleans to text is not modelled, and neither are duplicate column labels.
- Whitespace, `lower()` and `isdigit()` are ASCII only. Non-ASCII whitespace (such as U+0085 and U+00A0), case mapping and digits are not modelled.
- Batch.BatchLock: stores each uploaded file with its password instead of an encrypted copy, because the PDF re-writing and `try_encrypt` are library calls.
- Pages.ReorderPages: does not model the PdfWriter; its result is the list of chosen pages.
- The image conversion (format, quality) of the sequential image tool is not modelled, only the names it produces.
- The MCU dashboard, watermarking, rotation, compression and the other tools outside these helpers are not part of this model.

## Findings

| source | as written | input that shows it | evidently intended | confidence | as-written member | corrected member |
|---|---|---|---|---|---|---|
| scrip.py:689-690 | the stripped buffer is appended after every text paragraph and never cleared there, and the buffer is not flushed after the loop | paragraphs `["Hello.", "World."]` with the identity translator give the paragraphs Hello., Hello., World. | each paragraph is sent once, in whole-buffer pieces, with a final flush | not executed | Intended.RepeatedParagraphs | Intended.PackFixedIdentity |
| scrip.py:644 | the page marker goes through the merger as an ordinary short line and is glued to short neighbours with the bar separator | two pages whose text is `"a"` and `"b"` give a document with no page break | every page ends with a page break in the document | not executed | Intended.PageBreaksLost | Intended.FixedPipelineIdentity |
