# notes_detect, modelled in Dafny

notes_detect is a small Streamlit app that compares a teacher's notes with a
student's. Each side uploads one or more files (PDF, image or plain text). The
app extracts the text of every file. It appends the texts of one side, each
followed by a newline, in upload order. It then diffs the two texts line by
line with `difflib.ndiff` and turns the diff into a report:

- a fixed header `"\n--- Comparison Result ---\n"`;
- one "Missing in student notes" entry per `- ` line;
- one "Extra/Incorrect in student notes" entry per `+ ` line;
- one "Possible spelling issue indicator" entry per `? ` line;
- all of it joined with `"\n"`.

This project models that logic and proves its properties:

- `Text` (text.dfy): lower-casing, `str.split` on one character, `str.join`, and
  `str.splitlines` on `'\n'`. Split and join are proved inverse to each other.
- `Extract` (extract.dfy): the extension of a file name and the if/elif dispatch
  of `extract_text_from_file`. The three extractors (PDF, OCR, UTF-8) are opaque
  function parameters. `None` from an extractor stands for the exception it raises.
- `Compare` (compare.dfy): `compare_notes`. The loop that classifies the diff
  stream is a method proved against a specification function. `difflib.ndiff` is a
  parameter producing tagged operations (Keep / Delete / Insert / Hint). Each
  operation is rendered as the line ndiff yields. The reconstruction contract of an
  edit script (what `difflib.restore` returns) is a predicate. Lemmas use it to
  relate the report to the two line sequences.
- `DocumentSet` (document_set.dfy): the two accumulation loops, as a method proved
  against a fold. It also holds the "Compare Notes" action, which checks for
  uploads, reads the teacher's files, then the student's, and compares.
- `Wrappers` (wrappers.dfy): `Option` and `Result`.

A file whose extension is not one of `pdf`, `jpg`, `jpeg`, `png` or `txt`
contributes the empty text. An extractor that raises is not caught: a corrupt
PDF, an unreadable image or a text file that is not UTF-8 aborts the whole
comparison. `ExtractText` returns `Err` in that case, and `CombineTexts` and
`RunComparison` stop at the first such file.

## Model

| member | source | states |
|---|---|---|
| Text.Split | notes_detect.py:34 | `str.split(".")`: at least one part, and no part contains the separator |
| Text.LowerChar | notes_detect.py:34 | lower-casing turns `A`-`Z` into the matching `a`-`z` and leaves every other character as it is; so no upper-case letter is left and dots stay dots |
| Text.Lower | notes_detect.py:34 | `str.lower` on ASCII letters: same length, each upper-case letter replaced by its lower-case form at the same position, every other character unchanged |
| Text.Join | notes_detect.py:61 | `sep.join(parts)` begins with the first part and is as long as all parts plus one separator fewer than there are parts |
| Text.JoinSplit | notes_detect.py:34 | joining the parts of a split with the separator gives back the original string |
| Text.SplitJoin | notes_detect.py:61 | splitting a `join` of separator-free parts gives back the parts (the inverse of `JoinSplit`) |
| Text.SplitAround | notes_detect.py:34 | a separator splits a string into the parts before it followed by the parts after it |
| Text.JoinAppend | notes_detect.py:61 | joining one more part appends the separator and that part |
| Text.LastPart | notes_detect.py:34 | `split(sep)[-1]` has no separator and is the whole string or what follows its last separator |
| Text.LowerIdempotent | notes_detect.py:34 | lower-casing an already lower-cased name changes nothing |
| Text.LowerIgnoresCase | notes_detect.py:34 | two names that differ only in the case of their letters lower-case to the same string |
| Text.SplitLines | notes_detect.py:48-49 | no line of `splitlines` contains a line boundary |
| Text.SplitNoSeparator | notes_detect.py:34 | a string without the separator splits into itself alone |
| Text.SplitLinesTerminated | notes_detect.py:48-49 | a newline at the end of a text adds no empty last line |
| Text.SplitLinesUnterminated | notes_detect.py:48-49 | a text that does not end in `"\n"` splits into all the parts between its `"\n"` boundaries, the last one included |
| Text.SplitLinesJoin | notes_detect.py:48-49 | the lines joined with `"\n"`, plus a final `"\n"` exactly when the text ended in one, give back the text: nothing is lost or reordered |
| Text.SplitLinesOfTerminatedLines | notes_detect.py:48-49 | newline-free lines, each followed by `"\n"`, split back into exactly those lines |
| Extract.Extension | notes_detect.py:34 | the extension is lower-case, has no dot, and is the whole lower-cased name or what follows its last dot |
| Extract.KindOf | notes_detect.py:36-44 | an extension has no extractor exactly when it is not one of pdf, jpg, jpeg, png, txt (the list the upload widgets accept) |
| Extract.ExtractText | notes_detect.py:32-44 | a file whose extension is not accepted yields `""` and never fails; otherwise only the chosen extractor can fail, and the error names it |
| Extract.ExtensionIs | notes_detect.py:34-40 | for a dot-free `e`, the extension is `e` exactly when the lower-cased name is `e` or ends in `"." + e` (both directions) |
| Extract.ExtensionIgnoresCase | notes_detect.py:34 | the extension of a name and of its lower-cased form agree, so the dispatch is case-insensitive |
| Extract.ExtensionCaseInsensitive | notes_detect.py:34-44 | two names that differ only in letter case have the same extension, so they take the same branch of the dispatch |
| Extract.UpperCaseExtension | notes_detect.py:34-36 | `"notes.PDF"` has extension `pdf` and goes to the PDF extractor |
| Extract.ExtractTextByName | notes_detect.py:32-44 | a name with extension pdf goes to the PDF extractor; jpg, jpeg and png go to OCR; txt goes to UTF-8 decoding; any other name yields `""` and never fails |
| Compare.EntryOf | notes_detect.py:54-59 | a diff line yields one entry if it starts with `- `, `+ ` or `? `, and none otherwise |
| Compare.Render | notes_detect.py:50 | the line ndiff yields is a two-character tag followed by the text; `- ` marks exactly Delete, `+ ` exactly Insert, `? ` exactly Hint |
| Compare.Rendered | notes_detect.py:50 | the diff stream has one rendered line per operation, in operation order |
| Compare.ClassifyDiff | notes_detect.py:52-59 | the results list is the header followed by the entries of the diff stream, and its length is 1 + the number of `-`/`+`/`?` lines |
| Compare.CompareNotes | notes_detect.py:47-61 | the report is the header and one annotated entry per non-Keep operation of the diff of the two texts' lines, joined by `"\n"`; it starts with the header, and it is exactly the header iff every operation is a Keep |
| Compare.EntriesCount | notes_detect.py:53-59 | there is exactly one entry per `- `, `+ ` or `? ` line |
| Compare.EntriesAppend | notes_detect.py:53-59 | the entries of two consecutive stretches of the diff are those of the first followed by those of the second |
| Compare.EntriesAt | notes_detect.py:53-59 | the k-th flagged diff line gives the k-th entry: Missing, Extra/Incorrect or spelling label, followed by the line without its two-character tag; entries keep the stream's order |
| Compare.UnflaggedContributeNothing | notes_detect.py:53-59 | lines with any other prefix (the `"  "` common lines) produce no entry |
| Compare.ReportStartsWithHeader | notes_detect.py:52-61 | the report always begins with `"\n--- Comparison Result ---\n"` |
| Compare.ReportIsHeader | notes_detect.py:52-61 | the report is exactly the header if and only if there are no entries; otherwise it is the header, one `"\n"`, and the entries joined by `"\n"` with no trailing separator |
| Compare.ClassifyRendered | notes_detect.py:50-59 | classifying ndiff's lines by prefix gives Missing for Delete, Extra/Incorrect for Insert, spelling for Hint and nothing for Keep, in operation order |
| Compare.NoAnnotationsIffKeepOnly | notes_detect.py:50-61 | the report has no entries if and only if every diff operation is a Keep |
| Compare.Lines | notes_detect.py:50 | the lines of the selected operations, in order, at most one per operation |
| Compare.LinesAppend | notes_detect.py:50 | the lines picked from two consecutive stretches of a script are those of the first stretch followed by those of the second |
| Compare.ReportedLines | notes_detect.py:50-59 | the report's Missing entries are the Delete lines after the Missing label, and its Extra/Incorrect entries the Insert lines after theirs, in operation order |
| Compare.EntryLabel | notes_detect.py:54-59 | an entry starts with the Missing label exactly when its operation is a Delete, and with the Extra/Incorrect label exactly when it is an Insert |
| Compare.KeepOnlyRestoresSame | notes_detect.py:50 | an edit script of Keeps only restores the same lines on both sides |
| Compare.EditScriptsConcat | notes_detect.py:50 | edit scripts compose: scripts for two pairs of hunks, concatenated, restore the concatenated reference and candidate |
| Compare.NoEntriesMeansSameLines | notes_detect.py:47-61 | if the report is only the header, the two texts have the same lines |
| Compare.RestoredSizes | notes_detect.py:50 | the reference side has as many lines as Keep and Delete operations; the candidate side as many as Keep and Insert operations |
| Compare.MissingMinusExtra | notes_detect.py:50-59 | in the report of an edit script, the Missing entries and the kept lines number the reference's lines, the Extra/Incorrect entries and the kept lines the candidate's; so Missing entries outnumber Extra/Incorrect ones by the difference |
| Compare.DisjointSidesAllReported | notes_detect.py:50-59 | when the two sides share no line, nothing is kept: the report's Missing entries are every reference line and its Extra/Incorrect entries every candidate line, each after its label, in order |
| Compare.DeletedAndInserted | notes_detect.py:50 | when the two sides share no line, the Delete lines are the reference and the Insert lines the candidate |
| Compare.EmptySide | notes_detect.py:50-59 | with an empty side, the report's Missing and Extra/Incorrect entries are the other side's lines, each after its label |
| DocumentSet.Combine | notes_detect.py:87-89 | the accumulated text is as long as all texts plus one `"\n"` per file, and ends with the last text and `"\n"` |
| DocumentSet.ExtractAll | notes_detect.py:88-89 | a successful extraction gives one text per file; a failure needs at least one file |
| DocumentSet.CombineTexts | notes_detect.py:87-89 | the loop's text is the fold of each file's extracted text followed by `"\n"`, in upload order, starting from `""`; or the error of the first file whose extractor raised |
| DocumentSet.ExtractAllKeepsFirstError | notes_detect.py:88-89 | once a file's extraction has raised, later files do not change the outcome |
| DocumentSet.ExtractAllTexts | notes_detect.py:88-89 | extraction succeeds iff every file's does, and then there is one text per file, each its file's, in upload order |
| DocumentSet.ExtractAllFirstError | notes_detect.py:88-89 | a failed extraction reports the error of the first file whose extractor raised; every file before it was read |
| DocumentSet.CombineIsJoin | notes_detect.py:87-89 | the accumulated text is `"\n".join(texts) + "\n"`, or `""` for no files |
| DocumentSet.SplitAfterCombine | notes_detect.py:87-94 | the line split of the accumulated text, continued by more text, is the files' lines followed by that text's lines |
| DocumentSet.CombinedLines | notes_detect.py:87-97 | the lines compare_notes sees are each file's lines, file after file in upload order; a file that yielded `""` contributes one empty line |
| DocumentSet.RunComparison | notes_detect.py:81-97 | no report without files on both sides; with them, the report is the classified diff of the teacher's file lines against the student's, or the error of the first unreadable file, the teacher's side first |

## Left out

- PDF text extraction (`fitz`), OCR with its image preprocessing (`PIL`, `cv2`,
  `pytesseract`) and UTF-8 decoding are opaque functions from bytes to text or to
  failure. So is the `.strip()` the PDF and OCR extractors apply to their output.
  These are foreign libraries.
- The internals of `difflib.ndiff` are a parameter: the alignment, the junk
  heuristics and the similarity ratio that decides when a `? ` hint line is
  emitted. Properties that depend on them are not stated. These are: a text
  compared with itself gives only Keeps; a near-identical pair of lines gets a
  hint; the hint text is a marker line with a trailing newline. The lemmas about
  the report assume only that the script restores both sides, as `difflib.restore`
  does.
- Text.SplitLines: splits on `'\n'` only. Python's `splitlines` also breaks at
  `"\r\n"`, `"\r"` and other Unicode line boundaries.
- Text.Lower: lower-cases ASCII letters only. Python's `str.lower` covers all of
  Unicode. No non-ASCII name can lower-case to one of the five supported
  extensions except through its ASCII letters, so the dispatch is the same.
- The `st.warning` shown for an unsupported file, the Tesseract binary path, and the
  rest of the Streamlit page are user interface. That includes the upload widgets
  and their type filter, the spinner, the text area and the download button.
- The bytes of an upload are given as a value. Reading them from the upload stream
  is not modelled.
