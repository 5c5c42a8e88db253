# simplepub.py structural recovery, in Dafny

This project models the part of simplepub.py that recovers a novel's
structure from a plain-text forum transcript: the `RawBook` class of
`book.py` and the contents serializer of `ui.py`. It proves properties of
that model.

`RawBook` keeps the decoded text as a fixed sequence of lines and fills in
its fields by scanning them:

- **Source type.** The first of lines 0..19 that holds "tsdm" or
  "lightnovel" sets it.
- **Metadata, for a detected type.** The title is the stripped first
  line. Source, language and subject are constants. Author, illustrator
  and translator come from label lines of the form `label：value`.
- **Contents.** `initContents` finds the "CONTENTS" marker in lines 0..99.
  It then reads one `Chapter` per line until the first whitespace-only
  line. A line that begins with a tab gets one level per tab.
- **Chapter locations.** `initChaptersIndex` finds each heading with
  `findLine`, searching from the end of the contents block. For a
  detected type, it flags a title illustration when the line before the
  found heading is not whitespace-only.
- **Illustrations.** Image file names of the text's directory are
  collected. Each one is placed at the first line that holds its name
  without directory and extension, inside a given prefix and suffix.

The `ui.py` dialog shows the contents as tab-indented text, one chapter
per line. When the dialog is confirmed, it hands that text back to
`setContents`.

## Modules

| file | module | what it holds |
|---|---|---|
| `wrappers.dfy` | `Wrappers` | `Option`, for "not found" and for a raised exception |
| `pytext.dfy` | `PyText` | Python `str` behaviour the code relies on (see below) |
| `pypath.dfy` | `PyPath` | `posixpath.splitext`/`basename` for image names, and the image-extension filter |
| `book_rules.dfy` | `BookRules` | The line rules as pure functions, with lemmas about them |
| `book.dfy` | `Book` | The `Chapter` and `RawBook` classes, with the source's loops as methods proved against `BookRules` |
| `ui.dfy` | `Ui` | The serializer as a method, and the round trip through `setContents` |

`PyText` covers:

- the whitespace set of `isspace`/`strip`, which includes U+3000;
- `"".isspace()` being false;
- the line boundaries of `splitlines()`;
- `split(sep)`;
- `in`, `startswith` and `endswith`;
- `lstrip('\ufeff')`.

The line rules in `BookRules` are:

- detection;
- the label scan;
- `findLine`;
- the contents block and the level rule;
- Python's negative indexing;
- the illustration map.

Python exceptions become results. Pure functions return `None`. Methods
return `ok == false` and state the partial effect as Python leaves it.

### Behaviour of the code worth knowing

- **Enum alias.** `RawTextType.lk` has the same value as `tsdm`, so a
  Python `Enum` makes it an alias (`book.py:10-13`). There are only two
  types. For a detected type the source is always "天使動漫"; the "輕之國度"
  branch of `book.py:91` is never taken.
- **Title.** It is `lines[0].strip()`, set as soon as any line is not
  whitespace-only. It is not the first non-blank line (`book.py:88-90`).
- **Level.** A line that starts with a tab gets one level per tab
  anywhere in it, not only the leading ones (`book.py:118-121`).
- **End of the contents block.** Only a non-empty whitespace-only line
  ends it, because `"".isspace()` is false. An empty line is read as a
  chapter with an empty heading.
- **Reading past the end.** Running off the last line raises
  `IndexError` (`book.py:114`).
- **Block bounds.** `contentsIndex <= afterContentsIndex` holds only after
  an `initContents` that finished. A run that raises has already set
  `contentsIndex`.
- **Heading not found.** The lookup returns -1, and the illustration test
  then reads `lines[-2]`. A heading found at line 0 makes it read
  `lines[-1]`. With only one line, the -1 case raises (`book.py:133`).
- **Label without a colon.** A label line without the full-width colon
  makes `split("：")[1]` raise, which aborts `__init__`. This happens only
  while that line's field is still empty (`book.py:97-102`).
- **Label value.** The value is the second piece of `split("：")`, the
  text between the first colon and the second one (or the end of the
  line). It is not the text after the last colon (`book.py:98`).
- **Empty label value.** A labelled line whose value strips to "" leaves
  the field empty, so a later label line can still fill it. The first
  label line does not always decide (`book.py:97`).
- **Author labels.** The author test names the same label "作者" twice.
- **Order in `__init__`.** It lists the illustrations before detecting
  the type.
- **Byte-order marks.** `lstrip('\ufeff')` removes every leading
  byte-order mark, not a single one (`book.py:65`).
- **No contents marker.** With no "CONTENTS" line in lines 0..99, the
  code does not return empty contents. It still reads chapters from line
  `min(100, len)`, and `contentsIndex` keeps its old value
  (`book.py:107-114`).
- **Default language.** Before detection, and for a text of no detected
  type, `language` is "en-US", not "" (`book.py:36`).
- **Contents are appended.** `initContents` appends the chapters it reads
  to the existing list instead of replacing it (`book.py:123`). Only
  `setContents` replaces the list (`book.py:179`).
- **Serializer.** Its final `strip()` also removes the first chapter's
  tabs. A first chapter below the top level comes back at level 0.
- **Serializer and odd headings.** Resubmitting unedited contents changes
  some chapters (`ui.py:43-47`, `book.py:171-178`):
  - A heading with an inner tab, after the first chapter and below the
    top level, comes back one level lower per inner tab: `"\tA\tB"` is
    read as `("A\tB", 2)`, written as `"\t\tA\tB"` and read back at
    level 3.
  - An empty heading last in the list is lost to the final `strip()`.
  - An empty first heading lets that `strip()` also remove the next
    chapter's tabs.

## Model

| member | source | states |
|---|---|---|
| `PyText.IsSpace` | book.py:89 | The whitespace set of `str.isspace` and `str.strip()`, including U+3000 |
| `PyText.IsLineBreak` | book.py:66 | The line boundaries of `str.splitlines()`; every one of them is whitespace |
| `PyText.IsSpaceLine` | book.py:89 | `line.isspace()`: a non-empty line made only of whitespace, so `"".isspace()` is false |
| `PyText.Contains` | book.py:191 | `sub in line`: `sub` occurs at some position of the line |
| `PyText.StartsWith` | book.py:191 | `line.startswith(prefix)` |
| `PyText.EndsWith` | book.py:191 | `line.endswith(suffix)` |
| `PyText.Strip` | book.py:122 | `strip()` never lengthens a string |
| `PyText.StripSpec` | book.py:122 | `strip()` returns a middle part of the line: everything it removes is whitespace, the ends it keeps are not, and the result is empty exactly when the line is all whitespace |
| `PyText.CountChar` | book.py:119-121 | The tab count is 0 exactly when the line has no tab, and never exceeds its length |
| `PyText.Split` | book.py:98 | `split("：")` gives at least one piece, a second piece exactly when the line holds the colon, and no piece holds the colon |
| `PyText.JoinSplit` | book.py:98 | The pieces of `split` joined with the separator are the original line |
| `PyText.SplitLines` | book.py:168 | `splitlines()` gives no lines exactly for the empty text |
| `PyText.SplitLinesHaveNoBreaks` | book.py:168 | No line that `splitlines()` returns holds a line boundary |
| `PyText.SplitLinesJoin` | book.py:168 | Lines without line boundaries, the last one non-empty, joined with "\n" are split back into the same lines |
| `PyText.StripBom` | book.py:65 | Removing leading byte-order marks keeps a suffix of the text, removes only marks, and leaves no mark in front |
| `PyText.BomIgnored` | book.py:65-66 | A text behind a byte-order mark gives the same line sequence as the text alone |
| `PyPath.LastIndexOf` | book.py:184 | `rfind` gives -1 or the position of the character with no later occurrence |
| `PyPath.BaseName` | book.py:184 | The base name holds no '/' |
| `PyPath.SplitExtRoot` | book.py:184 | `splitext(p)[0]`: a prefix of the path. It drops the text from the last '.' of the last component, only when a character other than '.' comes before that dot in the component |
| `PyPath.Stem` | book.py:184 | `basename(splitext(p)[0])`: the name an illustration is searched for |
| `PyPath.IsImageName` | book.py:162 | The listing filter: the name ends in ".png", ".webp" or ".jpg" |
| `PyPath.StemOfImage` | book.py:162-184 | A listed `name.png`, `name.webp` or `name.jpg` passes the image filter. When `name` has no '/' and at least one character other than '.', its key `dir/name.ext` is searched for as `name`. (For `.png` or `..png`, `splitext` keeps the whole name.) |
| `BookRules.LkIsTsdm` | book.py:10-13 | `lk` is the same value as `tsdm`, because Python's `Enum` makes a member with a repeated value an alias. The datatype `RawTextType` has only the two values `Default` and `Tsdm` |
| `BookRules.Head` | book.py:70 | `lines[0:n]` is the first `min(n, len)` lines |
| `BookRules.DetectType` | book.py:69-76 | Any detected type is `tsdm`, because `lk` is its alias |
| `BookRules.DetectTypeFindsMarker` | book.py:70-76 | A type is detected exactly when some scanned line holds "tsdm" or "lightnovel" |
| `BookRules.DetectionWindow` | book.py:70 | Detection depends only on lines 0..19: it succeeds exactly when one of them holds a marker |
| `BookRules.DetectedTextNotBlank` | book.py:88-90 | A detected text has a line that is not whitespace-only, so the title is always set from `lines[0]` |
| `BookRules.MarkerLineNotBlank` | book.py:71-74 | A line holding a type marker is not whitespace-only |
| `BookRules.LabelValue` | book.py:98 | `split("：")[1].strip()` raises exactly when the line has no colon; its value holds no colon |
| `BookRules.LabelValueBetweenColons` | book.py:98 | The label value is the text between the first colon and the second colon (or the end), stripped |
| `BookRules.FieldStep` | book.py:97-102 | One field for one line: it is assigned only while "" and only when the line holds one of its labels; `None` where the assignment raises |
| `BookRules.FieldScan` | book.py:96-102 | One field after the label loop, or `None` where it raised |
| `BookRules.LabelLine` | book.py:97-102 | One pass of the loop body: author, illustrator, translator in turn. A raise stops the pass and keeps the fields already assigned |
| `BookRules.LabelScan` | book.py:96-102 | The label loop over the window, stopping at the first raise |
| `BookRules.LabelScanStopsAtRaise` | book.py:96-102 | Once the label loop has raised, later lines change nothing |
| `BookRules.LabelScanByField` | book.py:96-102 | The loop finishes exactly when none of the three single-field scans raises, and each field then holds its own scan's result |
| `BookRules.FieldScanKeepsValue` | book.py:97 | A field that already holds a non-empty value is never overwritten, and its scan never raises |
| `BookRules.FieldScanStaysEmpty` | book.py:96-102 | A field stays "" when no line sets it; lines whose value strips to "" do not count |
| `BookRules.FieldScanFirstDecider` | book.py:96-102 | An empty field gets the value of the first labelled line whose value is not "", or raises if that line has no colon |
| `BookRules.LineMatches` | book.py:191 | The test of `findLine`: the line holds the substring, starts with the prefix and ends with the suffix |
| `BookRules.FirstMatch` | book.py:188-194 | The result is -1 or the first index at or after `start` whose line holds the substring, starts with the prefix and ends with the suffix. It is -1 exactly when no line from `start` on matches, including when `start` is past the end |
| `BookRules.PlainMatch` | book.py:191 | With empty prefix and suffix, a line matches exactly when it holds the substring |
| `BookRules.MarkerLine` | book.py:107-112 | The marker line is the first of lines 0..99 holding "CONTENTS"; there is none exactly when none of them holds it |
| `BookRules.ContentsStart` | book.py:107-112 | Reading starts within the text and within the first 100 lines |
| `BookRules.BlockEnd` | book.py:114 | The block end, if any, lies between the start and the last line |
| `BookRules.BlockEndIsFirstBlank` | book.py:114-125 | The block ends at the first whitespace-only line from the start on; there is no end exactly when no such line exists |
| `BookRules.Level` | book.py:117-121 | The level rule: the number of tabs in a line that starts with a tab, else 0. The level never exceeds the line's length, and is positive exactly when the line starts with a tab |
| `BookRules.ParseLine` | book.py:122 | The chapter of one contents line: `line.strip()` and its level |
| `BookRules.ParseLines` | book.py:171-178 | One chapter per contents line |
| `BookRules.ParseLinesEach` | book.py:171-178 | The k-th chapter is made from the k-th line alone |
| `BookRules.ParseIndented` | book.py:117-122 | A stripped heading without tabs, written after n tabs, is read back as that heading at level n |
| `BookRules.LevelCountsInnerTabs` | book.py:118-121 | For every `t`, the level of `"\t" + t` is one plus the number of tabs anywhere in `t`, so tabs after the first non-tab character count too |
| `BookRules.PyIndex` | book.py:133 | Python indexing succeeds exactly for `-len <= k < len` |
| `BookRules.LookupRaises` | book.py:133 | Locating a chapter raises only for a detected type, and exactly when `lines[index - 1]` is out of Python's range |
| `BookRules.FlagsIllustration` | book.py:132-134 | For a detected type, the flag is set when `lines[index - 1]` (Python indexing) exists and is not whitespace-only |
| `BookRules.FirstRaise` | book.py:129-134 | The first chapter whose lookup raises: no earlier one raises, and it does, unless it is past the end |
| `BookRules.NotFoundReadsSecondToLast` | book.py:130-133 | For a detected type, a heading that is not found is flagged exactly when `lines[-2]` is not whitespace-only; with two lines or more this does not raise |
| `BookRules.ImageMap` | book.py:159-163 | The entries of `initIllustrationsPath`: `dir/name` with value -1 for every image name of the listing |
| `BookRules.ImageMapListsImages` | book.py:159-163 | The illustration keys are exactly `dir/name` for the listed image names, all with value -1 |
| `Book.Chapter.constructor` | book.py:23-26 | A new chapter has the given heading, level and index, and no illustration |
| `Book.LineLevel` | book.py:116-121 | The tab-counting loop computes the level rule |
| `Book.NewChapter` | book.py:122 | A new chapter with the stripped line and its level, index 0 and no illustration |
| `Book.NewChapters` | book.py:171-178 | The chapters built by the `setContents` loop are the parsed lines in order, all new and distinct |
| `Book.ReadChapters` | book.py:114-124 | The reading loop stops at the block end, or raises where there is none; the chapters read are the parsed lines before that point, all new and distinct |
| `Book.ScanLine` | book.py:97-102 | One pass of the label loop's body is the label rule for that line, raise included |
| `Book.RawBook.constructor` | book.py:60-66 | The class defaults, and the lines of the text with its leading byte-order marks removed |
| `Book.RawBook.Open` | book.py:60-82 | Against a fresh book: the illustration map is the image listing. With no type marker in lines 0..19, all metadata and the framing keep their defaults. Otherwise the metadata is read as `DetectedMetadata` states, and the framing is set unless the label loop raised |
| `Book.RawBook.InitType` | book.py:69-82 | Detection, then for a detected type the metadata and the illustration framing (skipped where `initMetadata` raises) |
| `Book.RawBook.DetectRawTextType` | book.py:69-76 | The type becomes the one the first marker line gives; without one it is unchanged |
| `Book.RawBook.InitMetadata` | book.py:85-102 | For a detected type: the title, the constant source, language and subject, and the label scan's result from the old fields, which raises where the scan does. Otherwise nothing changes |
| `Book.RawBook.ScanLabels` | book.py:96-102 | The three fields become the label scan of lines 0..19 from their old values; it fails exactly when the scan raises |
| `Book.RawBook.InitContents` | book.py:105-125 | `contentsIndex` is one past the marker line, or unchanged. It finishes exactly when the block has an end, which becomes `afterContentsIndex`. The old chapters stay in front, and the parsed block lines follow as new chapters |
| `Book.RawBook.ReadBlock` | book.py:114-125 | The chapters read from the start are appended, and `afterContentsIndex` is set only when the reading ends at a whitespace-only line |
| `Book.RawBook.SetContents` | book.py:166-179 | The contents are replaced by one new chapter per line of the text, blank lines included |
| `Book.RawBook.InitChaptersIndex` | book.py:128-134 | Up to the first raising chapter, each index becomes the heading's `findLine` from `afterContentsIndex`. The flag is only ever set, and only where the line before is not whitespace-only. Headings and levels never change; later chapters stay untouched |
| `Book.RawBook.LocateChapter` | book.py:130-134 | One chapter: its index, its flag, and whether reading the line before raises |
| `Book.RawBook.InitIllustrationsPath` | book.py:159-163 | Every listed image name is added as `dir/name` with value -1; other names are skipped |
| `Book.RawBook.FindIllustrationsIndex` | book.py:182-185 | The keys stay the same, and every value becomes the first framed line that holds the file's name without directory and extension |
| `Book.RawBook.FindLine` | book.py:188-194 | The scanning loop returns what `FirstMatch` specifies |
| `Ui.IndentedText` | ui.py:45-46 | One chapter as the loop writes it, without the newline: one tab per level, then the heading |
| `Ui.Render` | ui.py:43-46 | The text before the final strip: in contents order, each chapter's indented heading followed by "\n" |
| `Ui.SerializeContents` | ui.py:42-47 | Nothing for empty contents; otherwise the stripped concatenation of each chapter's tabs, heading and "\n", in order |
| `Ui.RenderIsJoin` | ui.py:43-46 | Before the strip, the text is the indented headings joined with "\n", plus a final "\n" |
| `Ui.ParseIndentedText` | ui.py:45-46 | The level rule reads a well-formed heading back from its serialized line |
| `Ui.StripRender` | ui.py:47 | When the first and last headings are well-formed, the final strip removes exactly the first chapter's tabs and the last newline |
| `Ui.ContentsRoundTrip` | ui.py:43-47 | Serializing well-formed headings and splitting and parsing the text as `setContents` does gives every chapter back, except that the first returns at level 0 |
| `Ui.ContentsRoundTripAtTopLevel` | ui.py:43-47 | With the first chapter at level 0, the round trip gives back the same (heading, level) sequence |
| `Ui.InnerTabsLowerLevel` | ui.py:45-46 | A stripped heading serialized below the top level is read back with one more level per tab inside it |
| `Ui.ResubmitContents` | ui.py:42-47 | Resubmitting the shown contents unedited makes `rawContents` the serialized text. For any non-empty contents, the chapters are replaced by fresh ones (index 0, no illustration flag) parsed from that text as `setContents` does. When every heading is well-formed, they keep the same headings and levels, except that the first returns at level 0 |

A heading is well-formed (`Ui.Serializable`) when:

- it is not empty;
- it neither begins nor ends with whitespace;
- it holds no tab and no line boundary.

## Left out

- `initEpub` (`book.py:137-156`) is not modelled. It calls ebooklib and `uuid.uuid5`, whose code is not part of this model.
- `layout.py` and the Qt parts of `ui.py` (`ui.py:11-38`, `ui.py:50-66`) are not modelled: window, dialogs, widgets and slots. `Ui.ResubmitContents` models only the path by which unedited contents reach `setContents` (`ui.py:65`).
- `Ui.ResubmitContents` assumes that `contentsTextEdit.toPlainText()` (`ui.py:65`) returns exactly the text that `setPlainText` was given (`ui.py:47`). Qt's editor is not part of this model. In Qt, `toPlainText` turns U+00A0 into a space and U+2028/U+2029 into line breaks. A well-formed heading may hold an inner U+00A0, so such a heading would come back with a space there.
- File I/O is not modelled.
  - The decoded text is a parameter, and the text's directory is a given string. This replaces `open` and `read` (`book.py:61-65`) and `os.path.dirname` (`book.py:63`).
  - The directory listing of `os.listdir` (`book.py:160`) is a given sequence of names.
- The `__textPath`, `__rawText` and `__epub` fields are left out.
  - `__textPath` and `__rawText` are read only inside `__init__` (`book.py:63`, `book.py:66`). The model takes their results as constructor parameters: the directory and the decoded text.
  - `__epub` is used only by `initEpub`.
- The Python class attributes `contents` and `illustrations` (`book.py:50`, `book.py:54`) are shared by all instances until an instance assigns its own. Each `RawBook` here owns its state, as if only one book existed.
- Exceptions are modelled as `ok == false` with the state Python leaves behind. `Book.RawBook.Open` with `ok == false` is the object that a raising `__init__` discards.
- `Book.RawBook.InitContents`: its appends are not modelled in place.
  - The block's chapters are built in a local list and appended in one step.
  - The list object is the same in Python and only its contents are observable here, so no field's final value differs.
  - Likewise, `Book.RawBook.ScanLabels` copies the three fields at the start. It writes them back once, when the loop ends or at the raise.
- `Book.RawBook.FindIllustrationsIndex` does not model dictionary iteration order. It picks keys in any order. Each value depends only on its own key, so the final map is the same in every order.
- `Book.RawBook.FindLine`: Python's `startIndex` is an `int`, but the model takes a `nat`. All callers pass 0 or `afterContentsIndex`, which is never negative.
- Integer widths do not arise here: Python integers are unbounded, and so are Dafny's.
