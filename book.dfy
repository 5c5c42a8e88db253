/** `book.py`: the `Chapter` record and the `RawBook` parser that recovers
    metadata, contents, chapter locations and illustration locations from
    the lines of a decoded novel transcript. */
module Book {
  import opened Wrappers
  import opened PyText
  import opened PyPath
  import opened BookRules

  /** A contents entry: its heading (`string` in the source), its level, the
      line where the heading was found, and whether an illustration comes
      right before it. */
  class Chapter {
    var text: string
    var level: nat
    var index: int
    var illustration: bool

    constructor (text: string, level: nat, index: int := 0)
      ensures this.text == text && this.level == level && this.index == index
      ensures !illustration
    {
      this.text := text;
      this.level := level;
      this.index := index;
      illustration := false;
    }
  }

  /** The (heading, level) pairs of a chapter list. */
  function EntriesOf(cs: seq<Chapter>): seq<Entry>
    reads cs
  {
    seq(|cs|, k requires 0 <= k < |cs| reads cs => Entry(cs[k].text, cs[k].level))
  }

  /** The headings of a chapter list. */
  function TextsOf(cs: seq<Chapter>): seq<string>
    reads cs
  {
    seq(|cs|, k requires 0 <= k < |cs| reads cs => cs[k].text)
  }

  ghost predicate Distinct(cs: seq<Chapter>) {
    forall i, j :: 0 <= i < j < |cs| ==> cs[i] != cs[j]
  }

  /** What the operations on a book keep: the contents marker lies within
      the first 100 lines, the block end within the text, and no chapter is
      listed twice. */
  ghost predicate Consistent(lines: seq<string>, contentsIndex: nat, afterContentsIndex: nat, contents: seq<Chapter>) {
    contentsIndex <= ContentsWindow && afterContentsIndex <= |lines| && Distinct(contents)
  }

  /** The level loop of `initContents` and `setContents`: count the tabs of
      a line that starts with one. */
  method LineLevel(line: string) returns (level: nat)
    ensures level == Level(line)
  {
    level := 0;
    if StartsWith(line, "\t") {
      for k := 0 to |line|
        invariant level == CountChar(line[..k], '\t')
      {
        assert line[..k + 1][..k] == line[..k];
        if line[k] == '\t' {
          level := level + 1;
        }
      }
      assert line[..|line|] == line;
    }
  }

  /** `Chapter(line.strip(), level)` with the level counted by the tab
      loop: the chapter one contents line stands for. */
  method NewChapter(line: string) returns (chapter: Chapter)
    ensures fresh(chapter)
    ensures Entry(chapter.text, chapter.level) == ParseLine(line)
    ensures chapter.index == 0 && !chapter.illustration
  {
    var level := LineLevel(line);
    chapter := new Chapter(Strip(line), level);
  }

  /** The loop of `setContents`: one new chapter per line, in order. */
  method NewChapters(ls: seq<string>) returns (cs: seq<Chapter>)
    ensures EntriesOf(cs) == ParseLines(ls)
    ensures Distinct(cs)
    ensures forall k :: 0 <= k < |cs| ==> fresh(cs[k]) && cs[k].index == 0 && !cs[k].illustration
  {
    cs := [];
    for i := 0 to |ls|
      invariant EntriesOf(cs) == ParseLines(ls[..i])
      invariant Distinct(cs)
      invariant forall k :: 0 <= k < |cs| ==> fresh(cs[k]) && cs[k].index == 0 && !cs[k].illustration
    {
      var chapter := NewChapter(ls[i]);
      EntriesAppend(cs, chapter);
      ParseLinesAppend(ls[..i], ls[i]);
      assert ls[..i + 1] == ls[..i] + [ls[i]];
      cs := cs + [chapter];
    }
    assert ls[..|ls|] == ls;
  }

  /** The reading loop of `initContents` from line `start`: one new chapter
      per line up to the first whitespace-only line. `end` is that line, or
      None where the loop runs past the last line and Python raises
      `IndexError`; `cs` holds the chapters read until then. */
  method ReadChapters(lines: seq<string>, start: nat) returns (cs: seq<Chapter>, end: Option<nat>)
    requires start <= |lines|
    ensures end == BlockEnd(lines, start)
    ensures EntriesOf(cs) == ParseLines(lines[start..if end.Some? then end.value else |lines|])
    ensures Distinct(cs)
    ensures forall k :: 0 <= k < |cs| ==> fresh(cs[k]) && cs[k].index == 0 && !cs[k].illustration
  {
    cs := [];
    var index := start;
    while index < |lines| && !IsSpaceLine(lines[index])
      invariant start <= index <= |lines|
      invariant BlockEnd(lines, index) == BlockEnd(lines, start)
      invariant EntriesOf(cs) == ParseLines(lines[start..index])
      invariant Distinct(cs)
      invariant forall k :: 0 <= k < |cs| ==> fresh(cs[k]) && cs[k].index == 0 && !cs[k].illustration
    {
      var chapter := NewChapter(lines[index]);
      BlockStep(lines, start, index);
      ReadStep(lines, start, index, cs, chapter);
      cs := cs + [chapter];
      index := index + 1;
    }
    end := if index < |lines| then Some(index) else None;
  }

  /** One pass of the label loop's body over `line`: the author, the
      illustrator and the translator in turn, each assigned only while still
      "" and only when the line holds one of its labels. A line without the
      colon raises IndexError at the first such assignment. */
  method ScanLine(line: string, st: Labels) returns (pass: LabelPass)
    ensures pass == LabelLine(line, st)
  {
    var labels := st;
    if labels.author == "" && (Contains(line, AuthorLabels.0) || Contains(line, AuthorLabels.1)) {
      var parts := Split(line, LabelColon);
      if |parts| < 2 {
        return LabelPass(false, labels);
      }
      labels := labels.(author := Strip(parts[1]));
    }
    if labels.illustrator == "" && (Contains(line, IllustratorLabels.0) || Contains(line, IllustratorLabels.1)) {
      var parts := Split(line, LabelColon);
      if |parts| < 2 {
        return LabelPass(false, labels);
      }
      labels := labels.(illustrator := Strip(parts[1]));
    }
    if labels.translator == "" && (Contains(line, TranslatorLabels.0) || Contains(line, TranslatorLabels.1)) {
      var parts := Split(line, LabelColon);
      if |parts| < 2 {
        return LabelPass(false, labels);
      }
      labels := labels.(translator := Strip(parts[1]));
    }
    pass := LabelPass(true, labels);
  }

  class RawBook {
    /** The decoded text split into lines; never changed. */
    const lines: seq<string>
    /** The directory of the text file. */
    const textDirPath: string

    var rawTextType: RawTextType
    var title: string
    var author: string
    var illustrator: string
    var translator: string
    var source: string
    var language: string
    var subject: string

    var rawContents: string
    var contentsIndex: nat
    var afterContentsIndex: nat
    var contents: seq<Chapter>

    /** Image path to the line it goes before, -1 while unplaced. */
    var illustrations: map<string, int>
    var illustrationPrefix: string
    var illustrationSuffix: string

    predicate Detected()
      reads this`rawTextType
    {
      rawTextType == Tsdm || rawTextType == Lk
    }

    /** The metadata and the illustration framing at their class defaults. */
    predicate DefaultMetadata()
      reads this`title, this`author, this`illustrator, this`translator
      reads this`source, this`language, this`subject
      reads this`illustrationPrefix, this`illustrationSuffix
    {
      && title == "" && author == "" && illustrator == "" && translator == ""
      && source == "" && language == DefaultLanguage && subject == ""
      && illustrationPrefix == "" && illustrationSuffix == ""
    }

    /** The metadata `__init__` reads for a detected type: the first line,
        stripped, as the title; the fixed source, language and subject; the
        labels the label loop finds from empty fields; and, unless that loop
        raised (`ok` false), the illustration framing of the transcripts. */
    ghost predicate DetectedMetadata(ok: bool)
      reads this`title, this`author, this`illustrator, this`translator
      reads this`source, this`language, this`subject
      reads this`illustrationPrefix, this`illustrationSuffix
    {
      var scan := LabelScan(Head(lines, TypeWindow), Labels("", "", ""));
      && |lines| > 0 && title == Strip(lines[0])
      && source == TsdmSource && language == TsdmLanguage && subject == TsdmSubject
      && ok == scan.ok && Labels(author, illustrator, translator) == scan.labels
      && illustrationPrefix == (if ok then TsdmIllustrationPrefix else "")
      && illustrationSuffix == (if ok then TsdmIllustrationSuffix else "")
    }

    /** The class defaults and the first step of `__init__`: the lines of
        the text without its leading byte-order marks. */
    constructor (text: string, textDirPath: string)
      ensures Consistent(lines, contentsIndex, afterContentsIndex, contents)
      ensures lines == SplitLines(StripBom(text)) && this.textDirPath == textDirPath
      ensures rawTextType == Default && DefaultMetadata()
      ensures rawContents == "" && contentsIndex == 0 && afterContentsIndex == 0 && contents == []
      ensures illustrations == map[]
    {
      lines := SplitLines(StripBom(text));
      this.textDirPath := textDirPath;
      rawTextType := Default;
      title, author, illustrator, translator := "", "", "", "";
      source, language, subject := "", DefaultLanguage, "";
      rawContents, contentsIndex, afterContentsIndex, contents := "", 0, 0, [];
      illustrations := map[];
      illustrationPrefix, illustrationSuffix := "", "";
    }

    /** `__init__`: load, list the illustrations, detect the source type in
        the first 20 lines and, for a detected type, read the metadata and
        set the illustration framing. `ok` is false where `__init__` raises
        (a label line without the full-width colon); the book is then the
        object Python discards. */
    static method Open(text: string, textDirPath: string, fileNames: seq<string>) returns (book: RawBook, ok: bool)
      ensures fresh(book) && Consistent(book.lines, book.contentsIndex, book.afterContentsIndex, book.contents)
      ensures book.lines == SplitLines(StripBom(text)) && book.textDirPath == textDirPath
      ensures book.illustrations == ImageMap(textDirPath, fileNames)
      ensures book.rawContents == "" && book.contentsIndex == 0 && book.afterContentsIndex == 0 && book.contents == []
      ensures book.Detected() <==> DetectType(Head(book.lines, TypeWindow)).Some?
      ensures !book.Detected() ==> ok && book.rawTextType == Default && book.DefaultMetadata()
      ensures book.Detected() ==> book.DetectedMetadata(ok)
    {
      book := new RawBook(text, textDirPath);
      book.InitIllustrationsPath(fileNames);
      assert map[] + ImageMap(textDirPath, fileNames) == ImageMap(textDirPath, fileNames);
      ok := book.InitType();
    }

    /** The rest of `__init__` on a freshly loaded book: detect the type
        and, for a detected type, read the metadata and set the
        illustration framing (which a raise in `initMetadata` skips). */
    method InitType() returns (ok: bool)
      requires rawTextType == Default && DefaultMetadata()
      modifies this`rawTextType, this`title, this`source, this`language, this`subject
      modifies this`author, this`illustrator, this`translator
      modifies this`illustrationPrefix, this`illustrationSuffix
      ensures Detected() <==> DetectType(Head(lines, TypeWindow)).Some?
      ensures !Detected() ==> ok && rawTextType == Default && DefaultMetadata()
      ensures Detected() ==> DetectedMetadata(ok)
    {
      DetectRawTextType();
      ok := true;
      if rawTextType == Tsdm || rawTextType == Lk {
        DetectedTextNotBlank(lines);
        ok := InitMetadata();
        if ok {
          illustrationPrefix := TsdmIllustrationPrefix;
          illustrationSuffix := TsdmIllustrationSuffix;
        }
      }
    }

    /** The detection loop of `__init__`: the first of the first 20 lines
        that holds "tsdm" or "lightnovel" sets the type; otherwise it stays. */
    method DetectRawTextType()
      modifies this`rawTextType
      ensures rawTextType == match DetectType(Head(lines, TypeWindow))
        case Some(t) => t
        case None => old(rawTextType)
    {
      var window := Head(lines, TypeWindow);
      for i := 0 to |window|
        invariant DetectType(window) == DetectType(window[i..])
        invariant rawTextType == old(rawTextType)
      {
        if Contains(window[i], TsdmMarker) {
          rawTextType := Tsdm;
          break;
        }
        if Contains(window[i], LkMarker) {
          rawTextType := Lk;
          break;
        }
        assert window[i..][1..] == window[i + 1..];
      }
    }

    /** `initMetadata`: for a detected type, the title is `lines[0].strip()`
        once any line is not whitespace-only; source, language and subject
        are constants; author, illustrator and translator come from the
        label loop over the first 20 lines. `ok` is false where that loop
        raises, with the fields as far as it got. */
    method InitMetadata() returns (ok: bool)
      modifies this`title, this`source, this`language, this`subject
      modifies this`author, this`illustrator, this`translator
      ensures !Detected() ==>
        ok && title == old(title) && source == old(source) && language == old(language)
        && subject == old(subject) && author == old(author)
        && illustrator == old(illustrator) && translator == old(translator)
      ensures Detected() ==>
        var scan := LabelScan(Head(lines, TypeWindow), old(Labels(author, illustrator, translator)));
        title == (if exists i :: 0 <= i < |lines| && !IsSpaceLine(lines[i]) then Strip(lines[0]) else old(title))
        && source == TsdmSource && language == TsdmLanguage && subject == TsdmSubject
        && ok == scan.ok && Labels(author, illustrator, translator) == scan.labels
    {
      ok := true;
      if rawTextType == Tsdm || rawTextType == Lk {
        for i := 0 to |lines|
          invariant author == old(author) && illustrator == old(illustrator) && translator == old(translator)
          invariant title == if exists j :: 0 <= j < i && !IsSpaceLine(lines[j]) then Strip(lines[0]) else old(title)
        {
          if !IsSpaceLine(lines[i]) {
            title := Strip(lines[0]);
          }
        }
        source := if rawTextType == Tsdm then TsdmSource else LkSource;
        language := TsdmLanguage;
        subject := TsdmSubject;
        ok := ScanLabels();
      }
    }

    /** The label loop of `initMetadata`. The fields are assigned in the
        loop's order; a raise leaves those of the failing line that were
        already assigned. */
    method ScanLabels() returns (ok: bool)
      modifies this`author, this`illustrator, this`translator
      ensures var scan := LabelScan(Head(lines, TypeWindow), old(Labels(author, illustrator, translator)));
        ok == scan.ok && Labels(author, illustrator, translator) == scan.labels
    {
      var window := Head(lines, TypeWindow);
      var labels := Labels(author, illustrator, translator);
      ghost var start := labels;
      for i := 0 to |window|
        invariant LabelScan(window[..i], start) == LabelPass(true, labels)
      {
        assert window[..i + 1][..i] == window[..i];
        var pass := ScanLine(window[i], labels);
        if !pass.ok {
          author, illustrator, translator := pass.labels.author, pass.labels.illustrator, pass.labels.translator;
          LabelScanStopsAtRaise(window, start, i + 1);
          return false;
        }
        labels := pass.labels;
      }
      assert window[..|window|] == window;
      author, illustrator, translator := labels.author, labels.illustrator, labels.translator;
      ok := true;
    }

    /** `initContents`: find the contents marker in the first 100 lines and
        append one chapter per line from the line after it up to the first
        whitespace-only line, whose index becomes `afterContentsIndex`.
        `ok` is false where the reading runs past the last line and Python
        raises; the chapters read until then stay appended. */
    method InitContents() returns (ok: bool)
      requires Consistent(lines, contentsIndex, afterContentsIndex, contents)
      modifies this`contents, this`contentsIndex, this`afterContentsIndex
      ensures Consistent(lines, contentsIndex, afterContentsIndex, contents)
      ensures contentsIndex == if MarkerLine(lines).Some? then ContentsStart(lines) else old(contentsIndex)
      ensures ok == BlockEnd(lines, ContentsStart(lines)).Some?
      ensures afterContentsIndex == if ok then BlockEnd(lines, ContentsStart(lines)).value else old(afterContentsIndex)
      ensures ok ==> ContentsStart(lines) <= afterContentsIndex && contentsIndex <= afterContentsIndex
      ensures |old(contents)| <= |contents| && contents[..|old(contents)|] == old(contents)
      ensures EntriesOf(contents) == old(EntriesOf(contents))
        + ParseLines(lines[ContentsStart(lines)..if ok then afterContentsIndex else |lines|])
      ensures forall k :: |old(contents)| <= k < |contents| ==>
        fresh(contents[k]) && contents[k].index == 0 && !contents[k].illustration
    {
      var index: nat := 0;
      var n := |Head(lines, ContentsWindow)|;
      while index < n
        invariant index <= n
        invariant forall j :: 0 <= j < index ==> !Contains(lines[j], ContentsMarker)
        invariant contentsIndex == old(contentsIndex)
      {
        var line := lines[index];
        index := index + 1;
        if Contains(line, ContentsMarker) {
          contentsIndex := index;
          break;
        }
      }
      assert index == ContentsStart(lines);
      ok := ReadBlock(index);
    }

    /** The second half of `initContents`: the chapters read from line
        `start` are appended; `afterContentsIndex` is set only where the
        reading ends at a whitespace-only line. */
    method ReadBlock(start: nat) returns (ok: bool)
      requires Consistent(lines, contentsIndex, afterContentsIndex, contents) && start <= |lines|
      modifies this`contents, this`afterContentsIndex
      ensures Consistent(lines, contentsIndex, afterContentsIndex, contents)
      ensures ok == BlockEnd(lines, start).Some?
      ensures afterContentsIndex == if ok then BlockEnd(lines, start).value else old(afterContentsIndex)
      ensures |old(contents)| <= |contents| && contents[..|old(contents)|] == old(contents)
      ensures EntriesOf(contents) == old(EntriesOf(contents))
        + ParseLines(lines[start..if ok then afterContentsIndex else |lines|])
      ensures forall k :: |old(contents)| <= k < |contents| ==>
        fresh(contents[k]) && contents[k].index == 0 && !contents[k].illustration
    {
      var cs, end := ReadChapters(lines, start);
      assert forall i, j :: 0 <= i < |contents| && 0 <= j < |cs| ==> contents[i] != cs[j];
      DistinctConcat(contents, cs);
      EntriesConcat(contents, cs);
      assert (contents + cs)[..|contents|] == contents;
      contents := contents + cs;
      ok := end.Some?;
      if ok {
        afterContentsIndex := end.value;
      }
    }

    /** `setContents`: replace the contents by one new chapter per line of
        `rawContents`, in order, blank lines included. */
    method SetContents(rawContents: string)
      requires Consistent(lines, contentsIndex, afterContentsIndex, contents)
      modifies this`rawContents, this`contents
      ensures Consistent(lines, contentsIndex, afterContentsIndex, contents)
      ensures this.rawContents == rawContents
      ensures EntriesOf(contents) == ParseLines(SplitLines(rawContents))
      ensures forall k :: 0 <= k < |contents| ==>
        fresh(contents[k]) && contents[k].index == 0 && !contents[k].illustration
    {
      this.rawContents := rawContents;
      contents := NewChapters(SplitLines(rawContents));
    }

    /** `initChaptersIndex`: every chapter's index becomes the first line at
        or after `afterContentsIndex` that holds its heading (or -1); for a
        detected type, the illustration flag is set when the line before
        that index (Python indexing, so -1 reads `lines[-2]`) is not
        whitespace-only, and never cleared. `ok` is false where that read
        raises: the chapters before stay done, the raising chapter keeps its
        new index, and the rest is untouched. */
    method InitChaptersIndex() returns (ok: bool)
      requires Consistent(lines, contentsIndex, afterContentsIndex, contents)
      modifies contents
      ensures Consistent(lines, contentsIndex, afterContentsIndex, contents)
      ensures var f := FirstRaise(lines, afterContentsIndex, Detected(), old(TextsOf(contents)));
        && ok == (f == |contents|)
        && forall k :: 0 <= k < |contents| ==>
          && contents[k].text == old(contents[k].text)
          && contents[k].level == old(contents[k].level)
          && contents[k].index
             == (if k <= f then FirstMatch(lines, afterContentsIndex, contents[k].text, "", "") else old(contents[k].index))
          && contents[k].illustration
             == (if k < f then old(contents[k].illustration) || FlagsIllustration(lines, afterContentsIndex, Detected(), contents[k].text)
                 else old(contents[k].illustration))
    {
      var cs := contents;
      var after, detected := afterContentsIndex, Detected();
      ghost var texts := TextsOf(cs);
      var k := 0;
      while k < |cs|
        invariant 0 <= k <= |cs|
        invariant forall j :: 0 <= j < |cs| ==> cs[j].text == texts[j] && cs[j].level == old(cs[j].level)
        invariant forall j :: 0 <= j < k ==> !LookupRaises(lines, after, detected, texts[j])
        invariant forall j :: 0 <= j < k ==>
          cs[j].index == FirstMatch(lines, after, texts[j], "", "")
          && cs[j].illustration == (old(cs[j].illustration) || FlagsIllustration(lines, after, detected, texts[j]))
        invariant forall j :: k <= j < |cs| ==>
          cs[j].index == old(cs[j].index) && cs[j].illustration == old(cs[j].illustration)
      {
        ok := LocateChapter(cs[k]);
        if !ok {
          FirstRaiseAt(lines, after, detected, texts, k);
          return;
        }
        k := k + 1;
      }
      FirstRaiseAt(lines, after, detected, texts, |cs|);
      ok := true;
    }

    /** One pass of the loop of `initChaptersIndex`. */
    method LocateChapter(chapter: Chapter) returns (ok: bool)
      modifies chapter
      ensures chapter.text == old(chapter.text) && chapter.level == old(chapter.level)
      ensures chapter.index == FirstMatch(lines, afterContentsIndex, chapter.text, "", "")
      ensures ok == !LookupRaises(lines, afterContentsIndex, Detected(), chapter.text)
      ensures chapter.illustration
        == (old(chapter.illustration) || (ok && FlagsIllustration(lines, afterContentsIndex, Detected(), chapter.text)))
    {
      ok := true;
      chapter.index := FindLine(afterContentsIndex, chapter.text);
      if rawTextType == Tsdm || rawTextType == Lk {
        var before := PyIndex(lines, chapter.index - 1);
        if before.None? {
          return false;
        }
        if !IsSpaceLine(before.value) {
          chapter.illustration := true;
        }
      }
    }

    /** The listing loop of `initIllustrationsPath`: every name ending in
        ".png", ".webp" or ".jpg" is set to -1 under `dir/name`. */
    method InitIllustrationsPath(fileNames: seq<string>)
      requires Consistent(lines, contentsIndex, afterContentsIndex, contents)
      modifies this`illustrations
      ensures Consistent(lines, contentsIndex, afterContentsIndex, contents)
      ensures illustrations == old(illustrations) + ImageMap(textDirPath, fileNames)
    {
      for i := 0 to |fileNames|
        invariant illustrations == old(illustrations) + ImageMap(textDirPath, fileNames[..i])
      {
        var filePath := fileNames[i];
        assert fileNames[..i + 1] == fileNames[..i] + [filePath];
        ImageMapAppend(textDirPath, fileNames[..i], filePath);
        if EndsWith(filePath, ".png") || EndsWith(filePath, ".webp") || EndsWith(filePath, ".jpg") {
          MergeUpdate(old(illustrations), ImageMap(textDirPath, fileNames[..i]), textDirPath + "/" + filePath, -1);
          illustrations := illustrations[textDirPath + "/" + filePath := -1];
        }
      }
      assert fileNames[..|fileNames|] == fileNames;
    }

    /** `findIllustrationsIndex`: every illustration's value becomes the
        first line that holds its file name without directory and extension,
        starts with `prefix` and ends with `suffix`; the keys stay. */
    method FindIllustrationsIndex(prefix: string := "", suffix: string := "")
      modifies this`illustrations
      ensures illustrations.Keys == old(illustrations).Keys
      ensures forall key :: key in illustrations ==>
        illustrations[key] == FirstMatch(lines, 0, Stem(key), prefix, suffix)
    {
      var remaining := illustrations.Keys;
      while remaining != {}
        invariant remaining <= illustrations.Keys == old(illustrations).Keys
        invariant forall key :: key in illustrations && key !in remaining ==>
          illustrations[key] == FirstMatch(lines, 0, Stem(key), prefix, suffix)
        decreases remaining
      {
        var illustration :| illustration in remaining;
        var illustrationName := Stem(illustration);
        var index := FindLine(0, illustrationName, prefix, suffix);
        illustrations := illustrations[illustration := index];
        remaining := remaining - {illustration};
      }
    }

    /** `findLine`: the first index at or after `startIndex` whose line holds
        `substring`, starts with `prefix` and ends with `suffix`, or -1. */
    method FindLine(startIndex: nat, substring: string, prefix: string := "", suffix: string := "") returns (index: int)
      ensures index == FirstMatch(lines, startIndex, substring, prefix, suffix)
    {
      index := startIndex;
      while index < |lines|
        invariant startIndex <= index
        invariant forall j :: startIndex <= j < index && j < |lines| ==> !LineMatches(lines[j], substring, prefix, suffix)
      {
        var line := lines[index];
        if Contains(line, substring) && StartsWith(line, prefix) && EndsWith(line, suffix) {
          return index;
        }
        index := index + 1;
      }
      return -1;
    }
  }

  lemma EntriesAppend(cs: seq<Chapter>, c: Chapter)
    ensures EntriesOf(cs + [c]) == EntriesOf(cs) + [Entry(c.text, c.level)]
  {
  }

  lemma EntriesConcat(a: seq<Chapter>, b: seq<Chapter>)
    ensures EntriesOf(a + b) == EntriesOf(a) + EntriesOf(b)
  {
  }

  /** One more chapter read from line `index`. */
  lemma ReadStep(lines: seq<string>, start: nat, index: nat, cs: seq<Chapter>, c: Chapter)
    requires start <= index < |lines|
    requires EntriesOf(cs) == ParseLines(lines[start..index])
    requires Entry(c.text, c.level) == ParseLine(lines[index])
    requires Distinct(cs) && forall k :: 0 <= k < |cs| ==> cs[k] != c
    ensures EntriesOf(cs + [c]) == ParseLines(lines[start..index + 1])
    ensures Distinct(cs + [c])
  {
    EntriesAppend(cs, c);
    assert lines[start..index + 1] == lines[start..index] + [lines[index]];
    ParseLinesAppend(lines[start..index], lines[index]);
  }

  lemma DistinctConcat(a: seq<Chapter>, b: seq<Chapter>)
    requires Distinct(a) && Distinct(b)
    requires forall i, j :: 0 <= i < |a| && 0 <= j < |b| ==> a[i] != b[j]
    ensures Distinct(a + b)
  {
  }

  /** One more line of the contents block read. */
  lemma BlockStep(lines: seq<string>, start: nat, index: nat)
    requires start <= index < |lines| && !IsSpaceLine(lines[index])
    ensures BlockEnd(lines, index + 1) == BlockEnd(lines, index)
  {
  }

  lemma MergeUpdate(a: map<string, int>, b: map<string, int>, key: string, value: int)
    ensures (a + b)[key := value] == a + b[key := value]
  {
  }

  lemma FirstRaiseAt(lines: seq<string>, after: nat, detected: bool, texts: seq<string>, k: nat)
    requires k <= |texts|
    requires forall j :: 0 <= j < k ==> !LookupRaises(lines, after, detected, texts[j])
    requires k < |texts| ==> LookupRaises(lines, after, detected, texts[k])
    ensures FirstRaise(lines, after, detected, texts) == k
  {
  }

}
