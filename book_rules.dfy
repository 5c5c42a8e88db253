/** The line rules of `book.py` as functions on the line sequence: the
    source-type markers, the metadata labels, the contents block and its
    level rule, the `findLine` match, and the illustration-name filter.
    The `RawBook` class in module Book runs its loops against these. */
module BookRules {
  import opened Wrappers
  import opened PyText
  import opened PyPath

  /** `RawTextType`. Its member `lk` is declared with the same value as
      `tsdm`, and a Python `Enum` makes such a member an alias, so there are
      only two distinct values. */
  datatype RawTextType = Default | Tsdm

  const Lk: RawTextType := Tsdm

  /** `lk` is the same value as `tsdm`. */
  lemma LkIsTsdm()
    ensures Lk == Tsdm
  {
  }

  /** Detection and label scanning look at `lines[0:20]`. */
  const TypeWindow: nat := 20
  const TsdmMarker: string := "tsdm"
  const LkMarker: string := "lightnovel"

  /** The contents marker is looked for in `lines[0:100]`. */
  const ContentsWindow: nat := 100
  const ContentsMarker: string := "CONTENTS"

  /** The full-width colon after a metadata label. */
  const LabelColon: char := '：'
  /** The author test names the same label twice. */
  const AuthorLabels: (string, string) := ("作者", "作者")
  const IllustratorLabels: (string, string) := ("插畫", "插画")
  const TranslatorLabels: (string, string) := ("譯者", "译者")

  const TsdmSource: string := "天使動漫"
  const LkSource: string := "輕之國度"
  const TsdmLanguage: string := "zh-TW"
  const TsdmSubject: string := "輕小説"
  const DefaultLanguage: string := "en-US"
  const TsdmIllustrationPrefix: string := "　　（"
  const TsdmIllustrationSuffix: string := "）"

  /** `lines[0:n]` */
  function Head(lines: seq<string>, n: nat): (w: seq<string>)
    ensures |w| == if |lines| < n then |lines| else n
    ensures w == lines[..|w|]
  {
    if |lines| <= n then lines else lines[..n]
  }

  // ---------------------------------------------------------------------
  // Source-type detection

  predicate HasTypeMarker(line: string) {
    Contains(line, TsdmMarker) || Contains(line, LkMarker)
  }

  /** The type the detection loop assigns: the first line holding a marker
      decides ("tsdm" is tested before "lightnovel" on each line); None when
      no line holds one. Both markers give the same value. */
  function DetectType(window: seq<string>): (t: Option<RawTextType>)
    ensures t.Some? ==> t.value == Tsdm
  {
    if window == [] then None
    else if Contains(window[0], TsdmMarker) then Some(Tsdm)
    else if Contains(window[0], LkMarker) then Some(Lk)
    else DetectType(window[1..])
  }

  /** A type is detected exactly when some line of the window holds a marker. */
  lemma {:induction false} DetectTypeFindsMarker(window: seq<string>)
    ensures DetectType(window).Some? <==> exists i :: 0 <= i < |window| && HasTypeMarker(window[i])
  {
    if window != [] && !HasTypeMarker(window[0]) {
      DetectTypeFindsMarker(window[1..]);
      assert forall i :: 1 <= i < |window| ==> window[i] == window[1..][i - 1];
    }
  }

  /** Detection sees only the first twenty lines: a type is detected exactly
      when one of `lines[0]` .. `lines[19]` holds a marker. */
  lemma DetectionWindow(lines: seq<string>)
    ensures DetectType(Head(lines, TypeWindow)).Some?
        <==> exists i :: 0 <= i < TypeWindow && i < |lines| && HasTypeMarker(lines[i])
  {
    var w := Head(lines, TypeWindow);
    DetectTypeFindsMarker(w);
    assert forall i :: 0 <= i < |w| ==> w[i] == lines[i];
  }

  /** A detected text has a line that is not whitespace-only, so the
      title loop of `initMetadata` reads `lines[0]`. */
  lemma DetectedTextNotBlank(lines: seq<string>)
    requires DetectType(Head(lines, TypeWindow)).Some?
    ensures exists i :: 0 <= i < |lines| && !IsSpaceLine(lines[i])
  {
    DetectionWindow(lines);
    var i :| 0 <= i < TypeWindow && i < |lines| && HasTypeMarker(lines[i]);
    MarkerLineNotBlank(lines[i]);
  }

  /** A line holding a marker is never whitespace-only. */
  lemma MarkerLineNotBlank(line: string)
    requires HasTypeMarker(line)
    ensures !IsSpaceLine(line)
  {
    if Contains(line, TsdmMarker) {
      var i :| 0 <= i <= |line| - 4 && OccursAt(line, TsdmMarker, i);
      assert line[i] == line[i..i + 4][0] == 't';
    } else {
      var i :| 0 <= i <= |line| - 10 && OccursAt(line, LkMarker, i);
      assert line[i] == line[i..i + 10][0] == 'l';
    }
  }

  // ---------------------------------------------------------------------
  // Author, illustrator and translator labels

  datatype Labels = Labels(author: string, illustrator: string, translator: string)

  predicate HasLabel(line: string, labels: (string, string)) {
    Contains(line, labels.0) || Contains(line, labels.1)
  }

  /** `line.split("：")[1].strip()`; None where the split has no second piece
      and Python raises IndexError. */
  function LabelValue(line: string): (v: Option<string>)
    ensures v.Some? <==> LabelColon in line
    ensures v.Some? ==> LabelColon !in v.value
  {
    var parts := Split(line, LabelColon);
    if |parts| < 2 then None else Some(Strip(parts[1]))
  }

  /** The value is the text between the first and the second colon (or
      the end of the line), stripped. */
  lemma LabelValueBetweenColons(line: string)
    requires LabelColon in line
    ensures var i := IndexOf(line, LabelColon); var rest := line[i + 1..];
      LabelValue(line) == Some(Strip(rest[..IndexOf(rest, LabelColon)]))
  {
    var i := IndexOf(line, LabelColon);
    var rest := line[i + 1..];
    var j := IndexOf(rest, LabelColon);
    if j < |rest| {
      assert Split(rest, LabelColon)[0] == rest[..j];
    } else {
      assert Split(rest, LabelColon) == [rest];
      assert rest[..j] == rest;
    }
  }

  /** One field's update for one line: only a field that is still "" and
      meets one of its labels is assigned. None means the assignment raised. */
  function FieldStep(field: string, line: string, labels: (string, string)): Option<string> {
    if field == "" && HasLabel(line, labels) then LabelValue(line) else Some(field)
  }

  /** One field after the label loop over `window`, or None if the loop
      raised while assigning it. */
  function FieldScan(window: seq<string>, field: string, labels: (string, string)): Option<string>
    decreases |window|
  {
    if window == [] then Some(field)
    else
      match FieldScan(window[..|window| - 1], field, labels)
      case None => None
      case Some(f) => FieldStep(f, window[|window| - 1], labels)
  }

  /** The state of the label loop: whether it is still running, and the three
      fields. */
  datatype LabelPass = LabelPass(ok: bool, labels: Labels)

  /** One pass of the loop body: author, then illustrator, then translator.
      A raise stops the pass and keeps what was already assigned. */
  function LabelLine(line: string, st: Labels): LabelPass {
    match FieldStep(st.author, line, AuthorLabels)
    case None => LabelPass(false, st)
    case Some(a) =>
      match FieldStep(st.illustrator, line, IllustratorLabels)
      case None => LabelPass(false, st.(author := a))
      case Some(i) =>
        match FieldStep(st.translator, line, TranslatorLabels)
        case None => LabelPass(false, Labels(a, i, st.translator))
        case Some(t) => LabelPass(true, Labels(a, i, t))
  }

  /** The label loop over `window`, stopping at the first raise. */
  function LabelScan(window: seq<string>, st: Labels): LabelPass
    decreases |window|
  {
    if window == [] then LabelPass(true, st)
    else
      var prev := LabelScan(window[..|window| - 1], st);
      if !prev.ok then prev else LabelLine(window[|window| - 1], prev.labels)
  }

  /** Once the loop has raised, later lines change nothing. */
  lemma {:induction false} LabelScanStopsAtRaise(window: seq<string>, st: Labels, n: nat)
    requires n <= |window| && !LabelScan(window[..n], st).ok
    ensures LabelScan(window, st) == LabelScan(window[..n], st)
    decreases |window|
  {
    if n < |window| {
      assert window[..|window| - 1][..n] == window[..n];
      LabelScanStopsAtRaise(window[..|window| - 1], st, n);
    } else {
      assert window[..n] == window;
    }
  }

  /** The three fields are scanned independently: the loop returns normally
      exactly when none of the three single-field scans raises, and then each
      field holds its own scan's result. */
  lemma {:induction false} LabelScanByField(window: seq<string>, st: Labels)
    ensures LabelScan(window, st).ok
        <==> (FieldScan(window, st.author, AuthorLabels).Some?
          && FieldScan(window, st.illustrator, IllustratorLabels).Some?
          && FieldScan(window, st.translator, TranslatorLabels).Some?)
    ensures LabelScan(window, st).ok ==>
      LabelScan(window, st).labels == Labels(
        FieldScan(window, st.author, AuthorLabels).value,
        FieldScan(window, st.illustrator, IllustratorLabels).value,
        FieldScan(window, st.translator, TranslatorLabels).value)
    decreases |window|
  {
    if window != [] {
      LabelScanByField(window[..|window| - 1], st);
    }
  }

  /** A field that already holds a non-empty value is never overwritten, and
      its scan never raises. */
  lemma {:induction false} FieldScanKeepsValue(window: seq<string>, field: string, labels: (string, string))
    requires field != ""
    ensures FieldScan(window, field, labels) == Some(field)
    decreases |window|
  {
    if window != [] {
      FieldScanKeepsValue(window[..|window| - 1], field, labels);
    }
  }

  /** A line decides an empty field when it meets a label and either lacks
      the colon or gives a non-empty value. A labelled line whose value
      strips to "" leaves the field empty, so a later line may still set it. */
  predicate Decides(line: string, labels: (string, string)) {
    HasLabel(line, labels) && LabelValue(line) != Some("")
  }

  /** With no deciding line, an empty field stays empty. */
  lemma {:induction false} FieldScanStaysEmpty(window: seq<string>, labels: (string, string))
    requires forall j :: 0 <= j < |window| ==> !Decides(window[j], labels)
    ensures FieldScan(window, "", labels) == Some("")
    decreases |window|
  {
    if window != [] {
      FieldScanStaysEmpty(window[..|window| - 1], labels);
    }
  }

  /** The first deciding line sets an empty field: to its value, or the scan
      raises when that line has no colon. */
  lemma {:induction false} FieldScanFirstDecider(window: seq<string>, labels: (string, string), i: nat)
    requires i < |window| && Decides(window[i], labels)
    requires forall j :: 0 <= j < i ==> !Decides(window[j], labels)
    ensures FieldScan(window, "", labels) == LabelValue(window[i])
    decreases |window|
  {
    var front := window[..|window| - 1];
    if i == |window| - 1 {
      FieldScanStaysEmpty(front, labels);
    } else {
      FieldScanFirstDecider(front, labels, i);
      if LabelValue(window[i]).Some? {
        FieldScanKeepsValue([window[|window| - 1]], LabelValue(window[i]).value, labels);
      }
    }
  }

  // ---------------------------------------------------------------------
  // findLine

  /** The test `findLine` applies to each line. */
  predicate LineMatches(line: string, sub: string, prefix: string, suffix: string) {
    Contains(line, sub) && StartsWith(line, prefix) && EndsWith(line, suffix)
  }

  /** `findLine(start, sub, prefix, suffix)`: the first index at or after
      `start` whose line matches, or -1 when no line there does (in
      particular when `start` is past the end). */
  function FirstMatch(lines: seq<string>, start: nat, sub: string, prefix: string, suffix: string): (r: int)
    decreases |lines| - start
    ensures r == -1 || (start <= r < |lines| && LineMatches(lines[r], sub, prefix, suffix))
    ensures r != -1 ==> forall j :: start <= j < r ==> !LineMatches(lines[j], sub, prefix, suffix)
    ensures r == -1 <==> forall j :: start <= j < |lines| ==> !LineMatches(lines[j], sub, prefix, suffix)
  {
    if start >= |lines| then -1
    else if LineMatches(lines[start], sub, prefix, suffix) then start
    else FirstMatch(lines, start + 1, sub, prefix, suffix)
  }

  /** With an empty prefix and suffix a line matches when it holds `sub`. */
  lemma PlainMatch(line: string, sub: string)
    ensures LineMatches(line, sub, "", "") <==> Contains(line, sub)
  {
    assert line[..0] == [] && line[|line|..] == [];
  }

  // ---------------------------------------------------------------------
  // The contents block

  /** The first line in `lines[0:100]` that holds "CONTENTS". */
  function MarkerLine(lines: seq<string>): (m: Option<nat>)
    ensures m.Some? ==> (m.value < |Head(lines, ContentsWindow)| && Contains(lines[m.value], ContentsMarker)
      && forall j :: 0 <= j < m.value ==> !Contains(lines[j], ContentsMarker))
    ensures m.None? <==> forall j :: 0 <= j < |Head(lines, ContentsWindow)| ==> !Contains(lines[j], ContentsMarker)
  {
    var w := Head(lines, ContentsWindow);
    forall j | 0 <= j < |w| ensures LineMatches(w[j], ContentsMarker, "", "") <==> Contains(lines[j], ContentsMarker) {
      PlainMatch(w[j], ContentsMarker);
    }
    var r := FirstMatch(w, 0, ContentsMarker, "", "");
    if r == -1 then None else Some(r)
  }

  /** The line where `initContents` starts reading chapters: one past the
      marker line, or the number of lines the marker loop looked at. */
  function ContentsStart(lines: seq<string>): (start: nat)
    ensures start <= |lines| && start <= ContentsWindow
  {
    match MarkerLine(lines)
    case Some(m) => m + 1
    case None => |Head(lines, ContentsWindow)|
  }

  /** The first whitespace-only line at or after `start`, which ends the
      contents block; None when there is none and the reading loop runs off
      the end of the lines. An empty line does not end the block. */
  function BlockEnd(lines: seq<string>, start: nat): (e: Option<nat>)
    decreases |lines| - start
    ensures e.Some? ==> start <= e.value < |lines|
  {
    if start >= |lines| then None
    else if IsSpaceLine(lines[start]) then Some(start)
    else BlockEnd(lines, start + 1)
  }

  /** The block ends at the first whitespace-only line from `start` on, and
      there is no end exactly when no such line exists. */
  lemma {:induction false} BlockEndIsFirstBlank(lines: seq<string>, start: nat)
    decreases |lines| - start
    ensures var e := BlockEnd(lines, start);
      e.Some? ==> (IsSpaceLine(lines[e.value]) && forall j :: start <= j < e.value ==> !IsSpaceLine(lines[j]))
    ensures BlockEnd(lines, start).None? <==> forall j :: start <= j < |lines| ==> !IsSpaceLine(lines[j])
  {
    if start < |lines| && !IsSpaceLine(lines[start]) {
      BlockEndIsFirstBlank(lines, start + 1);
    }
  }

  /** The level rule of `initContents` and `setContents`: a line that starts
      with a tab has one level per tab anywhere in it; any other line has
      level 0. */
  function Level(line: string): (n: nat)
    ensures n <= |line|
    ensures n > 0 <==> StartsWith(line, "\t")
  {
    if StartsWith(line, "\t") then
      assert line[0] == line[..1][0];
      CountChar(line, '\t')
    else 0
  }

  /** The (string, level) pair of a `Chapter`. */
  datatype Entry = Entry(text: string, level: nat)

  /** The chapter made from one contents line. */
  function ParseLine(line: string): Entry {
    Entry(Strip(line), Level(line))
  }

  /** One chapter per line, in order; blank lines included. */
  function ParseLines(ls: seq<string>): (r: seq<Entry>)
    ensures |r| == |ls|
  {
    if ls == [] then [] else ParseLines(ls[..|ls| - 1]) + [ParseLine(ls[|ls| - 1])]
  }

  lemma ParseLinesAppend(ls: seq<string>, line: string)
    ensures ParseLines(ls + [line]) == ParseLines(ls) + [ParseLine(line)]
  {
    assert (ls + [line])[..|ls|] == ls;
  }

  /** The k-th chapter is made from the k-th line alone. */
  lemma {:induction false} ParseLinesEach(ls: seq<string>)
    ensures forall k :: 0 <= k < |ls| ==> ParseLines(ls)[k] == ParseLine(ls[k])
  {
    if ls != [] {
      ParseLinesEach(ls[..|ls| - 1]);
    }
  }

  /** A heading that is its own strip() and has no tab, written after `n`
      tabs, is parsed back to that heading at level `n`. */
  lemma ParseIndented(n: nat, t: string)
    requires t != [] && Strip(t) == t && '\t' !in t
    ensures ParseLine(Tabs(n) + t) == Entry(t, n)
  {
    assert !IsSpace(t[0]);
    StripAfterSpace(Tabs(n), t);
    if n == 0 {
      assert Tabs(n) + t == t;
    } else {
      assert (Tabs(n) + t)[..1] == "\t";
      CountCharAppend(Tabs(n), t, '\t');
      CountTabs(n);
    }
  }

  /** The rule counts every tab of an indented line, not only the leading
      ones: after the first tab, each tab of the rest adds a level. */
  lemma LevelCountsInnerTabs(t: string)
    ensures Level("\t" + t) == 1 + CountChar(t, '\t')
  {
    assert ("\t" + t)[..1] == "\t";
    CountCharAppend("\t", t, '\t');
    CountTabs(1);
  }

  // ---------------------------------------------------------------------
  // Chapter location

  /** `lines[k]` with Python's negative indexing; None where Python raises
      IndexError. */
  function PyIndex(lines: seq<string>, k: int): (r: Option<string>)
    ensures r.Some? <==> -|lines| <= k < |lines|
  {
    if 0 <= k < |lines| then Some(lines[k])
    else if -|lines| <= k < 0 then Some(lines[|lines| + k])
    else None
  }

  /** Whether locating the chapter headed `text` raises: only a detected type
      reads the line before the found index, and that read raises when the
      index is out of Python's range. */
  predicate LookupRaises(lines: seq<string>, after: nat, detected: bool, text: string) {
    detected && PyIndex(lines, FirstMatch(lines, after, text, "", "") - 1).None?
  }

  /** Whether locating the chapter headed `text` sets its illustration flag:
      for a detected type, when the line before the found index is not
      whitespace-only. */
  predicate FlagsIllustration(lines: seq<string>, after: nat, detected: bool, text: string) {
    detected &&
    match PyIndex(lines, FirstMatch(lines, after, text, "", "") - 1)
    case Some(before) => !IsSpaceLine(before)
    case None => false
  }

  /** The position of the first chapter whose location raises, or the number
      of chapters when none does. */
  function FirstRaise(lines: seq<string>, after: nat, detected: bool, texts: seq<string>): (f: nat)
    decreases |texts|
    ensures f <= |texts|
    ensures forall j :: 0 <= j < f ==> !LookupRaises(lines, after, detected, texts[j])
    ensures f < |texts| ==> LookupRaises(lines, after, detected, texts[f])
  {
    if texts == [] then 0
    else if LookupRaises(lines, after, detected, texts[0]) then 0
    else 1 + FirstRaise(lines, after, detected, texts[1..])
  }

  /** A heading that is not found (index -1) makes the flag test read
      `lines[-2]`, the line before the last one. */
  lemma NotFoundReadsSecondToLast(lines: seq<string>, after: nat, text: string)
    requires FirstMatch(lines, after, text, "", "") == -1 && |lines| >= 2
    ensures FlagsIllustration(lines, after, true, text) == !IsSpaceLine(lines[|lines| - 2])
    ensures !LookupRaises(lines, after, true, text)
  {
  }

  // ---------------------------------------------------------------------
  // Illustrations

  /** The entries `initIllustrationsPath` adds for the directory listing
      `names` of `dir`: every image file under `dir + "/" + name`, unplaced
      (-1), in listing order. */
  function ImageMap(dir: string, names: seq<string>): map<string, int> {
    if names == [] then map[]
    else
      var m := ImageMap(dir, names[..|names| - 1]);
      var name := names[|names| - 1];
      if IsImageName(name) then m[dir + "/" + name := -1] else m
  }

  lemma ImageMapAppend(dir: string, names: seq<string>, name: string)
    ensures ImageMap(dir, names + [name])
      == if IsImageName(name) then ImageMap(dir, names)[dir + "/" + name := -1] else ImageMap(dir, names)
  {
    assert (names + [name])[..|names|] == names;
  }

  /** The image files of the listing, as paths under `dir`. */
  function ImageKeys(dir: string, names: seq<string>): set<string> {
    set n | n in names && IsImageName(n) :: dir + "/" + n
  }

  /** The illustrations listed are exactly the image files of the
      directory, each unplaced. */
  lemma {:induction false} ImageMapListsImages(dir: string, names: seq<string>)
    ensures ImageMap(dir, names).Keys == ImageKeys(dir, names)
    ensures forall key :: key in ImageMap(dir, names) ==> ImageMap(dir, names)[key] == -1
  {
    if names != [] {
      var init := names[..|names| - 1];
      var name := names[|names| - 1];
      ImageMapListsImages(dir, init);
      assert names == init + [name];
      assert ImageKeys(dir, names)
        == ImageKeys(dir, init) + (if IsImageName(name) then {dir + "/" + name} else {});
    }
  }
}
