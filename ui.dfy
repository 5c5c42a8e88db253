/** `ui.py`: the serializer of `on_openFileButton_clicked` that shows a
    book's contents as tab-indented text, and the way that text, handed back
    unedited to `setContents`, rebuilds the contents. */
module Ui {
  import opened Wrappers
  import opened PyText
  import opened BookRules
  import opened Book

  /** One chapter as the serializer writes it, without the newline: one tab
      per level, then the heading. */
  function IndentedText(e: Entry): string {
    Tabs(e.level) + e.text
  }

  /** The chapters' indented headings, in order. */
  function IndentedTexts(es: seq<Entry>): (r: seq<string>)
    ensures |r| == |es|
    ensures forall k :: 0 <= k < |es| ==> r[k] == IndentedText(es[k])
  {
    if es == [] then [] else IndentedTexts(es[..|es| - 1]) + [IndentedText(es[|es| - 1])]
  }

  /** The contents text before its final `strip()`: each chapter's indented
      heading followed by "\n", in contents order. */
  function Render(es: seq<Entry>): string {
    if es == [] then "" else Render(es[..|es| - 1]) + IndentedText(es[|es| - 1]) + "\n"
  }

  /** The serializer: nothing for an empty contents list; otherwise the
      chapters' lines concatenated one by one and stripped once. */
  method SerializeContents(chapters: seq<Chapter>) returns (text: Option<string>)
    ensures text == if chapters == [] then None else Some(Strip(Render(EntriesOf(chapters))))
  {
    if chapters == [] {
      return None;
    }
    var contents := "";
    for k := 0 to |chapters|
      invariant contents == Render(EntriesOf(chapters[..k]))
    {
      var chapter := chapters[k];
      var indent := Tabs(chapter.level);
      EntriesAppend(chapters[..k], chapter);
      assert chapters[..k + 1] == chapters[..k] + [chapter];
      RenderAppend(EntriesOf(chapters[..k]), Entry(chapter.text, chapter.level));
      contents := contents + indent + chapter.text + "\n";
    }
    assert chapters[..|chapters|] == chapters;
    text := Some(Strip(contents));
  }

  lemma RenderAppend(es: seq<Entry>, e: Entry)
    ensures Render(es + [e]) == Render(es) + IndentedText(e) + "\n"
  {
    assert (es + [e])[..|es|] == es;
  }

  /** Before the strip, the text is the chapters' indented headings joined
      with "\n", with one more "\n" at the end. */
  lemma {:induction false} RenderIsJoin(es: seq<Entry>)
    requires es != []
    ensures Render(es) == Join(IndentedTexts(es), "\n") + "\n"
  {
    var init := es[..|es| - 1];
    var last := es[|es| - 1];
    if init == [] {
      assert IndentedTexts(es) == [IndentedText(last)];
    } else {
      RenderIsJoin(init);
      assert IndentedTexts(es) == IndentedTexts(init) + [IndentedText(last)];
      JoinAppend(IndentedTexts(init), "\n", IndentedText(last));
    }
  }

  /** A heading the round trip can carry: not empty, neither beginning nor
      ending with whitespace (so it is its own `strip()`), and free of tabs
      and line breaks. */
  predicate Serializable(text: string) {
    && text != [] && !IsSpace(text[0]) && !IsSpace(text[|text| - 1])
    && '\t' !in text && HasNoLineBreak(text)
  }

  /** A serializable heading is parsed back from its indented line. */
  lemma ParseIndentedText(e: Entry)
    requires Serializable(e.text)
    ensures ParseLine(IndentedText(e)) == e
  {
    StripOfStripped(e.text);
    ParseIndented(e.level, e.text);
  }

  /** The serialized lines: the first chapter's tabs are gone, every other
      line keeps its indentation. */
  function ShownLines(es: seq<Entry>): (r: seq<string>)
    requires es != []
    ensures |r| == |es|
  {
    IndentedTexts(es)[0 := es[0].text]
  }

  /** The final `strip()` removes the first chapter's tabs and the last
      newline and nothing else. */
  lemma StripRender(es: seq<Entry>)
    requires es != []
    requires Serializable(es[0].text) && Serializable(es[|es| - 1].text)
    ensures Strip(Render(es)) == Join(ShownLines(es), "\n")
  {
    RenderAroundShown(es);
    StripAroundShown(es);
  }

  /** The rendered text is the first chapter's tabs, the shown text and a
      final newline. */
  lemma RenderAroundShown(es: seq<Entry>)
    requires es != []
    ensures Render(es) == Tabs(es[0].level) + (Join(ShownLines(es), "\n") + "\n")
  {
    var shown := ShownLines(es);
    var tabs := Tabs(es[0].level);
    RenderIsJoin(es);
    assert shown[0 := tabs + shown[0]] == IndentedTexts(es);
    JoinExtendsFirst(shown, "\n", tabs);
  }

  lemma StripAroundShown(es: seq<Entry>)
    requires es != []
    requires Serializable(es[0].text) && Serializable(es[|es| - 1].text)
    ensures Strip(Tabs(es[0].level) + (Join(ShownLines(es), "\n") + "\n")) == Join(ShownLines(es), "\n")
  {
    ShownEnds(es);
    StripPadded(Tabs(es[0].level), Join(ShownLines(es), "\n"), "\n");
  }

  /** The shown text begins with the first heading's first character and
      ends with the last heading's last character. */
  lemma ShownEnds(es: seq<Entry>)
    requires es != [] && es[0].text != [] && es[|es| - 1].text != []
    ensures var j := Join(ShownLines(es), "\n"); var tn := es[|es| - 1].text;
      j != [] && j[0] == es[0].text[0] && j[|j| - 1] == tn[|tn| - 1]
  {
    var shown := ShownLines(es);
    JoinStartsWithFirst(shown, "\n");
    var l := shown[|shown| - 1];
    var tn := es[|es| - 1].text;
    assert l != [] && l[|l| - 1] == tn[|tn| - 1];
    JoinLastChar(shown, "\n");
  }

  /** Handing the serialized text back to `setContents` unedited rebuilds
      every chapter's heading and level, except that the first chapter comes
      back at level 0. */
  lemma ContentsRoundTrip(es: seq<Entry>)
    requires es != []
    requires forall k :: 0 <= k < |es| ==> Serializable(es[k].text)
    ensures ParseLines(SplitLines(Strip(Render(es)))) == es[0 := Entry(es[0].text, 0)]
  {
    StripRender(es);
    SplitShown(es);
    ParseShown(es);
  }

  /** The shown lines have no line breaks, so `splitlines()` gives them
      back. */
  lemma SplitShown(es: seq<Entry>)
    requires es != []
    requires forall k :: 0 <= k < |es| ==> Serializable(es[k].text)
    ensures SplitLines(Join(ShownLines(es), "\n")) == ShownLines(es)
  {
    var shown := ShownLines(es);
    forall k | 0 <= k < |shown|
      ensures HasNoLineBreak(shown[k])
    {
      NoLineBreakInIndented(es[k]);
    }
    assert shown[|shown| - 1] != [];
    SplitLinesJoin(shown);
  }

  /** Each shown line is parsed back to its chapter; the first at level 0. */
  lemma ParseShown(es: seq<Entry>)
    requires es != []
    requires forall k :: 0 <= k < |es| ==> Serializable(es[k].text)
    ensures ParseLines(ShownLines(es)) == es[0 := Entry(es[0].text, 0)]
  {
    var shown := ShownLines(es);
    ParseLinesEach(shown);
    forall k | 0 <= k < |es|
      ensures ParseLine(shown[k]) == es[0 := Entry(es[0].text, 0)][k]
    {
      if k == 0 {
        ParseIndentedText(Entry(es[0].text, 0));
        assert IndentedText(Entry(es[0].text, 0)) == es[0].text;
      } else {
        ParseIndentedText(es[k]);
      }
    }
  }

  lemma NoLineBreakInIndented(e: Entry)
    requires HasNoLineBreak(e.text)
    ensures HasNoLineBreak(IndentedText(e))
  {
    var s := IndentedText(e);
    forall i | 0 <= i < |s|
      ensures !IsLineBreak(s[i])
    {
      if i >= e.level {
        assert s[i] == e.text[i - e.level];
      }
    }
  }

  /** With the first chapter at level 0 the round trip is exact. */
  lemma ContentsRoundTripAtTopLevel(es: seq<Entry>)
    requires es != [] && es[0].level == 0
    requires forall k :: 0 <= k < |es| ==> Serializable(es[k].text)
    ensures ParseLines(SplitLines(Strip(Render(es)))) == es
  {
    ContentsRoundTrip(es);
    FirstAtTopLevel(es);
  }

  /** Resetting a level-0 first chapter to level 0 changes nothing. Kept
      apart so that its proof does not see the round trip's quantifiers. */
  lemma FirstAtTopLevel(es: seq<Entry>)
    requires es != [] && es[0].level == 0
    ensures es[0 := Entry(es[0].text, 0)] == es
  {
  }

  /** The text shown after `initContents`, handed back unedited through
      `setContents` when the dialog is confirmed: the book's chapters are
      replaced by new ones parsed from the serialized text. When every
      heading is serializable, they have the same headings and levels,
      except that the first comes back at level 0. */
  method ResubmitContents(book: RawBook)
    requires Consistent(book.lines, book.contentsIndex, book.afterContentsIndex, book.contents)
    requires book.contents != []
    modifies book`rawContents, book`contents
    ensures Consistent(book.lines, book.contentsIndex, book.afterContentsIndex, book.contents)
    ensures book.rawContents == Strip(Render(old(EntriesOf(book.contents))))
    ensures EntriesOf(book.contents) == ParseLines(SplitLines(Strip(Render(old(EntriesOf(book.contents))))))
    ensures (forall k :: 0 <= k < |old(book.contents)| ==> Serializable(old(book.contents[k].text))) ==>
      EntriesOf(book.contents) == old(EntriesOf(book.contents))[0 := Entry(old(book.contents[0].text), 0)]
    ensures forall k :: 0 <= k < |book.contents| ==>
      fresh(book.contents[k]) && book.contents[k].index == 0 && !book.contents[k].illustration
  {
    var es := EntriesOf(book.contents);
    var text := SerializeContents(book.contents);
    if forall k :: 0 <= k < |es| ==> Serializable(es[k].text) {
      ContentsRoundTrip(es);
    }
    book.SetContents(text.value);
  }

  /** A heading that holds tabs, serialized below the top level, is read
      back one level lower for every tab inside it: `Entry("A\tB", 2)` is
      written as "\t\tA\tB" and comes back at level 3. */
  lemma InnerTabsLowerLevel(e: Entry)
    requires e.level > 0
    requires e.text != [] && !IsSpace(e.text[0]) && !IsSpace(e.text[|e.text| - 1])
    ensures ParseLine(IndentedText(e)) == Entry(e.text, e.level + CountChar(e.text, '\t'))
  {
    StripOfStripped(e.text);
    StripAfterSpace(Tabs(e.level), e.text);
    assert IndentedText(e)[..1] == "\t";
    CountCharAppend(Tabs(e.level), e.text, '\t');
    CountTabs(e.level);
  }
}
