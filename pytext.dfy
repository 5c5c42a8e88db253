/** The parts of Python's `str` that the book parser relies on: the
    whitespace set of `str.isspace` and `str.strip()`, the line boundaries of
    `str.splitlines()`, `str.split(sep)`, and the `in`, `startswith` and
    `endswith` tests. */
module PyText {

  /** A character Python counts as whitespace (`str.isspace`, `str.strip()`).
      It includes the ideographic space U+3000. */
  predicate IsSpace(c: char) {
    c == '\t' || c == '\n' || c == '\U{B}' || c == '\U{C}' || c == '\r'
    || ('\U{1C}' <= c <= '\U{1F}') || c == ' ' || c == '\U{85}' || c == '\U{A0}'
    || c == '\U{1680}' || ('\U{2000}' <= c <= '\U{200A}')
    || c == '\U{2028}' || c == '\U{2029}' || c == '\U{202F}' || c == '\U{205F}'
    || c == '\U{3000}'
  }

  /** A character at which `str.splitlines()` ends a line. Every one of them
      is also whitespace. */
  predicate IsLineBreak(c: char)
    ensures IsLineBreak(c) ==> IsSpace(c)
  {
    c == '\n' || c == '\r' || c == '\U{B}' || c == '\U{C}'
    || ('\U{1C}' <= c <= '\U{1E}') || c == '\U{85}'
    || c == '\U{2028}' || c == '\U{2029}'
  }

  /** `sub in s` */
  predicate Contains(s: string, sub: string) {
    exists i :: 0 <= i <= |s| - |sub| && OccursAt(s, sub, i)
  }

  /** `sub` occurs in `s` starting at index `i`. */
  predicate OccursAt(s: string, sub: string, i: nat) {
    i + |sub| <= |s| && s[i..i + |sub|] == sub
  }

  /** `s.startswith(p)` */
  predicate StartsWith(s: string, p: string) {
    |p| <= |s| && s[..|p|] == p
  }

  /** `s.endswith(x)` */
  predicate EndsWith(s: string, x: string) {
    |x| <= |s| && s[|s| - |x|..] == x
  }

  /** `s.isspace()`: true only for a non-empty string of whitespace, so
      `"".isspace()` is false. */
  predicate IsSpaceLine(s: string) {
    |s| > 0 && forall i :: 0 <= i < |s| ==> IsSpace(s[i])
  }

  predicate HasNoLineBreak(s: string) {
    forall i :: 0 <= i < |s| ==> !IsLineBreak(s[i])
  }

  /** The number of whitespace characters `strip()` removes at the front. */
  function LeadingSpace(s: string): (n: nat)
    ensures n <= |s|
  {
    if s != [] && IsSpace(s[0]) then 1 + LeadingSpace(s[1..]) else 0
  }

  /** The number of whitespace characters `strip()` removes at the back. */
  function TrailingSpace(s: string): (n: nat)
    ensures n <= |s|
  {
    if s != [] && IsSpace(s[|s| - 1]) then 1 + TrailingSpace(s[..|s| - 1]) else 0
  }

  /** The leading whitespace run: all whitespace, and followed by a
      character that is not. */
  lemma {:induction false} LeadingSpaceSpec(s: string)
    ensures forall i :: 0 <= i < LeadingSpace(s) ==> IsSpace(s[i])
    ensures LeadingSpace(s) < |s| ==> !IsSpace(s[LeadingSpace(s)])
  {
    if s != [] && IsSpace(s[0]) {
      LeadingSpaceSpec(s[1..]);
    }
  }

  /** The trailing whitespace run: all whitespace, and preceded by a
      character that is not. */
  lemma {:induction false} TrailingSpaceSpec(s: string)
    ensures forall i :: |s| - TrailingSpace(s) <= i < |s| ==> IsSpace(s[i])
    ensures TrailingSpace(s) < |s| ==> !IsSpace(s[|s| - 1 - TrailingSpace(s)])
  {
    if s != [] && IsSpace(s[|s| - 1]) {
      TrailingSpaceSpec(s[..|s| - 1]);
    }
  }

  /** `s.strip()`: `s` without its leading and its trailing whitespace. */
  function Strip(s: string): (r: string)
    ensures |r| <= |s|
  {
    var t := s[LeadingSpace(s)..];
    t[..|t| - TrailingSpace(t)]
  }

  /** What `strip()` promises: the result is a middle part of `s`, what is
      cut off on either side is whitespace, the result neither begins nor
      ends with whitespace, and it is empty exactly when `s` is all
      whitespace. */
  lemma StripSpec(s: string)
    ensures var r := Strip(s);
      exists a, b :: (0 <= a <= b <= |s| && r == s[a..b]
      && (forall i :: 0 <= i < a ==> IsSpace(s[i]))
      && (forall i :: b <= i < |s| ==> IsSpace(s[i])))
    ensures var r := Strip(s); r != [] ==> !IsSpace(r[0]) && !IsSpace(r[|r| - 1])
    ensures Strip(s) == [] <==> (forall i :: 0 <= i < |s| ==> IsSpace(s[i]))
  {
    StripIsMiddle(s);
    StripEnds(s);
    StripEmpty(s);
  }

  lemma StripIsMiddle(s: string)
    ensures var r := Strip(s);
      exists a, b :: (0 <= a <= b <= |s| && r == s[a..b]
      && (forall i :: 0 <= i < a ==> IsSpace(s[i]))
      && (forall i :: b <= i < |s| ==> IsSpace(s[i])))
  {
    var a := LeadingSpace(s);
    var t := s[a..];
    var n := TrailingSpace(t);
    var b := |s| - n;
    LeadingSpaceSpec(s);
    TrailingSpaceSpec(t);
    assert Strip(s) == s[a..b] by {
      assert s[a..b] == t[..|t| - n];
    }
    forall i | b <= i < |s|
      ensures IsSpace(s[i])
    {
      assert s[i] == t[i - a];
    }
  }

  lemma StripEnds(s: string)
    ensures var r := Strip(s); r != [] ==> !IsSpace(r[0]) && !IsSpace(r[|r| - 1])
  {
    var a := LeadingSpace(s);
    var t := s[a..];
    var n := TrailingSpace(t);
    var r := t[..|t| - n];
    if r != [] {
      LeadingSpaceSpec(s);
      TrailingSpaceSpec(t);
      assert r[0] == s[a];
      assert r[|r| - 1] == t[|t| - 1 - n];
    }
  }

  lemma StripEmpty(s: string)
    ensures Strip(s) == [] <==> (forall i :: 0 <= i < |s| ==> IsSpace(s[i]))
  {
    var a := LeadingSpace(s);
    var t := s[a..];
    var n := TrailingSpace(t);
    LeadingSpaceSpec(s);
    TrailingSpaceSpec(t);
    if forall i :: 0 <= i < |s| ==> IsSpace(s[i]) {
      assert a == |s|;
    }
  }

  /** A string that begins and ends with a non-whitespace character is its
      own `strip()`. */
  lemma StripOfStripped(s: string)
    requires s != [] && !IsSpace(s[0]) && !IsSpace(s[|s| - 1])
    ensures Strip(s) == s
  {
    assert LeadingSpace(s) == 0;
    assert s[0..] == s;
    assert TrailingSpace(s) == 0;
  }

  /** Whitespace in front of text that begins with a non-whitespace
      character is exactly what `strip()` removes at the front. */
  lemma {:induction false} StripAfterSpace(w: string, t: string)
    requires forall i :: 0 <= i < |w| ==> IsSpace(w[i])
    requires t != [] && !IsSpace(t[0])
    ensures Strip(w + t) == Strip(t)
  {
    LeadingSpaceOfPadded(w, t);
    assert (w + t)[|w|..] == t;
    assert t[0..] == t;
  }

  lemma {:induction false} LeadingSpaceOfPadded(w: string, t: string)
    requires forall i :: 0 <= i < |w| ==> IsSpace(w[i])
    requires t != [] && !IsSpace(t[0])
    ensures LeadingSpace(w + t) == |w|
  {
    if w != [] {
      assert (w + t)[1..] == w[1..] + t;
      LeadingSpaceOfPadded(w[1..], t);
    } else {
      assert w + t == t;
    }
  }

  /** Whitespace after text that ends in a non-whitespace character is
      exactly what `strip()` removes at the back. */
  lemma {:induction false} StripBeforeSpace(t: string, w: string)
    requires forall i :: 0 <= i < |w| ==> IsSpace(w[i])
    requires t != [] && !IsSpace(t[0]) && !IsSpace(t[|t| - 1])
    ensures Strip(t + w) == t
  {
    assert LeadingSpace(t + w) == 0;
    assert (t + w)[0..] == t + w;
    TrailingSpaceOfPadded(t, w);
    assert (t + w)[..|t|] == t;
  }

  /** Whitespace on both sides of a string that neither begins nor ends
      with whitespace is exactly what `strip()` removes. */
  lemma StripPadded(w: string, t: string, x: string)
    requires forall i :: 0 <= i < |w| ==> IsSpace(w[i])
    requires forall i :: 0 <= i < |x| ==> IsSpace(x[i])
    requires t != [] && !IsSpace(t[0]) && !IsSpace(t[|t| - 1])
    ensures Strip(w + (t + x)) == t
  {
    StripAfterSpace(w, t + x);
    StripBeforeSpace(t, x);
  }

  lemma {:induction false} TrailingSpaceOfPadded(t: string, w: string)
    requires forall i :: 0 <= i < |w| ==> IsSpace(w[i])
    requires t != [] && !IsSpace(t[|t| - 1])
    ensures TrailingSpace(t + w) == |w|
  {
    if w != [] {
      var u := t + w;
      assert u[..|u| - 1] == t + w[..|w| - 1];
      TrailingSpaceOfPadded(t, w[..|w| - 1]);
    } else {
      assert t + w == t;
    }
  }

  /** The number of occurrences of `c` in `s`. */
  function CountChar(s: string, c: char): (n: nat)
    ensures n <= |s|
    ensures n == 0 <==> c !in s
  {
    if s == [] then 0
    else CountChar(s[..|s| - 1], c) + (if s[|s| - 1] == c then 1 else 0)
  }

  lemma {:induction false} CountCharAppend(a: string, b: string, c: char)
    ensures CountChar(a + b, c) == CountChar(a, c) + CountChar(b, c)
  {
    if b == [] {
      assert a + b == a;
    } else {
      assert (a + b)[..|a + b| - 1] == a + b[..|b| - 1];
      CountCharAppend(a, b[..|b| - 1], c);
    }
  }

  /** `"\t" * n` */
  function Tabs(n: nat): (r: string)
    ensures |r| == n && forall i :: 0 <= i < n ==> r[i] == '\t'
  {
    seq(n, _ => '\t')
  }

  lemma {:induction false} CountTabs(n: nat)
    ensures CountChar(Tabs(n), '\t') == n
  {
    if n > 0 {
      assert Tabs(n)[..n - 1] == Tabs(n - 1);
      CountTabs(n - 1);
    }
  }

  /** The first index of `c` in `s`, or `|s|` when there is none. */
  function IndexOf(s: string, c: char): (i: nat)
    ensures i <= |s|
    ensures forall j :: 0 <= j < i ==> s[j] != c
    ensures i < |s| ==> s[i] == c
  {
    if s == [] then 0 else if s[0] == c then 0 else 1 + IndexOf(s[1..], c)
  }

  /** `s.split(sep)` for a one-character separator: the pieces between the
      occurrences of `sep`; there are two or more exactly when `sep` occurs. */
  function Split(s: string, sep: char): (r: seq<string>)
    decreases |s|
    ensures |r| >= 1
    ensures |r| >= 2 <==> sep in s
    ensures forall k :: 0 <= k < |r| ==> sep !in r[k]
  {
    var i := IndexOf(s, sep);
    if i == |s| then [s] else [s[..i]] + Split(s[i + 1..], sep)
  }

  /** `sep.join(parts)` */
  function Join(parts: seq<string>, sep: string): string {
    if parts == [] then ""
    else if |parts| == 1 then parts[0]
    else parts[0] + sep + Join(parts[1..], sep)
  }

  /** A join ends with the last part. */
  lemma {:induction false} JoinEndsWithLast(parts: seq<string>, sep: string)
    requires parts != []
    ensures EndsWith(Join(parts, sep), parts[|parts| - 1])
  {
    if |parts| > 1 {
      JoinEndsWithLast(parts[1..], sep);
      var j := Join(parts[1..], sep);
      var last := parts[|parts| - 1];
      assert (parts[0] + sep + j)[|parts[0] + sep + j| - |last|..] == j[|j| - |last|..];
    }
  }

  /** A join begins with the first part. */
  lemma JoinStartsWithFirst(parts: seq<string>, sep: string)
    requires parts != []
    ensures StartsWith(Join(parts, sep), parts[0])
  {
    if |parts| > 1 {
      assert Join(parts, sep)[..|parts[0]|] == parts[0];
    }
  }

  /** A join whose last part is not empty ends with that part's last
      character. */
  lemma JoinLastChar(parts: seq<string>, sep: string)
    requires parts != [] && parts[|parts| - 1] != []
    ensures var j := Join(parts, sep); var l := parts[|parts| - 1];
      j != [] && j[|j| - 1] == l[|l| - 1]
  {
    JoinEndsWithLast(parts, sep);
  }

  /** Joining one more part at the end adds the separator and that part. */
  lemma {:induction false} JoinAppend(parts: seq<string>, sep: string, last: string)
    requires parts != []
    ensures Join(parts + [last], sep) == Join(parts, sep) + sep + last
  {
    var ps := parts + [last];
    assert ps[0] == parts[0] && |ps| > 1;
    if |parts| == 1 {
      assert ps[1..] == [last];
    } else {
      assert ps[1..] == parts[1..] + [last];
      JoinAppend(parts[1..], sep, last);
    }
  }

  /** Text put before the first part comes before the whole join. */
  lemma JoinExtendsFirst(parts: seq<string>, sep: string, a: string)
    requires parts != []
    ensures Join(parts[0 := a + parts[0]], sep) == a + Join(parts, sep)
  {
    var ps := parts[0 := a + parts[0]];
    if |parts| > 1 {
      assert ps[1..] == parts[1..];
    }
  }

  /** Splitting and joining again with the same separator gives back the
      original string. */
  lemma {:induction false} JoinSplit(s: string, sep: char)
    ensures Join(Split(s, sep), [sep]) == s
    decreases |s|
  {
    var i := IndexOf(s, sep);
    if i < |s| {
      var rest := s[i + 1..];
      var parts := Split(rest, sep);
      JoinSplit(rest, sep);
      var p := [s[..i]] + parts;
      assert Split(s, sep) == p;
      assert p[0] == s[..i] && p[1..] == parts && |p| > 1;
      assert Join(p, [sep]) == s[..i] + [sep] + Join(parts, [sep]);
      assert s == s[..i] + [sep] + rest;
    }
  }

  /** The first index in `s` that ends a line, or `|s|`. */
  function LineBreakAt(s: string): (i: nat)
    ensures i <= |s|
  {
    if s == [] then 0 else if IsLineBreak(s[0]) then 0 else 1 + LineBreakAt(s[1..])
  }

  /** The line ends at the first line break, if there is one. */
  lemma {:induction false} LineBreakAtSpec(s: string)
    ensures forall j :: 0 <= j < LineBreakAt(s) ==> !IsLineBreak(s[j])
    ensures LineBreakAt(s) < |s| ==> IsLineBreak(s[LineBreakAt(s)])
  {
    if s != [] && !IsLineBreak(s[0]) {
      LineBreakAtSpec(s[1..]);
    }
  }

  /** `s.splitlines()`: the lines of `s` without their terminators; "\r\n"
      ends one line, and a terminator at the very end does not start an
      empty last line. */
  function SplitLines(s: string): (r: seq<string>)
    decreases |s|
    ensures r == [] <==> s == []
  {
    if s == [] then []
    else
      var i := LineBreakAt(s);
      if i == |s| then [s]
      else
        var next := if s[i] == '\r' && i + 1 < |s| && s[i + 1] == '\n' then i + 2 else i + 1;
        [s[..i]] + SplitLines(s[next..])
  }

  /** No line of `splitlines()` holds a line break. */
  lemma {:induction false} SplitLinesHaveNoBreaks(s: string)
    decreases |s|
    ensures forall k :: 0 <= k < |SplitLines(s)| ==> HasNoLineBreak(SplitLines(s)[k])
  {
    if s != [] {
      var i := LineBreakAt(s);
      LineBreakAtSpec(s);
      assert HasNoLineBreak(s[..i]);
      if i < |s| {
        var next := if s[i] == '\r' && i + 1 < |s| && s[i + 1] == '\n' then i + 2 else i + 1;
        SplitLinesHaveNoBreaks(s[next..]);
      }
    }
  }

  /** Lines free of line breaks, joined with "\n", split back into the same
      lines, provided the last one is not empty. */
  lemma {:induction false} SplitLinesJoin(ls: seq<string>)
    requires ls != [] && ls[|ls| - 1] != []
    requires forall k :: 0 <= k < |ls| ==> HasNoLineBreak(ls[k])
    ensures SplitLines(Join(ls, "\n")) == ls
  {
    if |ls| == 1 {
      assert Join(ls, "\n") == ls[0];
      LineBreakAtSpec(ls[0]);
    } else {
      var rest := Join(ls[1..], "\n");
      assert Join(ls, "\n") == ls[0] + "\n" + rest;
      SplitLinesCons(ls[0], rest);
      SplitLinesJoin(ls[1..]);
      assert ls == [ls[0]] + ls[1..];
    }
  }

  /** A line without line breaks followed by "\n" is the first line. */
  lemma SplitLinesCons(a: string, rest: string)
    requires HasNoLineBreak(a)
    ensures SplitLines(a + "\n" + rest) == [a] + SplitLines(rest)
  {
    var s := a + "\n" + rest;
    assert s == a + ("\n" + rest);
    LineBreakPrefix(a, "\n" + rest);
    assert s[..|a|] == a;
    assert s[|a| + 1..] == rest;
  }

  lemma {:induction false} LineBreakPrefix(a: string, b: string)
    requires HasNoLineBreak(a) && b != [] && IsLineBreak(b[0])
    ensures LineBreakAt(a + b) == |a|
  {
    if a != [] {
      assert (a + b)[1..] == a[1..] + b;
      LineBreakPrefix(a[1..], b);
    }
  }

  /** The number of leading byte-order marks of `s`. */
  function BomCount(s: string): (n: nat)
    ensures n <= |s|
    ensures forall i :: 0 <= i < n ==> s[i] == '\U{FEFF}'
    ensures n < |s| ==> s[n] != '\U{FEFF}'
  {
    if s != [] && s[0] == '\U{FEFF}' then 1 + BomCount(s[1..]) else 0
  }

  /** `s.lstrip('\ufeff')`: every leading byte-order mark removed; what is
      left is a suffix of `s` that does not begin with one. */
  function StripBom(s: string): (r: string)
    ensures |r| <= |s| && r == s[|s| - |r|..]
    ensures forall i :: 0 <= i < |s| - |r| ==> s[i] == '\U{FEFF}'
    ensures r == [] || r[0] != '\U{FEFF}'
  {
    s[BomCount(s)..]
  }

  /** A document and the same document behind a byte-order mark have the
      same lines. */
  lemma BomIgnored(s: string)
    ensures SplitLines(StripBom(['\U{FEFF}'] + s)) == SplitLines(StripBom(s))
  {
    assert (['\U{FEFF}'] + s)[1..] == s;
  }
}
