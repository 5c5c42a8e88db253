/** The parts of Python's `posixpath` that place an illustration:
    `splitext`, `basename`, and the image-name filter applied to a directory
    listing. */
module PyPath {
  import opened PyText

  /** `s.rfind(c)`: the last index of `c` in `s`, or -1. */
  function LastIndexOf(s: string, c: char): (r: int)
    ensures -1 <= r < |s|
    ensures r >= 0 ==> s[r] == c
    ensures forall j :: r < j < |s| ==> s[j] != c
  {
    if s == [] then -1
    else if s[|s| - 1] == c then |s| - 1
    else LastIndexOf(s[..|s| - 1], c)
  }

  /** The first part of `posixpath.splitext(p)`: the path without the
      extension of its last component. The extension starts at the last '.'
      after the last '/', and only when some character other than '.' comes
      before it in that component (so ".png" has no extension). */
  function SplitExtRoot(p: string): (r: string)
    ensures |r| <= |p| && r == p[..|r|]
  {
    var sepIndex := LastIndexOf(p, '/');
    var dotIndex := LastIndexOf(p, '.');
    if dotIndex > sepIndex && exists k :: sepIndex + 1 <= k < dotIndex && p[k] != '.'
    then p[..dotIndex]
    else p
  }

  /** `posixpath.basename(p)`: the text after the last '/'. */
  function BaseName(p: string): (r: string)
    ensures '/' !in r
  {
    p[LastIndexOf(p, '/') + 1..]
  }

  /** `os.path.basename(os.path.splitext(p)[0])`: the name an illustration is
      searched for in the text. */
  function Stem(p: string): string {
    BaseName(SplitExtRoot(p))
  }

  /** The extension filter of the directory listing. */
  predicate IsImageName(name: string) {
    EndsWith(name, ".png") || EndsWith(name, ".webp") || EndsWith(name, ".jpg")
  }

  /** Characters that never occur after a given position leave the last index
      to the part before it. */
  lemma {:induction false} LastIndexOfAppend(a: string, b: string, c: char)
    requires c !in b
    ensures LastIndexOf(a + b, c) == LastIndexOf(a, c)
  {
    if b != [] {
      assert (a + b)[..|a + b| - 1] == a + b[..|b| - 1];
      LastIndexOfAppend(a, b[..|b| - 1], c);
    } else {
      assert a + b == a;
    }
  }

  /** An image file `base + ext` listed in directory `dir` is searched for
      under `base`: the directory and the extension are dropped. */
  lemma StemOfImage(dir: string, base: string, ext: string)
    requires ext == ".png" || ext == ".webp" || ext == ".jpg"
    requires '/' !in base
    requires exists k :: 0 <= k < |base| && base[k] != '.'
    ensures IsImageName(base + ext)
    ensures Stem(dir + "/" + base + ext) == base
  {
    assert (base + ext)[|base + ext| - |ext|..] == ext;
    StemDropsExtension(dir, base, ext);
  }

  lemma StemDropsExtension(dir: string, base: string, ext: string)
    requires ext != [] && ext[0] == '.' && '.' !in ext[1..] && '/' !in ext
    requires '/' !in base
    requires exists k :: 0 <= k < |base| && base[k] != '.'
    ensures Stem(dir + "/" + base + ext) == base
  {
    var head := dir + "/" + base;
    assert SplitExtRoot(head + ext) == head by {
      SplitExtRootDropsExtension(dir, base, ext);
    }
    assert BaseName(head) == base by {
      assert head == (dir + "/") + base;
      LastIndexOfAppend(dir + "/", base, '/');
      assert head[|dir| + 1..] == base;
    }
  }

  lemma SplitExtRootDropsExtension(dir: string, base: string, ext: string)
    requires ext != [] && ext[0] == '.' && '.' !in ext[1..] && '/' !in ext
    requires '/' !in base
    requires exists k :: 0 <= k < |base| && base[k] != '.'
    ensures SplitExtRoot(dir + "/" + base + ext) == dir + "/" + base
  {
    var head := dir + "/" + base;
    var p := head + ext;
    LastDotIsExtension(head, ext);
    LastSlashEndsDirectory(dir, base + ext);
    assert p == (dir + "/") + (base + ext);
    var k :| 0 <= k < |base| && base[k] != '.';
    assert p[|dir| + 1 + k] == base[k];
    assert p[..|head|] == head;
  }

  /** The last '.' of `head + ext` is the one that starts `ext`. */
  lemma LastDotIsExtension(head: string, ext: string)
    requires ext != [] && ext[0] == '.' && '.' !in ext[1..]
    ensures LastIndexOf(head + ext, '.') == |head|
  {
    assert head + ext == (head + ".") + ext[1..];
    LastIndexOfAppend(head + ".", ext[1..], '.');
  }

  /** The last '/' of `dir + "/" + rest` precedes `rest` when `rest` has
      none. */
  lemma LastSlashEndsDirectory(dir: string, rest: string)
    requires '/' !in rest
    ensures LastIndexOf((dir + "/") + rest, '/') == |dir|
  {
    LastIndexOfAppend(dir + "/", rest, '/');
  }
}
