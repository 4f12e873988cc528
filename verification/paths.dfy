/** The parts of `pathlib.Path` the converter uses: `/` (joining), `.name`,
    `.suffix` and `.stem`. Paths are '/'-separated strings in normal form:
    no trailing separator, no repeated separators. */
module Paths {
  import opened Strings

  type Path = string

  /** `dir / name`. */
  function Join(dir: Path, name: string): Path
  {
    dir + "/" + name
  }

  /** `Path(p).name`: the final component, the text after the last '/'. */
  function BaseName(p: Path): (r: string)
    ensures '/' !in r
    ensures |r| <= |p|
  {
    if p == [] then []
    else if p[|p| - 1] == '/' then []
    else BaseName(p[..|p| - 1]) + [p[|p| - 1]]
  }

  /** The base name is what follows the last separator: it ends the path,
      and either it is the whole path or a '/' stands just before it. */
  lemma {:induction false} BaseNameIsLastComponent(p: Path)
    ensures p[|p| - |BaseName(p)|..] == BaseName(p)
    ensures |BaseName(p)| < |p| ==> p[|p| - |BaseName(p)| - 1] == '/'
  {
    if p != [] && p[|p| - 1] != '/' {
      var init := p[..|p| - 1];
      var b := BaseName(init);
      BaseNameIsLastComponent(init);
      assert BaseName(p) == b + [p[|p| - 1]];
      var start := |init| - |b|;
      assert p[start..] == init[start..] + [p[|p| - 1]];
      if start > 0 {
        assert p[start - 1] == init[start - 1];
      }
    }
  }

  /** `s.rfind('.')`: the index of the last '.', or -1 when there is none. */
  function LastDot(s: string): (i: int)
    ensures -1 <= i < |s|
    ensures 0 <= i ==> s[i] == '.'
  {
    if s == [] then -1
    else if s[|s| - 1] == '.' then |s| - 1
    else LastDot(s[..|s| - 1])
  }

  /** No '.' follows the one `rfind` reports. */
  lemma {:induction false} LastDotIsLast(s: string)
    ensures forall j :: LastDot(s) < j < |s| ==> s[j] != '.'
  {
    if s != [] && s[|s| - 1] != '.' {
      LastDotIsLast(s[..|s| - 1]);
    }
  }

  /** pathlib's rule: a final component has a suffix when its last '.' is
      neither its first nor its last character. */
  predicate HasSuffix(name: string)
  {
    0 < LastDot(name) < |name| - 1
  }

  /** `Path(p).suffix`: from the last '.' of the final component to its end,
      or empty ("archive", ".hidden" and "trailing." have none). */
  function Suffix(p: Path): (r: string)
    ensures r == [] || (2 <= |r| && r[0] == '.')
  {
    var name := BaseName(p);
    if HasSuffix(name) then name[LastDot(name)..] else []
  }

  /** `Path(p).stem`: the final component without its suffix. */
  function Stem(p: Path): (r: string)
    ensures '/' !in r
    ensures |r| <= |BaseName(p)|
  {
    var name := BaseName(p);
    if HasSuffix(name) then name[..LastDot(name)] else name
  }

  /** A suffix is a single '.' followed by at least one character, none of
      them a '.' or a separator, and it ends the final component. */
  lemma SuffixShape(p: Path)
    ensures var r := Suffix(p);
      r == [] || (2 <= |r| && r[0] == '.' && '.' !in r[1..] && '/' !in r)
    ensures EndsWith(BaseName(p), Suffix(p))
  {
    var name := BaseName(p);
    LastDotIsLast(name);
    if HasSuffix(name) {
      var r := name[LastDot(name)..];
      assert Suffix(p) == r;
      forall j | 0 <= j < |r[1..]|
        ensures r[1..][j] != '.'
      {
        assert r[1..][j] == name[LastDot(name) + 1 + j];
      }
    }
  }

  /** Stem and suffix split the final component with nothing lost, and a
      component with a suffix has a non-empty stem. */
  lemma StemThenSuffix(p: Path)
    ensures Stem(p) + Suffix(p) == BaseName(p)
    ensures Suffix(p) != [] ==> Stem(p) != []
  {
    var name := BaseName(p);
    var i := LastDot(name);
    if HasSuffix(name) {
      assert Stem(p) == name[..i] && Suffix(p) == name[i..];
      assert name == name[..i] + name[i..];
    } else {
      assert Stem(p) == name && Suffix(p) == [];
    }
  }

  /** Joining a name with no separator to a directory gives back that name. */
  lemma {:induction false} BaseNameOfJoin(dir: Path, name: string)
    requires '/' !in name
    ensures BaseName(Join(dir, name)) == name
  {
    if name != [] {
      var init := name[..|name| - 1];
      assert Join(dir, name)[..|Join(dir, name)| - 1] == Join(dir, init);
      BaseNameOfJoin(dir, init);
      assert name == init + [name[|name| - 1]];
    }
  }

  /** A name with no separator is its own final component. */
  lemma {:induction false} BaseNameOfName(name: string)
    requires '/' !in name
    ensures BaseName(name) == name
  {
    if name != [] {
      var init := name[..|name| - 1];
      BaseNameOfName(init);
      assert name == init + [name[|name| - 1]];
    }
  }

  /** A name "<stem><ext>", where the extension is a '.' followed by one or
      more characters none of which is a '.', has that stem and suffix. */
  lemma SplitName(name: string, stem: string, ext: string)
    requires name == stem + ext && stem != [] && '/' !in name
    requires 2 <= |ext| && ext[0] == '.' && '.' !in ext[1..]
    ensures Suffix(name) == ext && Stem(name) == stem
  {
    BaseNameOfName(name);
    LastDotIsLast(name);
    assert name[|stem|] == '.';
    forall j | |stem| < j < |name|
      ensures name[j] != '.'
    {
      assert name[j] == ext[1..][j - |stem| - 1];
    }
    assert LastDot(name) == |stem|;
    assert name[|stem|..] == ext && name[..|stem|] == stem;
  }

  /** A path joined from a folder and `stem + ext` has that stem and that
      suffix when `ext` is one suffix. */
  lemma SplitJoinedName(dir: Path, stem: string, ext: string)
    requires stem != [] && '/' !in stem + ext
    requires 2 <= |ext| && ext[0] == '.' && '.' !in ext[1..]
    ensures BaseName(Join(dir, stem + ext)) == stem + ext
    ensures Suffix(Join(dir, stem + ext)) == ext && Stem(Join(dir, stem + ext)) == stem
  {
    BaseNameOfJoin(dir, stem + ext);
    BaseNameOfName(stem + ext);
    SplitName(stem + ext, stem, ext);
  }

  /** Every accessor that looks only at the final component agrees on a path
      and on the same name placed in another directory. */
  lemma NameKeptByJoin(dir: Path, p: Path)
    ensures BaseName(Join(dir, BaseName(p))) == BaseName(p)
    ensures Suffix(Join(dir, BaseName(p))) == Suffix(p)
    ensures Stem(Join(dir, BaseName(p))) == Stem(p)
  {
    BaseNameOfJoin(dir, BaseName(p));
  }
}
