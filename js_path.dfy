/** Node's `path.extname` for POSIX paths, the only part of the `path`
    module the core depends on. */
module JsPath {

  import opened JsText

  predicate IsSlash(c: char)
  {
    c == '/'
  }

  /** Position of the last `c` in `s`, or -1 when there is none. */
  function LastIndexOf(s: string, c: char): (i: int)
    ensures -1 <= i < |s|
  {
    if s == [] then -1
    else if s[|s| - 1] == c then |s| - 1
    else LastIndexOf(s[..|s| - 1], c)
  }

  /** `LastIndexOf` finds a `c` with none after it.  (Kept apart from the
      function so that unfolding it on a concatenation stays cheap.) */
  lemma {:induction false} LastIndexOfSpec(s: string, c: char)
    ensures var i := LastIndexOf(s, c);
      && (i >= 0 ==> s[i] == c)
      && forall k :: i < k < |s| ==> s[k] != c
    decreases |s|
  {
    if s != [] && s[|s| - 1] != c {
      var t := s[..|s| - 1];
      LastIndexOfSpec(t, c);
      forall k | LastIndexOf(s, c) < k < |s| ensures s[k] != c {
        if k < |s| - 1 {
          assert s[k] == t[k];
        }
      }
    }
  }

  /** The last segment of a path: trailing slashes are ignored and the
      segment starts after the last remaining slash. */
  function LastSegment(p: string): (base: string)
    ensures '/' !in base
  {
    var q := p[..|p| - TrailingSpan(p, IsSlash)];
    LastIndexOfSpec(q, '/');
    var r := q[LastIndexOf(q, '/') + 1..];
    assert forall k :: 0 <= k < |r| ==> r[k] == q[LastIndexOf(q, '/') + 1 + k];
    r
  }

  /** `path.extname(p)`: from the last '.' of the last segment to its end.
      It is empty when the segment has no '.', when its only '.' is its
      first character (".profile"), and for the segment "..". */
  function ExtName(p: string): string
  {
    SegmentExt(LastSegment(p))
  }

  /** An extension is empty or one dot followed by no other dot, and it
      never holds a slash.  (Stated apart from `ExtName` so that unfolding
      it on a long concatenation stays cheap.) */
  lemma ExtNameShape(p: string)
    ensures var e := ExtName(p);
      && (e == [] || (e[0] == '.' && '.' !in e[1..]))
      && '/' !in e
  {
    var base := LastSegment(p);
    var e := SegmentExt(base);
    assert forall k :: 0 <= k < |e| ==> e[k] == base[|base| - |e| + k];
  }

  /** The extension of one path segment: from its last '.' to its end. */
  function SegmentExt(base: string): (e: string)
    ensures e == [] || (e[0] == '.' && '.' !in e[1..])
    ensures |e| <= |base| && e == base[|base| - |e|..]
  {
    var k := LastIndexOf(base, '.');
    LastIndexOfSpec(base, '.');
    if k <= 0 || base == ['.', '.'] then [] else base[k..]
  }

  /** The last `c` is found at `i` when `s[i]` is `c` and none follows. */
  lemma LastIndexOfAt(s: string, c: char, i: int)
    requires -1 <= i < |s|
    requires i >= 0 ==> s[i] == c
    requires forall k :: i < k < |s| ==> s[k] != c
    ensures LastIndexOf(s, c) == i
  {
    LastIndexOfSpec(s, c);
  }

  /** The last segment of `dir + name`, where `dir` is empty or ends with a
      slash and `name` is a non-empty name without slashes, is `name`. */
  lemma LastSegmentOfName(dir: string, name: string)
    requires dir == [] || dir[|dir| - 1] == '/'
    requires name != [] && '/' !in name
    ensures LastSegment(dir + name) == name
  {
    var p := dir + name;
    assert p[|p| - 1] == name[|name| - 1];
    assert TrailingSpan(p, IsSlash) == 0;
    assert p[..|p|] == p;
    if dir != [] {
      assert p[|dir| - 1] == '/';
    }
    forall k | |dir| <= k < |p|
      ensures p[k] != '/'
    {
      assert p[k] == name[k - |dir|];
    }
    LastIndexOfAt(p, '/', |dir| - 1);
    assert p[|dir|..] == name;
  }

  /** The extension of a file stored as `dir + stem + ext`, where `dir` is
      empty or ends with a slash, the stem is a non-empty name without dots
      and `ext` has the shape of an extension, is `ext`. */
  lemma ExtNameOfStem(dir: string, stem: string, ext: string)
    requires dir == [] || dir[|dir| - 1] == '/'
    requires stem != [] && '.' !in stem && '/' !in stem
    requires ext == [] || (ext[0] == '.' && '.' !in ext[1..])
    requires '/' !in ext
    ensures ExtName(dir + stem + ext) == ext
  {
    var name := stem + ext;
    assert dir + stem + ext == dir + name;
    LastSegmentOfName(dir, name);
    assert name[0] == stem[0];
    assert name != ['.', '.'];
    DotOfStem(stem, ext);
  }

  /** The extension is cut at the last dot of the last segment: for a file
      `dir + name` whose last dot is at `k`, it is `name[k..]`, and it is
      empty when that dot is the name's first character (a dot file such
      as ".profile") or the name is "..". */
  lemma ExtNameAt(dir: string, name: string, k: nat)
    requires dir == [] || dir[|dir| - 1] == '/'
    requires '/' !in name
    requires k < |name| && name[k] == '.'
    requires forall j :: k < j < |name| ==> name[j] != '.'
    ensures ExtName(dir + name) == if k == 0 || name == ['.', '.'] then [] else name[k..]
  {
    LastSegmentOfName(dir, name);
    LastIndexOfAt(name, '.', k);
  }

  /** The last dot of `stem + ext` is the first character of `ext`. */
  lemma DotOfStem(stem: string, ext: string)
    requires stem != [] && '.' !in stem
    requires ext == [] || (ext[0] == '.' && '.' !in ext[1..])
    ensures LastIndexOf(stem + ext, '.') == if ext == [] then -1 else |stem|
  {
    var name := stem + ext;
    if ext != [] {
      assert name[|stem|] == '.';
      forall k | |stem| < k < |name|
        ensures name[k] != '.'
      {
        assert name[k] == ext[1..][k - |stem| - 1];
      }
      LastIndexOfAt(name, '.', |stem|);
      assert name[|stem|..] == ext;
    } else {
      assert name == stem;
      LastIndexOfAt(name, '.', -1);
    }
  }
}
