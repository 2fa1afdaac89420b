/**
 * The POSIX path helpers the tools call: `os.path.basename`,
 * `os.path.dirname`, `os.path.join` with two arguments and
 * `os.path.splitext`, with `/` as the only separator.
 */
module Paths {

  /** `s.rfind(c)`: the last position of `c` in `s`, or -1 when there is none. */
  function LastIndex(s: string, c: char): (r: int)
    ensures -1 <= r < |s|
    ensures r >= 0 ==> s[r] == c
    ensures forall j :: r < j < |s| ==> s[j] != c
  {
    if s == [] then -1
    else if s[|s| - 1] == c then |s| - 1
    else LastIndex(s[..|s| - 1], c)
  }

  /** `c in s` exactly when `rfind` finds it. */
  lemma LastIndexFound(s: string, c: char)
    ensures c in s <==> LastIndex(s, c) >= 0
  {
  }

  /** `os.path.basename`: what follows the last `/`. */
  function BaseName(p: string): (r: string)
    ensures '/' !in r
    ensures |r| <= |p| && r == p[|p| - |r|..]
    ensures |r| == |p| || p[|p| - |r| - 1] == '/'
  {
    p[LastIndex(p, '/') + 1..]
  }

  /** Every character is a slash (vacuously true of the empty string). */
  predicate AllSlashes(s: string) {
    forall i :: 0 <= i < |s| ==> s[i] == '/'
  }

  /** `s.rstrip('/')`. */
  function StripTrailingSlashes(s: string): (r: string)
    ensures |r| <= |s| && r == s[..|r|]
    ensures r != [] ==> r[|r| - 1] != '/'
    ensures AllSlashes(s[|r|..])
  {
    if s != [] && s[|s| - 1] == '/' then
      var r := StripTrailingSlashes(s[..|s| - 1]);
      assert s[|r|..] == s[..|s| - 1][|r|..] + [s[|s| - 1]];
      r
    else s
  }

  /**
   * `os.path.dirname`: everything up to the last `/`, with trailing slashes
   * removed unless the head is made of slashes only.
   */
  function DirName(p: string): string {
    var head := p[..LastIndex(p, '/') + 1];
    if head != [] && !AllSlashes(head) then StripTrailingSlashes(head) else head
  }

  /** `os.path.join(a, b)`: an absolute `b` wins; otherwise one `/` separates the two. */
  function JoinPath(a: string, b: string): (r: string)
    ensures b != [] && b[0] == '/' ==> r == b
    ensures (b == [] || b[0] != '/') ==> r == a + b || r == a + "/" + b
  {
    if b != [] && b[0] == '/' then b
    else if a == [] || a[|a| - 1] == '/' then a + b
    else a + "/" + b
  }

  /** Joining two relative names onto the same folder gives the same path only for the same name. */
  lemma JoinPathInjective(a: string, x: string, y: string)
    requires x != [] && x[0] != '/' && y != [] && y[0] != '/'
    requires JoinPath(a, x) == JoinPath(a, y)
    ensures x == y
  {
    var sep := if a == [] || a[|a| - 1] == '/' then a else a + "/";
    assert JoinPath(a, x) == sep + x && JoinPath(a, y) == sep + y;
    assert x == (sep + x)[|sep|..] && y == (sep + y)[|sep|..];
  }

  /** A slash-free name joined onto any folder is the base name of the result. */
  lemma BaseNameOfJoin(a: string, name: string)
    requires '/' !in name
    ensures BaseName(JoinPath(a, name)) == name
  {
    var r := JoinPath(a, name);
    var prefix := r[..|r| - |name|];
    assert r == prefix + name;
    if prefix != [] && prefix[|prefix| - 1] == '/' {
      assert r[|prefix| - 1] == '/';
    } else {
      assert a == [] && prefix == [];
      assert '/' !in r;
    }
  }

  /**
   * A folder name as `dirname` returns it, with a slash-free name joined
   * onto it, gives that folder back: renaming inside a folder stays there.
   */
  lemma {:induction false} DirNameOfJoin(p: string, name: string)
    requires name != [] && '/' !in name
    ensures DirName(JoinPath(DirName(p), name)) == DirName(p)
  {
    var d := DirName(p);
    var r := JoinPath(d, name);
    DirNameShape(p);
    if d == [] {
      assert r == name;
      assert LastIndex(r, '/') == -1;
    } else if d[|d| - 1] == '/' {
      assert AllSlashes(d);
      assert r == d + name;
      LastSlashBefore(d, name);
      assert r[..|d|] == d;
    } else {
      assert r == d + "/" + name;
      LastSlashBefore(d + "/", name);
      assert r[..|d| + 1] == d + "/";
      assert !AllSlashes(d + "/") by {
        assert (d + "/")[|d| - 1] != '/';
      }
      StripOneSlash(d);
    }
  }

  /** What `dirname` returns is empty, all slashes, or ends in a non-slash. */
  lemma DirNameShape(p: string)
    ensures var d := DirName(p);
            d == [] || AllSlashes(d) || d[|d| - 1] != '/'
  {
  }

  /** The last slash of `a + name` is the last slash of `a` when `a` ends with one. */
  lemma LastSlashBefore(a: string, name: string)
    requires a != [] && a[|a| - 1] == '/' && '/' !in name
    ensures LastIndex(a + name, '/') == |a| - 1
  {
    assert (a + name)[|a| - 1] == '/';
  }

  /** Stripping the trailing slashes of `d + "/"` gives `d` back when `d` ends in a non-slash. */
  lemma StripOneSlash(d: string)
    requires d != [] && d[|d| - 1] != '/'
    ensures StripTrailingSlashes(d + "/") == d
  {
    assert (d + "/")[..|d|] == d;
  }

  /** `os.path.splitext`: the root and the extension, which starts at the last dot of the final component. */
  function SplitExt(p: string): (r: (string, string))
    ensures r.0 + r.1 == p
    ensures r.1 == [] || (r.1[0] == '.' && '.' !in r.1[1..] && '/' !in r.1)
  {
    var sepIndex := LastIndex(p, '/');
    var dotIndex := LastIndex(p, '.');
    if dotIndex > sepIndex && exists k :: sepIndex < k < dotIndex && p[k] != '.' then
      assert p[dotIndex..][1..] == p[dotIndex + 1..];
      (p[..dotIndex], p[dotIndex..])
    else
      (p, [])
  }

  /** A name without a dot has no extension. */
  lemma SplitExtNoDot(p: string)
    requires '.' !in p
    ensures SplitExt(p) == (p, [])
  {
  }

  /**
   * `stem + ext` splits back into the two when `ext` is a dot with a
   * dot-free, slash-free tail and `stem` ends in neither a dot nor a slash.
   */
  lemma SplitExtOf(stem: string, ext: string)
    requires stem != [] && stem[|stem| - 1] != '.' && stem[|stem| - 1] != '/'
    requires ext != [] && ext[0] == '.' && '.' !in ext[1..] && '/' !in ext
    ensures SplitExt(stem + ext) == (stem, ext)
  {
    var p := stem + ext;
    var dotIndex := LastIndex(p, '.');
    var sepIndex := LastIndex(p, '/');
    assert p[|stem|] == '.';
    assert dotIndex == |stem|;
    assert p[|stem| - 1] != '.' && p[|stem| - 1] != '/';
    assert sepIndex < |stem| - 1;
    assert p[..dotIndex] == stem;
  }
}
