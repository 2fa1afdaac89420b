/**
 * `sanitize_filename` of the MP3 splitter: every character Windows refuses
 * in a file name becomes `_`, and a name longer than 240 characters is cut
 * down while its extension is kept.
 */
module FileNames {
  import opened Strings
  import opened Paths

  /** The characters `sanitize_filename` replaces, in the order it replaces them. */
  const InvalidChars: string := "<>:\"/\\|?*"

  /** Names longer than this are truncated. */
  const MaxNameLength: nat := 240

  /** No character of `s` is one of the invalid ones. */
  predicate IsClean(s: string) {
    forall i :: 0 <= i < |s| ==> s[i] !in InvalidChars
  }

  /** Every invalid character replaced by `_` (the replacement is not itself invalid). */
  function ReplaceInvalid(f: string): (r: string)
    ensures |r| == |f| && IsClean(r)
    ensures forall i :: 0 <= i < |f| ==> r[i] == if f[i] in InvalidChars then '_' else f[i]
  {
    seq(|f|, i requires 0 <= i < |f| => if f[i] in InvalidChars then '_' else f[i])
  }

  /** Python's `s[:stop]`: a negative stop counts from the end, and both ends are clamped. */
  function PySliceTo(s: string, stop: int): (r: string)
    ensures |r| <= |s| && r == s[..|r|]
    ensures 0 <= stop <= |s| ==> |r| == stop
    ensures stop < 0 ==> |r| == if stop + |s| < 0 then 0 else stop + |s|
    ensures stop > |s| ==> r == s
  {
    if stop < 0 then (if stop + |s| < 0 then [] else s[..stop + |s|])
    else if stop > |s| then s
    else s[..stop]
  }

  /** What `sanitize_filename` returns, as a function of its argument. */
  function Sanitized(f: string): string {
    var g := ReplaceInvalid(f);
    if |g| > MaxNameLength then
      var (name, ext) := SplitExt(g);
      PySliceTo(name, MaxNameLength - |ext|) + ext
    else
      g
  }

  /**
   * `sanitize_filename`: one `replace` per invalid character, then the
   * length check.
   */
  method SanitizeFilename(filename: string) returns (r: string)
    ensures r == Sanitized(filename)
  {
    r := filename;
    for k := 0 to |InvalidChars|
      invariant |r| == |filename|
      invariant forall i :: 0 <= i < |r| ==>
                  r[i] == if filename[i] in InvalidChars[..k] then '_' else filename[i]
    {
      r := ReplaceChar(r, InvalidChars[k], '_');
    }
    assert InvalidChars[..|InvalidChars|] == InvalidChars;
    assert r == ReplaceInvalid(filename);
    if |r| > MaxNameLength {
      var (name, ext) := SplitExt(r);
      r := PySliceTo(name, MaxNameLength - |ext|) + ext;
    }
  }

  /** Pieces of a clean string are clean, and so is a concatenation of clean strings. */
  lemma CleanParts(g: string, name: string, ext: string, stop: int)
    requires IsClean(g) && name + ext == g
    ensures IsClean(PySliceTo(name, stop) + ext)
  {
    var r := PySliceTo(name, stop) + ext;
    forall i | 0 <= i < |r|
      ensures r[i] !in InvalidChars
    {
      if i < |PySliceTo(name, stop)| {
        assert r[i] == g[i];
      } else {
        assert r[i] == g[|name| + i - |PySliceTo(name, stop)|];
      }
    }
  }

  /** None of `< > : " / \ | ? *` is left in a sanitised name. */
  lemma SanitizedIsClean(f: string)
    ensures IsClean(Sanitized(f))
  {
    var g := ReplaceInvalid(f);
    if |g| > MaxNameLength {
      var (name, ext) := SplitExt(g);
      CleanParts(g, name, ext, MaxNameLength - |ext|);
    }
  }

  /**
   * A name of at most 240 characters keeps its length, and differs from the
   * input exactly at the positions that held an invalid character.
   */
  lemma SanitizedShort(f: string)
    requires |f| <= MaxNameLength
    ensures var r := Sanitized(f);
            && |r| == |f|
            && (forall i :: 0 <= i < |f| ==> (r[i] != f[i] <==> f[i] in InvalidChars))
            && (forall i :: 0 <= i < |f| && f[i] in InvalidChars ==> r[i] == '_')
  {
  }

  /**
   * A longer name whose extension has at most 240 characters is cut to
   * exactly 240: the start of the sanitised stem followed by the whole
   * extension.
   */
  lemma SanitizedLong(f: string)
    requires |f| > MaxNameLength
    requires |SplitExt(ReplaceInvalid(f)).1| <= MaxNameLength
    ensures var g := ReplaceInvalid(f);
            var ext := SplitExt(g).1;
            var r := Sanitized(f);
            && |r| == MaxNameLength
            && r == g[..MaxNameLength - |ext|] + ext
  {
    var g := ReplaceInvalid(f);
    var parts := SplitExt(g);
    Truncation(g, parts.0, parts.1);
  }

  /** Cutting the stem to `240 - len(ext)` and re-attaching `ext` leaves exactly 240 characters. */
  lemma Truncation(g: string, name: string, ext: string)
    requires name + ext == g && |g| > MaxNameLength && |ext| <= MaxNameLength
    ensures PySliceTo(name, MaxNameLength - |ext|) + ext == g[..MaxNameLength - |ext|] + ext
    ensures |PySliceTo(name, MaxNameLength - |ext|) + ext| == MaxNameLength
  {
    assert g[..|name|] == name;
  }

  /** The sanitised name fits in 240 characters whenever the extension does. */
  lemma SanitizedBounded(f: string)
    requires |f| <= MaxNameLength || |SplitExt(ReplaceInvalid(f)).1| <= MaxNameLength
    ensures |Sanitized(f)| <= MaxNameLength
  {
    if |f| > MaxNameLength {
      SanitizedLong(f);
    }
  }

  /** A clean name of at most 240 characters is left alone. */
  lemma SanitizedFixesClean(g: string)
    requires IsClean(g) && |g| <= MaxNameLength
    ensures Sanitized(g) == g
  {
  }

  /** Sanitising twice is sanitising once, whenever the extension has at most 240 characters. */
  lemma SanitizedIdempotent(f: string)
    requires |f| <= MaxNameLength || |SplitExt(ReplaceInvalid(f)).1| <= MaxNameLength
    ensures Sanitized(Sanitized(f)) == Sanitized(f)
  {
    SanitizedIsClean(f);
    SanitizedBounded(f);
    SanitizedFixesClean(Sanitized(f));
  }

  /**
   * The exception: `"a."` followed by 300 `x`s has a 301-character
   * extension, so the slice bound `240 - len(ext)` is negative, the stem is
   * dropped, and the result is still 301 characters long; sanitising that
   * again cuts it to 240.
   */
  lemma LongExtensionOverflow()
    ensures var f := "a." + seq(300, _ => 'x');
            && |Sanitized(f)| == 301
            && |Sanitized(Sanitized(f))| == MaxNameLength
  {
    var xs := seq(300, _ => 'x');
    var ext := "." + xs;
    var f := "a." + xs;
    assert f == "a" + ext;
    assert '.' !in ext[1..] && '/' !in ext by {
      assert ext[1..] == xs;
    }
    PlainUnchanged(f);
    PlainUnchanged(ext);
    StemDropped("a", ext);
    ExtensionCut(ext);
  }

  /**
   * A clean name whose extension is longer than 240 characters by at least
   * the stem's length loses its whole stem and keeps the whole extension.
   */
  lemma StemDropped(stem: string, ext: string)
    requires stem != [] && stem[|stem| - 1] != '.' && stem[|stem| - 1] != '/'
    requires ext != [] && ext[0] == '.' && '.' !in ext[1..] && '/' !in ext
    requires ReplaceInvalid(stem + ext) == stem + ext
    requires |stem| + MaxNameLength <= |ext|
    ensures Sanitized(stem + ext) == ext
  {
    var g := stem + ext;
    assert |g| > MaxNameLength;
    SplitExtOf(stem, ext);
    assert SplitExt(g) == (stem, ext);
    assert PySliceTo(stem, MaxNameLength - |ext|) == [];
    assert [] + ext == ext;
  }

  /** A clean name longer than 240 characters whose only dot leads it is cut to its first 240 characters. */
  lemma ExtensionCut(ext: string)
    requires ext != [] && ext[0] == '.' && '.' !in ext[1..] && '/' !in ext
    requires ReplaceInvalid(ext) == ext
    requires |ext| > MaxNameLength
    ensures |Sanitized(ext)| == MaxNameLength
  {
    LeadingDotOnly(ext);
    assert Sanitized(ext) == PySliceTo(ext, MaxNameLength);
  }

  /** A name made of `a`, `.` and `x` only is its own replacement. */
  lemma PlainUnchanged(g: string)
    requires forall i :: 0 <= i < |g| ==> g[i] == 'a' || g[i] == '.' || g[i] == 'x'
    ensures ReplaceInvalid(g) == g
  {
  }

  /** A name whose only dot is its first character has no extension. */
  lemma LeadingDotOnly(p: string)
    requires p != [] && p[0] == '.' && '.' !in p[1..] && '/' !in p
    ensures SplitExt(p) == (p, [])
  {
    assert LastIndex(p, '.') == 0;
  }

  /**
   * The evidently intended sanitiser: the same replacement, and a
   * truncation that never exceeds 240 characters, keeping the extension
   * when it fits and the first 240 characters otherwise.
   */
  function SanitizedCapped(f: string): (r: string)
    ensures |r| <= MaxNameLength
  {
    var g := ReplaceInvalid(f);
    if |g| > MaxNameLength then
      var (name, ext) := SplitExt(g);
      if |ext| <= MaxNameLength then name[..MaxNameLength - |ext|] + ext else g[..MaxNameLength]
    else
      g
  }

  /** The capped sanitiser agrees with the one as written whenever the extension fits. */
  lemma CappedAgrees(f: string)
    requires |f| <= MaxNameLength || |SplitExt(ReplaceInvalid(f)).1| <= MaxNameLength
    ensures SanitizedCapped(f) == Sanitized(f)
  {
  }

  /** The capped sanitiser leaves no invalid character and is idempotent on every input. */
  lemma CappedIdempotent(f: string)
    ensures IsClean(SanitizedCapped(f))
    ensures SanitizedCapped(SanitizedCapped(f)) == SanitizedCapped(f)
  {
    var g := ReplaceInvalid(f);
    var r := SanitizedCapped(f);
    if |g| > MaxNameLength {
      var (name, ext) := SplitExt(g);
      if |ext| <= MaxNameLength {
        CleanParts(g, name, ext, MaxNameLength - |ext|);
      }
    }
    assert IsClean(r);
    assert ReplaceInvalid(r) == r;
  }
}
