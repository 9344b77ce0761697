/**
 * The part of POSIX path handling the renamer uses: `str.rfind` and
 * `os.path.splitext(p)[1]`, the extension that is carried over to the new name.
 */
module Paths {

  /** `s.rfind(c)`: the index of the last `c` in `s`, or -1. */
  function LastIndexOf(s: string, c: char): (r: int)
    ensures -1 <= r < |s|
    ensures r >= 0 ==> s[r] == c
    ensures forall j :: r < j < |s| ==> s[j] != c
  {
    if s == [] then -1
    else if s[|s| - 1] == c then |s| - 1
    else LastIndexOf(s[..|s| - 1], c)
  }

  /** Some character of `p[lo..hi]` is not a dot. */
  predicate HasNonDot(p: string, lo: nat, hi: int)
    requires hi <= |p|
  {
    exists k :: lo <= k < hi && p[k] != '.'
  }

  /**
   * `os.path.splitext(p)[1]` with `/` as separator: the suffix from the last
   * dot of the last path component, unless every character before that dot
   * in the component is a dot (a hidden file has no extension).
   */
  function Extension(p: string): string {
    var sepIndex := LastIndexOf(p, '/');
    var dotIndex := LastIndexOf(p, '.');
    if dotIndex > sepIndex && HasNonDot(p, sepIndex + 1, dotIndex) then p[dotIndex..] else []
  }

  /**
   * The extension is a suffix of the name: empty, or a dot followed by
   * neither dot nor separator, with a non-dot character before it in the
   * last path component.
   */
  lemma ExtensionShape(p: string)
    ensures |Extension(p)| <= |p| && Extension(p) == p[|p| - |Extension(p)|..]
    ensures Extension(p) != [] ==> Extension(p)[0] == '.' && '.' !in Extension(p)[1..] && '/' !in Extension(p)
    ensures Extension(p) != [] ==> HasNonDot(p, LastIndexOf(p, '/') + 1, |p| - |Extension(p)|)
  {
    var dot := LastIndexOf(p, '.');
    if Extension(p) != [] {
      assert Extension(p) == p[dot..];
      assert forall j :: 1 <= j < |p[dot..]| ==> p[dot..][j] == p[dot + j];
    }
  }

  /** The contract of `LastIndexOf` pins its result down: any index with its two properties is it. */
  lemma LastIndexOfUnique(s: string, c: char, r: int)
    requires -1 <= r < |s|
    requires r >= 0 ==> s[r] == c
    requires forall j :: r < j < |s| ==> s[j] != c
    ensures LastIndexOf(s, c) == r
  {
  }

  /** `Extension` cut at a dot that has a non-dot before it in the last component. */
  lemma ExtensionAt(p: string, dot: int)
    requires LastIndexOf(p, '.') == dot > LastIndexOf(p, '/')
    requires HasNonDot(p, LastIndexOf(p, '/') + 1, dot)
    ensures Extension(p) == p[dot..]
  {
  }

  /** Appending characters other than `c` does not move the last `c`. */
  lemma LastIndexOfAppend(a: string, b: string, c: char)
    requires c !in b
    ensures LastIndexOf(a + b, c) == LastIndexOf(a, c)
  {
    var r := LastIndexOf(a, c);
    var s := a + b;
    forall j | r < j < |s| ensures s[j] != c {
      if j < |a| { assert s[j] == a[j]; } else { assert s[j] == b[j - |a|]; }
    }
    assert r >= 0 ==> s[r] == a[r];
    LastIndexOfUnique(s, c, r);
  }

  lemma DropStem(stem: string, e: string)
    ensures (stem + "." + e)[|stem|..] == "." + e
  {
  }

  /** One more character moves the last `c` only if it is a `c`. */
  lemma LastIndexOfSnoc(s: string, x: char, c: char)
    ensures LastIndexOf(s + [x], c) == if x == c then |s| else LastIndexOf(s, c)
  {
    assert (s + [x])[..|s|] == s;
  }

  /** Where the separator and the dot fall in a stem extended by `.e`. */
  lemma AppendedIndices(stem: string, e: string)
    requires '.' !in e && '/' !in e
    ensures LastIndexOf(stem + "." + e, '/') == LastIndexOf(stem, '/')
    ensures LastIndexOf(stem + "." + e, '.') == |stem|
  {
    var dotted := stem + ".";
    LastIndexOfSnoc(stem, '.', '/');
    LastIndexOfAppend(dotted, e, '/');
    LastIndexOfSnoc(stem, '.', '.');
    LastIndexOfAppend(dotted, e, '.');
  }

  /** A non-dot character in a range of a prefix is one in the longer string too. */
  lemma HasNonDotPrefix(a: string, b: string, lo: nat, hi: int)
    requires hi <= |a|
    requires HasNonDot(a, lo, hi)
    ensures HasNonDot(a + b, lo, hi)
  {
    var k :| lo <= k < hi && a[k] != '.';
    assert (a + b)[k] == a[k];
  }

  /**
   * Appending a dot and a dot-free, slash-free suffix to a stem whose last
   * component holds a non-dot character makes that suffix the extension.
   */
  lemma ExtensionOfAppended(stem: string, e: string)
    requires '.' !in e && '/' !in e
    requires HasNonDot(stem, LastIndexOf(stem, '/') + 1, |stem|)
    ensures Extension(stem + "." + e) == "." + e
  {
    AppendedIndices(stem, e);
    HasNonDotPrefix(stem, ".", LastIndexOf(stem, '/') + 1, |stem|);
    HasNonDotPrefix(stem + ".", e, LastIndexOf(stem, '/') + 1, |stem|);
    ExtensionAt(stem + "." + e, |stem|);
    DropStem(stem, e);
  }

  /** A name whose only dots lead it, such as a hidden file, has no extension. */
  lemma LeadingDotsOnly(dots: string, rest: string)
    requires forall i :: 0 <= i < |dots| ==> dots[i] == '.'
    requires '.' !in rest && '/' !in rest
    ensures Extension(dots + rest) == ""
  {
    var p := dots + rest;
    assert forall j :: |dots| <= j < |p| ==> p[j] == rest[j - |dots|];
    assert LastIndexOf(p, '/') == -1;
    var dot := LastIndexOf(p, '.');
    assert dot < |dots|;
  }
}
