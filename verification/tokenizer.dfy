/**
 * The filename tokenizer: `re.split(f"\{delimeter}(?!\s)", name)` for a
 * single literal delimiter character, followed by indexing of the pieces.
 * A delimiter directly followed by whitespace (as in "Mr. Smith") does not
 * split; one at the very end of the name does, since the lookahead finds no
 * whitespace there.
 */
module Tokenizer {
  import opened Wrappers
  import opened Text

  /** Position `i` of `s` is matched by the pattern `\d(?!\s)`. */
  predicate IsSplitPoint(s: string, d: char, i: int) {
    0 <= i < |s| && s[i] == d && (i + 1 == |s| || !IsSpace(s[i + 1]))
  }

  /** The pieces between the split points of `s`, in order (always at least one). */
  function Split(s: string, d: char): (segs: seq<string>)
    ensures |segs| >= 1
    decreases |s|
  {
    if s == [] then [[]]
    else
      var rest := Split(s[1..], d);
      if IsSplitPoint(s, d, 0) then [[]] + rest
      else [[s[0]] + rest[0]] + rest[1..]
  }

  /** `d.join(segs)`. */
  function Join(segs: seq<string>, d: char): string
    requires |segs| >= 1
  {
    if |segs| == 1 then segs[0] else segs[0] + [d] + Join(segs[1..], d)
  }

  /** The index in the joined string just past segment `k`, where its delimiter sits. */
  function End(segs: seq<string>, k: nat): nat
    requires k < |segs|
  {
    if k == 0 then |segs[0]| else |segs[0]| + 1 + End(segs[1..], k - 1)
  }

  /** Every delimiter inside `seg` is followed, inside `seg`, by whitespace. */
  predicate Clean(seg: string, d: char) {
    forall j :: 0 <= j < |seg| && seg[j] == d ==> j + 1 < |seg| && IsSpace(seg[j + 1])
  }

  lemma JoinExtendFirst(x: string, segs: seq<string>, d: char)
    requires |segs| >= 1
    ensures Join([x + segs[0]] + segs[1..], d) == x + Join(segs, d)
  {
    var segs' := [x + segs[0]] + segs[1..];
    assert segs'[1..] == segs[1..];
  }

  /** Joining the pieces with the delimiter gives back the name. */
  lemma {:induction false} JoinSplit(s: string, d: char)
    ensures Join(Split(s, d), d) == s
    decreases |s|
  {
    if s != [] {
      var rest := Split(s[1..], d);
      JoinSplit(s[1..], d);
      if IsSplitPoint(s, d, 0) {
        assert ([[]] + rest)[1..] == rest;
        assert s == [d] + s[1..];
      } else {
        JoinExtendFirst([s[0]], rest, d);
        assert s == [s[0]] + s[1..];
      }
    }
  }

  /** Every boundary between two pieces is a split point of the name. */
  lemma {:induction false} BoundaryIsSplitPoint(s: string, d: char, k: nat)
    requires k < |Split(s, d)| - 1
    ensures End(Split(s, d), k) < |s| && IsSplitPoint(s, d, End(Split(s, d), k))
    decreases |s|
  {
    var segs := Split(s, d);
    var rest := Split(s[1..], d);
    if IsSplitPoint(s, d, 0) {
      assert segs == [[]] + rest;
      if k > 0 {
        assert segs[1..] == rest;
        BoundaryIsSplitPoint(s[1..], d, k - 1);
      }
    } else {
      assert segs == [[s[0]] + rest[0]] + rest[1..];
      BoundaryIsSplitPoint(s[1..], d, k);
      if k > 0 {
        assert segs[1..] == rest[1..];
        assert End(rest, k) == |rest[0]| + 1 + End(rest[1..], k - 1);
      }
    }
  }

  /** Every split point of the name is a boundary between two pieces. */
  lemma {:induction false} SplitPointIsBoundary(s: string, d: char, i: int)
    requires IsSplitPoint(s, d, i)
    ensures exists k :: 0 <= k < |Split(s, d)| - 1 && End(Split(s, d), k) == i
    decreases |s|
  {
    var segs := Split(s, d);
    var rest := Split(s[1..], d);
    if i == 0 {
      assert segs == [[]] + rest;
      assert End(segs, 0) == 0;
    } else {
      assert IsSplitPoint(s[1..], d, i - 1);
      SplitPointIsBoundary(s[1..], d, i - 1);
      var k' :| 0 <= k' < |rest| - 1 && End(rest, k') == i - 1;
      if IsSplitPoint(s, d, 0) {
        assert segs == [[]] + rest && segs[1..] == rest;
        assert End(segs, k' + 1) == i;
      } else {
        assert segs == [[s[0]] + rest[0]] + rest[1..];
        if k' > 0 {
          assert segs[1..] == rest[1..];
          assert End(rest, k') == |rest[0]| + 1 + End(rest[1..], k' - 1);
        }
        assert End(segs, k') == i;
      }
    }
  }

  /** When the delimiter is not itself whitespace, no piece holds a split point. */
  lemma {:induction false} SegmentsClean(s: string, d: char)
    requires !IsSpace(d)
    ensures forall k :: 0 <= k < |Split(s, d)| ==> Clean(Split(s, d)[k], d)
    decreases |s|
  {
    if s != [] {
      var rest := Split(s[1..], d);
      SegmentsClean(s[1..], d);
      if !IsSplitPoint(s, d, 0) {
        var first := [s[0]] + rest[0];
        forall j | 0 <= j < |first| && first[j] == d
          ensures j + 1 < |first| && IsSpace(first[j + 1])
        {
          if j == 0 {
            // s[1] is whitespace, hence not the delimiter, hence not a split point
            var t := s[1..];
            assert !IsSplitPoint(t, d, 0);
            assert Split(t, d)[0] == [t[0]] + Split(t[1..], d)[0];
          } else {
            assert rest[0][j - 1] == d;
          }
        }
      }
    }
  }

  /** A clean piece followed by a splitting delimiter comes off as the first segment. */
  lemma {:induction false} SplitPiece(a: string, b: string, d: char)
    requires Clean(a, d)
    requires b == [] || !IsSpace(b[0])
    ensures Split(a + [d] + b, d) == [a] + Split(b, d)
    decreases |a|
  {
    var s := a + [d] + b;
    if a == [] {
      assert s == [d] + b && s[1..] == b;
    } else {
      assert s[1..] == a[1..] + [d] + b;
      assert Clean(a[1..], d) by {
        forall j | 0 <= j < |a[1..]| && a[1..][j] == d
          ensures j + 1 < |a[1..]| && IsSpace(a[1..][j + 1])
        {
          assert a[j + 1] == d;
        }
      }
      SplitPiece(a[1..], b, d);
      if a[0] == d {
        assert IsSpace(s[1]);
      }
      assert !IsSplitPoint(s, d, 0);
      assert [a[0]] + a[1..] == a;
    }
  }

  /** A clean string is not split at all. */
  lemma {:induction false} SplitClean(a: string, d: char)
    requires Clean(a, d)
    ensures Split(a, d) == [a]
    decreases |a|
  {
    if a != [] {
      assert Clean(a[1..], d) by {
        forall j | 0 <= j < |a[1..]| && a[1..][j] == d
          ensures j + 1 < |a[1..]| && IsSpace(a[1..][j + 1])
        {
          assert a[j + 1] == d;
        }
      }
      SplitClean(a[1..], d);
      assert !IsSplitPoint(a, d, 0);
      assert [a[0]] + a[1..] == a;
    }
  }

  /**
   * Splitting undoes joining, for pieces that hold no split point and, after
   * the first, do not start with whitespace (so that the delimiter before them
   * splits).
   */
  lemma {:induction false} SplitJoin(segs: seq<string>, d: char)
    requires |segs| >= 1 && !IsSpace(d)
    requires forall k :: 0 <= k < |segs| ==> Clean(segs[k], d)
    requires forall k :: 1 <= k < |segs| ==> segs[k] == [] || !IsSpace(segs[k][0])
    ensures Split(Join(segs, d), d) == segs
    decreases |segs|
  {
    if |segs| == 1 {
      SplitClean(segs[0], d);
    } else {
      var rest := segs[1..];
      SplitJoin(rest, d);
      var b := Join(rest, d);
      assert b == [] || !IsSpace(b[0]) by {
        if rest[0] != [] {
          assert b[0] == rest[0][0];
        } else if |rest| > 1 {
          assert b == [] + [d] + Join(rest[1..], d);
        }
      }
      SplitPiece(segs[0], b, d);
      assert [segs[0]] + rest == segs;
    }
  }

  /** The worked example: the abbreviation "Mr. " does not split, so piece 1 is the title. */
  lemma TokenExample()
    ensures NameToken("Mr. Smith.Pilot.mkv", '.', 1) == Ok("Pilot")
  {
    var segs := ["Mr. Smith", "Pilot", "mkv"];
    assert Clean(segs[0], '.') by {
      assert segs[0][3] == ' ';
    }
    assert Join(segs, '.') == "Mr. Smith.Pilot.mkv" by {
      assert segs[1..][1..] == ["mkv"];
    }
    SplitJoin(segs, '.');
  }

  /** Why picking a piece can fail: Python's `IndexError`. */
  datatype TokenError = IndexError

  /**
   * `re.split(f"\{d}(?!\s)", name)[pos]`, with Python's negative indexing.
   * The escape `\d` is a literal delimiter only when `d` is not an ASCII
   * letter or digit, which is therefore required.
   */
  function NameToken(name: string, d: char, pos: int): (r: Result<string, TokenError>)
    requires !IsAsciiAlnum(d)
    ensures r.Err? <==> pos >= |Split(name, d)| || pos < -|Split(name, d)|
    ensures r.Ok? && pos >= 0 ==> r.value == Split(name, d)[pos]
    ensures r.Ok? && pos < 0 ==> r.value == Split(name, d)[|Split(name, d)| + pos]
  {
    var segs := Split(name, d);
    if pos >= |segs| || pos < -|segs| then Err(IndexError)
    else if pos >= 0 then Ok(segs[pos])
    else Ok(segs[|segs| + pos])
  }
}
