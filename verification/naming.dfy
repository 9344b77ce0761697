/**
 * Names the renamer computes: the series slug used to look the series up,
 * and the new filename `{series}.S{season}E{number}.{name}{ext}`.
 */
module Naming {
  import opened Wrappers
  import opened Text
  import opened Paths
  import opened Episodes

  /** `s.replace(from, to)` for one-character strings: every `from` becomes `to`. */
  function ReplaceChar(s: string, from: char, to: char): (r: string)
    ensures |r| == |s|
    ensures forall i :: 0 <= i < |s| ==> r[i] == (if s[i] == from then to else s[i])
  {
    if s == [] then [] else [if s[0] == from then to else s[0]] + ReplaceChar(s[1..], from, to)
  }

  /** `series.lower().replace(' ', '-')`: the slug the series is looked up by. */
  function Slug(series: string): (slug: string)
    ensures |slug| == |series|
    ensures ' ' !in slug
    ensures forall i :: 0 <= i < |series| ==> slug[i] == (if series[i] == ' ' then '-' else LowerChar(series[i]))
  {
    ReplaceChar(Lower(series), ' ', '-')
  }

  /** A slug is its own slug. */
  lemma SlugIdempotent(series: string)
    ensures Slug(Slug(series)) == Slug(series)
  {
  }

  /** `f"S{season}E{number}"`: both numbers in unpadded decimal. */
  function SeasonEpisode(season: int, number: int): string {
    "S" + IntToString(season) + "E" + IntToString(number)
  }

  /** The new filename: series, season and episode label, episode name, and the old extension. */
  function TargetName(series: string, ep: Episode, filename: string): string {
    series + "." + SeasonEpisode(ep.seasonNumber, ep.number) + "." + ep.name + Extension(filename)
  }

  /** `s.find(c)`: the index of the first `c` in `s`, or -1. */
  function FirstIndexOf(s: string, c: char): (r: int)
    ensures -1 <= r < |s|
    ensures r >= 0 ==> s[r] == c
    ensures forall j :: 0 <= j < |s| && (r < 0 || j < r) ==> s[j] != c
  {
    if s == [] then -1
    else if s[0] == c then 0
    else
      var r := FirstIndexOf(s[1..], c);
      if r < 0 then -1 else r + 1
  }

  /** Reads a season-and-episode label back into its two numbers. */
  function ParseSeasonEpisode(s: string): Option<(int, int)> {
    if |s| >= 1 && s[0] == 'S' then
      var e := FirstIndexOf(s, 'E');
      if e >= 1 then
        match (ParseInt(s[1..e]), ParseInt(s[e + 1..]))
        case (Some(season), Some(number)) => Some((season, number))
        case _ => None
      else None
    else None
  }

  lemma NoLetterInNumber(i: int)
    ensures 'E' !in IntToString(i) && '.' !in IntToString(i) && '/' !in IntToString(i)
  {
    var r := IntToString(i);
    if i < 0 {
      assert forall j :: 1 <= j < |r| ==> r[j] == r[1..][j - 1];
    }
  }

  /** The label is unambiguous: both numbers, unpadded, read back exactly. */
  lemma ParseSeasonEpisodeRoundTrip(season: int, number: int)
    ensures ParseSeasonEpisode(SeasonEpisode(season, number)) == Some((season, number))
  {
    var x, y := IntToString(season), IntToString(number);
    var s := SeasonEpisode(season, number);
    NoLetterInNumber(season);
    assert s == "S" + x + "E" + y;
    assert s[1 + |x|] == 'E';
    forall j | 0 <= j < 1 + |x| ensures s[j] != 'E' {
      if j > 0 { assert s[j] == x[j - 1]; }
    }
    var e := FirstIndexOf(s, 'E');
    assert e == 1 + |x|;
    assert s[1..e] == x;
    assert s[e + 1..] == y;
    ParseIntToString(season);
    ParseIntToString(number);
  }

  /** The new name depends on the old one only through its extension. */
  lemma TargetNameIgnoresBaseName(series: string, ep: Episode, f1: string, f2: string)
    requires Extension(f1) == Extension(f2)
    ensures TargetName(series, ep, f1) == TargetName(series, ep, f2)
  {
  }

  /** What the new name puts between the series and the extension. */
  function Middle(ep: Episode): string {
    "." + SeasonEpisode(ep.seasonNumber, ep.number) + "." + ep.name
  }

  lemma Assoc(a: string, b: string, c: string)
    ensures (a + b) + c == a + (b + c)
  {
  }

  /** The new name's stem is the series name followed by `Middle`. */
  lemma MiddleSplits(series: string, ep: Episode)
    ensures series + "." + SeasonEpisode(ep.seasonNumber, ep.number) + "." + ep.name == series + Middle(ep)
  {
    var tag := SeasonEpisode(ep.seasonNumber, ep.number);
    Assoc(series, ".", tag);
    Assoc(series, "." + tag, ".");
    Assoc(series, "." + tag + ".", ep.name);
  }

  lemma TargetNameSplits(series: string, ep: Episode, filename: string)
    requires Extension(filename) != ""
    ensures TargetName(series, ep, filename) == (series + Middle(ep)) + "." + Extension(filename)[1..]
  {
    var ext := Extension(filename);
    assert ext == "." + ext[1..] by {
      ExtensionShape(filename);
    }
    MiddleSplits(series, ep);
    Assoc(series + Middle(ep), ".", ext[1..]);
  }

  /** The stem of a new name has a non-dot character (the `S`) after its last `/`. */
  lemma StemHasNonDot(series: string, ep: Episode)
    requires '/' !in ep.name
    ensures HasNonDot(series + Middle(ep), LastIndexOf(series + Middle(ep), '/') + 1, |series + Middle(ep)|)
  {
    var middle := Middle(ep);
    var stem := series + middle;
    NoLetterInNumber(ep.seasonNumber);
    NoLetterInNumber(ep.number);
    assert '/' !in middle by {
      assert middle == "." + "S" + IntToString(ep.seasonNumber) + "E" + IntToString(ep.number) + "." + ep.name;
    }
    LastIndexOfAppend(series, middle, '/');
    assert stem[|series| + 1] == middle[1] == 'S';
  }

  /**
   * The new name keeps the old extension, provided there is one and the
   * episode name holds no path separator.
   */
  lemma TargetNameKeepsExtension(series: string, ep: Episode, filename: string)
    requires Extension(filename) != ""
    requires '/' !in ep.name
    ensures Extension(TargetName(series, ep, filename)) == Extension(filename)
  {
    var ext := Extension(filename);
    ExtensionShape(filename);
    StemHasNonDot(series, ep);
    ExtensionOfAppended(series + Middle(ep), ext[1..]);
    TargetNameSplits(series, ep, filename);
  }

  /** The extension of "buys.mkv" is ".mkv". */
  lemma MkvExtension()
    ensures Extension("buys.mkv") == ".mkv"
  {
    var f := "buys.mkv";
    LastIndexOfUnique(f, '/', -1);
    LastIndexOfUnique(f, '.', 4);
    assert f[0] != '.';
    ExtensionAt(f, 4);
    assert f[4..] == ".mkv";
  }

  /** Season 1, episode 3 is labelled "S1E3". */
  lemma SeasonEpisodeExample()
    ensures SeasonEpisode(1, 3) == "S1E3"
  {
    assert IntToString(1) == "1" && IntToString(3) == "3";
  }

  /** The worked example: "The-Wire", season 1, episode 3, "The Buys", from an `.mkv` file. */
  lemma TargetNameExample()
    ensures TargetName("The-Wire", Episode(1, 3, "The Buys"), "buys.mkv") == "The-Wire.S1E3.The Buys.mkv"
  {
    MkvExtension();
    SeasonEpisodeExample();
  }
}
