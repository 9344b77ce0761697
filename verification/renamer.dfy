/**
 * The renaming pass: the guarded rename of one file (`rename_file`), the
 * per-file decision and the loop over the directory listing (`scan`).
 * The directory is a map from names to file identities, so that an
 * overwritten file can be told apart from the one that replaced it.
 */
module Renamer {
  import opened Wrappers
  import opened Text
  import opened Tokenizer
  import opened Episodes
  import opened Naming

  /** The identity of a file's contents, independent of its name. */
  type FileId = nat

  /**
   * The directory after a POSIX rename of `src` to `dst`: the file moves to
   * `dst`, replacing whatever was there; renaming a name to itself changes nothing.
   */
  function Renamed(entries: map<string, FileId>, src: string, dst: string): (r: map<string, FileId>)
    requires src in entries
    ensures dst in r && r[dst] == entries[src]
    ensures src != dst ==> src !in r
    ensures forall f :: f != src && f != dst ==> (f in r <==> f in entries)
    ensures forall f :: f in r && f != dst ==> f in entries && r[f] == entries[f]
  {
    if src == dst then entries else (entries - {src})[dst := entries[src]]
  }

  /** Renaming onto a free name keeps every file. */
  lemma RenameKeepsCount(entries: map<string, FileId>, src: string, dst: string)
    requires src in entries && dst !in entries
    ensures |Renamed(entries, src, dst)| == |entries|
  {
    var r := Renamed(entries, src, dst);
    assert r.Keys == entries.Keys - {src} + {dst};
    assert |entries.Keys - {src}| == |entries.Keys| - 1;
  }

  /** Renaming onto an existing other name silently loses the file that had it. */
  lemma RenameOverwrites(entries: map<string, FileId>, src: string, dst: string)
    requires src in entries && dst in entries && src != dst
    ensures |Renamed(entries, src, dst)| == |entries| - 1
    ensures Renamed(entries, src, dst)[dst] == entries[src]
  {
    var r := Renamed(entries, src, dst);
    assert r.Keys == entries.Keys - {src};
  }

  /** The question `rename_file` asks before an interactive rename. */
  function Prompt(filename: string, newFilename: string): string {
    "Rename '" + filename + "' to '" + newFilename + "'? [y/N]"
  }

  /** A rename goes ahead in batch mode, or when the answer is exactly "y". */
  predicate Confirmed(batch: bool, answer: string) {
    batch || answer == "y"
  }

  /** What the scan reports for one file. */
  datatype Message =
    | NotFound(episodeName: string, series: string)
    | RenamedTo(from: string, to: string)

  /** How a scan ends: after the last file, or at a name that could not be tokenized. */
  datatype Outcome = Completed | Aborted(file: string)

  /** The directory, the outcome and the messages a scan produces. */
  datatype Run = Run(entries: map<string, FileId>, outcome: Outcome, messages: seq<Message>)

  function Prefixed(messages: seq<Message>, run: Run): Run {
    run.(messages := messages + run.messages)
  }

  /** What the scan does with one file. */
  datatype Decision = Abort | Warn(token: string) | Propose(episode: Episode)

  /**
   * The per-file decision of `scan` as written: tokenize (an `IndexError`
   * aborts the run), match, and propose a rename only when the match
   * result is truthy, so a match at index 0 is reported as not found.
   */
  function Decide(file: string, d: char, pos: int, episodes: seq<Episode>): Decision
    requires !IsAsciiAlnum(d)
  {
    match NameToken(file, d, pos)
    case Err(_) => Abort
    case Ok(token) =>
      var found := FindEpisode(token, episodes);
      if Truthy(found) then Propose(episodes[found.value]) else Warn(token)
  }

  /** The decision with the evidently intended test `found is not None`. */
  function DecideIntended(file: string, d: char, pos: int, episodes: seq<Episode>): Decision
    requires !IsAsciiAlnum(d)
  {
    match NameToken(file, d, pos)
    case Err(_) => Abort
    case Ok(token) =>
      var found := FindEpisode(token, episodes);
      if found.Some? then Propose(episodes[found.value]) else Warn(token)
  }

  /** Some episode's name matches the token. */
  predicate AnyMatch(token: string, episodes: seq<Episode>) {
    exists i :: 0 <= i < |episodes| && NameMatches(episodes[i], token)
  }

  /** `ep` is the first episode whose name matches the token. */
  predicate FirstMatch(ep: Episode, token: string, episodes: seq<Episode>) {
    exists i :: 0 <= i < |episodes| && episodes[i] == ep && NameMatches(ep, token)
      && forall j :: 0 <= j < i ==> !NameMatches(episodes[j], token)
  }

  /**
   * As written, a rename is proposed exactly when some episode matches but
   * the first episode does not; the proposed episode is the first match.
   */
  lemma DecideProposes(file: string, d: char, pos: int, episodes: seq<Episode>)
    requires !IsAsciiAlnum(d)
    ensures Decide(file, d, pos, episodes).Abort? <==> NameToken(file, d, pos).Err?
    ensures Decide(file, d, pos, episodes).Propose? <==>
      NameToken(file, d, pos).Ok? && AnyMatch(NameToken(file, d, pos).value, episodes)
      && !NameMatches(episodes[0], NameToken(file, d, pos).value)
    ensures Decide(file, d, pos, episodes).Propose? ==>
      FirstMatch(Decide(file, d, pos, episodes).episode, NameToken(file, d, pos).value, episodes)
  {
    var tok := NameToken(file, d, pos);
    if tok.Ok? {
      var found := FindEpisode(tok.value, episodes);
      if found.Some? {
        assert FirstMatch(episodes[found.value], tok.value, episodes);
      }
    }
  }

  /** As written, a file whose name matches the first episode is never renamed. */
  lemma FirstEpisodeNeverProposed(file: string, d: char, pos: int, episodes: seq<Episode>)
    requires !IsAsciiAlnum(d)
    requires NameToken(file, d, pos).Ok?
    requires |episodes| > 0 && NameMatches(episodes[0], NameToken(file, d, pos).value)
    ensures Decide(file, d, pos, episodes) == Warn(NameToken(file, d, pos).value)
  {
  }

  /** Corrected, a rename is proposed exactly when some episode matches, for the first match. */
  lemma DecideIntendedProposes(file: string, d: char, pos: int, episodes: seq<Episode>)
    requires !IsAsciiAlnum(d)
    ensures DecideIntended(file, d, pos, episodes).Abort? <==> NameToken(file, d, pos).Err?
    ensures DecideIntended(file, d, pos, episodes).Propose? <==>
      NameToken(file, d, pos).Ok? && AnyMatch(NameToken(file, d, pos).value, episodes)
    ensures DecideIntended(file, d, pos, episodes).Propose? ==>
      FirstMatch(DecideIntended(file, d, pos, episodes).episode, NameToken(file, d, pos).value, episodes)
  {
    var tok := NameToken(file, d, pos);
    if tok.Ok? {
      var found := FindEpisode(tok.value, episodes);
      if found.Some? {
        assert FirstMatch(episodes[found.value], tok.value, episodes);
      }
    }
  }

  /** The two decisions differ only where the first episode is the match. */
  lemma DecisionsAgreeBeyondFirst(file: string, d: char, pos: int, episodes: seq<Episode>)
    requires !IsAsciiAlnum(d)
    requires Decide(file, d, pos, episodes) != DecideIntended(file, d, pos, episodes)
    ensures NameToken(file, d, pos).Ok? && FindEpisode(NameToken(file, d, pos).value, episodes) == Some(0)
  {
  }

  /**
   * A concrete instance: "Show.Pilot.mkv" names the first episode of the
   * list, yet the scan as written warns instead of proposing a rename.
   */
  lemma PilotIsNeverRenamed()
    ensures FindEpisode("Pilot", [Episode(1, 1, "Pilot")]) == Some(0)
    ensures Decide("Show.Pilot.mkv", '.', 1, [Episode(1, 1, "Pilot")]) == Warn("Pilot")
    ensures DecideIntended("Show.Pilot.mkv", '.', 1, [Episode(1, 1, "Pilot")]) == Propose(Episode(1, 1, "Pilot"))
  {
    var segs := ["Show", "Pilot", "mkv"];
    assert Join(segs, '.') == "Show.Pilot.mkv" by {
      assert segs[1..][1..] == ["mkv"];
    }
    SplitJoin(segs, '.');
    assert NameMatches(Episode(1, 1, "Pilot"), "Pilot");
  }

  /** The names in `files` are pairwise different, as a directory listing's are. */
  predicate Distinct(files: seq<string>) {
    forall i, j :: 0 <= i < j < |files| ==> files[i] != files[j]
  }

  /** Every name in `files` is in the directory. */
  predicate Listed(files: seq<string>, entries: map<string, FileId>) {
    forall i :: 0 <= i < |files| ==> files[i] in entries
  }

  /** What processing one file leads to: the end of the run, or a new directory and messages. */
  datatype Step = Stop(file: string) | Continue(entries: map<string, FileId>, messages: seq<Message>)

  /**
   * One iteration of `scan` on file `f`: tokenize, match, confirm, rename.
   * `reply` stands for the user's answer to a prompt.
   */
  function FileStep(entries: map<string, FileId>, f: string, series: string, d: char, pos: int,
                    batch: bool, episodes: seq<Episode>, reply: string -> string): (r: Step)
    requires !IsAsciiAlnum(d)
    requires f in entries
    ensures r.Continue? ==> forall g :: g in entries && g != f ==> g in r.entries
  {
    match Decide(f, d, pos, episodes)
    case Abort => Stop(f)
    case Warn(token) => Continue(entries, [NotFound(token, series)])
    case Propose(ep) =>
      var target := TargetName(series, ep, f);
      if Confirmed(batch, reply(Prompt(f, target))) then
        Continue(Renamed(entries, f, target), [RenamedTo(f, target)])
      else
        Continue(entries, [])
  }

  /** The rest of a listing stays distinct and, after one step, still listed. */
  lemma RestStillListed(files: seq<string>, entries: map<string, FileId>, next: map<string, FileId>)
    requires |files| >= 1 && Distinct(files) && Listed(files, entries)
    requires forall g :: g in entries && g != files[0] ==> g in next
    ensures Distinct(files[1..]) && Listed(files[1..], next)
  {
    forall i | 0 <= i < |files| - 1 ensures files[1..][i] in next {
      assert files[1..][i] == files[i + 1] != files[0];
    }
  }

  /**
   * The whole scan over a directory listing, one file after another; a
   * tokenizing failure ends the run with the earlier renames in place.
   */
  function ScanRun(entries: map<string, FileId>, files: seq<string>, series: string, d: char,
                   pos: int, batch: bool, episodes: seq<Episode>, reply: string -> string): Run
    requires !IsAsciiAlnum(d)
    requires Distinct(files) && Listed(files, entries)
    decreases |files|
  {
    if files == [] then Run(entries, Completed, [])
    else
      match FileStep(entries, files[0], series, d, pos, batch, episodes, reply)
      case Stop(f) => Run(entries, Aborted(f), [])
      case Continue(next, messages) =>
        RestStillListed(files, entries, next);
        Prefixed(messages, ScanRun(next, files[1..], series, d, pos, batch, episodes, reply))
  }

  lemma PrefixedTwice(m1: seq<Message>, m2: seq<Message>, run: Run)
    ensures Prefixed(m1, Prefixed(m2, run)) == Prefixed(m1 + m2, run)
  {
    assert m1 + (m2 + run.messages) == (m1 + m2) + run.messages;
  }

  /** One completed step of the scan moves the run one file further. */
  lemma Advance(start: map<string, FileId>, files: seq<string>, i: nat, said: seq<Message>,
      before: map<string, FileId>, after: map<string, FileId>, added: seq<Message>, series: string,
      d: char, pos: int, batch: bool, episodes: seq<Episode>, reply: string -> string)
    requires !IsAsciiAlnum(d) && i < |files|
    requires Distinct(files) && Listed(files, start)
    requires Distinct(files[i..]) && Listed(files[i..], before)
    requires FileStep(before, files[i], series, d, pos, batch, episodes, reply) == Continue(after, added)
    requires ScanRun(start, files, series, d, pos, batch, episodes, reply)
             == Prefixed(said, ScanRun(before, files[i..], series, d, pos, batch, episodes, reply))
    ensures Distinct(files[i + 1..]) && Listed(files[i + 1..], after)
    ensures ScanRun(start, files, series, d, pos, batch, episodes, reply)
            == Prefixed(said + added, ScanRun(after, files[i + 1..], series, d, pos, batch, episodes, reply))
  {
    assert files[i..][0] == files[i];
    assert files[i..][1..] == files[i + 1..];
    RestStillListed(files[i..], before, after);
    PrefixedTwice(said, added, ScanRun(after, files[i + 1..], series, d, pos, batch, episodes, reply));
  }

  /** A step that stops ends the whole run where it is. */
  lemma Halt(start: map<string, FileId>, files: seq<string>, i: nat, said: seq<Message>,
      before: map<string, FileId>, series: string, d: char, pos: int, batch: bool,
      episodes: seq<Episode>, reply: string -> string)
    requires !IsAsciiAlnum(d) && i < |files|
    requires Distinct(files) && Listed(files, start)
    requires Distinct(files[i..]) && Listed(files[i..], before)
    requires FileStep(before, files[i], series, d, pos, batch, episodes, reply) == Stop(files[i])
    requires ScanRun(start, files, series, d, pos, batch, episodes, reply)
             == Prefixed(said, ScanRun(before, files[i..], series, d, pos, batch, episodes, reply))
    ensures ScanRun(start, files, series, d, pos, batch, episodes, reply) == Run(before, Aborted(files[i]), said)
  {
    assert files[i..][0] == files[i];
    assert said + [] == said;
  }

  /** A run whose listing is exhausted completes with what was said. */
  lemma Finish(start: map<string, FileId>, files: seq<string>, said: seq<Message>,
      before: map<string, FileId>, series: string, d: char, pos: int, batch: bool,
      episodes: seq<Episode>, reply: string -> string)
    requires !IsAsciiAlnum(d)
    requires Distinct(files) && Listed(files, start)
    requires Distinct(files[|files|..]) && Listed(files[|files|..], before)
    requires ScanRun(start, files, series, d, pos, batch, episodes, reply)
             == Prefixed(said, ScanRun(before, files[|files|..], series, d, pos, batch, episodes, reply))
    ensures ScanRun(start, files, series, d, pos, batch, episodes, reply) == Run(before, Completed, said)
  {
    assert files[|files|..] == [];
    assert said + [] == said;
  }

  /**
   * When no file's token matches (past the first episode), the scan changes
   * nothing, reaches the end, and warns once per file, in listing order.
   */
  lemma {:induction false} ScanUnmatchedOnlyWarns(entries: map<string, FileId>, files: seq<string>,
      series: string, d: char, pos: int, batch: bool, episodes: seq<Episode>, reply: string -> string)
    requires !IsAsciiAlnum(d)
    requires Distinct(files) && Listed(files, entries)
    requires forall k :: 0 <= k < |files| ==> Decide(files[k], d, pos, episodes).Warn?
    ensures ScanRun(entries, files, series, d, pos, batch, episodes, reply).entries == entries
    ensures ScanRun(entries, files, series, d, pos, batch, episodes, reply).outcome == Completed
    ensures |ScanRun(entries, files, series, d, pos, batch, episodes, reply).messages| == |files|
    ensures forall k :: 0 <= k < |files| ==>
      ScanRun(entries, files, series, d, pos, batch, episodes, reply).messages[k]
        == NotFound(Decide(files[k], d, pos, episodes).token, series)
    decreases |files|
  {
    if files != [] {
      var warn := NotFound(Decide(files[0], d, pos, episodes).token, series);
      assert FileStep(entries, files[0], series, d, pos, batch, episodes, reply) == Continue(entries, [warn]);
      RestStillListed(files, entries, entries);
      forall k | 0 <= k < |files| - 1 ensures Decide(files[1..][k], d, pos, episodes).Warn? {
        assert files[1..][k] == files[k + 1];
      }
      ScanUnmatchedOnlyWarns(entries, files[1..], series, d, pos, batch, episodes, reply);
      var rest := ScanRun(entries, files[1..], series, d, pos, batch, episodes, reply);
      forall k | 1 <= k < |files|
        ensures ([warn] + rest.messages)[k] == NotFound(Decide(files[k], d, pos, episodes).token, series)
      {
        assert files[1..][k - 1] == files[k];
      }
    }
  }

  /** In interactive mode, when no answer is exactly "y", no file is renamed. */
  lemma {:induction false} ScanDeclinedLeavesDirectory(entries: map<string, FileId>, files: seq<string>,
      series: string, d: char, pos: int, episodes: seq<Episode>, reply: string -> string)
    requires !IsAsciiAlnum(d)
    requires Distinct(files) && Listed(files, entries)
    requires forall q :: reply(q) != "y"
    ensures ScanRun(entries, files, series, d, pos, false, episodes, reply).entries == entries
    decreases |files|
  {
    if files != [] {
      var step := FileStep(entries, files[0], series, d, pos, false, episodes, reply);
      if step.Continue? {
        assert step.entries == entries;
        RestStillListed(files, entries, entries);
        ScanDeclinedLeavesDirectory(entries, files[1..], series, d, pos, episodes, reply);
      }
    }
  }

  /**
   * The scan aborts exactly when some name has too few pieces, and then at
   * the first such name in the listing.
   */
  lemma {:induction false} ScanAbortsAtFirstBadName(entries: map<string, FileId>, files: seq<string>,
      series: string, d: char, pos: int, batch: bool, episodes: seq<Episode>, reply: string -> string)
    requires !IsAsciiAlnum(d)
    requires Distinct(files) && Listed(files, entries)
    ensures ScanRun(entries, files, series, d, pos, batch, episodes, reply).outcome.Aborted? <==>
      exists k :: 0 <= k < |files| && NameToken(files[k], d, pos).Err?
    ensures ScanRun(entries, files, series, d, pos, batch, episodes, reply).outcome.Aborted? ==>
      exists k :: 0 <= k < |files| && NameToken(files[k], d, pos).Err?
        && files[k] == ScanRun(entries, files, series, d, pos, batch, episodes, reply).outcome.file
        && forall j :: 0 <= j < k ==> NameToken(files[j], d, pos).Ok?
    decreases |files|
  {
    if files != [] {
      var step := FileStep(entries, files[0], series, d, pos, batch, episodes, reply);
      if step.Stop? {
        assert NameToken(files[0], d, pos).Err?;
      } else {
        RestStillListed(files, entries, step.entries);
        ScanAbortsAtFirstBadName(step.entries, files[1..], series, d, pos, batch, episodes, reply);
        var run := ScanRun(step.entries, files[1..], series, d, pos, batch, episodes, reply);
        if exists k :: 0 <= k < |files| && NameToken(files[k], d, pos).Err? {
          var k :| 0 <= k < |files| && NameToken(files[k], d, pos).Err?;
          assert k > 0 && files[1..][k - 1] == files[k];
        }
        if run.outcome.Aborted? {
          var k :| 0 <= k < |files| - 1 && NameToken(files[1..][k], d, pos).Err?
            && files[1..][k] == run.outcome.file
            && forall j :: 0 <= j < k ==> NameToken(files[1..][j], d, pos).Ok?;
          forall j | 0 <= j < k + 1 ensures NameToken(files[j], d, pos).Ok? {
            if j > 0 { assert files[j] == files[1..][j - 1]; }
          }
        }
      }
    }
  }

  /** In batch mode the answers are never consulted. */
  lemma {:induction false} ScanBatchIgnoresReplies(entries: map<string, FileId>, files: seq<string>,
      series: string, d: char, pos: int, episodes: seq<Episode>, r1: string -> string, r2: string -> string)
    requires !IsAsciiAlnum(d)
    requires Distinct(files) && Listed(files, entries)
    ensures ScanRun(entries, files, series, d, pos, true, episodes, r1)
         == ScanRun(entries, files, series, d, pos, true, episodes, r2)
    decreases |files|
  {
    if files != [] {
      var step := FileStep(entries, files[0], series, d, pos, true, episodes, r1);
      assert step == FileStep(entries, files[0], series, d, pos, true, episodes, r2);
      if step.Continue? {
        RestStillListed(files, entries, step.entries);
        ScanBatchIgnoresReplies(step.entries, files[1..], series, d, pos, episodes, r1, r2);
      }
    }
  }

  /** The working directory, whose names the renamer changes in place. */
  class Directory {
    var entries: map<string, FileId>

    constructor (entries: map<string, FileId>)
      ensures this.entries == entries
    {
      this.entries := entries;
    }

    /** `os.rename(src, dst)`. */
    method Rename(src: string, dst: string)
      requires src in entries
      modifies this
      ensures entries == Renamed(old(entries), src, dst)
    {
      entries := Renamed(entries, src, dst);
    }

    /**
     * `rename_file`: build the new name, ask unless in batch mode, and
     * rename only on an exact "y". `reply` gives the answer to a prompt.
     */
    method RenameFile(filename: string, ep: Episode, series: string, batch: bool, reply: string -> string)
      returns (renamed: bool)
      requires filename in entries
      modifies this
      ensures renamed == Confirmed(batch, reply(Prompt(filename, TargetName(series, ep, filename))))
      ensures entries == if renamed then Renamed(old(entries), filename, TargetName(series, ep, filename))
                         else old(entries)
    {
      var newFilename := TargetName(series, ep, filename);
      var renameOkay := if !batch then reply(Prompt(filename, newFilename)) else "y";
      renamed := renameOkay == "y";
      if renamed {
        Rename(filename, newFilename);
      }
    }

    /**
     * One iteration of `scan`'s loop: take the token at `pos` (an
     * `IndexError` stops the run), look it up, and rename or warn.
     */
    method ProcessFile(thisFile: string, series: string, d: char, pos: int, batch: bool,
                       episodes: seq<Episode>, reply: string -> string)
      returns (stop: bool, added: seq<Message>)
      requires !IsAsciiAlnum(d)
      requires thisFile in entries
      modifies this
      ensures FileStep(old(entries), thisFile, series, d, pos, batch, episodes, reply)
              == if stop then Stop(thisFile) else Continue(entries, added)
      ensures stop ==> entries == old(entries)
    {
      var episodeName := NameToken(thisFile, d, pos);
      if episodeName.Err? {
        return true, [];
      }
      stop := false;
      var found := FindEpisode(episodeName.value, episodes);
      if Truthy(found) {
        var ep := episodes[found.value];
        var renamed := RenameFile(thisFile, ep, series, batch, reply);
        added := if renamed then [RenamedTo(thisFile, TargetName(series, ep, thisFile))] else [];
      } else {
        added := [NotFound(episodeName.value, series)];
      }
    }

    /**
     * `scan` after the episode list is fetched: process the listed files in
     * order, collecting the messages, until the end or a tokenizing failure.
     */
    method Scan(series: string, d: char, pos: int, batch: bool, files: seq<string>,
                episodes: seq<Episode>, reply: string -> string)
      returns (outcome: Outcome, messages: seq<Message>)
      requires !IsAsciiAlnum(d)
      requires Distinct(files) && Listed(files, entries)
      modifies this
      ensures Run(entries, outcome, messages) == ScanRun(old(entries), files, series, d, pos, batch, episodes, reply)
    {
      outcome, messages := Completed, [];
      var i := 0;
      assert files[i..] == files;
      while i < |files|
        invariant 0 <= i <= |files|
        invariant Distinct(files[i..]) && Listed(files[i..], entries)
        invariant ScanRun(old(entries), files, series, d, pos, batch, episodes, reply)
                  == Prefixed(messages, ScanRun(entries, files[i..], series, d, pos, batch, episodes, reply))
      {
        ghost var before := entries;
        var stop, added := ProcessFile(files[i], series, d, pos, batch, episodes, reply);
        if stop {
          Halt(old(entries), files, i, messages, before, series, d, pos, batch, episodes, reply);
          outcome := Aborted(files[i]);
          return;
        }
        Advance(old(entries), files, i, messages, before, entries, added, series, d, pos, batch, episodes, reply);
        messages := messages + added;
        i := i + 1;
      }
      Finish(old(entries), files, messages, entries, series, d, pos, batch, episodes, reply);
    }
  }
}
