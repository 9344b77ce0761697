# ttvdb-renamer, modelled in Dafny

`ttvdb-renamer.py` renames the media files in the current directory. It looks
each file's episode title up in the episode list of a series held by
thetvdb.com, then renames the file to `Series.S<season>E<number>.<Title><ext>`.
This project models the script's pure core and its two loops:

- `Naming.Slug`: the series slug used for the lookup (lower case, spaces to `-`).
- `Tokenizer`: `re.split(f"\{delimeter}(?!\s)", name)[name_position]`, written
  out as a split on one literal delimiter character. A delimiter followed by
  whitespace (the `.` in "Mr. Smith") does not split. A delimiter at the end
  of the name does.
- `Episodes.FindEpisode`: `find_episode`, the index of the first episode whose
  name equals the token ignoring case.
- `Episodes.GetEpisodes`: the `while next_page` loop of `get_episodes`, over
  the sequence of page responses the service returns.
- `Naming.TargetName`: the new filename. `Paths.Extension` gives the
  `os.path.splitext` extension it keeps.
- `Renamer.Directory`: the working directory as a map from names to file
  identities. `RenameFile` is `rename_file`: it asks unless in batch mode and
  renames on an exact `"y"`. `Scan` is the loop of `scan` over the listed files, and `ProcessFile` is one
  iteration of it.
- `Renamer.ScanRun` and `Renamer.FileStep` specify that loop file by file. The
  lemmas beside them state what a whole scan does.

Dafny source files: `wrappers.dfy`, `text.dfy`, `paths.dfy`, `tokenizer.dfy`,
`episodes.dfy`, `naming.dfy`, `renamer.dfy`.

Four points where the code's own annotations and the code part ways. The model
follows the code in each:

- The docstring of `find_episode` (ttvdb-renamer.py:59) says it returns the
  episode object. The `-> int` annotation (ttvdb-renamer.py:58) and the
  expression (ttvdb-renamer.py:61) give the record's index, and the caller
  indexes the list with it (ttvdb-renamer.py:117).
- `[name_position]` at ttvdb-renamer.py:113 is Python indexing, so a negative
  position also picks a piece, counted from the end; for `n` pieces the
  lookup fails only when the position is at least `n` or below `-n`.
  `Tokenizer.NameToken` models both.
- The docstring of `scan` (ttvdb-renamer.py:99-103) gives the new name as
  `[series-name-or-anything].S[season-number]E[episode-number].extension`:
  no episode title, and a prefix that reads as kept from the old name. Line
  68 builds the name from the `series` argument (passed at
  ttvdb-renamer.py:117), the label, the episode title and the old extension.
  `Naming.TargetName` follows line 68, and `Naming.TargetNameIgnoresBaseName`
  shows that nothing of the old name but its extension survives.
- `find_episode` annotates its `episodes` parameter as `str`
  (ttvdb-renamer.py:58), but it receives and enumerates the list of episode
  records that `get_episodes` returns. The model takes a `seq<Episode>`.

## Model

| member | source | states |
|---|---|---|
| `Text.IsSpace` | ttvdb-renamer.py:113 | the characters `\s` matches in a `str` pattern: the Unicode whitespace characters, which decide whether a delimiter splits |
| `Text.Lower` | ttvdb-renamer.py:61 | lower-casing keeps the length and maps each character by its ASCII lower-case mapping |
| `Text.NatToString` | ttvdb-renamer.py:66 | a number renders as at least one decimal digit, with no leading zero unless it is 0 |
| `Text.IntToString` | ttvdb-renamer.py:66 | an int renders as digits, preceded by `-` exactly when it is negative |
| `Text.ParseIntToString` | ttvdb-renamer.py:66 | reading a rendered int back gives the int, so the rendering loses nothing |
| `Paths.LastIndexOf` | ttvdb-renamer.py:68 | `rfind`: the index holds the character and no later index does; -1 when it is absent |
| `Paths.Extension` | ttvdb-renamer.py:68 | `os.path.splitext(p)[1]` with `/` as separator; `ExtensionShape`, `ExtensionOfAppended` and `LeadingDotsOnly` establish its shape and when it is non-empty |
| `Paths.ExtensionShape` | ttvdb-renamer.py:68 | the extension is a suffix of the name: empty, or a dot followed by no dot and no `/`, with a non-dot character before it in the last path component |
| `Paths.ExtensionOfAppended` | ttvdb-renamer.py:68 | appending `.e` to a stem whose last component has a non-dot character makes `.e` the extension |
| `Paths.LeadingDotsOnly` | ttvdb-renamer.py:68 | a name whose only dots are leading ones (a hidden file) has the empty extension |
| `Tokenizer.IsSplitPoint` | ttvdb-renamer.py:113 | a match of `\<delimiter>(?!\s)`: the delimiter followed by a non-whitespace character or by the end; `BoundaryIsSplitPoint` and `SplitPointIsBoundary` prove these are exactly the piece boundaries |
| `Tokenizer.Split` | ttvdb-renamer.py:113 | a split always yields at least one piece |
| `Tokenizer.JoinSplit` | ttvdb-renamer.py:113 | joining the pieces with the delimiter reproduces the filename exactly |
| `Tokenizer.BoundaryIsSplitPoint` | ttvdb-renamer.py:112-113 | each boundary between pieces is a delimiter followed by non-whitespace or by the end of the name |
| `Tokenizer.SplitPointIsBoundary` | ttvdb-renamer.py:112-113 | each delimiter followed by non-whitespace or by the end of the name is a boundary between pieces |
| `Tokenizer.SegmentsClean` | ttvdb-renamer.py:112-113 | inside every piece, each delimiter is followed by whitespace in that piece (for a delimiter that is not whitespace) |
| `Tokenizer.SplitPiece` | ttvdb-renamer.py:113 | a clean piece followed by a splitting delimiter comes off as the first piece |
| `Tokenizer.SplitClean` | ttvdb-renamer.py:113 | a name with no split point is one piece |
| `Tokenizer.SplitJoin` | ttvdb-renamer.py:113 | for a delimiter that is not whitespace, splitting undoes joining when every piece is clean and every piece after the first is empty or does not start with whitespace |
| `Tokenizer.TokenExample` | ttvdb-renamer.py:112-113 | "Mr. Smith.Pilot.mkv" with `.` and position 1 gives "Pilot" |
| `Tokenizer.NameToken` | ttvdb-renamer.py:113 | `IndexError` exactly when the position is outside the pieces (Python's negative indexing included); otherwise the piece at that position |
| `Episodes.NameMatches` | ttvdb-renamer.py:61 | the test inside `find_episode`: the episode's name and the token are equal once both are lower-cased (ASCII case mapping); `FindEpisode`'s contract is stated through it |
| `Episodes.FindEpisode` | ttvdb-renamer.py:58-61 | the result is the least index whose name matches the token ignoring case; `None` exactly when no name matches |
| `Episodes.Truthy` | ttvdb-renamer.py:116 | Python truthiness of `find_episode`'s result: `None` and the index 0 are false; `FirstEpisodeNeverProposed` and `DecisionsAgreeBeyondFirst` show what that costs |
| `Episodes.FindEpisodeCaseInsensitive` | ttvdb-renamer.py:61 | two tokens equal up to letter case find the same index |
| `Episodes.FindEpisodeIgnoresCase` | ttvdb-renamer.py:61 | lower-casing the token never changes the result |
| `Episodes.HasNext` | ttvdb-renamer.py:50-54 | Python truthiness of `links.next` as `while next_page` tests it: `None` and `""` are false, any other string is true; `GetEpisodes` stops at the first page for which it is false |
| `Episodes.ConcatAppend` | ttvdb-renamer.py:52 | accumulating page batches distributes over splitting the pages |
| `Episodes.ConcatCount` | ttvdb-renamer.py:48-55 | the accumulated list holds as many records as all fetched pages together |
| `Episodes.GetEpisodes` | ttvdb-renamer.py:48-55 | the result concatenates the fetched batches in fetch order; fetching stops at the first page whose `next` is falsy, and every earlier page had a truthy `next` |
| `Naming.ReplaceChar` | ttvdb-renamer.py:106 | `str.replace` of one character: the length is kept, each occurrence of the old character becomes the new one, every other character stays |
| `Naming.Slug` | ttvdb-renamer.py:106 | the slug has the series name's length and no space; each character is the lower-cased one, with space mapped to `-` |
| `Naming.SlugIdempotent` | ttvdb-renamer.py:106 | slugging a slug changes nothing |
| `Naming.SeasonEpisode` | ttvdb-renamer.py:66 | the `S<season>E<number>` label; `ParseSeasonEpisodeRoundTrip` shows both numbers read back from it |
| `Naming.TargetName` | ttvdb-renamer.py:66-68 | series, `.`, label, `.`, title, then the old extension; `TargetNameKeepsExtension`, `TargetNameIgnoresBaseName` and `TargetNameExample` establish its properties |
| `Naming.ParseSeasonEpisodeRoundTrip` | ttvdb-renamer.py:66 | the `S<season>E<number>` label reads back to both numbers (unpadded decimal, negative ones included) |
| `Naming.TargetNameIgnoresBaseName` | ttvdb-renamer.py:68 | the new name depends on the old name only through its extension |
| `Naming.TargetNameKeepsExtension` | ttvdb-renamer.py:66-68 | the new name has the old name's extension when there is one and the episode title has no `/` |
| `Naming.TargetNameExample` | ttvdb-renamer.py:66-68 | "The-Wire", season 1, episode 3, "The Buys", from an `.mkv` file gives "The-Wire.S1E3.The Buys.mkv" |
| `Renamer.Prompt` | ttvdb-renamer.py:71 | the exact question put to the user, which the reply function answers |
| `Renamer.Confirmed` | ttvdb-renamer.py:70-75 | the gate: batch mode, or an answer that is exactly `y`; `RenameFile` and `ScanBatchIgnoresReplies` rest on it |
| `Renamer.Renamed` | ttvdb-renamer.py:76 | after a rename the file is under its new name and, when the two names differ, gone from the old one; every other name keeps its file |
| `Renamer.RenameKeepsCount` | ttvdb-renamer.py:76 | renaming onto a free name keeps the number of files |
| `Renamer.RenameOverwrites` | ttvdb-renamer.py:76 | renaming onto another existing name loses one file: the target now holds the renamed one |
| `Renamer.Decide` | ttvdb-renamer.py:113-119 | what the loop body decides for one file, as written (abort, warn, or propose the found episode); `DecideProposes` characterises it |
| `Renamer.DecideIntended` | ttvdb-renamer.py:113-119 | the same decision with `found is not None` at line 116; `DecideIntendedProposes` characterises it |
| `Renamer.DecideProposes` | ttvdb-renamer.py:113-119 | a tokenizing failure aborts; a rename is proposed exactly when some episode matches and the first one does not; the proposal is the first match |
| `Renamer.FirstEpisodeNeverProposed` | ttvdb-renamer.py:115-119 | a token that matches the first episode ends in the warning branch |
| `Renamer.DecideIntendedProposes` | ttvdb-renamer.py:115-117 | with the corrected test, a rename is proposed exactly when some episode matches, and the proposal is the first match |
| `Renamer.DecisionsAgreeBeyondFirst` | ttvdb-renamer.py:116 | the written and corrected decisions differ only when the match is at index 0 |
| `Renamer.PilotIsNeverRenamed` | ttvdb-renamer.py:116 | for "Show.Pilot.mkv" and the list [Pilot], the match is index 0, the code warns, and the corrected decision renames |
| `Renamer.FileStep` | ttvdb-renamer.py:113-119 | processing one file keeps every other name in the directory |
| `Renamer.ScanRun` | ttvdb-renamer.py:111-119 | the loop of `scan` file by file, stopping at the first tokenizing failure with earlier renames kept; `Directory.Scan` computes it and the `Scan...` lemmas state what it does |
| `Renamer.ScanUnmatchedOnlyWarns` | ttvdb-renamer.py:111-119 | if no file is matched, the scan changes nothing, completes, and warns once per file in listing order |
| `Renamer.ScanDeclinedLeavesDirectory` | ttvdb-renamer.py:70-76 | in interactive mode, when no answer is exactly "y", the directory is unchanged |
| `Renamer.ScanAbortsAtFirstBadName` | ttvdb-renamer.py:111-113 | the scan aborts exactly when some name has too few pieces, and at the first such name |
| `Renamer.ScanBatchIgnoresReplies` | ttvdb-renamer.py:70-73 | in batch mode the answers to prompts never affect the run |
| `Renamer.Directory.Rename` | ttvdb-renamer.py:76 | the directory becomes the renamed map |
| `Renamer.Directory.RenameFile` | ttvdb-renamer.py:63-77 | the rename happens exactly when in batch mode or the answer to the prompt is "y"; otherwise the directory is unchanged |
| `Renamer.Directory.ProcessFile` | ttvdb-renamer.py:112-119 | one file of the loop: it stops exactly when the specification step stops, leaving the directory as it was; otherwise the directory and messages are the step's |
| `Renamer.Directory.Scan` | ttvdb-renamer.py:111-119 | the final directory, outcome and messages are those of the file-by-file specification `ScanRun` |

## Left out

- The token bootstrap and login retry at module load (ttvdb-renamer.py:22-39). This is file I/O and HTTP.
- The HTTP requests and JSON decoding: the series lookup (ttvdb-renamer.py:45-46) and each page request (ttvdb-renamer.py:51). `GetEpisodes` takes the page responses as a sequence, and `Scan` takes the fetched episode list.
- `get_file_list` (ttvdb-renamer.py:79-82). `Scan` takes the listing as a parameter. It requires the names to be distinct and present in the directory, as a listing's are.
- `print` and `input`. Messages are returned as data. `input` is a `reply` function from the literal prompt to the answer line.
- The `click` option parsing (ttvdb-renamer.py:85-90). Its defaults are `.` for the delimiter, 1 for the position and batch off.
- `Tokenizer.NameToken`: requires the delimiter not to be an ASCII letter or digit. Escaping one of those turns it into a character class (`\d`, `\w`, `\s`), a zero-width anchor (`\b`, `\A`, `\Z`, at which `re.split` splits on empty matches), a control character (`\t` splits on tabs, `\n` on newlines), the NUL character (`\0`), or an error: `\1` to `\9` refer to a group the pattern does not have, and the remaining letters are unknown escapes. Multi-character and empty delimiters are not modelled.
- `Tokenizer.SegmentsClean`: requires the delimiter not to be whitespace. With a space as delimiter, "  x" splits into " " and "x", and the first piece ends in an unsplit delimiter.
- `Text.Lower`: only ASCII case mapping is modelled, not Python's full Unicode lower-casing.
- `Episodes.GetEpisodes`: requires some response to have a falsy `next`. Without one the source requests pages forever.
- JSON `null` fields (an episode name, season or number of `None`, a page without `episodes`) are not modelled. Season and episode numbers are integers.
- `Renamer.Directory.Rename`: follows POSIX `rename` (an existing target is replaced; renaming a name to itself changes nothing). Windows raises an error when the target exists.
- `Renamer.Renamed`: models a successful POSIX `rename` on a flat map of names. It does not model three ways `os.rename` at ttvdb-renamer.py:76 behaves otherwise, all of which depend on file-system state the map does not hold. (1) An episode title containing `/` makes the target a path into a directory that usually does not exist, so `os.rename` raises `FileNotFoundError` and the uncaught error ends the whole scan; the model stores the name as one key and goes on. (2) A target naming an existing subdirectory raises `IsADirectoryError`; the listing at ttvdb-renamer.py:82 skips directories, so the map never holds them. (3) When the source and target are hard links to the same file, POSIX `rename` does nothing; the model drops the old name.
- `Renamer.Directory.Rename` and `Renamer.Directory.RenameFile` inherit these three gaps from `Renamer.Renamed`.
- `Renamer.Directory.RenameFile`: requires the file to exist. `os.rename` would raise `FileNotFoundError`, but `scan` only passes listed files.
- The rename success notice (ttvdb-renamer.py:77) is produced by `Renamer.Directory.ProcessFile` after `RenameFile` returns, not inside `RenameFile`.
- `Naming.FirstIndexOf` and `Naming.ParseSeasonEpisode` are not in the script: they are a reader for the `S<season>E<number>` label, used only to state that the label loses nothing.

## Findings

| source | as written | input that shows it | evidently intended | confidence | as-written member | corrected member |
|---|---|---|---|---|---|---|
| ttvdb-renamer.py:116 | `if found:` treats the index 0 returned by `find_episode` as "not found" | file "Show.Pilot.mkv", delimiter `.`, position 1, episode list [Pilot]: the match is index 0 and the file is reported as not found | `if found is not None:`, so that the first episode can be matched | high (not executed) | `Renamer.Decide` (shown by `Renamer.PilotIsNeverRenamed`, `Renamer.FirstEpisodeNeverProposed`) | `Renamer.DecideIntended` (proved by `Renamer.DecideIntendedProposes`) |

`Scan` and `ScanRun` keep the code's behaviour and use `Renamer.Decide`.
`Renamer.DecisionsAgreeBeyondFirst` shows that the two decisions differ only on a match at index 0.
