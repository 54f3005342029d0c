# Quick Anime Renamer Redux — a Dafny model of its core

Quick Anime Renamer Redux is a small desktop tool that tidies the names of
anime video files. It works on a list of files, dropped onto its window or
read from a folder. For each file:

- `clean_name` finds the season and episode in the base name;
- it strips bracketed release tags;
- it turns `_` and `.` into spaces;
- it tidies dashes and spaces;
- it rebuilds the name as `Title - S02 - 06.mkv` or `Title - 06.mkv`.

Applying the renames records each `(old, new)` path pair, and one undo moves
everything back.

This project models the two parts of the program that hold logic:

- **The name normaliser.** It is pure.
  - `is_video` and the extension set live in `Paths`, with `os.path.splitext`.
  - `detect_episode` and `clean_name` live in `Normaliser`.
  - The six option check boxes become one explicit `Config` record.
  - Every regular expression the program uses is a hand-written matcher in
    `Patterns`:
    - each matcher returns the match Python's backtracking engine finds at a
      position: greedy where the pattern is greedy, fewest characters for
      `.*?`;
    - each also returns nothing exactly when no match exists there.
  - `Regex` builds `re.search` (the leftmost match) and `re.sub` (leftmost,
    non-overlapping replacement) on top of those matchers.
- **The rename session.** It is imperative.
  - `Session.RenameSession` is a class. Its fields are the window's `files`
    and `rename_history`, plus a file system, which is a map from
    `(directory, name)` paths to contents.
  - `os.rename` becomes `Session.Rename`, an update of that map.
  - `apply_rename`, `undo_rename` and the Delete-key row deletion are methods
    with loops.
  - Each method is proved against a function of the old state: `ApplyFrom`,
    `UndoFrom` or `Unselected`.
  - Lemmas about those functions state what the program promises.

Text is `seq<char>`. Character classes are ASCII. `Examples` works through
concrete names that show the normaliser's less obvious behaviour.

### Where the code does not do what it is meant to do

The model follows the code. In these places the code differs from what the
program's option labels and its own comments ("Remove episode tokens",
"Normalize spacing") lead one to expect:

- **`clean_name` is not idempotent.** `E1.mkv` becomes ` - 1.mkv`, and cleaning
  that again gives `1.mkv` (`Examples.NotIdempotent`). The cause is that the
  suffix ` - 1` is added even when the cleaned stem is empty.
- **A name can lose its extension.** With bracket removal on, a stem that
  consists only of a bracketed tag, in which no episode is detected, ends
  up as a bare `.mkv`. (Detection runs on the raw stem, so `[E01].mkv`
  gets an episode suffix instead and becomes ` - 01.mkv`.) For `splitext` that is a name with no
  extension, so the result is no longer a video file
  (`Examples.ExtensionLost`). `NormaliserProperties.ExtensionSurvives` states
  when the extension does survive.
- **`apply_rename` has no error handling.** The first `os.rename` that raises
  ends the loop. The records already appended stay in the history. No
  further file is tried, and no list of failures is produced. The model
  returns `completed == false` for that case.
- **Undo only clears the history when it succeeds.** `undo_rename` clears the
  history after its loop. The clear is skipped when a rename inside the loop
  raises.
- **`files` is not updated after a rename.** Suppose the cleaned names were
  free and pairwise distinct beforehand (the conditions of
  `Session.UndoRestores`). Then, after a run that moved something, running
  apply again raises at the first file it tries to move
  (`Session.ReapplyAborts`). Without those conditions a second run can do
  damage before it raises. Take the files ` - 1.mkv` and `E1.mkv` with
  episode detection on: the first run renames them to `1.mkv` and ` - 1.mkv`.
  On a platform that replaces existing files, a second run then moves
  ` - 1.mkv` onto `1.mkv`, and the content of the first file is lost. Only
  after that does it raise at `E1.mkv`.
- **A season token at the start of the stem is not removed.** The removal
  pattern at line 199 needs a separator before the `S`, so the token stays
  and the suffix repeats it. `S1E2.mkv` becomes `S1E2 - S01 - 2.mkv`
  (`Examples.LeadingSeasonKept`).
- **An underscore hides an episode marker.** `_` is a word character, so
  `\b` does not hold between `_` and a following `E`. The bare-number
  pattern also needs a separator on both sides of the digits. As a result,
  `_E1` yields no episode (`Examples.UnderscoreHidesEpisode`), and neither
  does `Show_Name_Episode_12`.

## Model

| member | source | states |
|---|---|---|
| `Text.Lower` | quick_anime_renamer_redux.py:143 | `str.lower()` on ASCII: same length; each upper-case letter is replaced by its lower-case letter and every other character is kept |
| `Text.ZFill` | quick_anime_renamer_redux.py:216 | `zfill(w)`: the result has length `max(|s|, w)`, ends with `s`, and is `0`s before that |
| `Paths.SplitExt` | quick_anime_renamer_redux.py:182 | `os.path.splitext`: root + ext is the path; ext is empty or a dot followed by no dot and no `/`; ext is non-empty exactly when the base name has a dot after some leading non-dot character |
| `Paths.VideoExtensionShape` | quick_anime_renamer_redux.py:19 | every accepted extension, in any letter case, is a dot followed by three characters that are neither dots nor slashes |
| `Paths.IsVideo` | quick_anime_renamer_redux.py:142-143 | `is_video`: an accepted path has a `splitext` extension, and that extension is four characters long |
| `Paths.IsVideoIgnoresCase` | quick_anime_renamer_redux.py:142-143 | lower-casing a path never changes whether `is_video` accepts it |
| `Paths.IsVideoByLastFour` | quick_anime_renamer_redux.py:142-143 | `is_video` accepts a path exactly when it has a `splitext` extension and its last four characters, lower-cased, are one of `.mkv .mp4 .avi .mov .wmv` |
| `Paths.SplitExtAppend` | quick_anime_renamer_redux.py:182 | a base name without `/` that has a non-dot character, followed by an extension, splits back into exactly those two parts |
| `Patterns.SeasonEpisodeAt` | quick_anime_renamer_redux.py:163 | `[sS](\d{1,2})[eE](\d{1,4})` at a position: the match Python takes (longest digit runs) if any choice of lengths matches, and nothing exactly when none does |
| `Patterns.EpisodeAt` | quick_anime_renamer_redux.py:168 | `\b[eE][pP]? ?(\d{1,4})\b` at a position: Python's choice, with the optional `P` and space taken first and as many digits as still end on a `\b`; nothing exactly when no choice matches |
| `Patterns.BareNumberAt` | quick_anime_renamer_redux.py:172 | `[ ._-](\d{1,4})[ ._-]` at a position: its digit count is the only one that matches, and nothing is returned exactly when no count matches |
| `Patterns.GroupAt` | quick_anime_renamer_redux.py:190-194 | `\[.*?\]`, `\(.*?\)` and `\{.*?\}` at a position: the fewest enclosed non-newline characters that reach a closing bracket, or nothing exactly when no closing bracket is reachable |
| `Patterns.SeasonTokenAt` | quick_anime_renamer_redux.py:199 | `[ ._-]-?[ ._-]*[sS]\d{1,2}[eE]\d{1,4}` at a position: Python's choice (dash first, the separator run whole, the longest digits), or nothing exactly when no choice matches |
| `Patterns.DashAt` | quick_anime_renamer_redux.py:210 | `\s*-\s*` at a position: both whitespace runs taken whole, and nothing exactly when no choice matches |
| `Patterns.SpacesAt` | quick_anime_renamer_redux.py:211 | ` +` at a position: the whole run of spaces, and nothing exactly when there is no space there |
| `Regex.MatchAt` | quick_anime_renamer_redux.py:163-211 | the match of any of the program's patterns at a position ends after that position and inside the text |
| `Regex.Search` | quick_anime_renamer_redux.py:163-174 | `re.search`: the returned start is where the pattern matches, nothing matches earlier, and nothing is returned exactly when it matches nowhere |
| `Regex.SearchFindsLeftmost` | quick_anime_renamer_redux.py:163-174 | searching a whole name finds the leftmost match, and finds nothing exactly when there is no match |
| `Regex.SeasonEpisodeGroups` | quick_anime_renamer_redux.py:163-165 | a season-and-episode match has two groups: 1–2 digits, then 1–4 digits |
| `Regex.EpisodeGroups` | quick_anime_renamer_redux.py:168-170 | an episode-only match has one group of 1–4 digits |
| `Regex.BareNumberGroups` | quick_anime_renamer_redux.py:172-174 | a bare-number match has one group of 1–4 digits |
| `Regex.Sub` | quick_anime_renamer_redux.py:190-211 | `re.sub` introduces no character that is neither in the text nor in the replacement |
| `Regex.SubIsLeftmostReplacement` | quick_anime_renamer_redux.py:190-211 | the substitution is the search-and-replace loop of `re.sub`: find the leftmost match, replace it, go on after it, copy the rest |
| `Regex.SubKeepsNoPair` | quick_anime_renamer_redux.py:199-211 | a substitution whose replacement holds neither `o` nor `c` never creates an `o` followed later by a `c` |
| `Regex.GroupSubNoPair` | quick_anime_renamer_redux.py:190-194 | after removing the shortest `o`…`c` groups from a text without newlines, no `o` is followed anywhere later by a `c` |
| `Normaliser.DetectEpisode` | quick_anime_renamer_redux.py:161-176 | a season only comes with an episode; both are digit strings of the captured lengths; a season is found exactly when the season-and-episode pattern matches; nothing is found exactly when none of the three patterns matches |
| `Normaliser.TagOf` | quick_anime_renamer_redux.py:184-186 | no contract of its own: the tag is `detect_episode` on the raw stem, or nothing when detection is off; `NormaliserProperties.TagWellFormed` states that it is well formed and is `(None, None)` with detection off |
| `Normaliser.ReplaceAll` | quick_anime_renamer_redux.py:205-207 | `str.replace` of one character: same length, each occurrence replaced, every other character kept |
| `Normaliser.RemoveGroups` | quick_anime_renamer_redux.py:188-194 | no contract of its own: the three enabled group removals in source order; `NormaliserProperties.BracketsRemoved`, `ParenthesesRemoved` and `CurlyRemoved` state what they leave |
| `Normaliser.RemoveEpisodeTokens` | quick_anime_renamer_redux.py:196-202 | without a detected episode the name is kept as it is; otherwise the token removal adds no character except the space that replaces a bare number, and adds no character at all when there is a season |
| `Normaliser.ReplaceSeparators` | quick_anime_renamer_redux.py:204-207 | no contract of its own: `_` then `.` become spaces when enabled; `NormaliserProperties.UnderscoresReplaced` and `DotsReplaced` state that none survives |
| `Normaliser.StripBounds` | quick_anime_renamer_redux.py:211 | `strip(" -")`: everything removed is a space or a dash, and what is kept is empty or neither starts nor ends with one |
| `Normaliser.Strip` | quick_anime_renamer_redux.py:211 | no contract of its own: the slice `StripBounds` keeps; `NormaliserProperties.StripEnds` and `SpacingNormalised` state that nothing strippable remains at either end |
| `Normaliser.NormaliseSpacing` | quick_anime_renamer_redux.py:209-211 | the spacing step adds no character other than spaces and dashes |
| `Normaliser.Suffix` | quick_anime_renamer_redux.py:213-219 | the suffix is empty exactly when no episode was detected; with one it starts with ` - ` and ends with the episode digits exactly as captured |
| `Normaliser.CleanStem` | quick_anime_renamer_redux.py:188-211 | no contract of its own: the cleaning steps in source order; `NormaliserProperties.CleanStemChars`, `SpacingNormalised` and the toggle lemmas state its properties |
| `Normaliser.CleanName` | quick_anime_renamer_redux.py:181-219 | the cleaned name ends with the extension `splitext` found in the input, untouched |
| `NormaliserProperties.SeasonEpisodeFirst` | quick_anime_renamer_redux.py:163-165 | when the season-and-episode pattern matches anywhere, its leftmost match's two groups are the result, wherever the other patterns match |
| `NormaliserProperties.EpisodeSecond` | quick_anime_renamer_redux.py:167-170 | without a season-and-episode match, the leftmost `E`/`EP` match gives the episode, with no season, wherever bare numbers occur |
| `NormaliserProperties.BareNumberLast` | quick_anime_renamer_redux.py:172-174 | only when neither earlier pattern matches does the leftmost separated bare number give the episode |
| `NormaliserProperties.NothingDetected` | quick_anime_renamer_redux.py:161-176 | `(None, None)` exactly when none of the three patterns matches anywhere |
| `NormaliserProperties.CleanStemChars` | quick_anime_renamer_redux.py:188-211 | every character of the cleaned stem is a character of the raw stem, a space or a dash |
| `NormaliserProperties.UnderscoresReplaced` | quick_anime_renamer_redux.py:204-205 | with underscore replacement on, the cleaned stem contains no `_` |
| `NormaliserProperties.DotsReplaced` | quick_anime_renamer_redux.py:206-207 | with dot replacement on, the cleaned stem contains no `.` |
| `NormaliserProperties.BracketsRemoved` | quick_anime_renamer_redux.py:189-190 | with bracket removal on, no `[` of the cleaned stem is followed anywhere later by `]` |
| `NormaliserProperties.ParenthesesRemoved` | quick_anime_renamer_redux.py:191-192 | with parenthesis removal on, no `(` of the cleaned stem is followed anywhere later by `)` |
| `NormaliserProperties.CurlyRemoved` | quick_anime_renamer_redux.py:193-194 | with curly-brace removal on, no `{` of the cleaned stem is followed anywhere later by `}` |
| `NormaliserProperties.SpacingNormalised` | quick_anime_renamer_redux.py:209-211 | the cleaned stem never has two spaces in a row, and is empty or neither starts nor ends with a space or a dash |
| `NormaliserProperties.SeasonPadded` | quick_anime_renamer_redux.py:216 | `zfill(2)` on a captured season gives exactly two digits: a `0` before one digit, and two digits unchanged |
| `NormaliserProperties.TagWellFormed` | quick_anime_renamer_redux.py:184-186 | the tag `clean_name` uses is well formed, and is `(None, None)` when episode detection is off |
| `NormaliserProperties.SuffixShape` | quick_anime_renamer_redux.py:214-219 | the suffix is empty without an episode; ` - ` and the episode digits verbatim without a season; ` - S`, the padded season, ` - ` and the episode with one |
| `NormaliserProperties.CleanNameShape` | quick_anime_renamer_redux.py:181-219 | the cleaned name is the cleaned stem plus the extension when detection is off or finds nothing; otherwise the stem, ` - S` and the two-digit season (when there is a season), ` - `, the episode as captured, and the extension |
| `NormaliserProperties.ExtensionSurvives` | quick_anime_renamer_redux.py:181-219 | for a base name with an extension, when a suffix was added or the cleaned stem has a non-dot character, the new name splits into the text before the extension and the same extension, and it is a video file exactly when the old name was |
| `Session.Rename` | quick_anime_renamer_redux.py:253 | `os.rename` fails exactly when the source is missing or the destination exists on a platform that does not replace it; otherwise the content moves to the destination, the source is gone, and every other path is unchanged |
| `Session.Target` | quick_anime_renamer_redux.py:245-250 | no contract of its own: the same folder and the cleaned name; `Session.Planned` and `Session.ApplyFrom` state that every logged record goes to it |
| `Session.Planned` | quick_anime_renamer_redux.py:244-254 | the records a full run logs are for loaded files only; each goes to the cleaned name in the same folder, and only when that name differs |
| `Session.ApplyFrom` | quick_anime_renamer_redux.py:244-254 | the `apply_rename` loop: it logs no more records than there are files, and each record is for a loaded file that moved to its cleaned name in the same folder |
| `Session.UndoFrom` | quick_anime_renamer_redux.py:263-265 | the `undo_rename` loop: it undoes no more records than the history holds, and each one it undoes is a record of the history |
| `Session.ApplyFollowsPlan` | quick_anime_renamer_redux.py:241-254 | the files are processed in list order: the log is a prefix of the planned records, and it is complete exactly when the loop completes; a stop means the next planned rename fails; replaying the logged renames in order yields the resulting file system, so each record follows a rename that succeeded |
| `Session.NothingToRename` | quick_anime_renamer_redux.py:252 | when no name would change, nothing is renamed and nothing is logged |
| `Session.PlannedOnlyMoves` | quick_anime_renamer_redux.py:252-254 | nothing is planned exactly when every file already carries its cleaned name |
| `Session.UndoSplit` | quick_anime_renamer_redux.py:263-265 | undo works from the last record back: undoing `a + b` undoes `b` first, then `a` unless that stopped |
| `Session.UndoSkipsMissing` | quick_anime_renamer_redux.py:263-265 | a record whose new path is gone when its turn comes is skipped: it is not undone, the file system is left as it is, and undo goes on with the earlier records |
| `Session.UndoAllMissing` | quick_anime_renamer_redux.py:263-267 | when no record's new path exists any more, undo renames nothing, undoes nothing, raises nothing and completes |
| `Session.UndoRestores` | quick_anime_renamer_redux.py:241-267 | for distinct loaded files that exist, whose new paths are pairwise distinct and did not exist: apply completes and logs every planned record, and undo then succeeds, undoes every record (last first) and restores the original file system exactly |
| `Session.ApplyVacates` | quick_anime_renamer_redux.py:241-254 | under the same conditions, every file apply moved is gone from its old path |
| `Session.ReapplyAborts` | quick_anime_renamer_redux.py:241-254 | under the same conditions, once a run has moved something, a second run over the same list raises at once, logs nothing and changes nothing |
| `Session.RenameSession.ApplyRename` | quick_anime_renamer_redux.py:241-254 | `apply_rename` empties the history and then renames the files in a loop; the resulting file system, history and completion are those of `ApplyFrom` on the old state; the file list is unchanged |
| `Session.RenameSession.RenameAll` | quick_anime_renamer_redux.py:242-254 | the loop of `apply_rename`, run file by file in list order, ends with the file system, history and completion flag that `ApplyFrom` gives for the old state; the file list is unchanged |
| `Session.RenameSession.UndoRename` | quick_anime_renamer_redux.py:262-267 | `undo_rename` walks the history backwards, as `UndoFrom`; it empties the history when it completes and leaves it as it was when a rename raises |
| `Session.RenameSession.DeleteRows` | quick_anime_renamer_redux.py:124-133 | deleting the selected rows from the highest index down leaves exactly the unselected files, in order; history and file system are untouched |
| `Session.Unselected` | quick_anime_renamer_redux.py:126-132 | the result is never longer than the list it is taken from |
| `Session.DeletedCount` | quick_anime_renamer_redux.py:126-132 | deleting a selection of valid rows removes exactly as many files as rows were selected |
| `Examples.NotIdempotent` | quick_anime_renamer_redux.py:181-219 | cleaning `E1.mkv` gives ` - 1.mkv`, cleaning that again gives `1.mkv`: `clean_name` is not idempotent |
| `Examples.ExtensionLost` | quick_anime_renamer_redux.py:182-219 | with bracket removal, `[G].mkv` becomes `.mkv`, which is no longer a video file although `[G].mkv` is |
| `Examples.NewlineKeepsBrackets` | quick_anime_renamer_redux.py:190 | a bracket pair around a newline survives `\[.*?\]` removal |
| `Examples.LeadingSeasonKept` | quick_anime_renamer_redux.py:199 | `S1E2.mkv` becomes `S1E2 - S01 - 2.mkv`: a season token that starts the stem is not removed |
| `Examples.UnderscoreHidesEpisode` | quick_anime_renamer_redux.py:168-174 | in `_E1` no episode is detected: there is no word boundary between `_` and `E` |

## Left out

- The PySide6 window is presentation only and is not modelled:
  - the layout, the table of old and new names, and `preview_files`;
  - message boxes, enabling the undo button, the About box, and the
    application entry point.
- Loading files is I/O and is not modelled:
  - drag and drop (`dropEvent`), `select_folder` with its folder dialog,
    `os.listdir` and `os.path.isfile`;
  - a session starts from an already loaded list (the `RenameSession`
    constructor);
  - the `is_video` filter these loaders apply is modelled.
- `QSettings` persistence of the options and the last folder is not
  modelled. The six options are passed in as `Normaliser.Config`.
- Python 3's `\d`, `\w`, `\s` and `str.lower()` are modelled on ASCII only.
  On ASCII characters they agree with Python's default (Unicode) classes.
  This includes `\s` matching the separators `\x1c`–`\x1f`. Non-ASCII
  digits, letters and whitespace are not modelled.
- `os.path.splitext` is the POSIX version (`/` is the only separator). The
  Windows handling of `\` and drive letters is not modelled.
- `os.path.join`, `dirname` and `basename` are replaced by `(directory, name)`
  pairs. Names are taken to hold no `/`.
- `os.rename` is a map update, and file contents are opaque strings. Not
  modelled:
  - error codes and atomicity;
  - directories;
  - renaming a path onto itself.
  Whether an existing destination is replaced (POSIX) or refused
  (Windows) is the session's `overwrites` flag.
- Session.Rename: in the model a rename fails only when the source is
  missing or when the destination exists on a platform that refuses to
  replace it. Other causes of failure are not modelled: permissions,
  read-only media, a name the file system refuses, and so on. As a result,
  `Session.UndoRestores` proves that apply completes only under that
  abstraction.
- An exception from `os.rename` is modelled only as the end of the loop, with
  `completed == false`. How it propagates into the Qt event loop is not
  modelled.
- `table.removeRow` in the Delete-key handler is not modelled; only the
  `files` list is.
- Session.RenameSession.DeleteRows: requires every selected row index to be
  within the file list. The selection comes from table rows that mirror the
  list, and the model does not reproduce the `IndexError` an out-of-range
  row would raise.
- NormaliserProperties.BracketsRemoved: holds only for stems without a
  newline, because `.` in `\[.*?\]` does not match one
  (`Examples.NewlineKeepsBrackets`).
- NormaliserProperties.ParenthesesRemoved: holds only for stems without a
  newline, for the same reason.
- NormaliserProperties.CurlyRemoved: holds only for stems without a newline,
  for the same reason.
- Session.UndoRestores: the round trip is stated for `apply_rename` followed
  directly by `undo_rename`, with no change to the file system in between.
  The methods are tied to `ApplyFrom` and `UndoFrom`, and the lemma is about
  those two functions.
