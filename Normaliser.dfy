/** The name normaliser: `detect_episode` and `clean_name`, with the six
    check boxes of the window passed in as one explicit configuration. */
module Normaliser {
  import opened Text
  import opened Patterns
  import opened Regex
  import opened Paths

  /** The six rule toggles (`cb_brackets` ... `cb_episode`). */
  datatype Config = Config(
    removeBrackets: bool,
    removeParentheses: bool,
    removeCurly: bool,
    replaceUnderscore: bool,
    replaceDots: bool,
    detectEpisode: bool)

  /** `(season, episode)` as `detect_episode` returns it: digit strings or None. */
  type EpisodeTag = (Option<string>, Option<string>)

  /** `detect_episode`: the first of three searches that finds something
      decides the result. Only the season-and-episode pattern yields a
      season; the captured strings are digits of the captured lengths. */
  function DetectEpisode(name: string): (r: EpisodeTag)
    ensures r.0.Some? ==> r.1.Some?
    ensures r.0.Some? ==> DigitGroup(r.0.value, 2)
    ensures r.1.Some? ==> DigitGroup(r.1.value, 4)
    ensures r.0.Some? <==> Search(SeasonEpisode, name, 0).Some?
    ensures r.1.None? <==>
      Search(SeasonEpisode, name, 0).None? && Search(Episode, name, 0).None? && Search(BareNumber, name, 0).None?
  {
    match Search(SeasonEpisode, name, 0)
    case Some((i, h)) =>
      SeasonEpisodeGroups(name, i);
      (Some(h.groups[0]), Some(h.groups[1]))
    case None =>
      match Search(Episode, name, 0)
      case Some((i, h)) =>
        EpisodeGroups(name, i);
        (None, Some(h.groups[0]))
      case None =>
        match Search(BareNumber, name, 0)
        case Some((i, h)) =>
          BareNumberGroups(name, i);
          (None, Some(h.groups[0]))
        case None => (None, None)
  }

  /** `str.replace(a, b)` on single characters */
  function ReplaceAll(s: string, a: char, b: char): (r: string)
    ensures |r| == |s|
    ensures forall i :: 0 <= i < |s| ==> r[i] == (if s[i] == a then b else s[i])
  {
    seq(|s|, i requires 0 <= i < |s| => if s[i] == a then b else s[i])
  }

  /** The characters `str.strip(" -")` removes. */
  predicate IsStripped(c: char) { c == ' ' || c == '-' }

  /** The first index at or after `i` whose character is kept by the strip. */
  function KeepFrom(s: string, i: nat): (a: nat)
    requires i <= |s|
    ensures i <= a <= |s|
    ensures forall k :: i <= k < a ==> IsStripped(s[k])
    ensures a < |s| ==> !IsStripped(s[a])
    decreases |s| - i
  {
    if i == |s| || !IsStripped(s[i]) then i else KeepFrom(s, i + 1)
  }

  /** One past the last index before `j` and not before `a` whose character
      is kept. */
  function KeepUntil(s: string, a: nat, j: nat): (b: nat)
    requires a <= j <= |s|
    ensures a <= b <= j
    ensures forall k :: b <= k < j ==> IsStripped(s[k])
    ensures b > a ==> !IsStripped(s[b - 1])
    decreases j
  {
    if j == a || !IsStripped(s[j - 1]) then j else KeepUntil(s, a, j - 1)
  }

  /** The bounds `str.strip(" -")` keeps: everything outside them is a space
      or a dash, and the kept part is empty or starts and ends with neither. */
  function StripBounds(s: string): (r: (nat, nat))
    ensures r.0 <= r.1 <= |s|
    ensures forall k :: 0 <= k < r.0 ==> IsStripped(s[k])
    ensures forall k :: r.1 <= k < |s| ==> IsStripped(s[k])
    ensures r.0 < r.1 ==> !IsStripped(s[r.0]) && !IsStripped(s[r.1 - 1])
  {
    var a := KeepFrom(s, 0);
    (a, KeepUntil(s, a, |s|))
  }

  /** `str.strip(" -")` */
  function Strip(s: string): string {
    var (a, b) := StripBounds(s);
    s[a..b]
  }

  /** Step 1: drop `[..]`, `(..)` and `{..}` groups, each if enabled. */
  function RemoveGroups(name: string, cfg: Config): string {
    var a := if cfg.removeBrackets then Sub(Bracketed('[', ']'), name, []) else name;
    var b := if cfg.removeParentheses then Sub(Bracketed('(', ')'), a, []) else a;
    if cfg.removeCurly then Sub(Bracketed('{', '}'), b, []) else b
  }

  /** Step 2: drop the tokens that encoded a detected episode. Without an
      episode the name is kept; otherwise nothing is added but spaces, and
      a season token is only ever removed, never replaced. */
  function RemoveEpisodeTokens(name: string, tag: EpisodeTag): (r: string)
    ensures tag.1.None? ==> r == name
    ensures forall c :: c in r ==> c in name || (c == ' ' && tag.0.None?)
  {
    if tag.1.None? then name
    else if tag.0.Some? then Sub(SeasonToken, name, [])
    else Sub(BareNumber, Sub(Episode, name, []), " ")
  }

  /** Step 3: `_` and `.` become spaces, each if enabled. */
  function ReplaceSeparators(name: string, cfg: Config): string {
    var a := if cfg.replaceUnderscore then ReplaceAll(name, '_', ' ') else name;
    if cfg.replaceDots then ReplaceAll(a, '.', ' ') else a
  }

  /** Step 4: a dash with any whitespace around it becomes ` - `, runs of
      spaces become one, and spaces and dashes are stripped from both ends. */
  function NormaliseSpacing(name: string): (r: string)
    ensures forall c :: c in r ==> c in name || c == ' ' || c == '-'
  {
    var spaced := Sub(SpaceRun, Sub(Dash, name, " - "), " ");
    var (a, b) := StripBounds(spaced);
    assert forall i :: 0 <= i < b - a ==> spaced[a..b][i] == spaced[a + i];
    Strip(spaced)
  }

  /** The cleaned stem, before the episode suffix is added. */
  function CleanStem(stem: string, cfg: Config, tag: EpisodeTag): string {
    NormaliseSpacing(ReplaceSeparators(RemoveEpisodeTokens(RemoveGroups(stem, cfg), tag), cfg))
  }

  /** The tag `clean_name` works with: detection runs on the raw stem, or not at all. */
  function TagOf(stem: string, cfg: Config): EpisodeTag {
    if cfg.detectEpisode then DetectEpisode(stem) else (None, None)
  }

  /** ` - S{season.zfill(2)} - {episode}`, ` - {episode}`, or nothing: with
      an episode, the suffix starts with ` - ` and ends with the episode
      digits exactly as captured. */
  function Suffix(tag: EpisodeTag): (r: string)
    ensures tag.1.None? <==> r == []
    ensures tag.1.Some? ==>
      |r| >= 3 + |tag.1.value| && r[..3] == " - " && r[|r| - |tag.1.value|..] == tag.1.value
  {
    match tag
    case (_, None) => []
    case (Some(season), Some(episode)) => " - S" + ZFill(season, 2) + " - " + episode
    case (None, Some(episode)) => " - " + episode
  }

  /** `clean_name`: the result always ends with the extension `splitext`
      found in the input, untouched. */
  function CleanName(filename: string, cfg: Config): (r: string)
    ensures |SplitExt(filename).1| <= |r| && r[|r| - |SplitExt(filename).1|..] == SplitExt(filename).1
  {
    var (stem, ext) := SplitExt(filename);
    var tag := TagOf(stem, cfg);
    CleanStem(stem, cfg, tag) + Suffix(tag) + ext
  }
}
