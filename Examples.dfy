/** Worked inputs that show how `clean_name` behaves where a reader might
    expect otherwise. */
module Examples {
  import opened Text
  import opened Patterns
  import opened Regex
  import opened Paths
  import opened Normaliser
  import opened NormaliserProperties

  /** Only episode detection on. */
  const EpisodeOnly := Config(false, false, false, false, false, true)

  /** Only bracket removal on. */
  const BracketsOnly := Config(true, false, false, false, false, false)

  // ---------------------------------------------------------------------
  // Proof steps: the examples below are assembled from these. They state
  // nothing about the renamer beyond what the definitions say; they only
  // keep each concrete proof small.
  // ---------------------------------------------------------------------

  /** `clean_name` put together from its parts. */
  lemma CleanNameFrom(filename: string, cfg: Config, stem: string, ext: string, tag: EpisodeTag, body: string, name: string)
    requires SplitExt(filename) == (stem, ext) && TagOf(stem, cfg) == tag && CleanStem(stem, cfg, tag) == body
    requires body + Suffix(tag) + ext == name
    ensures CleanName(filename, cfg) == name
  {
  }

  /** The cleaned stem put together from its four steps. */
  lemma CleanStemFrom(stem: string, cfg: Config, tag: EpisodeTag, grouped: string, untagged: string, spaced: string, body: string)
    requires RemoveGroups(stem, cfg) == grouped && RemoveEpisodeTokens(grouped, tag) == untagged
    requires ReplaceSeparators(untagged, cfg) == spaced && NormaliseSpacing(spaced) == body
    ensures CleanStem(stem, cfg, tag) == body
  {
  }

  lemma SubEmpty(p: Pattern, repl: string) ensures Sub(p, [], repl) == [] {
  }

  lemma JoinE1() ensures [] + " - 1" + ".mkv" == " - 1.mkv" {
  }

  lemma JoinDash1() ensures "1" + [] + ".mkv" == "1.mkv" {
  }

  lemma JoinG() ensures [] + [] + ".mkv" == ".mkv" {
  }

  lemma JoinS1E2() ensures "S1E2" + " - S01 - 2" + ".mkv" == "S1E2 - S01 - 2.mkv" {
  }

  // ---------------------------------------------------------------------
  // Renaming twice is not renaming once
  // ---------------------------------------------------------------------

  lemma SplitE1() ensures SplitExt("E1.mkv") == ("E1", ".mkv") {
    assert LastIndexBefore("E1.mkv", '.', 3) == 2;
    assert LastIndexBefore("E1.mkv", '.', 5) == 2;
    assert "E1.mkv"[..2] == "E1";
    assert "E1.mkv"[2..] == ".mkv";
  }

  lemma NoSeasonEpisodeE1() ensures NoMatch(SeasonEpisode, "E1") {
    var s := "E1";
    assert forall i :: 0 <= i <= 2 ==> SeasonEpisodeAt(s, i).None?;
  }

  lemma EpisodeE1() ensures MatchAt(Episode, "E1", 0) == Some(Hit(2, ["1"])) {
    var s := "E1";
    assert Boundary(s, 0) && Boundary(s, 2);
    assert EpisodeDigits(s, 1) == Some(1);
    assert EpisodeAt(s, 0) == Some((0, 0, 1));
    assert s[1..2] == "1";
  }

  lemma DetectE1() ensures DetectEpisode("E1") == (None, Some("1")) {
    var s := "E1";
    NoSeasonEpisodeE1();
    SearchFindsLeftmost(SeasonEpisode, s, 0);
    EpisodeE1();
    SearchFindsLeftmost(Episode, s, 0);
  }

  lemma RemoveE1() ensures Sub(Episode, "E1", []) == [] {
    var s := "E1";
    assert Boundary(s, 0) && Boundary(s, 2);
    assert EpisodeDigits(s, 1) == Some(1);
    assert EpisodeAt(s, 0) == Some((0, 0, 1));
    var t := Ends(Episode, s);
    assert t[0] == Some(2);
    assert SubWith(t, s, [], 2) == [];
  }

  lemma StemE1()
    ensures TagOf("E1", EpisodeOnly) == (None, Some("1"))
    ensures CleanStem("E1", EpisodeOnly, (None, Some("1"))) == []
  {
    DetectE1();
    RemoveE1();
    SubEmpty(BareNumber, " ");
    assert ReplaceSeparators([], EpisodeOnly) == [];
    SubEmpty(Dash, " - ");
    SubEmpty(SpaceRun, " ");
    assert StripBounds([]) == (0, 0);
    assert NormaliseSpacing([]) == [];
    CleanStemFrom("E1", EpisodeOnly, (None, Some("1")), "E1", [], [], []);
  }

  /** `E1.mkv` becomes ` - 1.mkv`: the episode token is the whole stem. */
  lemma CleanE1() ensures CleanName("E1.mkv", EpisodeOnly) == " - 1.mkv" {
    SplitE1();
    StemE1();
    assert Suffix((None, Some("1"))) == " - 1";
    JoinE1();
    CleanNameFrom("E1.mkv", EpisodeOnly, "E1", ".mkv", (None, Some("1")), [], " - 1.mkv");
  }

  lemma SplitDash1() ensures SplitExt(" - 1.mkv") == (" - 1", ".mkv") {
    var f := " - 1.mkv";
    assert LastIndexBefore(f, '.', 5) == 4;
    assert LastIndexBefore(f, '.', 7) == 4;
    assert f[..4] == " - 1";
    assert f[4..] == ".mkv";
  }

  lemma NoSeasonEpisodeDash1() ensures NoMatch(SeasonEpisode, " - 1") {
    var s := " - 1";
    assert forall i :: 0 <= i <= 4 ==> SeasonEpisodeAt(s, i).None?;
  }

  lemma NoEpisodeDash1() ensures NoMatch(Episode, " - 1") {
    var s := " - 1";
    assert forall i :: 0 <= i <= 4 ==> EpisodeAt(s, i).None?;
  }

  lemma NoBareNumberDash1() ensures NoMatch(BareNumber, " - 1") {
    var s := " - 1";
    assert Run(Digits, s, 1, 4) == 0;
    assert Run(Digits, s, 2, 4) == 0;
    assert Run(Digits, s, 3, 4) == 1;
    assert forall i :: 0 <= i <= 4 ==> BareNumberAt(s, i).None?;
  }

  lemma DetectDash1() ensures DetectEpisode(" - 1") == (None, None) {
    var s := " - 1";
    NoSeasonEpisodeDash1();
    NoEpisodeDash1();
    NoBareNumberDash1();
    SearchFindsLeftmost(SeasonEpisode, s, 0);
    SearchFindsLeftmost(Episode, s, 0);
    SearchFindsLeftmost(BareNumber, s, 0);
  }

  lemma DashDash1() ensures Sub(Dash, " - 1", " - ") == " - 1" {
    var s := " - 1";
    assert Run(Whitespace, s, 0, 4) == 1;
    assert Run(Whitespace, s, 2, 2) == 1;
    assert DashAt(s, 0) == Some((1, 1));
    assert DashAt(s, 3).None?;
    var t := Ends(Dash, s);
    assert t[0] == Some(3) && t[3].None?;
    assert SubWith(t, s, " - ", 4) == [];
    assert SubWith(t, s, " - ", 3) == "1";
  }

  lemma SpacesDash1() ensures Sub(SpaceRun, " - 1", " ") == " - 1" {
    SpacingKeepsSingleSpaces(" - 1");
  }

  lemma StripDash1() ensures Strip(" - 1") == "1" {
    var s := " - 1";
    assert KeepFrom(s, 3) == 3;
    assert KeepFrom(s, 0) == 3;
    assert KeepUntil(s, 3, 4) == 4;
    assert s[3..4] == "1";
  }

  lemma NormaliseDash1() ensures NormaliseSpacing(" - 1") == "1" {
    DashDash1();
    SpacesDash1();
    StripDash1();
  }

  lemma StemDash1()
    ensures TagOf(" - 1", EpisodeOnly) == (None, None)
    ensures CleanStem(" - 1", EpisodeOnly, (None, None)) == "1"
  {
    DetectDash1();
    NormaliseDash1();
    CleanStemFrom(" - 1", EpisodeOnly, (None, None), " - 1", " - 1", " - 1", "1");
  }

  /** ` - 1.mkv` becomes `1.mkv`: the leading ` - ` is stripped. */
  lemma CleanDash1() ensures CleanName(" - 1.mkv", EpisodeOnly) == "1.mkv" {
    SplitDash1();
    StemDash1();
    assert Suffix((None, None)) == [];
    JoinDash1();
    CleanNameFrom(" - 1.mkv", EpisodeOnly, " - 1", ".mkv", (None, None), "1", "1.mkv");
  }

  /** `clean_name` is not idempotent: cleaning `E1.mkv` once gives
      ` - 1.mkv`, cleaning that again gives `1.mkv`. */
  lemma NotIdempotent()
    ensures CleanName("E1.mkv", EpisodeOnly) == " - 1.mkv"
    ensures CleanName(CleanName("E1.mkv", EpisodeOnly), EpisodeOnly) == "1.mkv"
    ensures CleanName(CleanName("E1.mkv", EpisodeOnly), EpisodeOnly) != CleanName("E1.mkv", EpisodeOnly)
  {
    CleanE1();
    CleanDash1();
  }

  // ---------------------------------------------------------------------
  // A name that loses its extension
  // ---------------------------------------------------------------------

  lemma SplitG() ensures SplitExt("[G].mkv") == ("[G]", ".mkv") {
    var f := "[G].mkv";
    assert LastIndexBefore(f, '.', 4) == 3;
    assert LastIndexBefore(f, '.', 6) == 3;
    assert f[..3] == "[G]";
    assert f[3..] == ".mkv";
  }

  lemma RemoveG() ensures Sub(Bracketed('[', ']'), "[G]", []) == [] {
    var s := "[G]";
    assert StopAt(s, 1, ']') == 2;
    var t := Ends(Bracketed('[', ']'), s);
    assert t[0] == Some(3);
    assert SubWith(t, s, [], 3) == [];
  }

  lemma SplitMkv() ensures SplitExt(".mkv") == (".mkv", []) {
    var f := ".mkv";
    assert LastIndexBefore(f, '.', 1) == 0;
    assert LastIndexBefore(f, '.', 2) == 0;
    assert LastIndexBefore(f, '.', 3) == 0;
    assert LastIndexBefore(f, '.', 4) == 0;
    assert LastIndexBefore(f, '/', 4) == -1;
  }

  lemma StemG()
    ensures TagOf("[G]", BracketsOnly) == (None, None)
    ensures CleanStem("[G]", BracketsOnly, (None, None)) == []
  {
    RemoveG();
    SubEmpty(Dash, " - ");
    SubEmpty(SpaceRun, " ");
    assert StripBounds([]) == (0, 0);
    assert NormaliseSpacing([]) == [];
    assert RemoveGroups("[G]", BracketsOnly) == [];
    CleanStemFrom("[G]", BracketsOnly, (None, None), [], [], [], []);
  }

  lemma CleanG() ensures CleanName("[G].mkv", BracketsOnly) == ".mkv" {
    SplitG();
    StemG();
    assert Suffix((None, None)) == [];
    JoinG();
    CleanNameFrom("[G].mkv", BracketsOnly, "[G]", ".mkv", (None, None), [], ".mkv");
  }

  /** A stem that is one bracketed group leaves only the extension, `.mkv`,
      which `splitext` reads as a name without extension: the renamed file
      is no longer a video file. */
  lemma ExtensionLost()
    ensures CleanName("[G].mkv", BracketsOnly) == ".mkv"
    ensures IsVideo("[G].mkv") && !IsVideo(".mkv")
  {
    CleanG();
    VideoG();
    NotVideoMkv();
  }

  lemma LowerMkv() ensures Lower(".mkv") == ".mkv" {
    assert forall i :: 0 <= i < 4 ==> Lower(".mkv")[i] == ".mkv"[i];
  }

  lemma VideoG() ensures IsVideo("[G].mkv") {
    SplitG();
    LowerMkv();
  }

  lemma NotVideoMkv() ensures !IsVideo(".mkv") {
    SplitMkv();
    assert Lower([]) == [];
  }

  // ---------------------------------------------------------------------
  // Brackets across a line break
  // ---------------------------------------------------------------------

  /** `.` in the group pattern stops at a newline, so a bracket pair around
      one survives removal. */
  lemma NewlineKeepsBrackets()
    ensures Sub(Bracketed('[', ']'), "[\n]", []) == "[\n]"
  {
    var s := "[\n]";
    assert StopAt(s, 1, ']') == 1;
    var t := Ends(Bracketed('[', ']'), s);
    assert t[0].None? && t[1].None? && t[2].None?;
    assert SubWith(t, s, [], 3) == [];
    assert SubWith(t, s, [], 2) == "]";
    assert SubWith(t, s, [], 1) == "\n]";
  }

  // ---------------------------------------------------------------------
  // A season token at the very start stays
  // ---------------------------------------------------------------------

  lemma DetectS1E2() ensures DetectEpisode("S1E2") == (Some("1"), Some("2")) {
    var s := "S1E2";
    assert Run(Digits, s, 1, 2) == 1;
    assert Run(Digits, s, 3, 4) == 1;
    assert SeasonEpisodeAt(s, 0) == Some((1, 1));
    assert s[1..2] == "1" && s[3..4] == "2";
    assert MatchAt(SeasonEpisode, s, 0) == Some(Hit(4, ["1", "2"]));
  }

  lemma NoTokenS1E2() ensures NoMatch(SeasonToken, "S1E2") {
    var s := "S1E2";
    assert forall i :: 0 <= i <= 4 ==> SeasonTokenAt(s, i).None?;
  }

  lemma KeepS1E2() ensures Sub(SeasonToken, "S1E2", []) == "S1E2" {
    NoTokenS1E2();
    SubOfNoMatch(SeasonToken, "S1E2", []);
  }

  lemma SplitS1E2() ensures SplitExt("S1E2.mkv") == ("S1E2", ".mkv") {
    var f := "S1E2.mkv";
    assert LastIndexBefore(f, '.', 5) == 4;
    assert LastIndexBefore(f, '.', 7) == 4;
    assert f[..4] == "S1E2" && f[4..] == ".mkv";
  }

  /** `\s*-\s*` cannot match a text that holds no hyphen. */
  lemma NoDashWithoutHyphen(s: string)
    requires forall k :: 0 <= k < |s| ==> s[k] != '-'
    ensures NoMatch(Dash, s)
  {
    forall j | 0 <= j <= |s| ensures DashAt(s, j).None? {
      assert forall k1: nat, k2: nat :: !DashValid(s, j, k1, k2);
    }
  }

  lemma NoDashS1E2() ensures NoMatch(Dash, "S1E2") {
    NoDashWithoutHyphen("S1E2");
  }

  lemma DashS1E2() ensures Sub(Dash, "S1E2", " - ") == "S1E2" {
    NoDashS1E2();
    SubOfNoMatch(Dash, "S1E2", " - ");
  }

  lemma NoSpacesS1E2() ensures NoMatch(SpaceRun, "S1E2") {
    var s := "S1E2";
    assert forall i :: 0 <= i <= 4 ==> SpacesAt(s, i).None?;
  }

  lemma SpacesS1E2() ensures Sub(SpaceRun, "S1E2", " ") == "S1E2" {
    NoSpacesS1E2();
    SubOfNoMatch(SpaceRun, "S1E2", " ");
  }

  lemma NormaliseS1E2() ensures NormaliseSpacing("S1E2") == "S1E2" {
    DashS1E2();
    SpacesS1E2();
    assert KeepFrom("S1E2", 0) == 0;
    assert KeepUntil("S1E2", 0, 4) == 4;
    assert "S1E2"[0..4] == "S1E2";
  }

  /** The token pattern wants a separator before the `S`, so `S1E2` at the
      start of the stem is kept, and the suffix repeats it. */
  lemma LeadingSeasonKept()
    ensures CleanName("S1E2.mkv", EpisodeOnly) == "S1E2 - S01 - 2.mkv"
  {
    SplitS1E2();
    DetectS1E2();
    StemS1E2();
    SuffixS1E2();
    assert TagOf("S1E2", EpisodeOnly) == (Some("1"), Some("2"));
    assert CleanName("S1E2.mkv", EpisodeOnly) == "S1E2" + " - S01 - 2" + ".mkv";
    JoinS1E2();
  }

  lemma StemS1E2() ensures CleanStem("S1E2", EpisodeOnly, (Some("1"), Some("2"))) == "S1E2" {
    KeepS1E2();
    NormaliseS1E2();
    var s := "S1E2";
    assert RemoveGroups(s, EpisodeOnly) == s;
    assert RemoveEpisodeTokens(s, (Some("1"), Some("2"))) == s;
    assert ReplaceSeparators(s, EpisodeOnly) == s;
  }

  lemma SuffixS1E2() ensures Suffix((Some("1"), Some("2"))) == " - S01 - 2" {
    assert ZFill("01", 2) == "01";
    assert ZFill("1", 2) == "01";
  }

  // ---------------------------------------------------------------------
  // An underscore hides an episode marker
  // ---------------------------------------------------------------------

  /** `_` is a word character, so there is no `\b` between it and a following
      `E`: in `_E1` neither the episode pattern nor the bare-number pattern
      (which wants a separator right before the digits) finds anything. */
  lemma UnderscoreHidesEpisode()
    ensures DetectEpisode("_E1") == (None, None)
  {
    var s := "_E1";
    NoSeasonEpisodeUnderscore();
    NoEpisodeUnderscore();
    NoBareNumberUnderscore();
    SearchFindsLeftmost(SeasonEpisode, s, 0);
    SearchFindsLeftmost(Episode, s, 0);
    SearchFindsLeftmost(BareNumber, s, 0);
  }

  lemma NoSeasonEpisodeUnderscore() ensures NoMatch(SeasonEpisode, "_E1") {
    var s := "_E1";
    assert forall i :: 0 <= i <= 3 ==> SeasonEpisodeAt(s, i).None?;
  }

  lemma NoEpisodeUnderscore() ensures NoMatch(Episode, "_E1") {
    var s := "_E1";
    assert !Boundary(s, 1);
    assert forall i :: 0 <= i <= 3 ==> EpisodeAt(s, i).None?;
  }

  lemma NoBareNumberUnderscore() ensures NoMatch(BareNumber, "_E1") {
    var s := "_E1";
    assert Run(Digits, s, 1, 4) == 0;
    assert forall i :: 0 <= i <= 3 ==> BareNumberAt(s, i).None?;
  }
}
