/** What `clean_name` guarantees about the cleaned stem and the rebuilt name. */
module NormaliserProperties {
  import opened Text
  import opened Patterns
  import opened Regex
  import opened Paths
  import opened Normaliser

  // ---------------------------------------------------------------------
  // Which pattern decides the episode
  // ---------------------------------------------------------------------

  /** A season-and-episode match anywhere wins, wherever the other patterns
      match: its two groups are the result. */
  lemma SeasonEpisodeFirst(name: string, i: nat)
    requires LeftmostAt(SeasonEpisode, name, i)
    ensures var g := MatchAt(SeasonEpisode, name, i).value.groups;
      |g| == 2 && DetectEpisode(name) == (Some(g[0]), Some(g[1]))
  {
    SearchFindsLeftmost(SeasonEpisode, name, i);
    SeasonEpisodeGroups(name, i);
  }

  /** Without one, an `E`/`EP` match wins over any bare number, and gives no
      season. */
  lemma EpisodeSecond(name: string, i: nat)
    requires NoMatch(SeasonEpisode, name) && LeftmostAt(Episode, name, i)
    ensures var g := MatchAt(Episode, name, i).value.groups;
      |g| == 1 && DetectEpisode(name) == (None, Some(g[0]))
  {
    SearchFindsLeftmost(SeasonEpisode, name, 0);
    SearchFindsLeftmost(Episode, name, i);
    EpisodeGroups(name, i);
  }

  /** Only when neither matches does a separated bare number count. */
  lemma BareNumberLast(name: string, i: nat)
    requires NoMatch(SeasonEpisode, name) && NoMatch(Episode, name) && LeftmostAt(BareNumber, name, i)
    ensures var g := MatchAt(BareNumber, name, i).value.groups;
      |g| == 1 && DetectEpisode(name) == (None, Some(g[0]))
  {
    SearchFindsLeftmost(SeasonEpisode, name, 0);
    SearchFindsLeftmost(Episode, name, 0);
    SearchFindsLeftmost(BareNumber, name, i);
    BareNumberGroups(name, i);
  }

  /** Nothing is detected exactly when none of the three patterns matches. */
  lemma NothingDetected(name: string)
    ensures DetectEpisode(name) == (None, None) <==>
      NoMatch(SeasonEpisode, name) && NoMatch(Episode, name) && NoMatch(BareNumber, name)
  {
    SearchFindsLeftmost(SeasonEpisode, name, 0);
    SearchFindsLeftmost(Episode, name, 0);
    SearchFindsLeftmost(BareNumber, name, 0);
  }

  // ---------------------------------------------------------------------
  // Where the characters of the cleaned stem come from
  // ---------------------------------------------------------------------

  lemma ReplaceAllChars(s: string, a: char, b: char)
    ensures forall c :: c in ReplaceAll(s, a, b) ==> (c in s && c != a) || c == b
  {
    var r := ReplaceAll(s, a, b);
    forall c | c in r ensures (c in s && c != a) || c == b {
      var i :| 0 <= i < |r| && r[i] == c;
    }
  }

  /** Every character of the cleaned stem is a character of the raw stem, a
      space or a dash. */
  lemma CleanStemChars(stem: string, cfg: Config, tag: EpisodeTag)
    ensures forall c :: c in CleanStem(stem, cfg, tag) ==> c in stem || c == ' ' || c == '-'
  {
    var g := RemoveGroups(stem, cfg);
    var e := RemoveEpisodeTokens(g, tag);
    var u := if cfg.replaceUnderscore then ReplaceAll(e, '_', ' ') else e;
    ReplaceAllChars(e, '_', ' ');
    ReplaceAllChars(u, '.', ' ');
  }

  // ---------------------------------------------------------------------
  // Underscore and dot replacement
  // ---------------------------------------------------------------------

  /** With `_` replacement on, the cleaned stem holds no `_`. */
  lemma UnderscoresReplaced(stem: string, cfg: Config, tag: EpisodeTag)
    requires cfg.replaceUnderscore
    ensures '_' !in CleanStem(stem, cfg, tag)
  {
    var e := RemoveEpisodeTokens(RemoveGroups(stem, cfg), tag);
    var u := ReplaceAll(e, '_', ' ');
    ReplaceAllChars(e, '_', ' ');
    ReplaceAllChars(u, '.', ' ');
  }

  /** With `.` replacement on, the cleaned stem holds no `.`. */
  lemma DotsReplaced(stem: string, cfg: Config, tag: EpisodeTag)
    requires cfg.replaceDots
    ensures '.' !in CleanStem(stem, cfg, tag)
  {
    var e := RemoveEpisodeTokens(RemoveGroups(stem, cfg), tag);
    var u := if cfg.replaceUnderscore then ReplaceAll(e, '_', ' ') else e;
    ReplaceAllChars(u, '.', ' ');
  }

  // ---------------------------------------------------------------------
  // Group removal
  // ---------------------------------------------------------------------

  lemma SliceNoPair(s: string, a: nat, b: nat, o: char, c: char)
    requires a <= b <= |s| && NoPair(s, o, c)
    ensures NoPair(s[a..b], o, c)
  {
    var t := s[a..b];
    forall i, j | 0 <= i < j < |t| && t[i] == o ensures t[j] != c {
      assert t[i] == s[a + i] && t[j] == s[a + j];
    }
  }

  lemma ReplaceAllNoPair(s: string, x: char, y: char, o: char, c: char)
    requires NoPair(s, o, c) && x != o && x != c && y != o && y != c
    ensures NoPair(ReplaceAll(s, x, y), o, c)
  {
  }

  /** The steps after group removal never create an `o` ... `c` pair when
      `o` and `c` are none of the characters those steps insert or rewrite. */
  lemma LaterStepsKeepNoPair(x: string, cfg: Config, tag: EpisodeTag, o: char, c: char)
    requires NoPair(x, o, c)
    requires o !in " -_." && c !in " -_."
    ensures NoPair(NormaliseSpacing(ReplaceSeparators(RemoveEpisodeTokens(x, tag), cfg)), o, c)
  {
    var e := RemoveEpisodeTokens(x, tag);
    if tag.1.Some? {
      if tag.0.Some? {
        SubKeepsNoPair(SeasonToken, x, [], o, c);
      } else {
        SubKeepsNoPair(Episode, x, [], o, c);
        SubKeepsNoPair(BareNumber, Sub(Episode, x, []), " ", o, c);
      }
    }
    var u := if cfg.replaceUnderscore then ReplaceAll(e, '_', ' ') else e;
    if cfg.replaceUnderscore { ReplaceAllNoPair(e, '_', ' ', o, c); }
    if cfg.replaceDots { ReplaceAllNoPair(u, '.', ' ', o, c); }
    var r := ReplaceSeparators(e, cfg);
    SubKeepsNoPair(Dash, r, " - ", o, c);
    var d := Sub(Dash, r, " - ");
    SubKeepsNoPair(SpaceRun, d, " ", o, c);
    var sp := Sub(SpaceRun, d, " ");
    var (a, b) := StripBounds(sp);
    SliceNoPair(sp, a, b, o, c);
  }

  lemma NoNewlineKept(p: Pattern, s: string)
    requires forall k :: 0 <= k < |s| ==> s[k] != '\n'
    ensures forall k :: 0 <= k < |Sub(p, s, [])| ==> Sub(p, s, [])[k] != '\n'
  {
    var r := Sub(p, s, []);
    forall k | 0 <= k < |r| ensures r[k] != '\n' {
      assert r[k] in r;
    }
  }

  /** With bracket removal on, and a stem without newlines (`.` in `\[.*?\]`
      does not cross one), no `[` of the cleaned stem is followed anywhere
      later by a `]`. */
  lemma BracketsRemoved(stem: string, cfg: Config, tag: EpisodeTag)
    requires cfg.removeBrackets
    requires forall k :: 0 <= k < |stem| ==> stem[k] != '\n'
    ensures NoPair(CleanStem(stem, cfg, tag), '[', ']')
  {
    var a := Sub(Bracketed('[', ']'), stem, []);
    GroupSubNoPair(stem, '[', ']');
    var b := if cfg.removeParentheses then Sub(Bracketed('(', ')'), a, []) else a;
    if cfg.removeParentheses { SubKeepsNoPair(Bracketed('(', ')'), a, [], '[', ']'); }
    if cfg.removeCurly { SubKeepsNoPair(Bracketed('{', '}'), b, [], '[', ']'); }
    LaterStepsKeepNoPair(RemoveGroups(stem, cfg), cfg, tag, '[', ']');
  }

  /** The same for `(` and `)` with parenthesis removal on. */
  lemma ParenthesesRemoved(stem: string, cfg: Config, tag: EpisodeTag)
    requires cfg.removeParentheses
    requires forall k :: 0 <= k < |stem| ==> stem[k] != '\n'
    ensures NoPair(CleanStem(stem, cfg, tag), '(', ')')
  {
    var a := if cfg.removeBrackets then Sub(Bracketed('[', ']'), stem, []) else stem;
    if cfg.removeBrackets { NoNewlineKept(Bracketed('[', ']'), stem); }
    var b := Sub(Bracketed('(', ')'), a, []);
    GroupSubNoPair(a, '(', ')');
    if cfg.removeCurly { SubKeepsNoPair(Bracketed('{', '}'), b, [], '(', ')'); }
    LaterStepsKeepNoPair(RemoveGroups(stem, cfg), cfg, tag, '(', ')');
  }

  /** The same for `{` and `}` with curly-brace removal on. */
  lemma CurlyRemoved(stem: string, cfg: Config, tag: EpisodeTag)
    requires cfg.removeCurly
    requires forall k :: 0 <= k < |stem| ==> stem[k] != '\n'
    ensures NoPair(CleanStem(stem, cfg, tag), '{', '}')
  {
    var a := if cfg.removeBrackets then Sub(Bracketed('[', ']'), stem, []) else stem;
    if cfg.removeBrackets { NoNewlineKept(Bracketed('[', ']'), stem); }
    var b := if cfg.removeParentheses then Sub(Bracketed('(', ')'), a, []) else a;
    if cfg.removeParentheses { NoNewlineKept(Bracketed('(', ')'), a); }
    GroupSubNoPair(b, '{', '}');
    LaterStepsKeepNoPair(RemoveGroups(stem, cfg), cfg, tag, '{', '}');
  }

  // ---------------------------------------------------------------------
  // Spacing
  // ---------------------------------------------------------------------

  /** No two spaces in a row. */
  ghost predicate NoDoubleSpace(s: string) {
    forall i :: 0 <= i < |s| - 1 && s[i] == ' ' ==> s[i + 1] != ' '
  }

  /** What the space-run pattern's table of match ends says: a match starts
      exactly at a space and ends at the end of the text or before a
      character that is not a space. */
  ghost predicate SpaceRunTable(t: seq<Option<nat>>, s: string) {
    EndsTable(t, |s|)
    && forall i :: 0 <= i < |s| ==>
      (t[i].Some? <==> s[i] == ' ') && (t[i].Some? ==> t[i].value == |s| || s[t[i].value] != ' ')
  }

  lemma SpaceRunEnds(s: string)
    ensures SpaceRunTable(Ends(SpaceRun, s), s)
  {
    var t := Ends(SpaceRun, s);
    forall i | 0 <= i < |s|
      ensures (t[i].Some? <==> s[i] == ' ') && (t[i].Some? ==> t[i].value == |s| || s[t[i].value] != ' ')
    {
      assert t[i] == EndAt(SpaceRun, s, i);
      if s[i] == ' ' {
        assert SpacesValid(s, i, 1);
      }
    }
  }

  /** Collapsing runs of spaces leaves no two spaces in a row, and its
      result starts with a space only where the text did. */
  lemma {:induction false} SpaceSubWith(t: seq<Option<nat>>, s: string, pos: nat)
    requires SpaceRunTable(t, s) && pos <= |s|
    ensures var r := SubWith(t, s, " ", pos);
      NoDoubleSpace(r) && (|r| > 0 && r[0] == ' ' ==> pos < |s| && s[pos] == ' ')
    decreases |s| - pos
  {
    if pos < |s| {
      match t[pos]
      case Some(e) =>
        SpaceSubWith(t, s, e);
        var rest := SubWith(t, s, " ", e);
        assert SubWith(t, s, " ", pos) == " " + rest;
        assert rest != [] ==> rest[0] != ' ';
        var r := " " + rest;
        forall i | 0 <= i < |r| - 1 && r[i] == ' ' ensures r[i + 1] != ' ' {
          if i > 0 { assert r[i] == rest[i - 1] && r[i + 1] == rest[i]; }
        }
      case None =>
        SpaceSubWith(t, s, pos + 1);
        var rest := SubWith(t, s, " ", pos + 1);
        assert SubWith(t, s, " ", pos) == [s[pos]] + rest;
        var r := [s[pos]] + rest;
        forall i | 0 <= i < |r| - 1 && r[i] == ' ' ensures r[i + 1] != ' ' {
          assert r[i] == rest[i - 1] && r[i + 1] == rest[i];
        }
    }
  }

  /** The space-run table of a text with no two spaces in a row: every
      space is a match of its own, and nothing else matches. */
  ghost predicate SingleSpaceTable(t: seq<Option<nat>>, s: string) {
    EndsTable(t, |s|)
    && forall i :: 0 <= i < |s| ==> t[i] == if s[i] == ' ' then Some(i + 1) else None
  }

  lemma SingleSpaceEnds(s: string)
    requires NoDoubleSpace(s)
    ensures SingleSpaceTable(Ends(SpaceRun, s), s)
  {
    var t := Ends(SpaceRun, s);
    forall i | 0 <= i < |s| ensures t[i] == if s[i] == ' ' then Some(i + 1) else None {
      assert t[i] == EndAt(SpaceRun, s, i);
      if s[i] == ' ' {
        assert SpacesValid(s, i, 1);
        var n := SpacesAt(s, i).value;
        assert n >= 2 ==> InClass(Spaces, s[i + 1]);
      } else {
        assert forall n: nat :: !SpacesValid(s, i, n);
      }
    }
  }

  lemma {:induction false} SubWithSingleSpaces(t: seq<Option<nat>>, s: string, pos: nat)
    requires SingleSpaceTable(t, s) && pos <= |s|
    ensures SubWith(t, s, " ", pos) == s[pos..]
    decreases |s| - pos
  {
    if pos < |s| {
      SubWithSingleSpaces(t, s, pos + 1);
      assert s[pos..] == [s[pos]] + s[pos + 1..];
    }
  }

  /** Collapsing runs of spaces leaves a text with no two spaces in a row as
      it is: the step is idempotent. */
  lemma SpacingKeepsSingleSpaces(s: string)
    requires NoDoubleSpace(s)
    ensures Sub(SpaceRun, s, " ") == s
  {
    SingleSpaceEnds(s);
    SubWithSingleSpaces(Ends(SpaceRun, s), s, 0);
  }

  lemma SliceNoDoubleSpace(s: string, a: nat, b: nat)
    requires a <= b <= |s| && NoDoubleSpace(s)
    ensures NoDoubleSpace(s[a..b])
  {
    var t := s[a..b];
    forall i | 0 <= i < |t| - 1 && t[i] == ' ' ensures t[i + 1] != ' ' {
      assert t[i] == s[a + i] && t[i + 1] == s[a + i + 1];
    }
  }

  /** The spacing step leaves no two spaces in a row and nothing to strip
      at either end. */
  lemma SpacingOf(x: string)
    ensures var r := NormaliseSpacing(x);
      NoDoubleSpace(r) && (r != [] ==> !IsStripped(r[0]) && !IsStripped(r[|r| - 1]))
  {
    var d := Sub(Dash, x, " - ");
    SpaceRunEnds(d);
    SpaceSubWith(Ends(SpaceRun, d), d, 0);
    var sp := Sub(SpaceRun, d, " ");
    assert sp == SubWith(Ends(SpaceRun, d), d, " ", 0);
    StripEnds(sp);
    assert NormaliseSpacing(x) == Strip(sp);
  }

  /** `strip(" -")` leaves nothing to strip at either end, and adds no two
      spaces in a row. */
  lemma StripEnds(s: string)
    requires NoDoubleSpace(s)
    ensures var r := Strip(s);
      NoDoubleSpace(r) && (r != [] ==> !IsStripped(r[0]) && !IsStripped(r[|r| - 1]))
  {
    var (a, b) := StripBounds(s);
    SliceNoDoubleSpace(s, a, b);
    var r := s[a..b];
    assert Strip(s) == r;
    if r != [] {
      assert r[0] == s[a] && r[|r| - 1] == s[b - 1];
    }
  }

  /** The cleaned stem neither starts nor ends with a space or a dash, and
      never holds two spaces in a row. */
  lemma SpacingNormalised(stem: string, cfg: Config, tag: EpisodeTag)
    ensures var r := CleanStem(stem, cfg, tag);
      NoDoubleSpace(r) && (r != [] ==> !IsStripped(r[0]) && !IsStripped(r[|r| - 1]))
  {
    var x := ReplaceSeparators(RemoveEpisodeTokens(RemoveGroups(stem, cfg), tag), cfg);
    SpacingOf(x);
    assert CleanStem(stem, cfg, tag) == NormaliseSpacing(x);
  }

  // ---------------------------------------------------------------------
  // The rebuilt name
  // ---------------------------------------------------------------------

  /** `zfill(2)` on a captured season: one digit gains a leading `0`, two
      stay as they are; either way the result is exactly two digits. */
  lemma SeasonPadded(season: string)
    requires DigitGroup(season, 2)
    ensures ZFill(season, 2) == if |season| == 1 then "0" + season else season
    ensures |ZFill(season, 2)| == 2 && AllIn(Digits, ZFill(season, 2), 0, 2)
  {
    var z := ZFill(season, 2);
    if |season| == 1 {
      assert |z| == 2 && z[1..] == season && z[0] == '0';
      assert z == [z[0]] + z[1..];
    } else {
      assert |z| == 2 && z[0..] == season;
    }
  }

  /** A tag as `detect_episode` can return it: a season only with an
      episode, each a run of digits of the captured length. */
  ghost predicate WellFormedTag(tag: EpisodeTag) {
    (tag.0.Some? ==> tag.1.Some? && DigitGroup(tag.0.value, 2))
    && (tag.1.Some? ==> DigitGroup(tag.1.value, 4))
  }

  /** What `clean_name` works with is such a tag, and no tag at all when
      detection is off. */
  lemma TagWellFormed(stem: string, cfg: Config)
    ensures WellFormedTag(TagOf(stem, cfg))
    ensures !cfg.detectEpisode ==> TagOf(stem, cfg) == (None, None)
  {
  }

  /** The suffix: empty without an episode; ` - S`, the season padded to two
      digits, ` - ` and the episode digits exactly as captured with a season;
      ` - ` and the episode digits without. */
  lemma SuffixShape(tag: EpisodeTag)
    requires WellFormedTag(tag)
    ensures tag.1.None? ==> Suffix(tag) == []
    ensures tag.0.None? && tag.1.Some? ==> Suffix(tag) == " - " + tag.1.value
    ensures tag.0.Some? ==>
      Suffix(tag) == " - S" + (if |tag.0.value| == 1 then "0" + tag.0.value else tag.0.value) + " - " + tag.1.value
  {
    match tag
    case (_, None) =>
    case (None, Some(episode)) =>
    case (Some(season), Some(episode)) =>
      SeasonPadded(season);
  }

  /** The name `clean_name` builds is the cleaned stem, then the suffix for
      the tag found on the raw stem, then the extension: nothing between stem
      and extension when detection is off or finds nothing, otherwise the
      episode digits as captured behind ` - `, preceded by ` - S` and the
      season padded to two digits when there is one. */
  lemma CleanNameShape(filename: string, cfg: Config)
    ensures var (stem, ext) := SplitExt(filename);
      var tag := TagOf(stem, cfg);
      var body := CleanStem(stem, cfg, tag);
      var r := CleanName(filename, cfg);
      WellFormedTag(tag)
      && (!cfg.detectEpisode || tag.1.None? ==> r == body + ext)
      && (tag.0.None? && tag.1.Some? ==> r == body + " - " + tag.1.value + ext)
      && (tag.0.Some? ==>
            r == body + " - S" + (if |tag.0.value| == 1 then "0" + tag.0.value else tag.0.value)
                 + " - " + tag.1.value + ext)
  {
    var (stem, ext) := SplitExt(filename);
    var tag := TagOf(stem, cfg);
    TagWellFormed(stem, cfg);
    SuffixShape(tag);
    Rebuilt(CleanStem(stem, cfg, tag), tag, ext);
    assert CleanName(filename, cfg) == CleanStem(stem, cfg, tag) + Suffix(tag) + ext;
  }

  lemma Rebuilt(body: string, tag: EpisodeTag, ext: string)
    requires WellFormedTag(tag)
    ensures tag.1.None? ==> body + Suffix(tag) + ext == body + ext
    ensures tag.0.None? && tag.1.Some? ==> body + Suffix(tag) + ext == body + " - " + tag.1.value + ext
    ensures tag.0.Some? ==>
      body + Suffix(tag) + ext
        == body + " - S" + (if |tag.0.value| == 1 then "0" + tag.0.value else tag.0.value) + " - " + tag.1.value + ext
  {
    SuffixShape(tag);
    if tag.1.None? {
      assert body + [] == body;
    }
  }

  /** The suffix is made of spaces, dashes, `S` and digits: never a `/`. */
  lemma SuffixNoSlash(tag: EpisodeTag)
    requires WellFormedTag(tag)
    ensures '/' !in Suffix(tag)
  {
    SuffixShape(tag);
    if tag.1.Some? {
      assert '/' !in tag.1.value;
    }
    if tag.0.Some? {
      assert '/' !in tag.0.value;
    }
  }

  /** A stem and a suffix without `/`, the suffix starting with a space or
      the stem holding a character other than a dot, keep an appended
      extension apart: `splitext` finds that extension again. */
  lemma RejoinedSplits(body: string, suffix: string, ext: string)
    requires IsExtension(ext)
    requires forall k :: 0 <= k < |body| ==> body[k] != '/'
    requires '/' !in suffix
    requires (suffix != [] && suffix[0] == ' ') || exists k :: 0 <= k < |body| && body[k] != '.'
    ensures SplitExt(body + suffix + ext) == (body + suffix, ext)
  {
    var front := body + suffix;
    forall k | 0 <= k < |front| ensures front[k] != '/' {
      if k >= |body| {
        assert front[k] == suffix[k - |body|];
      }
    }
    if suffix != [] && suffix[0] == ' ' {
      assert front[|body|] == ' ';
    } else {
      var k :| 0 <= k < |body| && body[k] != '.';
      assert front[k] == body[k];
    }
    SplitExtAppend(front, ext);
  }

  /** The cleaned stem of a base name holds no `/`. */
  lemma CleanStemNoSlash(stem: string, cfg: Config, tag: EpisodeTag)
    requires forall k :: 0 <= k < |stem| ==> stem[k] != '/'
    ensures var body := CleanStem(stem, cfg, tag);
      forall k :: 0 <= k < |body| ==> body[k] != '/'
  {
    var body := CleanStem(stem, cfg, tag);
    CleanStemChars(stem, cfg, tag);
    forall k | 0 <= k < |body| ensures body[k] != '/' {
      assert body[k] in body;
    }
  }

  /** Renaming keeps the extension in the sense of `splitext` as well: for a
      base name (no `/`) with an extension, when an episode suffix was added
      or the cleaned stem holds a character other than a dot, the new name
      splits into everything before the extension and the same extension, so
      a video file is still a video file after the rename. */
  lemma ExtensionSurvives(filename: string, cfg: Config)
    requires forall k :: 0 <= k < |filename| ==> filename[k] != '/'
    ensures var (stem, ext) := SplitExt(filename);
      var tag := TagOf(stem, cfg);
      var body := CleanStem(stem, cfg, tag);
      ext != [] && (tag.1.Some? || exists k :: 0 <= k < |body| && body[k] != '.') ==>
        SplitExt(CleanName(filename, cfg)) == (body + Suffix(tag), ext)
        && (IsVideo(CleanName(filename, cfg)) <==> IsVideo(filename))
  {
    var (stem, ext) := SplitExt(filename);
    var tag := TagOf(stem, cfg);
    var body := CleanStem(stem, cfg, tag);
    if ext != [] && (tag.1.Some? || exists k :: 0 <= k < |body| && body[k] != '.') {
      assert forall k :: 0 <= k < |stem| ==> stem[k] == filename[k];
      CleanStemNoSlash(stem, cfg, tag);
      TagWellFormed(stem, cfg);
      SuffixNoSlash(tag);
      if tag.1.Some? {
        SuffixShape(tag);
      }
      RejoinedSplits(body, Suffix(tag), ext);
      assert CleanName(filename, cfg) == body + Suffix(tag) + ext;
    }
  }
}
