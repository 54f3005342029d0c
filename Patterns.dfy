/** One hand-written matcher per regular expression of the renamer.

    For each pattern, a `...Valid` predicate says which choices of the
    pattern's quantifiers (how many characters each `?`, `*`, `+` or `{m,n}`
    takes) make the pattern match at position `i` of `s`. Python's
    backtracking engine takes the first successful choice in its search
    order: greedy quantifiers try more characters first, the lazy `*?` tries
    fewer first. Each `...At` function returns that first choice, which is
    stated as an extremum over all valid choices, or None exactly when no
    choice is valid. `\b` looks at the whole string `s`, not just at the part
    after `i`, as in `re.search` and `re.sub`. */
module Patterns {
  import opened Text

  predicate IsS(c: char) { c == 's' || c == 'S' }
  predicate IsE(c: char) { c == 'e' || c == 'E' }
  predicate IsP(c: char) { c == 'p' || c == 'P' }

  /** `\b` at position `k`: exactly one of the characters around it is a
      word character (the ends of the string count as non-word). */
  predicate Boundary(s: string, k: nat) {
    k <= |s| && ((k > 0 && IsWordChar(s[k - 1])) != (k < |s| && IsWordChar(s[k])))
  }

  // ---------------------------------------------------------------------
  // [sS](\d{1,2})[eE](\d{1,4})       season and episode (S02E06)
  // ---------------------------------------------------------------------

  /** `sl` season digits and `el` episode digits match at `i`. */
  predicate SeasonEpisodeValid(s: string, i: nat, sl: nat, el: nat) {
    && 1 <= sl <= 2 && 1 <= el <= 4 && i + 2 + sl + el <= |s|
    && IsS(s[i]) && AllIn(Digits, s, i + 1, sl)
    && IsE(s[i + 1 + sl]) && AllIn(Digits, s, i + 2 + sl, el)
  }

  /** In a match the season takes the whole digit run after `S` (the `E`
      after it is not a digit) and the episode at most the run after `E`. */
  lemma SeasonEpisodeForced(s: string, i: nat)
    requires i <= |s|
    ensures forall sl: nat, el: nat :: SeasonEpisodeValid(s, i, sl, el) ==>
      sl == Run(Digits, s, i + 1, 2) && el <= Run(Digits, s, i + 2 + sl, 4)
  {
    forall sl: nat, el: nat | SeasonEpisodeValid(s, i, sl, el)
      ensures sl == Run(Digits, s, i + 1, 2) && el <= Run(Digits, s, i + 2 + sl, 4)
    {
      RunIsLongest(Digits, s, i + 1, 2, sl);
      RunIsLongest(Digits, s, i + 2 + sl, 4, el);
    }
  }

  /** The match at `i`, as (season length, episode length): the longest
      season, then the longest episode, that match. */
  function SeasonEpisodeAt(s: string, i: nat): (r: Option<(nat, nat)>)
    requires i <= |s|
    ensures r.Some? ==> SeasonEpisodeValid(s, i, r.value.0, r.value.1)
    ensures r.Some? ==> forall sl: nat, el: nat :: SeasonEpisodeValid(s, i, sl, el) ==>
      sl < r.value.0 || (sl == r.value.0 && el <= r.value.1)
    ensures r.None? ==> forall sl: nat, el: nat :: !SeasonEpisodeValid(s, i, sl, el)
  {
    SeasonEpisodeForced(s, i);
    if i < |s| && IsS(s[i]) then
      var d := Run(Digits, s, i + 1, 2);
      if 1 <= d && i + 1 + d < |s| && IsE(s[i + 1 + d]) then
        var e := Run(Digits, s, i + 2 + d, 4);
        if 1 <= e then Some((d, e)) else None
      else None
    else None
  }

  // ---------------------------------------------------------------------
  // \b[eE][pP]? ?(\d{1,4})\b          episode only (E05, Ep 5, ep05)
  // ---------------------------------------------------------------------

  /** `p` (0 or 1) letters P, `sp` (0 or 1) spaces and `dl` digits match at `i`. */
  predicate EpisodeValid(s: string, i: nat, p: nat, sp: nat, dl: nat) {
    && p <= 1 && sp <= 1 && 1 <= dl <= 4 && i + 1 + p + sp + dl <= |s|
    && Boundary(s, i) && IsE(s[i])
    && (p == 1 ==> IsP(s[i + 1]))
    && (sp == 1 ==> s[i + 1 + p] == ' ')
    && AllIn(Digits, s, i + 1 + p + sp, dl)
    && Boundary(s, i + 1 + p + sp + dl)
  }

  /** `(\d{1,4})\b` at `j`: fewer digits than the run leave a digit right
      after them, so only the whole run (of at most four) can be followed by
      `\b`. */
  function EpisodeDigits(s: string, j: nat): (r: Option<nat>)
    requires j <= |s|
    ensures forall dl: nat :: 1 <= dl <= 4 && AllIn(Digits, s, j, dl) && Boundary(s, j + dl) <==> r == Some(dl)
  {
    var d := Run(Digits, s, j, 4);
    assert forall dl: nat :: 1 <= dl <= 4 && AllIn(Digits, s, j, dl) && Boundary(s, j + dl) ==> dl == d by {
      forall dl: nat | 1 <= dl <= 4 && AllIn(Digits, s, j, dl) && Boundary(s, j + dl) ensures dl == d {
        RunIsLongest(Digits, s, j, 4, dl);
      }
    }
    if 1 <= d && Boundary(s, j + d) then Some(d) else None
  }

  /** The rest of the episode pattern after `\b[eE]`, with the two optional
      characters fixed to `p` and `sp`. */
  function EpisodeTail(s: string, i: nat, p: nat, sp: nat): (r: Option<nat>)
    requires i < |s| && Boundary(s, i) && IsE(s[i]) && p <= 1 && sp <= 1
    ensures forall dl: nat :: EpisodeValid(s, i, p, sp, dl) <==> r == Some(dl)
  {
    if (p == 1 ==> i + 1 < |s| && IsP(s[i + 1])) && (sp == 1 ==> i + 1 + p < |s| && s[i + 1 + p] == ' ') then
      EpisodeDigits(s, i + 1 + p + sp)
    else None
  }

  /** The match at `i` with the optional `P` fixed to `p`, as (space taken,
      digit count): the space if it can, then the digits. */
  function EpisodeWithP(s: string, i: nat, p: nat): (r: Option<(nat, nat)>)
    requires i < |s| && Boundary(s, i) && IsE(s[i]) && p <= 1
    ensures r.Some? ==> EpisodeValid(s, i, p, r.value.0, r.value.1)
    ensures r.Some? ==> forall sp: nat, dl: nat :: EpisodeValid(s, i, p, sp, dl) ==>
      sp < r.value.0 || (sp == r.value.0 && dl <= r.value.1)
    ensures r.None? ==> forall sp: nat, dl: nat :: !EpisodeValid(s, i, p, sp, dl)
  {
    match EpisodeTail(s, i, p, 1)
    case Some(dl) => Some((1, dl))
    case None =>
      match EpisodeTail(s, i, p, 0)
      case Some(dl) => Some((0, dl))
      case None =>
        assert forall sp: nat, dl: nat :: EpisodeValid(s, i, p, sp, dl) ==> sp == 0 || sp == 1;
        None
  }

  /** The match at `i`, as (P taken, space taken, digit count): `P` if it
      can, then the space if it can, then the digits. */
  function EpisodeAt(s: string, i: nat): (r: Option<(nat, nat, nat)>)
    requires i <= |s|
    ensures r.Some? ==> EpisodeValid(s, i, r.value.0, r.value.1, r.value.2)
    ensures r.Some? ==> forall p: nat, sp: nat, dl: nat :: EpisodeValid(s, i, p, sp, dl) ==>
      p < r.value.0 || (p == r.value.0 && (sp < r.value.1 || (sp == r.value.1 && dl <= r.value.2)))
    ensures r.None? ==> forall p: nat, sp: nat, dl: nat :: !EpisodeValid(s, i, p, sp, dl)
  {
    if i < |s| && Boundary(s, i) && IsE(s[i]) then
      match EpisodeWithP(s, i, 1)
      case Some((sp, dl)) => Some((1, sp, dl))
      case None =>
        match EpisodeWithP(s, i, 0)
        case Some((sp, dl)) => Some((0, sp, dl))
        case None =>
          assert forall p: nat, sp: nat, dl: nat :: EpisodeValid(s, i, p, sp, dl) ==> p == 0 || p == 1;
          None
    else None
  }

  // ---------------------------------------------------------------------
  // [ ._-](\d{1,4})[ ._-]             bare number between separators
  // ---------------------------------------------------------------------

  /** `dl` digits between two separators match at `i`. */
  predicate BareNumberValid(s: string, i: nat, dl: nat) {
    && 1 <= dl <= 4 && i + 2 + dl <= |s|
    && IsSeparator(s[i]) && AllIn(Digits, s, i + 1, dl) && IsSeparator(s[i + 1 + dl])
  }

  /** The match at `i`, as its digit count; there is at most one. */
  function BareNumberAt(s: string, i: nat): (r: Option<nat>)
    requires i <= |s|
    ensures forall dl: nat :: BareNumberValid(s, i, dl) <==> r == Some(dl)
  {
    if i < |s| && IsSeparator(s[i]) then
      var d := Run(Digits, s, i + 1, 4);
      assert forall dl: nat :: BareNumberValid(s, i, dl) ==> dl == d by {
        forall dl: nat | BareNumberValid(s, i, dl) ensures dl == d {
          RunIsLongest(Digits, s, i + 1, 4, dl);
        }
      }
      if 1 <= d && i + 1 + d < |s| && IsSeparator(s[i + 1 + d]) then Some(d) else None
    else None
  }

  // ---------------------------------------------------------------------
  // \[.*?\]   \(.*?\)   \{.*?\}      a bracketed group, shortest first
  // ---------------------------------------------------------------------

  /** `open`, then `n` characters none of which is a newline (`.` does not
      match `\n`), then `close`, match at `i`. */
  predicate GroupValid(s: string, i: nat, open: char, close: char, n: nat) {
    && i + 2 + n <= |s| && s[i] == open && s[i + 1 + n] == close
    && forall k :: i + 1 <= k < i + 1 + n ==> s[k] != '\n'
  }

  /** The first index at or after `j` holding `close` or a newline, or `|s|`. */
  function StopAt(s: string, j: nat, close: char): (r: nat)
    requires j <= |s|
    ensures j <= r <= |s|
    ensures forall k :: j <= k < r ==> s[k] != close && s[k] != '\n'
    ensures r < |s| ==> s[r] == close || s[r] == '\n'
    decreases |s| - j
  {
    if j == |s| || s[j] == close || s[j] == '\n' then j else StopAt(s, j + 1, close)
  }

  /** The match at `i`, as the number of enclosed characters: the fewest. */
  function GroupAt(s: string, i: nat, open: char, close: char): (r: Option<nat>)
    requires i <= |s|
    ensures r.Some? ==> GroupValid(s, i, open, close, r.value)
    ensures r.Some? ==> forall n: nat :: GroupValid(s, i, open, close, n) ==> r.value <= n
    ensures r.None? ==> forall n: nat :: !GroupValid(s, i, open, close, n)
  {
    if i < |s| && s[i] == open then
      var k := StopAt(s, i + 1, close);
      if k < |s| && s[k] == close then Some(k - i - 1) else None
    else None
  }

  // ---------------------------------------------------------------------
  // [ ._-]-?[ ._-]*[sS]\d{1,2}[eE]\d{1,4}     season token with its lead-in
  // ---------------------------------------------------------------------

  /** A separator, `d` (0 or 1) dashes, `k` more separators and a season and
      episode token of `sl` and `el` digits match at `i`. */
  predicate SeasonTokenValid(s: string, i: nat, d: nat, k: nat, sl: nat, el: nat) {
    && d <= 1 && i + 1 + d + k <= |s|
    && IsSeparator(s[i]) && (d == 1 ==> s[i + 1] == '-')
    && AllIn(Separators, s, i + 1 + d, k)
    && SeasonEpisodeValid(s, i + 1 + d + k, sl, el)
  }

  /** With the dash choice `d` fixed, `[ ._-]*` in a match always takes the
      whole separator run, because `S` is not a separator; what remains is a
      season and episode token right after that run. */
  lemma SeasonTokenPoint(s: string, i: nat, d: nat, k: nat, sl: nat, el: nat)
    requires i < |s| && IsSeparator(s[i]) && d <= 1 && (d == 1 ==> i + 1 < |s| && s[i + 1] == '-')
    ensures var k0 := Run(Separators, s, i + 1 + d, |s| - (i + 1 + d));
      SeasonTokenValid(s, i, d, k, sl, el) <==> k == k0 && SeasonEpisodeValid(s, i + 1 + d + k0, sl, el)
  {
    if SeasonTokenValid(s, i, d, k, sl, el) {
      SeasonTokenRunWhole(s, i, d, k, sl, el);
    }
  }

  /** In a match the separator run is the whole run. */
  lemma SeasonTokenRunWhole(s: string, i: nat, d: nat, k: nat, sl: nat, el: nat)
    requires SeasonTokenValid(s, i, d, k, sl, el)
    ensures k == Run(Separators, s, i + 1 + d, |s| - (i + 1 + d))
  {
    var j := i + 1 + d;
    var k0 := Run(Separators, s, j, |s| - j);
    RunIsLongest(Separators, s, j, |s| - j, k);
    assert IsS(s[j + k]);
    assert k < k0 ==> InClass(Separators, s[j + k]);
  }

  /** `r` is Python's choice with the dash fixed to `d`: a valid match with
      the whole separator run and the longest digits, or nothing exactly
      when no choice is valid. */
  ghost predicate TokenChoice(s: string, i: nat, d: nat, r: Option<(nat, nat, nat)>) {
    && (r.Some? ==> SeasonTokenValid(s, i, d, r.value.0, r.value.1, r.value.2))
    && (r.Some? ==> forall k: nat, sl: nat, el: nat :: SeasonTokenValid(s, i, d, k, sl, el) ==>
         k == r.value.0 && (sl < r.value.1 || (sl == r.value.1 && el <= r.value.2)))
    && (r.None? ==> forall k: nat, sl: nat, el: nat :: !SeasonTokenValid(s, i, d, k, sl, el))
  }

  /** The rest of the season token after the first separator, with the
      optional dash fixed to `d`: the whole separator run, then the season
      and episode token. */
  function SeasonTokenFrom(s: string, i: nat, d: nat): (r: Option<(nat, nat, nat)>)
    requires i < |s| && IsSeparator(s[i]) && d <= 1 && (d == 1 ==> i + 1 < |s| && s[i + 1] == '-')
    ensures TokenChoice(s, i, d, r)
  {
    var k := Run(Separators, s, i + 1 + d, |s| - (i + 1 + d));
    match SeasonEpisodeAt(s, i + 1 + d + k)
    case Some((sl, el)) =>
      SeasonTokenFound(s, i, d, k, sl, el);
      Some((k, sl, el))
    case None =>
      SeasonTokenMissing(s, i, d);
      None
  }

  lemma SeasonTokenFound(s: string, i: nat, d: nat, k: nat, sl: nat, el: nat)
    requires i < |s| && IsSeparator(s[i]) && d <= 1 && (d == 1 ==> i + 1 < |s| && s[i + 1] == '-')
    requires k == Run(Separators, s, i + 1 + d, |s| - (i + 1 + d))
    requires SeasonEpisodeAt(s, i + 1 + d + k) == Some((sl, el))
    ensures TokenChoice(s, i, d, Some((k, sl, el)))
  {
    SeasonTokenPoint(s, i, d, k, sl, el);
    forall k': nat, sl': nat, el': nat | SeasonTokenValid(s, i, d, k', sl', el')
      ensures k' == k && SeasonEpisodeValid(s, i + 1 + d + k, sl', el')
    {
      SeasonTokenPoint(s, i, d, k', sl', el');
    }
  }

  lemma SeasonTokenMissing(s: string, i: nat, d: nat)
    requires i < |s| && IsSeparator(s[i]) && d <= 1 && (d == 1 ==> i + 1 < |s| && s[i + 1] == '-')
    requires SeasonEpisodeAt(s, i + 1 + d + Run(Separators, s, i + 1 + d, |s| - (i + 1 + d))).None?
    ensures TokenChoice(s, i, d, None)
  {
    forall k: nat, sl: nat, el: nat ensures !SeasonTokenValid(s, i, d, k, sl, el) {
      SeasonTokenPoint(s, i, d, k, sl, el);
    }
  }

  /** The match at `i`, as (dash taken, separators, season length, episode
      length): the dash if it can, then the longest run, then the token. */
  function SeasonTokenAt(s: string, i: nat): (r: Option<(nat, nat, nat, nat)>)
    requires i <= |s|
    ensures r.Some? ==> SeasonTokenValid(s, i, r.value.0, r.value.1, r.value.2, r.value.3)
    ensures r.Some? ==> forall d: nat, k: nat, sl: nat, el: nat :: SeasonTokenValid(s, i, d, k, sl, el) ==>
      d < r.value.0 || (d == r.value.0 && k == r.value.1 &&
        (sl < r.value.2 || (sl == r.value.2 && el <= r.value.3)))
    ensures r.None? ==> forall d: nat, k: nat, sl: nat, el: nat :: !SeasonTokenValid(s, i, d, k, sl, el)
  {
    if i < |s| && IsSeparator(s[i]) then
      var withDash := if i + 1 < |s| && s[i + 1] == '-' then SeasonTokenFrom(s, i, 1) else None;
      match withDash
      case Some((k, sl, el)) => Some((1, k, sl, el))
      case None =>
        match SeasonTokenFrom(s, i, 0)
        case Some((k, sl, el)) => Some((0, k, sl, el))
        case None => None
    else None
  }

  // ---------------------------------------------------------------------
  // \s*-\s*                           a dash with the whitespace around it
  // ---------------------------------------------------------------------

  /** `k1` whitespace characters, a dash and `k2` whitespace characters match at `i`. */
  predicate DashValid(s: string, i: nat, k1: nat, k2: nat) {
    && i + k1 + 1 + k2 <= |s|
    && AllIn(Whitespace, s, i, k1) && s[i + k1] == '-' && AllIn(Whitespace, s, i + k1 + 1, k2)
  }

  /** The match at `i`, as (leading, trailing) whitespace counts: both runs whole. */
  function DashAt(s: string, i: nat): (r: Option<(nat, nat)>)
    requires i <= |s|
    ensures r.Some? ==> DashValid(s, i, r.value.0, r.value.1)
    ensures r.Some? ==> forall k1: nat, k2: nat :: DashValid(s, i, k1, k2) ==>
      k1 == r.value.0 && k2 <= r.value.1
    ensures r.None? ==> forall k1: nat, k2: nat :: !DashValid(s, i, k1, k2)
  {
    var a := Run(Whitespace, s, i, |s| - i);
    assert forall k1: nat, k2: nat :: DashValid(s, i, k1, k2) ==> k1 == a by {
      forall k1: nat, k2: nat | DashValid(s, i, k1, k2) ensures k1 == a {
        RunIsLongest(Whitespace, s, i, |s| - i, k1);
      }
    }
    if i + a < |s| && s[i + a] == '-' then
      var b := Run(Whitespace, s, i + a + 1, |s| - (i + a + 1));
      assert forall k1: nat, k2: nat :: DashValid(s, i, k1, k2) ==> k2 <= b by {
        forall k1: nat, k2: nat | DashValid(s, i, k1, k2) ensures k2 <= b {
          RunIsLongest(Whitespace, s, i + a + 1, |s| - (i + a + 1), k2);
        }
      }
      Some((a, b))
    else None
  }

  // ---------------------------------------------------------------------
  // " +"                              a run of spaces
  // ---------------------------------------------------------------------

  predicate SpacesValid(s: string, i: nat, n: nat) {
    1 <= n && AllIn(Spaces, s, i, n)
  }

  /** The match at `i`, as its length: the whole run of spaces. */
  function SpacesAt(s: string, i: nat): (r: Option<nat>)
    requires i <= |s|
    ensures r.Some? ==> SpacesValid(s, i, r.value) && (i + r.value == |s| || s[i + r.value] != ' ')
    ensures r.Some? ==> forall n: nat :: SpacesValid(s, i, n) ==> n <= r.value
    ensures r.None? ==> forall n: nat :: !SpacesValid(s, i, n)
  {
    var n := Run(Spaces, s, i, |s| - i);
    assert forall m: nat :: SpacesValid(s, i, m) ==> m <= n by {
      forall m: nat | SpacesValid(s, i, m) ensures m <= n {
        RunIsLongest(Spaces, s, i, |s| - i, m);
      }
    }
    if 1 <= n then Some(n) else None
  }
}
