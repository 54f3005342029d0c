/** `re.search` and `re.sub` over the renamer's fixed set of patterns.
    A match never is empty, so the empty-match rules of `re.sub` never apply. */
module Regex {
  import opened Text
  import opened Patterns

  /** The regular expressions of the renamer. */
  datatype Pattern =
    | SeasonEpisode               // [sS](\d{1,2})[eE](\d{1,4})
    | Episode                     // \b[eE][pP]? ?(\d{1,4})\b
    | BareNumber                  // [ ._-](\d{1,4})[ ._-]
    | Bracketed(open: char, close: char)  // \[.*?\]  \(.*?\)  \{.*?\}
    | SeasonToken                 // [ ._-]-?[ ._-]*[sS]\d{1,2}[eE]\d{1,4}
    | Dash                        // \s*-\s*
    | SpaceRun                    // " +"

  /** A match: where it ends (exclusive) and the text of its groups. */
  datatype Hit = Hit(end: nat, groups: seq<string>)

  /** The match of `p` that Python's engine finds starting exactly at `i`. */
  function MatchAt(p: Pattern, s: string, i: nat): (r: Option<Hit>)
    requires i <= |s|
    ensures r.Some? ==> i < r.value.end <= |s|
  {
    match p
    case SeasonEpisode =>
      (match SeasonEpisodeAt(s, i)
       case Some((sl, el)) => Some(Hit(i + 2 + sl + el, [s[i + 1..i + 1 + sl], s[i + 2 + sl..i + 2 + sl + el]]))
       case None => None)
    case Episode =>
      (match EpisodeAt(s, i)
       case Some((q, sp, dl)) => Some(Hit(i + 1 + q + sp + dl, [s[i + 1 + q + sp..i + 1 + q + sp + dl]]))
       case None => None)
    case BareNumber =>
      (match BareNumberAt(s, i)
       case Some(dl) => Some(Hit(i + 2 + dl, [s[i + 1..i + 1 + dl]]))
       case None => None)
    case Bracketed(open, close) =>
      (match GroupAt(s, i, open, close)
       case Some(n) => Some(Hit(i + 2 + n, []))
       case None => None)
    case SeasonToken =>
      (match SeasonTokenAt(s, i)
       case Some((d, k, sl, el)) => Some(Hit(i + 3 + d + k + sl + el, []))
       case None => None)
    case Dash =>
      (match DashAt(s, i)
       case Some((k1, k2)) => Some(Hit(i + k1 + 1 + k2, []))
       case None => None)
    case SpaceRun =>
      (match SpacesAt(s, i)
       case Some(n) => Some(Hit(i + n, []))
       case None => None)
  }

  /** `pattern.search(s, from)`: the leftmost start at or after `from` where
      `p` matches, with that match. `\b` at `from` still looks at the
      character before it. */
  function Search(p: Pattern, s: string, from: nat): (r: Option<(nat, Hit)>)
    requires from <= |s|
    ensures r.Some? ==> from <= r.value.0 <= |s| && MatchAt(p, s, r.value.0) == Some(r.value.1)
    ensures r.Some? ==> forall j :: from <= j < r.value.0 ==> MatchAt(p, s, j).None?
    ensures r.None? ==> forall j :: from <= j <= |s| ==> MatchAt(p, s, j).None?
  {
    var t := seq(|s| + 1, j requires 0 <= j <= |s| => MatchAt(p, s, j));
    assert forall j :: 0 <= j <= |s| ==> MatchAt(p, s, j) == t[j];
    match FirstSome(t, from)
    case Some(j) => Some((j, t[j].value))
    case None => None
  }

  /** The first index at or after `from` where the table `t` holds a value. */
  function FirstSome<T>(t: seq<Option<T>>, from: nat): (r: Option<nat>)
    requires from <= |t|
    ensures r.Some? ==> from <= r.value < |t| && t[r.value].Some?
    ensures r.Some? ==> forall j :: from <= j < r.value ==> t[j].None?
    ensures r.None? ==> forall j :: from <= j < |t| ==> t[j].None?
    decreases |t| - from
  {
    if from == |t| then None
    else if t[from].Some? then Some(from)
    else FirstSome(t, from + 1)
  }

  /** `p` first matches `s` at `i`. */
  ghost predicate LeftmostAt(p: Pattern, s: string, i: nat) {
    i <= |s| && MatchAt(p, s, i).Some? && forall j :: 0 <= j < i ==> MatchAt(p, s, j).None?
  }

  /** `p` matches nowhere in `s`. */
  ghost predicate NoMatch(p: Pattern, s: string) {
    forall j :: 0 <= j <= |s| ==> MatchAt(p, s, j).None?
  }

  /** Searching the whole text finds exactly the leftmost match, and finds
      nothing exactly when there is no match. */
  lemma SearchFindsLeftmost(p: Pattern, s: string, i: nat)
    ensures LeftmostAt(p, s, i) ==> Search(p, s, 0) == Some((i, MatchAt(p, s, i).value))
    ensures NoMatch(p, s) <==> Search(p, s, 0).None?
  {
    if LeftmostAt(p, s, i) {
      var r := Search(p, s, 0);
      assert MatchAt(p, s, i).Some?;
      assert r.Some?;
      var k := r.value.0;
      assert MatchAt(p, s, k).Some?;
      assert k <= i;
      assert i <= k;
    }
  }

  /** What a digit group captures: a digit string of the allowed length. */
  ghost predicate DigitGroup(g: string, maxLen: nat) {
    1 <= |g| <= maxLen && AllIn(Digits, g, 0, |g|)
  }

  /** The two groups of the season-and-episode pattern. */
  lemma SeasonEpisodeGroups(s: string, i: nat)
    requires i <= |s| && MatchAt(SeasonEpisode, s, i).Some?
    ensures var g := MatchAt(SeasonEpisode, s, i).value.groups;
      |g| == 2 && DigitGroup(g[0], 2) && DigitGroup(g[1], 4)
  {
    var (sl, el) := SeasonEpisodeAt(s, i).value;
    AllInSlice(Digits, s, i + 1, sl);
    AllInSlice(Digits, s, i + 2 + sl, el);
  }

  /** The group of the episode-only pattern. */
  lemma EpisodeGroups(s: string, i: nat)
    requires i <= |s| && MatchAt(Episode, s, i).Some?
    ensures var g := MatchAt(Episode, s, i).value.groups;
      |g| == 1 && DigitGroup(g[0], 4)
  {
    var (q, sp, dl) := EpisodeAt(s, i).value;
    AllInSlice(Digits, s, i + 1 + q + sp, dl);
  }

  /** The group of the bare-number pattern. */
  lemma BareNumberGroups(s: string, i: nat)
    requires i <= |s| && MatchAt(BareNumber, s, i).Some?
    ensures var g := MatchAt(BareNumber, s, i).value.groups;
      |g| == 1 && DigitGroup(g[0], 4)
  {
    var dl := BareNumberAt(s, i).value;
    AllInSlice(Digits, s, i + 1, dl);
  }

  /** Where the match of `p` starting at `i` ends, if there is one. */
  function EndAt(p: Pattern, s: string, i: nat): (r: Option<nat>)
    requires i <= |s|
    ensures r.Some? <==> MatchAt(p, s, i).Some?
    ensures r.Some? ==> r.value == MatchAt(p, s, i).value.end && i < r.value <= |s|
  {
    match MatchAt(p, s, i)
    case Some(h) => Some(h.end)
    case None => None
  }

  /** A table of match ends for a text of length `n`: entry `i` is empty or
      a position after `i` and within the text. */
  ghost predicate EndsTable(t: seq<Option<nat>>, n: nat) {
    |t| == n + 1 && forall i :: 0 <= i <= n && t[i].Some? ==> i < t[i].value <= n
  }

  /** The end of the match of `p` at every position of `s`. */
  function Ends(p: Pattern, s: string): (t: seq<Option<nat>>)
    ensures EndsTable(t, |s|)
    ensures forall i :: 0 <= i <= |s| ==> t[i] == EndAt(p, s, i)
  {
    seq(|s| + 1, i requires 0 <= i <= |s| => EndAt(p, s, i))
  }

  /** `re.sub` from `pos` on, given the match ends `t`: at each position
      either a match is replaced and skipped, or one character is copied.
      Every character of the result comes from the text or from `repl`. */
  function SubWith(t: seq<Option<nat>>, s: string, repl: string, pos: nat): (r: string)
    requires EndsTable(t, |s|) && pos <= |s|
    ensures forall c :: c in r ==> c in s[pos..] || c in repl
    decreases |s| - pos
  {
    if pos == |s| then []
    else match t[pos]
      case Some(e) => repl + SubWith(t, s, repl, e)
      case None => [s[pos]] + SubWith(t, s, repl, pos + 1)
  }

  /** `re.sub(p, repl, s)` */
  function Sub(p: Pattern, s: string, repl: string): (r: string)
    ensures forall c :: c in r ==> c in s || c in repl
  {
    assert s[0..] == s;
    SubWith(Ends(p, s), s, repl, 0)
  }

  /** The leftmost position at or after `pos` where the table has a match. */
  function NextMatch(t: seq<Option<nat>>, n: nat, pos: nat): (r: nat)
    requires EndsTable(t, n) && pos <= n
    ensures pos <= r <= n + 1
    ensures r <= n ==> t[r].Some?
    ensures forall j :: pos <= j < r && j <= n ==> t[j].None?
    decreases n + 1 - pos
  {
    if t[pos].Some? then pos else if pos == n then n + 1 else NextMatch(t, n, pos + 1)
  }

  /** The same substitution written the way `re.sub` runs: search for the
      leftmost match, copy the text before it, emit `repl`, and resume at the
      end of the match. */
  function SubBySearch(t: seq<Option<nat>>, s: string, repl: string, pos: nat): string
    requires EndsTable(t, |s|) && pos <= |s|
    decreases |s| - pos
  {
    var a := NextMatch(t, |s|, pos);
    if a > |s| then s[pos..]
    else s[pos..a] + repl + SubBySearch(t, s, repl, t[a].value)
  }

  /** Text with no match in it is copied unchanged. */
  lemma {:induction false} SubWithNoMatch(t: seq<Option<nat>>, s: string, repl: string, pos: nat, a: nat)
    requires EndsTable(t, |s|) && pos <= a <= |s|
    requires forall j :: pos <= j < a ==> t[j].None?
    ensures SubWith(t, s, repl, pos) == s[pos..a] + SubWith(t, s, repl, a)
    decreases a - pos
  {
    if pos < a {
      SubWithNoMatch(t, s, repl, pos + 1, a);
      assert SubWith(t, s, repl, pos) == [s[pos]] + SubWith(t, s, repl, pos + 1);
      assert s[pos..a] == [s[pos]] + s[pos + 1..a];
      assert [s[pos]] + (s[pos + 1..a] + SubWith(t, s, repl, a)) == ([s[pos]] + s[pos + 1..a]) + SubWith(t, s, repl, a);
    }
  }

  /** `re.sub` returns a text in which the pattern matches nowhere unchanged. */
  lemma SubOfNoMatch(p: Pattern, s: string, repl: string)
    requires NoMatch(p, s)
    ensures Sub(p, s, repl) == s
  {
    var t := Ends(p, s);
    SubWithNoMatch(t, s, repl, 0, |s|);
    assert s[0..|s|] == s;
  }

  /** The character-by-character substitution is leftmost, non-overlapping
      replacement. */
  lemma {:induction false} SubIsLeftmostReplacement(t: seq<Option<nat>>, s: string, repl: string, pos: nat)
    requires EndsTable(t, |s|) && pos <= |s|
    ensures SubWith(t, s, repl, pos) == SubBySearch(t, s, repl, pos)
    decreases |s| - pos
  {
    var a := NextMatch(t, |s|, pos);
    if a > |s| {
      SubWithNoMatch(t, s, repl, pos, |s|);
    } else {
      SubWithNoMatch(t, s, repl, pos, a);
      SubIsLeftmostReplacement(t, s, repl, t[a].value);
    }
  }

  /** No `o` in `s` is followed anywhere later by a `c`. */
  ghost predicate NoPair(s: string, o: char, c: char) {
    forall i, j :: 0 <= i < j < |s| && s[i] == o ==> s[j] != c
  }

  lemma ConcatNoPair(a: string, b: string, o: char, c: char)
    requires NoPair(a, o, c) && NoPair(b, o, c) && (o in a ==> c !in b)
    ensures NoPair(a + b, o, c)
  {
    var ab := a + b;
    forall i, j | 0 <= i < j < |ab| && ab[i] == o ensures ab[j] != c {
      if i < |a| && j >= |a| {
        assert a[i] == o;
        assert ab[j] == b[j - |a|];
      } else if i >= |a| {
        assert ab[i] == b[i - |a|] && ab[j] == b[j - |a|];
      }
    }
  }

  /** A substitution whose replacement holds neither `o` nor `c` cannot
      create an `o` ... `c` pair. */
  lemma {:induction false} SubWithKeepsNoPair(t: seq<Option<nat>>, s: string, repl: string, pos: nat, o: char, c: char)
    requires EndsTable(t, |s|) && pos <= |s| && NoPair(s[pos..], o, c) && o !in repl && c !in repl
    ensures NoPair(SubWith(t, s, repl, pos), o, c)
    decreases |s| - pos
  {
    if pos < |s| {
      match t[pos]
      case Some(e) =>
        assert s[e..] == s[pos..][e - pos..];
        SubWithKeepsNoPair(t, s, repl, e, o, c);
        ConcatNoPair(repl, SubWith(t, s, repl, e), o, c);
      case None =>
        assert s[pos + 1..] == s[pos..][1..];
        SubWithKeepsNoPair(t, s, repl, pos + 1, o, c);
        if s[pos] == o {
          assert c !in s[pos + 1..] by {
            forall j | pos + 1 <= j < |s| ensures s[j] != c {
              assert s[pos..][0] == o && s[pos..][j - pos] == s[j];
            }
          }
        }
        ConcatNoPair([s[pos]], SubWith(t, s, repl, pos + 1), o, c);
    }
  }

  lemma SubKeepsNoPair(p: Pattern, s: string, repl: string, o: char, c: char)
    requires NoPair(s, o, c) && o !in repl && c !in repl
    ensures NoPair(Sub(p, s, repl), o, c)
  {
    assert s[0..] == s;
    SubWithKeepsNoPair(Ends(p, s), s, repl, 0, o, c);
  }

  /** Removing every shortest `o`...`c` group from a text without newlines
      leaves no `o` followed anywhere later by a `c`: an `o` that did not
      start a match has no `c` anywhere after it. */
  lemma {:induction false} GroupSubWithNoPair(s: string, o: char, c: char, pos: nat)
    requires pos <= |s| && forall k :: 0 <= k < |s| ==> s[k] != '\n'
    ensures NoPair(SubWith(Ends(Bracketed(o, c), s), s, [], pos), o, c)
    decreases |s| - pos
  {
    var t := Ends(Bracketed(o, c), s);
    if pos < |s| {
      match t[pos]
      case Some(e) =>
        GroupSubWithNoPair(s, o, c, e);
        assert SubWith(t, s, [], pos) == SubWith(t, s, [], e);
      case None =>
        GroupSubWithNoPair(s, o, c, pos + 1);
        if s[pos] == o {
          assert GroupAt(s, pos, o, c).None?;
          assert c !in s[pos + 1..] by {
            forall j | pos + 1 <= j < |s| ensures s[j] != c {
              assert !GroupValid(s, pos, o, c, j - pos - 1);
            }
          }
        }
        ConcatNoPair([s[pos]], SubWith(t, s, [], pos + 1), o, c);
    }
  }

  /** `re.sub(r"\[.*?\]", "", s)` and its two siblings, on a text without
      newlines, leave no opening bracket followed later by its closing one. */
  lemma GroupSubNoPair(s: string, o: char, c: char)
    requires forall k :: 0 <= k < |s| ==> s[k] != '\n'
    ensures NoPair(Sub(Bracketed(o, c), s, []), o, c)
  {
    GroupSubWithNoPair(s, o, c, 0);
  }
}
