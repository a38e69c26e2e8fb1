/**
  The three regular expressions of the message format replacer, written out as
  hand-made scanners over strings.

    Raw(tag)      <tag([^>]*)>([\s\S]*?)</tag>
    Wrapped(tag)  (((<tag[^>]*>[\s\S]*?</tag>)))
    Block         (((  [\s\S]*?  )))

  A sticky attempt at one position (`Attempt`, `MatchAt`), the search for the
  leftmost attempt that succeeds at or after `lastIndex` (`Next`, what
  `RegExp.exec` does with the `g` flag) and the repeated search that resumes
  at the end of each match (`Scan`, the `while (regex.exec(...))` loops and
  `replace` with a global pattern). Matching is exact-case and the tag name
  is taken literally.
*/
module Patterns {
  import opened Options
  import opened Seqs

  /** `pat` occurs in `s` starting at position `i`. */
  predicate HasAt(s: string, i: nat, pat: string) {
    i + |pat| <= |s| && s[i..i + |pat|] == pat
  }

  /** `pat` occurs in `s` at some position at or after `from`. */
  ghost predicate OccursFrom(s: string, pat: string, from: nat) {
    exists k :: from <= k && HasAt(s, k, pat)
  }

  /** A `>` at or after `from`, followed later by an occurrence of `tail`. */
  ghost predicate GtThen(s: string, from: nat, tail: string) {
    exists g :: from <= g && HasAt(s, g, ">") && OccursFrom(s, tail, g + 1)
  }

  /**
    Position of the leftmost occurrence of `pat` at or after `from`: the search
    a lazy `[\s\S]*?` or a greedy `[^>]*` performs before the literal that
    follows it. `IndexOfSpec` states that it is the leftmost one.
  */
  function IndexOf(s: string, pat: string, from: nat): (r: Option<nat>)
    decreases |s| - from
    ensures r.Some? ==> from <= r.value && HasAt(s, r.value, pat)
  {
    if from + |pat| > |s| then
      None
    else if HasAt(s, from, pat) then
      Some(from)
    else
      IndexOf(s, pat, from + 1)
  }

  /** The search finds an occurrence exactly when there is one, and none lies left of the one it finds. */
  lemma {:induction false} IndexOfSpec(s: string, pat: string, from: nat)
    decreases |s| - from
    ensures IndexOf(s, pat, from).Some? <==> OccursFrom(s, pat, from)
    ensures IndexOf(s, pat, from).Some? ==>
      forall k :: from <= k < IndexOf(s, pat, from).value ==> !HasAt(s, k, pat)
  {
    if from + |pat| > |s| {
      assert forall k :: from <= k ==> !HasAt(s, k, pat);
    } else if !HasAt(s, from, pat) {
      IndexOfSpec(s, pat, from + 1);
      if OccursFrom(s, pat, from) {
        var k :| from <= k && HasAt(s, k, pat);
        assert k != from;
        assert OccursFrom(s, pat, from + 1);
      }
    }
  }

  /** The leftmost occurrence at or after `from` is the one at `k` when there is none between `from` and `k`. */
  lemma {:induction false} IndexOfIs(s: string, pat: string, from: nat, k: nat)
    requires from <= k && HasAt(s, k, pat)
    requires forall j :: from <= j < k ==> !HasAt(s, j, pat)
    ensures IndexOf(s, pat, from) == Some(k)
  {
    IndexOfSpec(s, pat, from);
    assert OccursFrom(s, pat, from);
  }

  /** No occurrence lies between `from` and the one the search finds. */
  lemma {:induction false} IndexOfFirst(s: string, pat: string, from: nat)
    requires IndexOf(s, pat, from).Some?
    ensures forall k :: from <= k < IndexOf(s, pat, from).value ==> !HasAt(s, k, pat)
  {
    IndexOfSpec(s, pat, from);
  }

  /** An occurrence at `k` means the search from `from` finds one at or before `k`. */
  lemma {:induction false} IndexOfAtMost(s: string, pat: string, from: nat, k: nat)
    requires from <= k && HasAt(s, k, pat)
    ensures IndexOf(s, pat, from).Some? && IndexOf(s, pat, from).value <= k
  {
    IndexOfSpec(s, pat, from);
    assert OccursFrom(s, pat, from);
  }

  /** An occurrence in a suffix is an occurrence in the whole text, shifted. */
  lemma {:induction false} HasAtSuffix(s: string, k: nat, j: nat, pat: string)
    requires k <= |s|
    ensures HasAt(s, k + j, pat) == HasAt(s[k..], j, pat)
  {
    if k + j + |pat| <= |s| {
      assert s[k..][j..j + |pat|] == s[k + j..k + j + |pat|];
    }
  }

  /** Whether `pat` occurs at `j` depends only on the characters it covers. */
  lemma {:induction false} HasAtAgree(t: string, u: string, j: nat, pat: string, n: nat)
    requires j + |pat| <= n <= |t| && n <= |u| && t[..n] == u[..n]
    ensures HasAt(t, j, pat) == HasAt(u, j, pat)
  {
    assert t[j..j + |pat|] == t[..n][j..j + |pat|];
    assert u[j..j + |pat|] == u[..n][j..j + |pat|];
  }

  /** An occurrence read character by character. */
  lemma {:induction false} HasAtChar(s: string, i: nat, pat: string, d: nat)
    requires HasAt(s, i, pat) && d < |pat|
    ensures s[i + d] == pat[d]
  {
    assert s[i..i + |pat|][d] == pat[d];
  }

  /** An occurrence at the start, less its first character, is one at the start of the rest. */
  lemma {:induction false} HasAtRest(s: string, pat: string)
    requires HasAt(s, 0, pat) && pat != []
    ensures |pat| - 1 <= |s| - 1 && s[1..][..|pat| - 1] == pat[1..]
  {
    assert s[1..][..|pat| - 1] == s[0..|pat|][1..];
  }

  /** An occurrence of a longer pattern is one of each of its prefixes. */
  lemma {:induction false} HasAtPrefix(s: string, i: nat, pat: string, n: nat)
    requires n <= |pat|
    ensures HasAt(s, i, pat) ==> HasAt(s, i, pat[..n])
  {
    if HasAt(s, i, pat) {
      assert s[i..i + n] == s[i..i + |pat|][..n];
    }
  }

  /** Occurrences after `k + from` in `s` are those after `from` in `s[k..]`. */
  lemma {:induction false} OccursSuffix(s: string, k: nat, from: nat, pat: string)
    requires k <= |s|
    ensures OccursFrom(s, pat, k + from) <==> OccursFrom(s[k..], pat, from)
  {
    if OccursFrom(s, pat, k + from) {
      var c :| k + from <= c && HasAt(s, c, pat);
      HasAtSuffix(s, k, c - k, pat);
    }
    if OccursFrom(s[k..], pat, from) {
      var c :| from <= c && HasAt(s[k..], c, pat);
      HasAtSuffix(s, k, c, pat);
    }
  }

  /** `GtThen` read in a suffix. */
  lemma {:induction false} GtThenSuffix(s: string, k: nat, from: nat, tail: string)
    requires k <= |s|
    ensures GtThen(s, k + from, tail) <==> GtThen(s[k..], from, tail)
  {
    if GtThen(s, k + from, tail) {
      var g :| k + from <= g && HasAt(s, g, ">") && OccursFrom(s, tail, g + 1);
      HasAtSuffix(s, k, g - k, ">");
      OccursSuffix(s, k, g - k + 1, tail);
    }
    if GtThen(s[k..], from, tail) {
      var g :| from <= g && HasAt(s[k..], g, ">") && OccursFrom(s[k..], tail, g + 1);
      HasAtSuffix(s, k, g, ">");
      OccursSuffix(s, k, g + 1, tail);
    }
  }

  /** `GtThen` for a tail implies it for each prefix of that tail. */
  lemma {:induction false} GtThenPrefix(s: string, from: nat, tail: string, n: nat)
    requires n <= |tail| && GtThen(s, from, tail)
    ensures GtThen(s, from, tail[..n])
  {
    var g :| from <= g && HasAt(s, g, ">") && OccursFrom(s, tail, g + 1);
    var c :| g + 1 <= c && HasAt(s, c, tail);
    HasAtPrefix(s, c, tail, n);
    assert OccursFrom(s, tail[..n], g + 1);
  }

  /** `GtThen` from a later position implies it from an earlier one. */
  lemma {:induction false} GtThenEarlier(s: string, a: nat, b: nat, tail: string)
    requires a <= b && GtThen(s, b, tail)
    ensures GtThen(s, a, tail)
  {
    var g :| b <= g && HasAt(s, g, ">") && OccursFrom(s, tail, g + 1);
  }

  /** A single differing character rules out an occurrence. */
  lemma {:induction false} Mismatch(s: string, i: nat, pat: string, d: nat)
    requires d < |pat| && i + d < |s| && s[i + d] != pat[d]
    ensures !HasAt(s, i, pat)
  {
    if i + |pat| <= |s| {
      assert s[i..i + |pat|][d] != pat[d];
    }
  }

  function OpenTag(tag: string): string { "<" + tag }
  function CloseTag(tag: string): string { "</" + tag + ">" }

  datatype Pattern = Raw(tag: string) | Wrapped(tag: string) | Block

  /** What a pattern must start with. */
  function Lead(p: Pattern): string {
    match p
    case Raw(tag) => OpenTag(tag)
    case Wrapped(tag) => "(((" + OpenTag(tag)
    case Block => "((("
  }

  /** What a pattern ends with; its content is everything up to the first occurrence. */
  function Tail(p: Pattern): string {
    match p
    case Raw(tag) => CloseTag(tag)
    case Wrapped(tag) => CloseTag(tag) + ")))"
    case Block => ")))"
  }

  /**
    One match: the half-open span [start, end) and the position `body` where
    its content begins (just after the `>` of the opening tag, or after the
    three opening parentheses of a block). The content runs up to the tail;
    the attribute text of a tag lies between the lead and the `>`.
  */
  datatype Match = Match(start: nat, end: nat, body: nat)

  /** A match attempt at position `i`: `lead`, then (for a tag) any text up to the first `>`, then any text up to the first `tail`. */
  function Attempt(s: string, i: nat, lead: string, tail: string, tagged: bool): (r: Option<Match>)
    ensures r.Some? ==> r.value.start == i && r.value.body + |tail| <= r.value.end <= |s|
    ensures r.Some? && tagged ==> i + |lead| < r.value.body
    ensures r.Some? && !tagged ==> i + |lead| == r.value.body
  {
    if !HasAt(s, i, lead) then
      None
    else if !tagged then
      var c := IndexOf(s, tail, i + |lead|);
      if c.None? then None else Some(Match(i, c.value + |tail|, i + |lead|))
    else
      var g := IndexOf(s, ">", i + |lead|);
      if g.None? then None
      else
        var c := IndexOf(s, tail, g.value + 1);
        if c.None? then None else Some(Match(i, c.value + |tail|, g.value + 1))
  }

  /** What a successful attempt has seen: the lead, the `>` before its content (for a tag) and the tail that ends it. */
  lemma {:induction false} AttemptShape(s: string, i: nat, lead: string, tail: string, tagged: bool)
    requires Attempt(s, i, lead, tail, tagged).Some?
    ensures var m := Attempt(s, i, lead, tail, tagged).value;
      && HasAt(s, i, lead)
      && (tagged ==> HasAt(s, m.body - 1, ">"))
      && HasAt(s, m.end - |tail|, tail)
  {
  }

  /** Adjacent slices join. */
  lemma {:induction false} Join(s: string, a: nat, b: nat, c: nat)
    requires a <= b <= c <= |s|
    ensures s[a..b] + s[b..c] == s[a..c]
  {
  }

  /** A successful tag attempt spells its lead, the text up to the `>`, the `>`, the content and the tail. */
  lemma {:induction false} AttemptSpelling(s: string, i: nat, lead: string, tail: string)
    requires Attempt(s, i, lead, tail, true).Some?
    ensures var m := Attempt(s, i, lead, tail, true).value;
      s[i..m.end] == lead + s[i + |lead|..m.body - 1] + ">" + s[m.body..m.end - |tail|] + tail
  {
    var m := Attempt(s, i, lead, tail, true).value;
    AttemptShape(s, i, lead, tail, true);
    var n, g, c := i + |lead|, m.body - 1, m.end - |tail|;
    Join(s, i, n, g);
    Join(s, i, g, g + 1);
    Join(s, i, g + 1, c);
    Join(s, i, c, m.end);
  }

  /** Some `>` followed by some tail is there exactly when the two leftmost searches both succeed. */
  lemma {:induction false} GtThenIff(s: string, from: nat, tail: string)
    ensures GtThen(s, from, tail) <==>
      IndexOf(s, ">", from).Some? && IndexOf(s, tail, IndexOf(s, ">", from).value + 1).Some?
  {
    if GtThen(s, from, tail) {
      GtThenFound(s, from, tail);
    }
    var g := IndexOf(s, ">", from);
    if g.Some? && IndexOf(s, tail, g.value + 1).Some? {
      assert OccursFrom(s, tail, g.value + 1);
    }
  }

  /** Half of `GtThenIff`: when some `>` is followed by some tail, the leftmost `>` is too. */
  lemma {:induction false} GtThenFound(s: string, from: nat, tail: string)
    requires GtThen(s, from, tail)
    ensures IndexOf(s, ">", from).Some? && IndexOf(s, tail, IndexOf(s, ">", from).value + 1).Some?
  {
    var g' :| from <= g' && HasAt(s, g', ">") && OccursFrom(s, tail, g' + 1);
    var c' := Occurrence(s, tail, g' + 1);
    IndexOfAtMost(s, ">", from, g');
    var g := IndexOf(s, ">", from).value;
    IndexOfAtMost(s, tail, g + 1, c');
  }

  /** A position at which `pat` occurs. */
  lemma {:induction false} Occurrence(s: string, pat: string, from: nat) returns (k: nat)
    requires OccursFrom(s, pat, from)
    ensures from <= k && HasAt(s, k, pat)
  {
    k :| from <= k && HasAt(s, k, pat);
  }

  /** An attempt succeeds exactly when its lead is there and the rest of the pattern can follow. */
  lemma {:induction false} AttemptIff(s: string, i: nat, lead: string, tail: string, tagged: bool)
    ensures Attempt(s, i, lead, tail, tagged).Some? <==>
      && HasAt(s, i, lead)
      && (!tagged ==> OccursFrom(s, tail, i + |lead|))
      && (tagged ==> GtThen(s, i + |lead|, tail))
  {
    if tagged {
      AttemptTagIff(s, i, lead, tail);
    } else {
      AttemptPlainIff(s, i, lead, tail);
    }
  }

  lemma {:induction false} AttemptTagIff(s: string, i: nat, lead: string, tail: string)
    ensures Attempt(s, i, lead, tail, true).Some? <==> HasAt(s, i, lead) && GtThen(s, i + |lead|, tail)
  {
    GtThenIff(s, i + |lead|, tail);
  }

  lemma {:induction false} AttemptPlainIff(s: string, i: nat, lead: string, tail: string)
    ensures Attempt(s, i, lead, tail, false).Some? <==> HasAt(s, i, lead) && OccursFrom(s, tail, i + |lead|)
  {
    IndexOfSpec(s, tail, i + |lead|);
  }

  /** A tag attempt read off the two searches it performs. */
  lemma {:induction false} AttemptTagIs(s: string, i: nat, lead: string, tail: string, g: nat, c: nat)
    requires HasAt(s, i, lead)
    requires IndexOf(s, ">", i + |lead|) == Some(g)
    requires IndexOf(s, tail, g + 1) == Some(c)
    ensures Attempt(s, i, lead, tail, true) == Some(Match(i, c + |tail|, g + 1))
  {
  }

  /** A tag attempt read off the occurrences around it: the first `>` after the lead and the first tail after that. */
  lemma {:induction false} AttemptTagAt(s: string, i: nat, lead: string, tail: string, g: nat, c: nat)
    requires HasAt(s, i, lead) && i + |lead| <= g && HasAt(s, g, ">") && g < c && HasAt(s, c, tail)
    requires forall j :: i + |lead| <= j < g ==> !HasAt(s, j, ">")
    requires forall j :: g + 1 <= j < c ==> !HasAt(s, j, tail)
    ensures Attempt(s, i, lead, tail, true) == Some(Match(i, c + |tail|, g + 1))
  {
    IndexOfIs(s, ">", i + |lead|, g);
    IndexOfIs(s, tail, g + 1, c);
    AttemptTagIs(s, i, lead, tail, g, c);
  }

  /** A successful tag attempt stopped at the first `>` after its lead and at the first tail after that. */
  lemma {:induction false} AttemptLeftmost(s: string, i: nat, lead: string, tail: string)
    requires Attempt(s, i, lead, tail, true).Some?
    ensures var m := Attempt(s, i, lead, tail, true).value;
      && (forall j :: i + |lead| <= j < m.body - 1 ==> !HasAt(s, j, ">"))
      && (forall j :: m.body <= j < m.end - |tail| ==> !HasAt(s, j, tail))
  {
    var g := IndexOf(s, ">", i + |lead|).value;
    var c := IndexOf(s, tail, g + 1).value;
    assert Attempt(s, i, lead, tail, true).value == Match(i, c + |tail|, g + 1);
    IndexOfFirst(s, ">", i + |lead|);
    IndexOfFirst(s, tail, g + 1);
  }

  /** A tag match at the start of `t` is found the same way in any text that agrees with `t` up to the match's end. */
  lemma {:induction false} AttemptLocal(t: string, u: string, lead: string, tail: string)
    requires Attempt(t, 0, lead, tail, true).Some?
    requires Attempt(t, 0, lead, tail, true).value.end <= |u|
    requires t[..Attempt(t, 0, lead, tail, true).value.end] == u[..Attempt(t, 0, lead, tail, true).value.end]
    ensures Attempt(u, 0, lead, tail, true) == Attempt(t, 0, lead, tail, true)
  {
    var n, g, c := TagParts(t, lead, tail);
    LocalParts(t, u, lead, tail, n, g, c);
  }

  /** The tag match spanning `t[..n]`, with its `>` at `g` and its tail at `c`, is found in `u` too when `u[..n]` is `t[..n]`. */
  lemma {:induction false} LocalParts(t: string, u: string, lead: string, tail: string, n: nat, g: nat, c: nat)
    requires n <= |t| && n <= |u| && t[..n] == u[..n] && c + |tail| == n && |lead| <= g < c
    requires HasAt(t, 0, lead) && HasAt(t, g, ">") && HasAt(t, c, tail)
    requires forall j :: |lead| <= j < g ==> !HasAt(t, j, ">")
    requires forall j :: g + 1 <= j < c ==> !HasAt(t, j, tail)
    ensures Attempt(u, 0, lead, tail, true) == Some(Match(0, n, g + 1))
  {
    HasAtAgree(t, u, 0, lead, n);
    HasAtAgree(t, u, g, ">", n);
    HasAtAgree(t, u, c, tail, n);
    forall j | |lead| <= j < g ensures !HasAt(u, j, ">") {
      HasAtAgree(t, u, j, ">", n);
    }
    forall j | g + 1 <= j < c ensures !HasAt(u, j, tail) {
      HasAtAgree(t, u, j, tail, n);
    }
    AttemptTagAt(u, 0, lead, tail, g, c);
  }

  /** A tag match at the start of `t`, as its end `n`, the position `g` of its `>` and the position `c` of its tail. */
  lemma {:induction false} TagParts(t: string, lead: string, tail: string) returns (n: nat, g: nat, c: nat)
    requires Attempt(t, 0, lead, tail, true).Some?
    ensures Attempt(t, 0, lead, tail, true) == Some(Match(0, n, g + 1))
    ensures n <= |t| && c + |tail| == n && |lead| <= g < c
    ensures HasAt(t, 0, lead) && HasAt(t, g, ">") && HasAt(t, c, tail)
    ensures forall j :: |lead| <= j < g ==> !HasAt(t, j, ">")
    ensures forall j :: g + 1 <= j < c ==> !HasAt(t, j, tail)
  {
    var m := Attempt(t, 0, lead, tail, true).value;
    AttemptShape(t, 0, lead, tail, true);
    AttemptLeftmost(t, 0, lead, tail);
    n, g, c := m.end, m.body - 1, m.end - |tail|;
  }

  /** A block attempt read off the search for its tail. */
  lemma {:induction false} AttemptBlockIs(s: string, i: nat, lead: string, tail: string, c: nat)
    requires HasAt(s, i, lead)
    requires IndexOf(s, tail, i + |lead|) == Some(c)
    ensures Attempt(s, i, lead, tail, false) == Some(Match(i, c + |tail|, i + |lead|))
  {
  }

  /** The positions of `m` are those of a match of `p` inside a text of length `n`. */
  predicate Spans(p: Pattern, m: Match, n: nat) {
    && (if p.Block? then m.body == m.start + |Lead(p)| else m.start + |Lead(p)| < m.body)
    && m.body + |Tail(p)| <= m.end <= n
  }

  /** A match attempt of `p` anchored at position `i` of `s` (a sticky `exec`). */
  function MatchAt(p: Pattern, s: string, i: nat): (r: Option<Match>)
    ensures r.Some? ==> r.value.start == i < r.value.end && Spans(p, r.value, |s|)
  {
    Attempt(s, i, Lead(p), Tail(p), !p.Block?)
  }

  /** First capture group of a tag pattern: the text between the tag name and the `>`. */
  function Attrs(p: Pattern, s: string, m: Match): string
    requires Spans(p, m, |s|) && !p.Block?
  {
    s[m.start + |Lead(p)|..m.body - 1]
  }

  /** Second capture group (the block's inside for `Block`): the text between the opening and the tail. */
  function Content(p: Pattern, s: string, m: Match): string
    requires Spans(p, m, |s|)
  {
    s[m.body..m.end - |Tail(p)|]
  }

  /** A tag match spells its lead, its first group, the `>`, its second group and its tail. */
  lemma {:induction false} MatchSpelling(p: Pattern, s: string, m: Match)
    requires !p.Block? && MatchAt(p, s, m.start) == Some(m)
    ensures s[m.start..m.end] == Lead(p) + Attrs(p, s, m) + ">" + Content(p, s, m) + Tail(p)
  {
    SpellingOf(s, m, Lead(p), Tail(p), Attrs(p, s, m), Content(p, s, m));
  }

  lemma {:induction false} SpellingOf(s: string, m: Match, lead: string, tail: string, a: string, c: string)
    requires Attempt(s, m.start, lead, tail, true) == Some(m)
    requires a == s[m.start + |lead|..m.body - 1] && c == s[m.body..m.end - |tail|]
    ensures s[m.start..m.end] == lead + a + ">" + c + tail
  {
    AttemptSpelling(s, m.start, lead, tail);
  }

  /** No attempt succeeds where the lead is missing. */
  lemma {:induction false} MatchAtNoLead(p: Pattern, s: string, i: nat)
    requires !HasAt(s, i, Lead(p))
    ensures MatchAt(p, s, i).None?
  {
  }

  /** `regex.exec(s)` with `lastIndex == from`: the leftmost match starting at or after `from` (see `NextSpec`). */
  function Next(p: Pattern, s: string, from: nat): (r: Option<Match>)
    decreases |s| - from
    ensures r.Some? ==> from <= r.value.start && MatchAt(p, s, r.value.start) == r
  {
    if from >= |s| then
      None
    else
      var here := MatchAt(p, s, from);
      if here.Some? then here else Next(p, s, from + 1)
  }

  /** `NextSpec` where the search starts on a match. */
  lemma {:induction false} NextSpecHere(p: Pattern, s: string, from: nat)
    requires from < |s| && MatchAt(p, s, from).Some?
    ensures Next(p, s, from).Some? && Next(p, s, from).value.start == from
  {
  }

  /** One step of `NextSpec`: a failed attempt at `from` extends what holds from `from + 1`. */
  lemma {:induction false} NextSpecStep(p: Pattern, s: string, from: nat)
    requires from < |s| && MatchAt(p, s, from).None?
    requires Next(p, s, from + 1).Some? ==>
      forall k :: from + 1 <= k < Next(p, s, from + 1).value.start ==> MatchAt(p, s, k).None?
    requires Next(p, s, from + 1).None? ==> forall k :: from + 1 <= k ==> MatchAt(p, s, k).None?
    ensures Next(p, s, from).Some? ==>
      forall k :: from <= k < Next(p, s, from).value.start ==> MatchAt(p, s, k).None?
    ensures Next(p, s, from).None? ==> forall k :: from <= k ==> MatchAt(p, s, k).None?
  {
    assert Next(p, s, from) == Next(p, s, from + 1);
  }

  /** No match starts between `from` and the one found, and none at all when nothing is found. */
  lemma {:induction false} NextSpec(p: Pattern, s: string, from: nat)
    decreases |s| - from
    ensures Next(p, s, from).Some? ==>
      forall k :: from <= k < Next(p, s, from).value.start ==> MatchAt(p, s, k).None?
    ensures Next(p, s, from).None? ==> forall k :: from <= k ==> MatchAt(p, s, k).None?
  {
    if from >= |s| {
      forall k | from <= k ensures MatchAt(p, s, k).None? {
        MatchAtNoLead(p, s, k);
      }
    } else if MatchAt(p, s, from).Some? {
      NextSpecHere(p, s, from);
    } else {
      NextSpec(p, s, from + 1);
      NextSpecStep(p, s, from);
    }
  }

  /** The leftmost match from `from` is `m` when it matches and nothing does before it. */
  lemma {:induction false} NextIs(p: Pattern, s: string, from: nat, m: Match)
    requires from <= m.start && MatchAt(p, s, m.start) == Some(m)
    requires forall k :: from <= k < m.start ==> MatchAt(p, s, k).None?
    ensures Next(p, s, from) == Some(m)
  {
    NextSpec(p, s, from);
    var r := Next(p, s, from);
    assert r.Some?;
    var st := r.value.start;
    assert st <= m.start;
    assert st >= m.start;
  }

  /** Nothing is found from `from` when no attempt from there on succeeds. */
  lemma {:induction false} NextNone(p: Pattern, s: string, from: nat)
    requires forall k :: from <= k < |s| ==> MatchAt(p, s, k).None?
    ensures Next(p, s, from).None?
  {
    var r := Next(p, s, from);
    if r.Some? {
      assert MatchAt(p, s, r.value.start).Some?;
    }
  }

  /** Every match the global pattern finds from `from` on, left to right. */
  function Scan(p: Pattern, s: string, from: nat): (ms: seq<Match>)
    decreases |s| - from
    ensures forall k :: 0 <= k < |ms| ==> from <= ms[k].start < ms[k].end <= |s|
    ensures forall k :: 0 <= k < |ms| ==> Spans(p, ms[k], |s|)
    ensures forall j, k :: 0 <= j < k < |ms| ==> ms[j].end <= ms[k].start
  {
    match Next(p, s, from)
    case None => []
    case Some(m) =>
      assert MatchAt(p, s, m.start) == Some(m);
      var rest := Scan(p, s, m.end);
      ScanCons(p, s, from, m, rest);
      [m] + rest
  }

  /** A match followed by ascending, disjoint matches after its end are ascending and disjoint. */
  lemma {:induction false} ScanCons(p: Pattern, s: string, from: nat, m: Match, rest: seq<Match>)
    requires from <= m.start < m.end && Spans(p, m, |s|)
    requires forall k :: 0 <= k < |rest| ==> m.end <= rest[k].start < rest[k].end <= |s|
    requires forall k :: 0 <= k < |rest| ==> Spans(p, rest[k], |s|)
    requires forall j, k :: 0 <= j < k < |rest| ==> rest[j].end <= rest[k].start
    ensures forall k :: 0 <= k < |[m] + rest| ==> from <= ([m] + rest)[k].start < ([m] + rest)[k].end <= |s|
    ensures forall k :: 0 <= k < |[m] + rest| ==> Spans(p, ([m] + rest)[k], |s|)
    ensures forall j, k :: 0 <= j < k < |[m] + rest| ==> ([m] + rest)[j].end <= ([m] + rest)[k].start
  {
    var ms := [m] + rest;
    assert forall k :: 0 < k < |ms| ==> ms[k] == rest[k - 1];
  }

  /** A scan is the leftmost match followed by the scan from its end, or empty when there is none. */
  lemma {:induction false} ScanStep(p: Pattern, s: string, from: nat)
    ensures Next(p, s, from).None? ==> Scan(p, s, from) == []
    ensures Next(p, s, from).Some? ==>
      from < Next(p, s, from).value.end <= |s| &&
      Scan(p, s, from) == [Next(p, s, from).value] + Scan(p, s, Next(p, s, from).value.end)
  {
  }

  /** Each element of a scan is what the pattern matches at its start. */
  lemma {:induction false} ScanMatches(p: Pattern, s: string, from: nat)
    ensures forall m :: m in Scan(p, s, from) ==> MatchAt(p, s, m.start) == Some(m)
    decreases |s| - from
  {
    match Next(p, s, from)
    case None =>
    case Some(m) =>
      ScanMatches(p, s, m.end);
      assert Scan(p, s, from) == [m] + Scan(p, s, m.end);
  }

  /** Searching the suffix `t == s[k..]` from `from` finds what searching `s` from `k + from` finds, `k` positions earlier. */
  lemma {:induction false} IndexOfShift(s: string, t: string, pat: string, k: nat, from: nat)
    requires k <= |s| && t == s[k..]
    ensures IndexOf(t, pat, from).None? == IndexOf(s, pat, k + from).None?
    ensures IndexOf(t, pat, from).Some? ==> IndexOf(t, pat, from).value + k == IndexOf(s, pat, k + from).value
    decreases |s| - (k + from)
  {
    HasAtSuffix(s, k, from, pat);
    if from + |pat| <= |t| && !HasAt(t, from, pat) {
      IndexOfShift(s, t, pat, k, from + 1);
    }
  }

  /** A tag attempt at position `j` of the suffix `t == s[k..]` is the one at `k + j` of `s`, shifted by `k`. */
  lemma {:induction false} AttemptTagShift(s: string, t: string, k: nat, j: nat, lead: string, tail: string)
    requires k <= |s| && t == s[k..]
    ensures Attempt(t, j, lead, tail, true).None? == Attempt(s, k + j, lead, tail, true).None?
    ensures Attempt(t, j, lead, tail, true).Some? ==>
      Attempt(t, j, lead, tail, true).value.end + k == Attempt(s, k + j, lead, tail, true).value.end
  {
    HasAtSuffix(s, k, j, lead);
    var g := IndexOf(t, ">", j + |lead|);
    IndexOfShift(s, t, ">", k, j + |lead|);
    if g.Some? {
      TailShift(s, t, k, g.value, tail);
    }
    AttemptTagMoved(s, t, k, j, lead, tail);
  }

  /** The search for the closing tail past a tag's `>` agrees between `t == s[k..]` and `s`. */
  lemma {:induction false} TailShift(s: string, t: string, k: nat, g: nat, tail: string)
    requires k <= |s| && t == s[k..]
    ensures IndexOf(t, tail, g + 1).None? == IndexOf(s, tail, k + (g + 1)).None?
    ensures IndexOf(t, tail, g + 1).Some? ==> IndexOf(t, tail, g + 1).value + k == IndexOf(s, tail, k + (g + 1)).value
  {
    IndexOfShift(s, t, tail, k, g + 1);
  }

  /** `AttemptTagShift` once the lead test and the two searches are known to agree. */
  lemma {:induction false} AttemptTagMoved(s: string, t: string, k: nat, j: nat, lead: string, tail: string)
    requires HasAt(s, k + j, lead) == HasAt(t, j, lead)
    requires IndexOf(t, ">", j + |lead|).None? == IndexOf(s, ">", k + (j + |lead|)).None?
    requires IndexOf(t, ">", j + |lead|).Some? ==>
      var g := IndexOf(t, ">", j + |lead|).value;
      && g + k == IndexOf(s, ">", k + (j + |lead|)).value
      && IndexOf(t, tail, g + 1).None? == IndexOf(s, tail, k + (g + 1)).None?
      && (IndexOf(t, tail, g + 1).Some? ==> IndexOf(t, tail, g + 1).value + k == IndexOf(s, tail, k + (g + 1)).value)
    ensures Attempt(t, j, lead, tail, true).None? == Attempt(s, k + j, lead, tail, true).None?
    ensures Attempt(t, j, lead, tail, true).Some? ==>
      Attempt(t, j, lead, tail, true).value.end + k == Attempt(s, k + j, lead, tail, true).value.end
  {
    assert k + j + |lead| == k + (j + |lead|);
  }

  /** A block attempt at position `j` of the suffix `t == s[k..]` is the one at `k + j` of `s`, shifted by `k`. */
  lemma {:induction false} AttemptPlainShift(s: string, t: string, k: nat, j: nat, lead: string, tail: string)
    requires k <= |s| && t == s[k..]
    ensures Attempt(t, j, lead, tail, false).None? == Attempt(s, k + j, lead, tail, false).None?
    ensures Attempt(t, j, lead, tail, false).Some? ==>
      Attempt(t, j, lead, tail, false).value.end + k == Attempt(s, k + j, lead, tail, false).value.end
  {
    HasAtSuffix(s, k, j, lead);
    IndexOfShift(s, t, tail, k, j + |lead|);
    AttemptPlainMoved(s, t, k, j, lead, tail);
  }

  /** `AttemptPlainShift` once the lead test and the search are known to agree. */
  lemma {:induction false} AttemptPlainMoved(s: string, t: string, k: nat, j: nat, lead: string, tail: string)
    requires HasAt(s, k + j, lead) == HasAt(t, j, lead)
    requires IndexOf(t, tail, j + |lead|).None? == IndexOf(s, tail, k + (j + |lead|)).None?
    requires IndexOf(t, tail, j + |lead|).Some? ==>
      IndexOf(t, tail, j + |lead|).value + k == IndexOf(s, tail, k + (j + |lead|)).value
    ensures Attempt(t, j, lead, tail, false).None? == Attempt(s, k + j, lead, tail, false).None?
    ensures Attempt(t, j, lead, tail, false).Some? ==>
      Attempt(t, j, lead, tail, false).value.end + k == Attempt(s, k + j, lead, tail, false).value.end
  {
    assert k + j + |lead| == k + (j + |lead|);
  }

  /** A pattern matches at the start of `s[k..]` exactly when it matches at `k` in `s`, and the two matches end together. */
  lemma {:induction false} MatchAtShift(p: Pattern, s: string, k: nat)
    requires k <= |s|
    ensures MatchAt(p, s[k..], 0).None? == MatchAt(p, s, k).None?
    ensures MatchAt(p, s[k..], 0).Some? ==> MatchAt(p, s[k..], 0).value.end + k == MatchAt(p, s, k).value.end
  {
    if p.Block? {
      AttemptPlainShift(s, s[k..], k, 0, Lead(p), Tail(p));
    } else {
      AttemptTagShift(s, s[k..], k, 0, Lead(p), Tail(p));
    }
  }

  /** Starting the search later, but not past the leftmost match, finds the same match. */
  lemma {:induction false} NextLater(p: Pattern, s: string, j: nat, b: nat)
    requires j <= b && (Next(p, s, j).None? || b <= Next(p, s, j).value.start)
    ensures Next(p, s, b) == Next(p, s, j)
  {
    NextSpec(p, s, j);
    if Next(p, s, j).None? {
      NextNone(p, s, b);
    } else {
      NextIs(p, s, b, Next(p, s, j).value);
    }
  }

  /** Scans that start with the same search result are equal. */
  lemma {:induction false} ScanSame(p: Pattern, s: string, j: nat, b: nat)
    requires Next(p, s, b) == Next(p, s, j)
    ensures Scan(p, s, b) == Scan(p, s, j)
  {
    ScanStep(p, s, j);
    ScanStep(p, s, b);
  }

  /**
    When no match the scan from `j` finds runs across `b`, that scan is the
    matches it finds before `b` followed by the scan from `b`.
  */
  lemma {:induction false} ScanSplit(p: Pattern, s: string, j: nat, b: nat) returns (pre: seq<Match>)
    requires j <= b
    requires forall m :: m in Scan(p, s, j) && m.start < b ==> m.end <= b
    ensures Scan(p, s, j) == pre + Scan(p, s, b)
    ensures forall m :: m in pre ==> m.end <= b
    decreases |s| - j
  {
    if Next(p, s, j).None? || b <= Next(p, s, j).value.start {
      NextLater(p, s, j, b);
      ScanSame(p, s, j, b);
      pre := [];
      EmptyAppend(Scan(p, s, b));
    } else {
      var m := Next(p, s, j).value;
      ScanSplitHead(p, s, j, b);
      var mid := ScanSplit(p, s, m.end, b);
      pre := [m] + mid;
      AppendAssoc([m], mid, Scan(p, s, b));
    }
  }

  /** The first match of such a scan ends by `b`, and the scan after it again has no match across `b`. */
  lemma {:induction false} ScanSplitHead(p: Pattern, s: string, j: nat, b: nat)
    requires Next(p, s, j).Some? && Next(p, s, j).value.start < b
    requires forall m :: m in Scan(p, s, j) && m.start < b ==> m.end <= b
    ensures Scan(p, s, j) == [Next(p, s, j).value] + Scan(p, s, Next(p, s, j).value.end)
    ensures Next(p, s, j).value.end <= b
    ensures forall m :: m in Scan(p, s, Next(p, s, j).value.end) && m.start < b ==> m.end <= b
  {
    var m := Next(p, s, j).value;
    var rest := Scan(p, s, m.end);
    ScanStep(p, s, j);
    assert Scan(p, s, j) == [m] + rest;
    assert m in Scan(p, s, j);
    assert forall x :: x in rest ==> x in Scan(p, s, j);
  }

  /** What a match the scan finds is: in range, well-formed, and what the pattern matches at its start. */
  lemma {:induction false} ScanMember(p: Pattern, s: string, from: nat, m: Match)
    requires m in Scan(p, s, from)
    ensures from <= m.start < m.end <= |s| && Spans(p, m, |s|)
    ensures MatchAt(p, s, m.start) == Some(m)
  {
    ScanMatches(p, s, from);
  }
}
