/**
  When the corrected wrapper and the wrapper as written agree.

  `WrapAsWritten` collects the raw occurrences and the wrapped blocks with
  two independent scans and drops an occurrence only when a recorded block
  contains it. `Wrap` walks the text once. The two produce the same text
  whenever every raw occurrence the source collects lies wholly inside or
  wholly outside each wrapped block it records (`Nested`); they can differ
  only on a text where a raw occurrence straddles the edge of a wrapped
  block, as in `WrapAsWrittenNotIdempotent`.

  The proof follows `Wrap` token by token. At each position where it stands,
  neither scan has a match running across that position (`Settled`), so the
  scans from there on are the tails of the whole-text scans, and the
  replacements still to come are those collected from there on (`PlanAt`).
*/
module Agreement {
  import opened Options
  import opened Patterns
  import opened Edits
  import opened Wrapping
  import opened Seqs
  import Idempotence

  /** Each collected raw occurrence lies wholly inside or wholly outside each recorded wrapped block. */
  predicate Nested(s: string, tag: string) {
    forall m, w :: m in RawMatches(s, tag) && w in WrappedRanges(s, tag) ==>
      Contains(w, m) || m.end <= w.start || w.end <= m.start
  }

  /** No match of the scan of `p` over the whole of `s` runs across position `i`. */
  predicate Settled(p: Pattern, s: string, i: nat) {
    forall m :: m in Scan(p, s, 0) && m.start < i ==> m.end <= i
  }

  /** The replacements the source collects from the raw occurrences found from `i` on. */
  function PlanAt(s: string, tag: string, i: nat): (es: seq<Edit>)
    ensures Ordered(es, |s|) && (es != [] ==> i <= es[0].start)
  {
    var ms := Scan(Raw(tag), s, i);
    PlanFromOrdered(tag, s, ms, WrappedRanges(s, tag));
    PlanFromAfter(tag, s, ms, WrappedRanges(s, tag), i);
    var es := PlanFrom(tag, s, ms, WrappedRanges(s, tag));
    assert es != [] ==> es[0] in es;
    es
  }

  /** Occurrences that a recorded block contains contribute no replacement. */
  lemma {:induction false} PlanSkip(tag: string, s: string, pre: seq<Match>, ms: seq<Match>, ranges: seq<Match>)
    requires forall m :: m in pre ==> Spans(Raw(tag), m, |s|) && AlreadyWrapped(m, ranges)
    requires forall m :: m in ms ==> Spans(Raw(tag), m, |s|)
    ensures forall m :: m in pre + ms ==> Spans(Raw(tag), m, |s|)
    ensures PlanFrom(tag, s, pre + ms, ranges) == PlanFrom(tag, s, ms, ranges)
    decreases |pre|
  {
    if pre == [] {
      assert pre + ms == ms;
    } else {
      assert (pre + ms)[1..] == pre[1..] + ms;
      assert (pre + ms)[0] == pre[0];
      PlanSkip(tag, s, pre[1..], ms, ranges);
    }
  }

  /** Past a match that the scan from a settled position `i` finds first, the scan is settled again. */
  lemma {:induction false} SettledPast(p: Pattern, s: string, i: nat, pre: seq<Match>, m: Match)
    requires Scan(p, s, 0) == pre + Scan(p, s, i) && (forall x :: x in pre ==> x.end <= i)
    requires Scan(p, s, i) == [m] + Scan(p, s, m.end) && i <= m.end
    ensures Settled(p, s, m.end)
  {
    var rest := Scan(p, s, m.end);
    assert forall x :: x in rest ==> m.end <= x.start;
    SettledCut(Scan(p, s, 0), pre, m, rest, i);
  }

  /** A list made of matches ending by `i`, then `m`, then matches starting past `m`, has no match across `m.end`. */
  lemma {:induction false} SettledCut(all: seq<Match>, pre: seq<Match>, m: Match, rest: seq<Match>, i: nat)
    requires all == pre + ([m] + rest) && i <= m.end
    requires forall x :: x in pre ==> x.end <= i
    requires forall x :: x in rest ==> m.end <= x.start
    ensures forall x :: x in all && x.start < m.end ==> x.end <= m.end
  {
    forall x | x in all && x.start < m.end ensures x.end <= m.end {
      assert x in pre || x == m || x in rest;
    }
  }

  /** A position where the pattern does not match can be stepped over. */
  lemma {:induction false} SettledSkip(p: Pattern, s: string, i: nat)
    requires i < |s| && Settled(p, s, i) && MatchAt(p, s, i).None?
    ensures Settled(p, s, i + 1)
    ensures Scan(p, s, i) == Scan(p, s, i + 1)
  {
    ScanMatches(p, s, 0);
    ScanSame(p, s, i + 1, i);
  }

  /** A kept block at `i`: `Wrap` copies it, and the source collects nothing inside it. */
  lemma {:induction false} KeptAgrees(s: string, tag: string, i: nat) returns (e: nat)
    requires i < |s| && Nested(s, tag)
    requires Settled(Raw(tag), s, i) && Settled(Wrapped(tag), s, i)
    requires MatchAt(Wrapped(tag), s, i).Some?
    ensures i < e <= |s| && Settled(Raw(tag), s, e) && Settled(Wrapped(tag), s, e)
    ensures Wrap(s[i..], tag) == s[i..e] + Wrap(s[e..], tag)
    ensures PlanAt(s, tag, i) == PlanAt(s, tag, e)
  {
    var w := MatchAt(Wrapped(tag), s, i).value;
    e := w.end;
    MatchAtShift(Wrapped(tag), s, i);
    KeptWrap(s, tag, i, e);
    var preW := ScanSplit(Wrapped(tag), s, 0, i);
    NextSpecHere(Wrapped(tag), s, i);
    ScanStep(Wrapped(tag), s, i);
    assert w in WrappedRanges(s, tag);
    SettledPast(Wrapped(tag), s, i, preW, w);
    var mid := InsideKept(s, tag, i, w);
    PlanSkip(tag, s, mid, Scan(Raw(tag), s, e), WrappedRanges(s, tag));
  }

  /**
    The raw occurrences the scan finds from a settled `i` that start inside
    the recorded block `w` at `i` all lie in it, and past it the raw scan is
    settled again.
  */
  lemma {:induction false} InsideKept(s: string, tag: string, i: nat, w: Match) returns (mid: seq<Match>)
    requires Nested(s, tag) && Settled(Raw(tag), s, i)
    requires w in WrappedRanges(s, tag) && w.start == i
    ensures Scan(Raw(tag), s, i) == mid + Scan(Raw(tag), s, w.end)
    ensures forall m :: m in mid ==> Spans(Raw(tag), m, |s|) && AlreadyWrapped(m, WrappedRanges(s, tag))
    ensures Settled(Raw(tag), s, w.end)
  {
    var preR := ScanSplit(Raw(tag), s, 0, i);
    forall m | m in Scan(Raw(tag), s, i) && m.start < w.end ensures m.end <= w.end {
      assert m in RawMatches(s, tag);
      ScanMember(Raw(tag), s, i, m);
      assert Contains(w, m) || m.end <= w.start || w.end <= m.start;
    }
    mid := ScanSplit(Raw(tag), s, i, w.end);
    forall m | m in mid ensures Spans(Raw(tag), m, |s|) && AlreadyWrapped(m, WrappedRanges(s, tag)) {
      assert m in Scan(Raw(tag), s, i);
      ScanMember(Raw(tag), s, i, m);
      assert Contains(w, m);
    }
    forall x | x in Scan(Raw(tag), s, 0) && x.start < w.end ensures x.end <= w.end {
      if x !in preR {
        assert x in Scan(Raw(tag), s, i);
      }
    }
  }

  /** A raw occurrence at `i` outside every kept block: both wrap it in parentheses. */
  lemma {:induction false} RawAgrees(s: string, tag: string, i: nat) returns (e: nat)
    requires i < |s| && Nested(s, tag)
    requires Settled(Raw(tag), s, i) && Settled(Wrapped(tag), s, i)
    requires MatchAt(Wrapped(tag), s, i).None? && MatchAt(Raw(tag), s, i).Some?
    ensures i < e <= |s| && Settled(Raw(tag), s, e) && Settled(Wrapped(tag), s, e)
    ensures Wrap(s[i..], tag) == "(((" + s[i..e] + ")))" + Wrap(s[e..], tag)
    ensures PlanAt(s, tag, i) == [Edit(i, e, "(((" + s[i..e] + ")))")] + PlanAt(s, tag, e)
  {
    var m := MatchAt(Raw(tag), s, i).value;
    e := m.end;
    MatchAtShift(Wrapped(tag), s, i);
    MatchAtShift(Raw(tag), s, i);
    RawWrap(s, tag, i, e);
    var preR := ScanSplit(Raw(tag), s, 0, i);
    NextSpecHere(Raw(tag), s, i);
    ScanStep(Raw(tag), s, i);
    SettledPast(Raw(tag), s, i, preR, m);
    assert m in RawMatches(s, tag);
    OutsideKept(s, tag, i, m);
    ReplacementWraps(tag, s, m);
    var ms := Scan(Raw(tag), s, i);
    assert ms[0] == m && ms[1..] == Scan(Raw(tag), s, e);
  }

  /**
    A raw occurrence `m` at a settled `i` where no block starts lies in no
    recorded block, and no recorded block starts inside it.
  */
  lemma {:induction false} OutsideKept(s: string, tag: string, i: nat, m: Match)
    requires Nested(s, tag) && Settled(Wrapped(tag), s, i)
    requires MatchAt(Wrapped(tag), s, i).None? && m in RawMatches(s, tag) && m.start == i
    ensures !AlreadyWrapped(m, WrappedRanges(s, tag))
    ensures Settled(Wrapped(tag), s, m.end)
  {
    ScanMember(Raw(tag), s, 0, m);
    var preW := ScanSplit(Wrapped(tag), s, 0, i);
    forall w | w in WrappedRanges(s, tag) ensures !Contains(w, m) && (w.start < m.end ==> w.end <= i) {
      if w !in preW {
        assert w in Scan(Wrapped(tag), s, i);
        ScanMember(Wrapped(tag), s, i, w);
        ScanMember(Wrapped(tag), s, 0, w);
        assert w.start != i;
        assert Contains(w, m) || m.end <= w.start || w.end <= m.start;
      }
    }
  }

  /** A copied character at `i`: `Wrap` copies it, and the source collects nothing that starts there. */
  lemma {:induction false} CopyAgrees(s: string, tag: string, i: nat)
    requires i < |s| && Settled(Raw(tag), s, i) && Settled(Wrapped(tag), s, i)
    requires MatchAt(Wrapped(tag), s, i).None? && MatchAt(Raw(tag), s, i).None?
    ensures Settled(Raw(tag), s, i + 1) && Settled(Wrapped(tag), s, i + 1)
    ensures Wrap(s[i..], tag) == [s[i]] + Wrap(s[i + 1..], tag)
    ensures PlanAt(s, tag, i) == PlanAt(s, tag, i + 1)
  {
    MatchAtShift(Wrapped(tag), s, i);
    MatchAtShift(Raw(tag), s, i);
    CopyWrap(s, tag, i);
    SettledSkip(Raw(tag), s, i);
    SettledSkip(Wrapped(tag), s, i);
  }

  /** From a settled position on, `Wrap` writes what the source's replacements from there on produce. */
  lemma {:induction false} WrapFrom(s: string, tag: string, i: nat)
    requires i <= |s| && Nested(s, tag)
    requires Settled(Raw(tag), s, i) && Settled(Wrapped(tag), s, i)
    ensures Wrap(s[i..], tag) == Rebuild(s, PlanAt(s, tag, i), i)
    decreases |s| - i
  {
    if i == |s| {
      ScanStep(Raw(tag), s, i);
      assert s[i..] == [];
    } else if MatchAt(Wrapped(tag), s, i).Some? {
      var e := KeptAgrees(s, tag, i);
      WrapFrom(s, tag, e);
      RebuildSkip(s, PlanAt(s, tag, e), i, e);
      Chain(Wrap(s[i..], tag), s[i..e], Wrap(s[e..], tag), Rebuild(s, PlanAt(s, tag, e), e), Rebuild(s, PlanAt(s, tag, e), i));
    } else if MatchAt(Raw(tag), s, i).Some? {
      var e := RawAgrees(s, tag, i);
      WrapFrom(s, tag, e);
      RebuildFirst(s, PlanAt(s, tag, i), i, e, "(((" + s[i..e] + ")))", PlanAt(s, tag, e));
      Chain(Wrap(s[i..], tag), "(((" + s[i..e] + ")))", Wrap(s[e..], tag), Rebuild(s, PlanAt(s, tag, e), e), Rebuild(s, PlanAt(s, tag, i), i));
    } else {
      CopyAgrees(s, tag, i);
      WrapFrom(s, tag, i + 1);
      RebuildSkip(s, PlanAt(s, tag, i + 1), i, i + 1);
      OneElement(s, i);
      Chain(Wrap(s[i..], tag), [s[i]], Wrap(s[i + 1..], tag), Rebuild(s, PlanAt(s, tag, i + 1), i + 1), Rebuild(s, PlanAt(s, tag, i + 1), i));
    }
  }

  /** Rebuilding from the start of a first edit writes its text, then rebuilds the rest from its end. */
  lemma {:induction false} RebuildFirst(s: string, es: seq<Edit>, i: nat, e: nat, t: string, rest: seq<Edit>)
    requires Ordered(es, |s|) && i <= |s| && es == [Edit(i, e, t)] + rest
    ensures Ordered(rest, |s|) && (rest != [] ==> e <= rest[0].start) && e <= |s|
    ensures Rebuild(s, es, i) == t + Rebuild(s, rest, e)
  {
    assert es[0] == Edit(i, e, t) && es[1..] == rest;
    OrderedTail(es, |s|);
    RebuildHead(s, es, i);
    assert s[i..i] == [];
  }

  /**
    When no collected raw occurrence straddles the edge of a recorded
    wrapped block, the corrected wrapper produces exactly the text the
    source produces.
  */
  lemma {:induction false} WrapAgrees(s: string, tag: string)
    requires Nested(s, tag)
    ensures Wrap(s, tag) == WrapAsWritten(s, tag)
  {
    WrapFrom(s, tag, 0);
    assert s[0..] == s;
    WrapAsWrittenRebuild(s, tag);
  }

  /** `Wrap` copies a kept block at `i` whole. */
  lemma {:induction false} KeptWrap(s: string, tag: string, i: nat, e: nat)
    requires i < e <= |s| && MatchAt(Wrapped(tag), s[i..], 0).Some?
    requires MatchAt(Wrapped(tag), s[i..], 0).value.end + i == e
    ensures Wrap(s[i..], tag) == s[i..e] + Wrap(s[e..], tag)
  {
    Idempotence.KeptToken(s[i..], tag);
    KeptMoved(s, tag, i, e, s[i..], MatchAt(Wrapped(tag), s[i..], 0).value.end);
  }

  /** `Wrap` wraps a raw occurrence at `i` that no kept block starts at. */
  lemma {:induction false} RawWrap(s: string, tag: string, i: nat, e: nat)
    requires i < e <= |s| && MatchAt(Wrapped(tag), s[i..], 0).None? && MatchAt(Raw(tag), s[i..], 0).Some?
    requires MatchAt(Raw(tag), s[i..], 0).value.end + i == e
    ensures Wrap(s[i..], tag) == "(((" + s[i..e] + ")))" + Wrap(s[e..], tag)
  {
    Idempotence.RawToken(s[i..], tag);
    RawMoved(s, tag, i, e, s[i..], MatchAt(Raw(tag), s[i..], 0).value.end);
  }

  /** `Wrap` copies the character at `i` when nothing matches there. */
  lemma {:induction false} CopyWrap(s: string, tag: string, i: nat)
    requires i < |s| && MatchAt(Wrapped(tag), s[i..], 0).None? && MatchAt(Raw(tag), s[i..], 0).None?
    ensures Wrap(s[i..], tag) == [s[i]] + Wrap(s[i + 1..], tag)
  {
    Idempotence.PlainToken(s[i..], tag);
    CopyMoved(s, tag, i, s[i..]);
  }

  /*
    `Idempotence` states each token of `Wrap` on the text it is applied to,
    here the suffix `s[i..]`; `WrapFrom` needs it in positions of the whole
    text `s`. The three lemmas below make that move for the kept, the
    wrapped and the copied token of `KeptWrap`, `RawWrap` and `CopyWrap`.
    They take the suffix as a plain `y`, so that no fact about a match on
    the suffix is in scope while the slices are rewritten.
  */

  /** A kept token of the suffix `y == s[i..]`, in positions of `s` (the kept-block step of `WrapFrom`). */
  lemma {:induction false} KeptMoved(s: string, tag: string, i: nat, e: nat, y: string, d: nat)
    requires i <= e <= |s| && y == s[i..] && d + i == e
    requires Wrap(y, tag) == y[..d] + Wrap(y[d..], tag)
    ensures Wrap(s[i..], tag) == s[i..e] + Wrap(s[e..], tag)
  {
    SliceParts(s, y, i, e);
  }

  /** A wrapped token of the suffix `y == s[i..]`, in positions of `s` (the raw-occurrence step of `WrapFrom`). */
  lemma {:induction false} RawMoved(s: string, tag: string, i: nat, e: nat, y: string, d: nat)
    requires i <= e <= |s| && y == s[i..] && d + i == e
    requires Wrap(y, tag) == "(((" + y[..d] + ")))" + Wrap(y[d..], tag)
    ensures Wrap(s[i..], tag) == "(((" + s[i..e] + ")))" + Wrap(s[e..], tag)
  {
    SliceParts(s, y, i, e);
  }

  /** A copied character of the suffix `y == s[i..]`, in positions of `s` (the copy step of `WrapFrom`). */
  lemma {:induction false} CopyMoved(s: string, tag: string, i: nat, y: string)
    requires i < |s| && y == s[i..]
    requires Wrap(y, tag) == [y[0]] + Wrap(y[1..], tag)
    ensures Wrap(s[i..], tag) == [s[i]] + Wrap(s[i + 1..], tag)
  {
    HeadParts(s, y, i);
  }
}
