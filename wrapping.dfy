/**
  The tag wrapper of `processMessage`: every raw `<tag ...>...</tag>`
  occurrence that is not already inside a `(((<tag ...>...</tag>)))` block is
  replaced by the same occurrence wrapped in `(((` and `)))`.

  `WrapAsWritten` is the text transformation exactly as the function computes
  it (two global scans, a containment filter, edits applied right to left).
  `Wrap` is the corrected single-scan transformation that the chat passes use;
  see `WrapAsWrittenNotIdempotent` for why the two differ.
*/
module Wrapping {
  import opened Options
  import opened Patterns
  import opened Edits

  /** The text written in place of a raw occurrence: the configured tag name around the captured attributes and content. */
  function Replacement(tag: string, s: string, m: Match): string
    requires Spans(Raw(tag), m, |s|)
  {
    "(((" + OpenTag(tag) + Attrs(Raw(tag), s, m) + ">" + Content(Raw(tag), s, m) + CloseTag(tag) + ")))"
  }

  /** The raw occurrence `m` lies entirely inside the wrapped span `w`. */
  predicate Contains(w: Match, m: Match) {
    w.start <= m.start && m.end <= w.end
  }

  /** Some recorded wrapped span contains the raw occurrence; overlapping one is not enough. */
  predicate AlreadyWrapped(m: Match, ranges: seq<Match>) {
    exists w :: w in ranges && Contains(w, m)
  }

  function EditFor(tag: string, s: string, m: Match): Edit
    requires Spans(Raw(tag), m, |s|)
  {
    Edit(m.start, m.end, Replacement(tag, s, m))
  }

  /** The replacements collected for the raw occurrences `ms`, in their order. */
  function PlanFrom(tag: string, s: string, ms: seq<Match>, ranges: seq<Match>): (es: seq<Edit>)
    requires forall m :: m in ms ==> Spans(Raw(tag), m, |s|)
    ensures |es| <= |ms|
    ensures forall e :: e in es <==>
      exists m :: m in ms && !AlreadyWrapped(m, ranges) && e == EditFor(tag, s, m)
  {
    if ms == [] then []
    else
      var rest := PlanFrom(tag, s, ms[1..], ranges);
      assert forall m :: m in ms <==> m == ms[0] || m in ms[1..];
      (if AlreadyWrapped(ms[0], ranges) then [] else [EditFor(tag, s, ms[0])]) + rest
  }

  /** Replacements of occurrences that start at or after `b` start there too. */
  lemma {:induction false} PlanFromAfter(tag: string, s: string, ms: seq<Match>, ranges: seq<Match>, b: nat)
    requires forall m :: m in ms ==> Spans(Raw(tag), m, |s|) && b <= m.start
    ensures forall e :: e in PlanFrom(tag, s, ms, ranges) ==> b <= e.start
  {
    forall e | e in PlanFrom(tag, s, ms, ranges) ensures b <= e.start {
      var m :| m in ms && !AlreadyWrapped(m, ranges) && e == EditFor(tag, s, m);
    }
  }

  /** Replacements built from ascending, disjoint occurrences are ordered edits. */
  lemma {:induction false} PlanFromOrdered(tag: string, s: string, ms: seq<Match>, ranges: seq<Match>)
    requires forall m :: m in ms ==> Spans(Raw(tag), m, |s|) && m.start < m.end
    requires forall j, k :: 0 <= j < k < |ms| ==> ms[j].end <= ms[k].start
    ensures Ordered(PlanFrom(tag, s, ms, ranges), |s|)
  {
    if ms != [] {
      var rest := ms[1..];
      assert forall k :: 0 <= k < |rest| ==> rest[k] == ms[k + 1];
      PlanFromOrdered(tag, s, rest, ranges);
      var es := PlanFrom(tag, s, rest, ranges);
      assert forall m :: m in rest ==> ms[0].end <= m.start;
      PlanFromAfter(tag, s, rest, ranges, ms[0].end);
      if !AlreadyWrapped(ms[0], ranges) {
        OrderedPrepend(EditFor(tag, s, ms[0]), es, |s|);
      }
    }
  }

  /** Collecting one more occurrence adds its replacement at the end, unless a wrapped span contains it. */
  lemma {:induction false} PlanFromAppend(tag: string, s: string, ms: seq<Match>, m: Match, ranges: seq<Match>)
    requires forall x :: x in ms ==> Spans(Raw(tag), x, |s|)
    requires Spans(Raw(tag), m, |s|)
    ensures forall x :: x in ms + [m] ==> Spans(Raw(tag), x, |s|)
    ensures PlanFrom(tag, s, ms + [m], ranges) ==
      PlanFrom(tag, s, ms, ranges) + if AlreadyWrapped(m, ranges) then [] else [EditFor(tag, s, m)]
    decreases |ms|
  {
    if ms != [] {
      assert (ms + [m])[1..] == ms[1..] + [m];
      PlanFromAppend(tag, s, ms[1..], m, ranges);
    } else {
      assert [m][1..] == [];
    }
  }

  /** The raw occurrences of `tag` in `s`, left to right (the `formatTagRegex.exec` loop). */
  function RawMatches(s: string, tag: string): seq<Match> {
    Scan(Raw(tag), s, 0)
  }

  /** The spans of the already wrapped blocks of `tag` in `s` (the `wrappedTagRegex.exec` loop). */
  function WrappedRanges(s: string, tag: string): seq<Match> {
    Scan(Wrapped(tag), s, 0)
  }

  /** Every replacement `processMessage` collects for `s`. */
  function PlanEdits(s: string, tag: string): (es: seq<Edit>)
    ensures Ordered(es, |s|)
  {
    PlanFromOrdered(tag, s, RawMatches(s, tag), WrappedRanges(s, tag));
    PlanFrom(tag, s, RawMatches(s, tag), WrappedRanges(s, tag))
  }

  /** The new message text `processMessage` computes for `s`. */
  function WrapAsWritten(s: string, tag: string): string {
    ApplyEdits(s, PlanEdits(s, tag))
  }

  /** With exact-case matching, the replacement is the occurrence itself wrapped in `(((` and `)))`. */
  lemma {:induction false} ReplacementWraps(tag: string, s: string, m: Match)
    requires MatchAt(Raw(tag), s, m.start) == Some(m)
    ensures Replacement(tag, s, m) == "(((" + s[m.start..m.end] + ")))"
    ensures |Replacement(tag, s, m)| == m.end - m.start + 6
  {
    MatchSpelling(Raw(tag), s, m);
    Regroup("(((", OpenTag(tag), Attrs(Raw(tag), s, m), ">", Content(Raw(tag), s, m), CloseTag(tag), ")))", s[m.start..m.end]);
  }

  lemma {:induction false} Regroup(o: string, a: string, b: string, c: string, d: string, e: string, z: string, w: string)
    requires w == a + b + c + d + e
    ensures o + a + b + c + d + e + z == o + w + z
  {
  }

  /**
    The replacements `processMessage` collects are exactly the raw occurrences
    not contained in an already wrapped block, each replaced by itself
    wrapped in `(((` and `)))`.
  */
  lemma {:induction false} PlanEditsSpec(s: string, tag: string)
    ensures forall e :: e in PlanEdits(s, tag) <==>
      exists m :: && m in RawMatches(s, tag)
                  && !AlreadyWrapped(m, WrappedRanges(s, tag))
                  && e == Edit(m.start, m.end, "(((" + s[m.start..m.end] + ")))")
  {
    ScanMatches(Raw(tag), s, 0);
    forall m | m in RawMatches(s, tag) ensures EditFor(tag, s, m) == Edit(m.start, m.end, "(((" + s[m.start..m.end] + ")))") {
      ReplacementWraps(tag, s, m);
    }
  }

  /** Every replacement lengthens its occurrence by the six parentheses. */
  lemma {:induction false} PlanEditsGrow(s: string, tag: string)
    ensures forall k :: 0 <= k < |PlanEdits(s, tag)| ==>
      |PlanEdits(s, tag)[k].text| == PlanEdits(s, tag)[k].end - PlanEdits(s, tag)[k].start + 6
  {
    var es, ms := PlanEdits(s, tag), RawMatches(s, tag);
    ScanMatches(Raw(tag), s, 0);
    forall k | 0 <= k < |es| ensures |es[k].text| == es[k].end - es[k].start + 6 {
      assert es[k] in es;
      var m :| m in ms && !AlreadyWrapped(m, WrappedRanges(s, tag)) && es[k] == EditFor(tag, s, m);
      ReplacementWraps(tag, s, m);
    }
  }

  /** The new text is six characters longer per replacement. */
  lemma {:induction false} WrapAsWrittenLength(s: string, tag: string)
    ensures |WrapAsWritten(s, tag)| == |s| + 6 * |PlanEdits(s, tag)|
  {
    PlanEditsGrow(s, tag);
    ApplyEditsLength(s, PlanEdits(s, tag), 6);
  }

  /** `processMessage` reports a change exactly when it collected a replacement. */
  lemma {:induction false} WrapAsWrittenChanges(s: string, tag: string)
    ensures WrapAsWritten(s, tag) != s <==> PlanEdits(s, tag) != []
  {
    WrapAsWrittenLength(s, tag);
  }

  /**
    Applying the replacements from the last to the first gives the text in
    which each collected occurrence is replaced and every other character is
    kept in order.
  */
  lemma {:induction false} WrapAsWrittenRebuild(s: string, tag: string)
    ensures WrapAsWritten(s, tag) == Rebuild(s, PlanEdits(s, tag), 0)
  {
    ApplyEditsIsRebuild(s, PlanEdits(s, tag));
  }

  /**
    The corrected wrapper: a single left-to-right pass that, at each
    position, keeps an already wrapped block whole, else wraps the raw
    occurrence that starts there (as `ReplacementWraps` shows the
    replacement to be), else copies one character. A raw occurrence inside
    a kept block is never looked at, and a block a replacement creates is
    never searched again. It gives the source's text whenever no raw
    occurrence straddles the edge of a wrapped block (`Agreement.WrapAgrees`).
  */
  function Wrap(s: string, tag: string): (r: string)
    decreases |s|
    ensures |s| <= |r|
  {
    if s == [] then []
    else
      var w := MatchAt(Wrapped(tag), s, 0);
      if w.Some? then s[..w.value.end] + Wrap(s[w.value.end..], tag)
      else
        var m := MatchAt(Raw(tag), s, 0);
        if m.Some? then "(((" + s[..m.value.end] + ")))" + Wrap(s[m.value.end..], tag)
        else [s[0]] + Wrap(s[1..], tag)
  }
}
