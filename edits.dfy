/**
  Replacement edits over one message text and the two ways of applying them:
  right to left, rebuilding the whole string once per edit (what
  `replacements.reverse().forEach` does), and a left-to-right reference that
  copies the gaps between the edits in order.
*/
module Edits {

  /** Replace the half-open span [start, end) by `text`. */
  datatype Edit = Edit(start: nat, end: nat, text: string)

  /** Edits that lie inside a text of length `n`, pairwise disjoint and in ascending order. */
  predicate Ordered(es: seq<Edit>, n: nat) {
    && (forall k :: 0 <= k < |es| ==> es[k].start <= es[k].end <= n)
    && (forall j, k :: 0 <= j < k < |es| ==> es[j].end <= es[k].start)
  }

  /** `text.substring(0, start) + replacement + text.substring(end)`. */
  function Splice(s: string, e: Edit): (r: string)
    requires e.start <= e.end <= |s|
    ensures |r| == |s| - (e.end - e.start) + |e.text|
    ensures r[..e.start] == s[..e.start] && r[e.start + |e.text|..] == s[e.end..]
  {
    s[..e.start] + e.text + s[e.end..]
  }

  /** Apply the edits from the rightmost to the leftmost, each on the result of the previous one. */
  function ApplyEdits(s: string, es: seq<Edit>): string
    requires Ordered(es, |s|)
    decreases |es|
  {
    if es == [] then s
    else
      var last := es[|es| - 1];
      ApplyEdits(Splice(s, last), es[..|es| - 1])
  }

  /**
    Reference meaning of a list of ordered edits: the text from `from` on, in
    which each edited span is replaced by its text and every character
    outside the edited spans is kept, in order.
  */
  function Rebuild(s: string, es: seq<Edit>, from: nat): string
    requires Ordered(es, |s|) && from <= |s|
    requires es != [] ==> from <= es[0].start
    decreases |es|
  {
    if es == [] then s[from..]
    else s[from..es[0].start] + es[0].text + Rebuild(s, es[1..], es[0].end)
  }

  /** Edits that fit in a shorter text also fit in a longer one. */
  lemma {:induction false} OrderedWithin(es: seq<Edit>, n: nat, m: nat)
    requires Ordered(es, n) && n <= m
    ensures Ordered(es, m)
  {
  }

  /** An edit to the right of ordered edits extends them. */
  lemma {:induction false} OrderedAppend(es: seq<Edit>, e: Edit, n: nat)
    requires Ordered(es, e.start) && e.start <= e.end <= n
    ensures Ordered(es + [e], n)
  {
    var all := es + [e];
    assert forall k :: 0 <= k < |es| ==> all[k] == es[k];
  }

  /** An edit to the left of ordered edits extends them. */
  lemma {:induction false} OrderedPrepend(e: Edit, es: seq<Edit>, n: nat)
    requires Ordered(es, n) && e.start <= e.end <= n
    requires forall d :: d in es ==> e.end <= d.start
    ensures Ordered([e] + es, n)
  {
    var all := [e] + es;
    assert forall k :: 0 < k < |all| ==> all[k] == es[k - 1] && all[k] in es;
  }

  /** Dropping the first of some ordered edits leaves ordered edits that start after it. */
  lemma {:induction false} OrderedTail(es: seq<Edit>, n: nat)
    requires Ordered(es, n) && es != []
    ensures Ordered(es[1..], n)
    ensures |es| > 1 ==> es[0].end <= es[1].start
  {
    var rest := es[1..];
    assert forall k :: 0 <= k < |rest| ==> rest[k] == es[k + 1];
  }

  /** The step of `RebuildSplice` for a single remaining edit. */
  lemma {:induction false} RebuildSpliceLast(s: string, e: Edit, from: nat)
    requires from <= e.start <= e.end <= |s|
    ensures Ordered([e], |s|)
    ensures Rebuild(Splice(s, e), [], from) == Rebuild(s, [e], from)
  {
    var t := Splice(s, e);
    assert [e][1..] == [];
    calc {
      Rebuild(s, [e], from);
      s[from..e.start] + e.text + Rebuild(s, [], e.end);
      s[from..e.start] + e.text + s[e.end..];
      { assert t == s[..e.start] + e.text + s[e.end..]; }
      t[from..];
    }
  }

  /** One step of `RebuildSplice`: the first gap and edit are the same before and after the splice. */
  lemma {:induction false} RebuildSpliceStep(s: string, es: seq<Edit>, e: Edit, from: nat)
    requires e.start <= e.end <= |s| && from <= e.start && es != []
    requires Ordered(es, |Splice(s, e)|) && Ordered(es + [e], |s|) && Ordered(es[1..] + [e], |s|)
    requires from <= es[0].start && es[0].end <= e.start
    requires Rebuild(Splice(s, e), es[1..], es[0].end) == Rebuild(s, es[1..] + [e], es[0].end)
    ensures Rebuild(Splice(s, e), es, from) == Rebuild(s, es + [e], from)
  {
    var t := Splice(s, e);
    var d, rest := es[0], es[1..];
    var all := es + [e];
    assert all[0] == d && all[1..] == rest + [e];
    RebuildHead(t, es, from);
    RebuildHead(s, all, from);
    SameSlice(t, s, e.start, from, d.start);
  }

  /** The rebuild copies the gap before the first edit, inserts its text and goes on after it. */
  lemma {:induction false} RebuildHead(s: string, es: seq<Edit>, from: nat)
    requires Ordered(es, |s|) && from <= |s| && es != [] && from <= es[0].start
    ensures Rebuild(s, es, from) == s[from..es[0].start] + es[0].text + Rebuild(s, es[1..], es[0].end)
  {
  }

  /** The text up to the first edit can be cut anywhere before that edit. */
  lemma {:induction false} RebuildSkip(s: string, es: seq<Edit>, from: nat, k: nat)
    requires from <= k <= |s| && Ordered(es, |s|) && (es != [] ==> k <= es[0].start)
    ensures Rebuild(s, es, from) == s[from..k] + Rebuild(s, es, k)
  {
    if es == [] {
      assert s[from..] == s[from..k] + s[k..];
    } else {
      RebuildHead(s, es, from);
      RebuildHead(s, es, k);
      assert s[from..es[0].start] == s[from..k] + s[k..es[0].start];
    }
  }

  /** Texts with a common prefix agree on every slice inside it. */
  lemma {:induction false} SameSlice(a: string, b: string, n: nat, i: nat, j: nat)
    requires n <= |a| && n <= |b| && a[..n] == b[..n] && i <= j <= n
    ensures a[i..j] == b[i..j]
  {
    assert a[i..j] == a[..n][i..j] && b[i..j] == b[..n][i..j];
  }

  /** Splicing the last edit in does not disturb the rebuild of the edits to its left. */
  lemma {:induction false} RebuildSplice(s: string, es: seq<Edit>, e: Edit, from: nat)
    requires e.start <= e.end <= |s| && from <= e.start
    requires Ordered(es, e.start) && Ordered(es, |Splice(s, e)|) && Ordered(es + [e], |s|)
    requires es != [] ==> from <= es[0].start
    ensures Rebuild(Splice(s, e), es, from) == Rebuild(s, es + [e], from)
    decreases |es|
  {
    if es == [] {
      RebuildSpliceLast(s, e, from);
    } else {
      var rest := es[1..];
      OrderedTail(es, e.start);
      OrderedWithin(rest, e.start, |Splice(s, e)|);
      OrderedAppend(rest, e, |s|);
      RebuildSplice(s, rest, e, es[0].end);
      RebuildSpliceStep(s, es, e, from);
    }
  }

  /** Applying the edits right to left is the same as rebuilding the text left to right. */
  lemma {:induction false} ApplyEditsIsRebuild(s: string, es: seq<Edit>)
    requires Ordered(es, |s|)
    ensures ApplyEdits(s, es) == Rebuild(s, es, 0)
    decreases |es|
  {
    if es != [] {
      var last := es[|es| - 1];
      var init := es[..|es| - 1];
      assert es == init + [last];
      assert Ordered(init, last.start);
      OrderedWithin(init, last.start, |Splice(s, last)|);
      ApplyEditsIsRebuild(Splice(s, last), init);
      RebuildSplice(s, init, last, 0);
    }
  }

  /** One step of the right-to-left application: splice the last edit, then apply the others. */
  lemma {:induction false} ApplyEditsStep(s: string, es: seq<Edit>)
    requires Ordered(es, |s|) && es != []
    ensures Ordered(es[..|es| - 1], |Splice(s, es[|es| - 1])|)
    ensures ApplyEdits(s, es) == ApplyEdits(Splice(s, es[|es| - 1]), es[..|es| - 1])
  {
    var last := es[|es| - 1];
    var init := es[..|es| - 1];
    assert Ordered(init, last.start);
    OrderedWithin(init, last.start, |Splice(s, last)|);
  }

  /** When every edit lengthens its span by `d`, the whole result is `d` longer per edit. */
  lemma {:induction false} ApplyEditsLength(s: string, es: seq<Edit>, d: nat)
    requires Ordered(es, |s|)
    requires forall k :: 0 <= k < |es| ==> |es[k].text| == es[k].end - es[k].start + d
    ensures |ApplyEdits(s, es)| == |s| + d * |es|
    decreases |es|
  {
    if es != [] {
      var last := es[|es| - 1];
      var init := es[..|es| - 1];
      ApplyEditsStep(s, es);
      var s' := Splice(s, last);
      assert |s'| == |s| + d;
      ApplyEditsLength(s', init, d);
      MulStep(d, |init|);
    }
  }

  lemma {:induction false} MulStep(d: nat, n: nat)
    ensures d * (n + 1) == d * n + d
  {
  }
}
