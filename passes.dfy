/**
  What the three passes over the chat do, stated on a snapshot of the chat:
  one entry per slot of the chat array, holding the message body and the
  optional id. `Chat` proves its methods equal to these functions.
*/
module Passes {
  import opened Options
  import opened Patterns
  import opened Selection
  import opened Wrapping
  import opened Stripping
  import opened Idempotence

  /** A slot of the chat: no message, or a message with its body and optional id. */
  datatype Entry = Missing | Present(mes: string, id: Option<nat>)

  /** `message && message.mes`: the slot holds a message with a non-empty body. */
  predicate HasBody(e: Entry) {
    e.Present? && e.mes != []
  }

  /** The entry with its body replaced. */
  function WithBody(e: Entry, mes: string): (r: Entry)
    requires e.Present?
    ensures r.Present? && r.mes == mes && r.id == e.id
  {
    Present(mes, e.id)
  }

  /** The number of slots in which two snapshots of one chat differ. */
  function Changed(a: seq<Entry>, b: seq<Entry>): (n: nat)
    requires |a| == |b|
    ensures n <= |a|
    decreases |a|
  {
    if a == [] then 0
    else
      var k := |a| - 1;
      Changed(a[..k], b[..k]) + if a[k] != b[k] then 1 else 0
  }

  /** No slot differs exactly when the snapshots are equal. */
  lemma {:induction false} ChangedZero(a: seq<Entry>, b: seq<Entry>)
    requires |a| == |b|
    ensures Changed(a, b) == 0 <==> a == b
    decreases |a|
  {
    if a != [] {
      var k := |a| - 1;
      ChangedZero(a[..k], b[..k]);
      assert a == a[..k] + [a[k]] && b == b[..k] + [b[k]];
    }
  }

  /** Slots at or after `k` that agree do not add to the count. */
  lemma {:induction false} ChangedPrefix(a: seq<Entry>, b: seq<Entry>, k: nat)
    requires |a| == |b| && k <= |a|
    requires a[k..] == b[k..]
    ensures Changed(a, b) == Changed(a[..k], b[..k])
    decreases |a|
  {
    if |a| > k {
      var n := |a| - 1;
      var a', b' := a[..n], b[..n];
      assert a[n] == b[n] by {
        assert a[n] == a[k..][n - k] && b[n] == b[k..][n - k];
      }
      assert Changed(a, b) == Changed(a', b');
      assert a'[k..] == b'[k..] by {
        assert a'[k..] == a[k..n] && b'[k..] == b[k..n];
        assert a[k..n] == a[k..][..n - k] && b[k..n] == b[k..][..n - k];
      }
      ChangedPrefix(a', b', k);
      assert a'[..k] == a[..k] && b'[..k] == b[..k];
    } else {
      assert a[..k] == a && b[..k] == b;
    }
  }

  /** The count of a longer prefix adds the slot it adds. */
  lemma {:induction false} ChangedStep(a: seq<Entry>, b: seq<Entry>, i: nat)
    requires |a| == |b| && i < |a|
    ensures Changed(a[..i + 1], b[..i + 1]) == Changed(a[..i], b[..i]) + if a[i] != b[i] then 1 else 0
  {
    assert a[..i + 1][..i] == a[..i] && b[..i + 1][..i] == b[..i];
  }

  /** When the snapshots agree from slot `k` on, at most `k` slots differ. */
  lemma {:induction false} ChangedAtMost(a: seq<Entry>, b: seq<Entry>, k: nat)
    requires |a| == |b| && k <= |a|
    requires a[k..] == b[k..]
    ensures Changed(a, b) <= k
  {
    ChangedPrefix(a, b, k);
  }

  // ---------------------------------------------------------------------
  // processMessageFormat

  /** The chat after `processMessageFormat`. */
  function SingleResult(st: Settings, c: seq<Entry>): (r: seq<Entry>)
    ensures |r| == |c|
  {
    if !st.enabled || c == [] then c
    else
      var t := SingleTarget(st, |c|);
      var e := c[t];
      if !HasBody(e) || ShouldSkip(st, EffectiveId(e.id, t)) then c
      else c[t := WithBody(e, Wrap(e.mes, TagOf(st)))]
  }

  /**
    The single pass changes at most the message at `SingleTarget`, and
    only when the pass is enabled and that message has a body whose
    effective id is not skipped; then its body is wrapped.
  */
  lemma {:induction false} SingleOnlyTarget(st: Settings, c: seq<Entry>, i: nat)
    requires i < |c|
    ensures i != SingleTarget(st, |c|) ==> SingleResult(st, c)[i] == c[i]
    ensures SingleResult(st, c)[i] != c[i] ==>
      && st.enabled && HasBody(c[i])
      && !ShouldSkip(st, EffectiveId(c[i].id, i))
      && SingleResult(st, c)[i] == WithBody(c[i], Wrap(c[i].mes, TagOf(st)))
  {
  }

  /** Running the single pass twice changes nothing more, when the tag name has no parentheses. */
  lemma {:induction false} SingleIdempotent(st: Settings, c: seq<Entry>)
    requires NoParens(TagOf(st))
    ensures SingleResult(st, SingleResult(st, c)) == SingleResult(st, c)
  {
    if st.enabled && c != [] {
      var t := SingleTarget(st, |c|);
      var e := c[t];
      if HasBody(e) && !ShouldSkip(st, EffectiveId(e.id, t)) {
        WrapIdempotent(e.mes, TagOf(st));
      }
    }
  }

  // ---------------------------------------------------------------------
  // processAllMessages

  /** Whether the bulk pass hands the message in slot `i` of a chat of `length` slots to the wrapper. */
  predicate BulkSelected(st: Settings, length: nat, i: nat, e: Entry) {
    i < BulkEnd(st, length) && HasBody(e) && !ShouldSkip(st, EffectiveId(e.id, i))
  }

  /** The slot after the bulk pass. */
  function BulkAt(st: Settings, length: nat, i: nat, e: Entry): (r: Entry)
    ensures !BulkSelected(st, length, i, e) ==> r == e
    ensures BulkSelected(st, length, i, e) ==> r == WithBody(e, Wrap(e.mes, TagOf(st)))
  {
    if BulkSelected(st, length, i, e) then WithBody(e, Wrap(e.mes, TagOf(st))) else e
  }

  /** The chat after `processAllMessages`. */
  function BulkResult(st: Settings, c: seq<Entry>): (r: seq<Entry>)
    ensures |r| == |c|
    ensures forall i :: 0 <= i < |c| ==> r[i] == BulkAt(st, |c|, i, c[i])
  {
    seq(|c|, i requires 0 <= i < |c| => BulkAt(st, |c|, i, c[i]))
  }

  /** The messages at or past `BulkEnd` are left alone, so only the visited prefix adds to the count. */
  lemma {:induction false} BulkUntouched(st: Settings, c: seq<Entry>)
    ensures forall j :: BulkEnd(st, |c|) <= j < |c| ==> BulkResult(st, c)[j] == c[j]
    ensures Changed(c, BulkResult(st, c)) == Changed(c[..BulkEnd(st, |c|)], BulkResult(st, c)[..BulkEnd(st, |c|)])
  {
    var r, k := BulkResult(st, c), BulkEnd(st, |c|);
    assert c[k..] == r[k..] by {
      forall j | 0 <= j < |c| - k ensures c[k..][j] == r[k..][j] {
        assert r[k + j] == BulkAt(st, |c|, k + j, c[k + j]);
      }
    }
    ChangedPrefix(c, r, k);
  }

  /**
    The count `processAllMessages` returns is the number of messages whose
    body changed, so it never exceeds the end of the visited prefix.
  */
  lemma {:induction false} BulkCountBound(st: Settings, c: seq<Entry>)
    ensures Changed(c, BulkResult(st, c)) <= BulkEnd(st, |c|)
  {
    BulkUntouched(st, c);
  }

  /** Running the bulk pass on its own result changes nothing, when the tag name has no parentheses. */
  lemma {:induction false} BulkIdempotent(st: Settings, c: seq<Entry>)
    requires NoParens(TagOf(st))
    ensures BulkResult(st, BulkResult(st, c)) == BulkResult(st, c)
    ensures Changed(BulkResult(st, c), BulkResult(st, BulkResult(st, c))) == 0
  {
    var r := BulkResult(st, c);
    forall i | 0 <= i < |c| ensures BulkAt(st, |c|, i, r[i]) == r[i] {
      if BulkSelected(st, |c|, i, c[i]) {
        WrapIdempotent(c[i].mes, TagOf(st));
      }
    }
    ChangedZero(r, BulkResult(st, r));
  }

  // ---------------------------------------------------------------------
  // removeAllHiddenBlocks

  /** The slot after the block stripper. */
  function StripAt(e: Entry): (r: Entry)
    ensures !HasBody(e) ==> r == e
    ensures HasBody(e) ==> r == WithBody(e, Strip(e.mes))
  {
    if HasBody(e) then WithBody(e, Strip(e.mes)) else e
  }

  /** The chat after `removeAllHiddenBlocks`. */
  function StripResult(c: seq<Entry>): (r: seq<Entry>)
    ensures |r| == |c|
    ensures forall i :: 0 <= i < |c| ==> r[i] == StripAt(c[i])
  {
    seq(|c|, i requires 0 <= i < |c| => StripAt(c[i]))
  }

  /**
    A message changes exactly when its body holds a block, whatever the
    tag name, so the count the stripper returns is the number of messages
    with a block.
  */
  lemma {:induction false} StripChangedIff(c: seq<Entry>, i: nat)
    requires i < |c|
    ensures StripResult(c)[i] != c[i] <==> HasBody(c[i]) && Next(Block, c[i].mes, 0).Some?
  {
    if HasBody(c[i]) {
      StripChanges(c[i].mes);
    }
  }
}
