/**
  The message-selection policy: the settings the passes read, the skip rule
  on message ids (`shouldSkipMessage`), the single target of
  `processMessageFormat` and the visited prefix of `processAllMessages`.
*/
module Selection {
  import opened Options

  /**
    The extension settings. `skipInterval` 0 and `tagName` "" are the falsy
    values the source replaces by its defaults.
  */
  datatype Settings = Settings(
    enabled: bool,
    messageOffset: nat,
    tagName: string,
    skipEveryN: bool,
    skipEveryNPlus1: bool,
    skipInterval: nat)

  /** The settings the extension starts with. */
  const Defaults := Settings(true, 6, "format", false, false, 18)

  /** `settings.skipInterval || 18`. */
  function Interval(st: Settings): (n: nat)
    ensures n >= 1
    ensures st.skipInterval != 0 ==> n == st.skipInterval
    ensures st.skipInterval == 0 ==> n == 18
  {
    if st.skipInterval == 0 then 18 else st.skipInterval
  }

  /** `settings.tagName || 'format'`. */
  function TagOf(st: Settings): (tag: string)
    ensures tag != []
    ensures st.tagName != [] ==> tag == st.tagName
    ensures st.tagName == [] ==> tag == "format"
  {
    if st.tagName == [] then "format" else st.tagName
  }

  /** `shouldSkipMessage`: whether the message with effective id `id` is left alone. */
  predicate ShouldSkip(st: Settings, id: nat) {
    if (st.skipEveryN || st.skipEveryNPlus1) && id == 0 then true
    else
      var r := id % Interval(st);
      if st.skipEveryN && r == 0 then true
      else st.skipEveryNPlus1 && r == 1 && id != 1
  }

  /** Once either rule is on, id 0 is skipped; with both rules off, nothing is. */
  lemma {:induction false} SkipFlags(st: Settings, id: nat)
    ensures (st.skipEveryN || st.skipEveryNPlus1) ==> ShouldSkip(st, 0)
    ensures !st.skipEveryN && !st.skipEveryNPlus1 ==> !ShouldSkip(st, id)
  {
  }

  /** With only the first rule on, exactly the multiples of the interval are skipped. */
  lemma {:induction false} SkipEveryNOnly(st: Settings, id: nat)
    requires st.skipEveryN && !st.skipEveryNPlus1
    ensures ShouldSkip(st, id) <==> id % Interval(st) == 0
  {
  }

  /**
    With only the second rule on, id 0 and the ids one past a multiple of
    the interval are skipped, except id 1.
  */
  lemma {:induction false} SkipEveryNPlus1Only(st: Settings, id: nat)
    requires !st.skipEveryN && st.skipEveryNPlus1
    ensures ShouldSkip(st, id) <==> id == 0 || (id % Interval(st) == 1 && id != 1)
  {
  }

  /** Id 1 is skipped only by the first rule, and only with an interval of 1. */
  lemma {:induction false} SkipOne(st: Settings)
    ensures ShouldSkip(st, 1) <==> st.skipEveryN && Interval(st) == 1
  {
  }

  /** Past ids 0 and 1 the rule repeats with the period of the interval. */
  lemma {:induction false} SkipPeriodic(st: Settings, id: nat)
    requires id >= 2
    ensures ShouldSkip(st, id + Interval(st)) == ShouldSkip(st, id)
  {
    ModPeriod(id, Interval(st));
  }

  /** Adding the divisor does not change the remainder. */
  lemma {:induction false} ModPeriod(x: nat, n: nat)
    requires n >= 1
    ensures (x + n) % n == x % n
  {
    var q := x / n;
    assert x == n * q + x % n;
    MulSucc(n, q);
    ModUnique(x + n, n, q + 1, x % n);
  }

  lemma {:induction false} MulSucc(n: nat, q: int)
    ensures n * (q + 1) == n * q + n
  {
  }

  /** The remainder is the only value below the divisor that completes a multiple to `y`. */
  lemma {:induction false} ModUnique(y: int, n: nat, q: int, r: int)
    requires n >= 1 && 0 <= r < n && y == n * q + r
    ensures y % n == r
  {
    var q', r' := y / n, y % n;
    assert y == n * q' + r';
    var k := q - q';
    MulDiff(n, q, q');
    assert n * k == r' - r;
    if k >= 1 {
      MulAtLeast(n, k);
    } else if k <= -1 {
      MulAtLeast(n, -k);
    }
  }

  lemma {:induction false} MulDiff(n: nat, a: int, b: int)
    ensures n * (a - b) == n * a - n * b
  {
  }

  lemma {:induction false} MulAtLeast(n: nat, k: int)
    requires k >= 1
    ensures n * k >= n
  {
  }

  /** The boundary cases of the default interval of 18. */
  lemma {:induction false} SkipDefaultInterval(st: Settings)
    requires st.skipInterval == 18
    ensures st.skipEveryN ==> ShouldSkip(st, 0) && ShouldSkip(st, 18) && ShouldSkip(st, 36)
    ensures !st.skipEveryNPlus1 ==> forall id :: 1 <= id <= 17 ==> !ShouldSkip(st, id)
    ensures !st.skipEveryN && st.skipEveryNPlus1 ==>
      !ShouldSkip(st, 1) && ShouldSkip(st, 19) && ShouldSkip(st, 37)
  {
    assert Interval(st) == 18;
  }

  /** `message.id !== undefined ? message.id : index`. */
  function EffectiveId(id: Option<nat>, index: nat): (r: nat)
    ensures id.Some? ==> r == id.value
    ensures id.None? ==> r == index
  {
    if id.Some? then id.value else index
  }

  /** The index `processMessageFormat` looks at: `Math.max(0, length - 1 - messageOffset)`. */
  function SingleTarget(st: Settings, length: nat): (t: nat)
    ensures length > 0 ==> t < length
    ensures st.messageOffset < length ==> t + 1 + st.messageOffset == length
    ensures st.messageOffset >= length ==> t == 0
  {
    if length - 1 - st.messageOffset > 0 then length - 1 - st.messageOffset else 0
  }

  /** `settings.messageOffset || 6`: how many of the newest messages the bulk pass leaves alone. */
  function Excluded(st: Settings): (k: nat)
    ensures k >= 1
    ensures st.messageOffset != 0 ==> k == st.messageOffset
    ensures st.messageOffset == 0 ==> k == 6
  {
    if st.messageOffset == 0 then 6 else st.messageOffset
  }

  /** The end of the prefix `processAllMessages` visits: `Math.max(0, length - (messageOffset || 6))`. */
  function BulkEnd(st: Settings, length: nat): (e: nat)
    ensures e < length || e == 0
    ensures Excluded(st) < length ==> e + Excluded(st) == length
    ensures Excluded(st) >= length ==> e == 0
  {
    if length - Excluded(st) > 0 then length - Excluded(st) else 0
  }

  /**
    With the same offset the single pass targets the message the bulk pass
    stops at, but an offset of 0 means the newest message to the first and
    the six newest to the second.
  */
  lemma {:induction false} OffsetMeanings(st: Settings, length: nat)
    requires length > 0
    ensures st.messageOffset != 0 && st.messageOffset < length ==> SingleTarget(st, length) + 1 == BulkEnd(st, length)
    ensures st.messageOffset == 0 ==> SingleTarget(st, length) == length - 1
    ensures st.messageOffset == 0 ==> BulkEnd(st, length) == if length > 6 then length - 6 else 0
  {
  }

  /** A history of ten messages with the default offset of 6. */
  lemma {:induction false} SelectionExample()
    ensures SingleTarget(Defaults, 10) == 3 && BulkEnd(Defaults, 10) == 4
  {
  }
}
