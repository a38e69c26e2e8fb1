/**
  The block stripper of `removeAllHiddenBlocks`:
  `text.replace(/\(\(\([\s\S]*?\)\)\)/g, '')`, which deletes every block
  from three opening parentheses to the first three closing ones after
  them, scanning left to right and resuming after each deleted block. It
  does not depend on the tag name.
*/
module Stripping {
  import opened Options
  import opened Patterns
  import opened Edits

  /** The text from `from` on with every block found from there deleted. */
  function StripFrom(s: string, from: nat): (r: string)
    requires from <= |s|
    decreases |s| - from
    ensures |r| <= |s| - from
    ensures |r| == |s| - from <==> Next(Block, s, from).None?
  {
    match Next(Block, s, from)
    case None => s[from..]
    case Some(m) => s[from..m.start] + StripFrom(s, m.end)
  }

  /** The message text with its hidden blocks removed; it is never longer than before. */
  function Strip(s: string): (r: string)
    ensures |r| <= |s|
  {
    StripFrom(s, 0)
  }

  /** A text changes exactly when it holds a block. */
  lemma {:induction false} StripChanges(s: string)
    ensures Strip(s) != s <==> Next(Block, s, 0).Some?
  {
    assert s[0..] == s;
  }

  /** Each block the scan finds, as an edit that deletes it. */
  function Deletions(ms: seq<Match>): (es: seq<Edit>)
    ensures |es| == |ms|
    ensures forall k :: 0 <= k < |ms| ==> es[k] == Edit(ms[k].start, ms[k].end, "")
  {
    if ms == [] then [] else [Edit(ms[0].start, ms[0].end, "")] + Deletions(ms[1..])
  }

  /** The deletions of the blocks found from `from` on: ordered edits that start at or after `from`. */
  function BlockDeletions(s: string, from: nat): (es: seq<Edit>)
    ensures Ordered(es, |s|)
    ensures es != [] ==> from <= es[0].start
  {
    Deletions(Scan(Block, s, from))
  }

  /**
    Stripping keeps exactly the characters outside the blocks the scan
    finds, in their order: it is the left-to-right rebuild of the text with
    each block replaced by nothing.
  */
  lemma {:induction false} StripIsRebuild(s: string, from: nat)
    requires from <= |s|
    decreases |s| - from
    ensures StripFrom(s, from) == Rebuild(s, BlockDeletions(s, from), from)
  {
    match Next(Block, s, from)
    case None =>
    case Some(m) =>
      var ms := Scan(Block, s, from);
      assert ms == [m] + Scan(Block, s, m.end);
      assert BlockDeletions(s, from)[1..] == BlockDeletions(s, m.end);
      StripIsRebuild(s, m.end);
  }
}
