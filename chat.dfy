/**
  The chat held in memory and the passes that rewrite it in place: a
  message object whose body the passes reassign, `processMessage` on one
  message, and the three passes `processMessageFormat`,
  `processAllMessages` and `removeAllHiddenBlocks` over the chat array.
  Saving the chat and refreshing the display after a pass are left out.
*/
module Chat {
  import opened Options
  import opened Patterns
  import opened Edits
  import opened Selection
  import opened Wrapping
  import opened Stripping
  import opened Passes
  import opened Idempotence
  import opened Seqs

  /** A chat message: its body `mes`, which the passes rewrite, and its optional `id`. */
  class Message {
    var mes: string
    const id: Option<nat>

    constructor (mes: string, id: Option<nat>)
      ensures this.mes == mes && this.id == id
    {
      this.mes := mes;
      this.id := id;
    }

    /** The message as a slot of a chat snapshot. */
    function Entry(): (e: Entry)
      reads this
      ensures e.Present? && e.mes == mes && e.id == id
    {
      Present(mes, id)
    }

    /**
      `processMessage` as written: collect the wrapped spans, collect a
      replacement for every raw occurrence no wrapped span contains, apply
      the replacements from the last to the first, and store the new body
      when it differs. See `WrapAsWrittenNotIdempotent` for the input on
      which a second run still changes the body.
    */
    method ProcessMessageAsWritten(st: Settings) returns (changed: bool)
      modifies this
      ensures mes == WrapAsWritten(old(mes), TagOf(st))
      ensures changed <==> mes != old(mes)
    {
      var tag := TagOf(st);
      var originalContent := mes;
      var wrappedRanges := CollectWrapped(originalContent, tag);
      var replacements := CollectReplacements(originalContent, tag, wrappedRanges);
      var newContent, hasChanges := ApplyFromLast(originalContent, replacements);
      assert !hasChanges ==> newContent == originalContent;
      if hasChanges && newContent != originalContent {
        mes := newContent;
        changed := true;
      } else {
        changed := false;
      }
    }

    /**
      `processMessage` with the corrected wrapper, storing the new body when
      it differs.
    */
    method ProcessMessage(st: Settings) returns (changed: bool)
      modifies this
      ensures mes == Wrap(old(mes), TagOf(st))
      ensures changed <==> mes != old(mes)
    {
      var newContent := WrapText(mes, TagOf(st));
      if newContent != mes {
        mes := newContent;
        changed := true;
      } else {
        changed := false;
      }
    }
  }

  /** The `wrappedTagRegex.exec` loop: the spans of the already wrapped blocks, left to right. */
  method CollectWrapped(s: string, tag: string) returns (ranges: seq<Match>)
    ensures ranges == WrappedRanges(s, tag)
  {
    var p := Wrapped(tag);
    ranges := [];
    var from: nat := 0;
    var next := Next(p, s, from);
    EmptyAppend(Scan(p, s, 0));
    while next.Some?
      invariant from <= |s|
      invariant next == Next(p, s, from)
      invariant ranges + Scan(p, s, from) == Scan(p, s, 0)
      decreases |s| - from
    {
      var m := next.value;
      ScanStep(p, s, from);
      AppendAssoc(ranges, [m], Scan(p, s, m.end));
      ranges := ranges + [m];
      from := m.end;
      next := Next(p, s, from);
    }
    ScanStep(p, s, from);
    EmptyAppend(ranges);
  }

  /** The inner `for` loop: whether some recorded wrapped span contains the occurrence `m`. */
  method IsAlreadyWrapped(m: Match, ranges: seq<Match>) returns (isAlreadyWrapped: bool)
    ensures isAlreadyWrapped <==> AlreadyWrapped(m, ranges)
  {
    isAlreadyWrapped := false;
    for k := 0 to |ranges|
      invariant forall j :: 0 <= j < k ==> !Contains(ranges[j], m)
    {
      if Contains(ranges[k], m) {
        isAlreadyWrapped := true;
        break;
      }
    }
  }

  /** The `formatTagRegex.exec` loop: a replacement for every raw occurrence outside the recorded wrapped spans. */
  method CollectReplacements(s: string, tag: string, ranges: seq<Match>) returns (replacements: seq<Edit>)
    requires ranges == WrappedRanges(s, tag)
    ensures replacements == PlanEdits(s, tag)
  {
    replacements := [];
    ghost var seen: seq<Match> := [];
    var from: nat := 0;
    var next := Next(Raw(tag), s, from);
    EmptyAppend(RawMatches(s, tag));
    while next.Some?
      invariant from <= |s|
      invariant next == Next(Raw(tag), s, from)
      invariant seen + Scan(Raw(tag), s, from) == RawMatches(s, tag)
      invariant forall m :: m in seen ==> Spans(Raw(tag), m, |s|)
      invariant replacements == PlanFrom(tag, s, seen, ranges)
      decreases |s| - from
    {
      var m := next.value;
      ScanStep(Raw(tag), s, from);
      AppendAssoc(seen, [m], Scan(Raw(tag), s, m.end));
      var isAlreadyWrapped := IsAlreadyWrapped(m, ranges);
      EmptyAppend(replacements);
      if !isAlreadyWrapped {
        replacements := replacements + [EditFor(tag, s, m)];
      }
      PlanFromAppend(tag, s, seen, m, ranges);
      seen := seen + [m];
      from := m.end;
      next := Next(Raw(tag), s, from);
    }
    ScanStep(Raw(tag), s, from);
    EmptyAppend(seen);
    assert seen == RawMatches(s, tag);
  }

  /** `replacements.reverse().forEach`: splice the edits in from the last to the first. */
  method ApplyFromLast(s: string, replacements: seq<Edit>) returns (newContent: string, hasChanges: bool)
    requires Ordered(replacements, |s|)
    ensures newContent == ApplyEdits(s, replacements)
    ensures hasChanges <==> replacements != []
  {
    newContent := s;
    hasChanges := false;
    var k := |replacements|;
    assert replacements[..k] == replacements;
    while k > 0
      invariant 0 <= k <= |replacements|
      invariant Ordered(replacements[..k], |newContent|)
      invariant ApplyEdits(newContent, replacements[..k]) == ApplyEdits(s, replacements)
      invariant hasChanges <==> k < |replacements|
    {
      var r := replacements[k - 1];
      ApplyEditsStep(newContent, replacements[..k]);
      assert replacements[..k][..k - 1] == replacements[..k - 1];
      newContent := newContent[..r.start] + r.text + newContent[r.end..];
      hasChanges := true;
      k := k - 1;
    }
  }

  /**
    The corrected wrapper as a loop over the text. Each turn emits the
    output for the token at the start of what is left: an already wrapped
    block is kept, else a raw occurrence is wrapped, else one character is
    copied.
  */
  method WrapText(s: string, tag: string) returns (newContent: string)
    ensures newContent == Wrap(s, tag)
  {
    newContent := "";
    var rest := s;
    EmptyAppend(Wrap(s, tag));
    while rest != []
      invariant newContent + Wrap(rest, tag) == Wrap(s, tag)
      decreases |rest|
    {
      var piece, e;
      var wrapped := MatchAt(Wrapped(tag), rest, 0);
      var raw := MatchAt(Raw(tag), rest, 0);
      if wrapped.Some? {
        e := wrapped.value.end;
        KeptToken(rest, tag);
        piece := rest[..e];
      } else if raw.Some? {
        e := raw.value.end;
        RawToken(rest, tag);
        piece := "(((" + rest[..e] + ")))";
      } else {
        e := 1;
        PlainToken(rest, tag);
        piece := [rest[0]];
      }
      Shift(newContent, piece, Wrap(rest[e..], tag), Wrap(rest, tag), Wrap(s, tag));
      newContent := newContent + piece;
      rest := rest[e..];
    }
    assert Wrap(rest, tag) == [];
    EmptyAppend(newContent);
  }

  /** The message in slot `i`, if any, sits in no other slot. */
  predicate UniqueAt(chat: array<Message?>, i: nat)
    requires i < chat.Length
    reads chat
  {
    chat[i] != null ==> forall j :: 0 <= j < chat.Length && j != i ==> chat[j] != chat[i]
  }

  /** No message object sits in two slots of the chat. */
  predicate Distinct(chat: array<Message?>)
    reads chat
  {
    forall i :: 0 <= i < chat.Length ==> UniqueAt(chat, i)
  }

  /** The message objects of the chat. */
  function Messages(chat: array<Message?>): set<Message>
    reads chat
  {
    set i | 0 <= i < chat.Length && chat[i] != null :: chat[i]
  }

  /** The slot `i` of the chat as a value. */
  function EntryAt(chat: array<Message?>, i: nat): (e: Entry)
    requires i < chat.Length
    reads chat, chat[i]
    ensures chat[i] == null ==> e == Missing
    ensures chat[i] != null ==> e == chat[i].Entry()
  {
    if chat[i] == null then Missing else chat[i].Entry()
  }

  /** The chat as a value: one entry per slot. */
  function Snapshot(chat: array<Message?>): (c: seq<Entry>)
    reads chat, Messages(chat)
    ensures |c| == chat.Length
    ensures forall i :: 0 <= i < chat.Length ==> c[i] == EntryAt(chat, i)
  {
    seq(chat.Length, i requires 0 <= i < chat.Length reads chat, Messages(chat) => EntryAt(chat, i))
  }

  /** `processMessageFormat`: wrap the one message `SingleTarget` picks, unless the pass is off or the message is skipped. */
  method ProcessMessageFormat(chat: array<Message?>, st: Settings)
    requires Distinct(chat)
    modifies Messages(chat)
    ensures Snapshot(chat) == SingleResult(st, old(Snapshot(chat)))
  {
    ghost var before := Snapshot(chat);
    if !st.enabled {
      return;
    }
    if chat.Length == 0 {
      return;
    }
    var targetIndex := SingleTarget(st, chat.Length);
    if targetIndex < chat.Length {
      var targetMessage := chat[targetIndex];
      if targetMessage == null || targetMessage.mes == "" {
        return;
      }
      var targetMessageId := EffectiveId(targetMessage.id, targetIndex);
      if ShouldSkip(st, targetMessageId) {
        return;
      }
      var _ := targetMessage.ProcessMessage(st);
      assert UniqueAt(chat, targetIndex);
      assert Snapshot(chat) == SingleResult(st, before) by {
        var r := SingleResult(st, before);
        forall i | 0 <= i < chat.Length ensures Snapshot(chat)[i] == r[i] {
          if i != targetIndex {
            assert chat[i] != null ==> chat[i].mes == old(chat[i].mes);
          }
        }
      }
    }
  }

  /**
    One turn of the `processAllMessages` loop: a message with a body whose
    effective id is not skipped goes through `processMessage`.
  */
  method BulkSlot(chat: array<Message?>, st: Settings, endIndex: nat, i: nat) returns (changed: bool)
    requires i < endIndex == BulkEnd(st, chat.Length)
    requires UniqueAt(chat, i)
    modifies chat[i]
    ensures EntryAt(chat, i) == BulkAt(st, chat.Length, i, old(EntryAt(chat, i)))
    ensures changed <==> EntryAt(chat, i) != old(EntryAt(chat, i))
    ensures forall j :: 0 <= j < chat.Length && j != i ==> EntryAt(chat, j) == old(EntryAt(chat, j))
  {
    var message := chat[i];
    if message == null || message.mes == "" {
      return false;
    }
    var messageId := EffectiveId(message.id, i);
    if ShouldSkip(st, messageId) {
      return false;
    }
    changed := message.ProcessMessage(st);
  }

  /**
    `processAllMessages`: wrap every message with a body in the visited
    prefix whose effective id is not skipped, and count the messages whose
    body changed.
  */
  method ProcessAllMessages(chat: array<Message?>, st: Settings) returns (processedCount: nat)
    requires Distinct(chat)
    modifies Messages(chat)
    ensures Snapshot(chat) == BulkResult(st, old(Snapshot(chat)))
    ensures processedCount == Changed(old(Snapshot(chat)), Snapshot(chat))
  {
    ghost var before := Snapshot(chat);
    ghost var after := BulkResult(st, before);
    if chat.Length == 0 {
      return 0;
    }
    var endIndex := BulkEnd(st, chat.Length);
    processedCount := 0;
    for i := 0 to endIndex
      invariant forall j :: 0 <= j < i ==> EntryAt(chat, j) == after[j]
      invariant forall j :: i <= j < chat.Length ==> EntryAt(chat, j) == before[j]
      invariant processedCount == Changed(before[..i], after[..i])
    {
      ChangedStep(before, after, i);
      var changed := BulkSlot(chat, st, endIndex, i);
      if changed {
        processedCount := processedCount + 1;
      }
    }
    BulkUntouched(st, before);
    SnapshotIs(chat, after);
  }

  /** One turn of the `removeAllHiddenBlocks` loop: strip the blocks from a message with a body. */
  method StripSlot(chat: array<Message?>, i: nat) returns (changed: bool)
    requires i < chat.Length
    requires UniqueAt(chat, i)
    modifies chat[i]
    ensures EntryAt(chat, i) == StripAt(old(EntryAt(chat, i)))
    ensures changed <==> EntryAt(chat, i) != old(EntryAt(chat, i))
    ensures forall j :: 0 <= j < chat.Length && j != i ==> EntryAt(chat, j) == old(EntryAt(chat, j))
  {
    var message := chat[i];
    if message == null || message.mes == "" {
      return false;
    }
    var originalContent := message.mes;
    var newContent := Strip(originalContent);
    if newContent != originalContent {
      message.mes := newContent;
      changed := true;
    } else {
      changed := false;
    }
  }

  /**
    `removeAllHiddenBlocks`: strip the blocks from every message with a
    body and count the messages whose body changed.
  */
  method RemoveAllHiddenBlocks(chat: array<Message?>) returns (removedCount: nat)
    requires Distinct(chat)
    modifies Messages(chat)
    ensures Snapshot(chat) == StripResult(old(Snapshot(chat)))
    ensures removedCount == Changed(old(Snapshot(chat)), Snapshot(chat))
  {
    ghost var before := Snapshot(chat);
    ghost var after := StripResult(before);
    if chat.Length == 0 {
      return 0;
    }
    removedCount := 0;
    for i := 0 to chat.Length
      invariant forall j :: 0 <= j < i ==> EntryAt(chat, j) == after[j]
      invariant forall j :: i <= j < chat.Length ==> EntryAt(chat, j) == before[j]
      invariant removedCount == Changed(before[..i], after[..i])
    {
      ChangedStep(before, after, i);
      var changed := StripSlot(chat, i);
      if changed {
        removedCount := removedCount + 1;
      }
    }
    assert before[..chat.Length] == before && after[..chat.Length] == after;
    SnapshotIs(chat, after);
  }

  /** The snapshot is the sequence that agrees with every slot. */
  lemma {:induction false} SnapshotIs(chat: array<Message?>, c: seq<Entry>)
    requires |c| == chat.Length
    requires forall j :: 0 <= j < chat.Length ==> EntryAt(chat, j) == c[j]
    ensures Snapshot(chat) == c
  {
  }
}
