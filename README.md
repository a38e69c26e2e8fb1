# Message format replacer: a Dafny model

This project models the core of the message format replacer, a chat
extension that hides "format tags" in chat messages. It has three passes
over the chat history:

- `processMessageFormat` wraps one message, a fixed distance from the newest.
- `processAllMessages` wraps every message except the newest few.
- `removeAllHiddenBlocks` deletes every hidden block from every message.

Wrapping turns each `<tag ...>...</tag>` occurrence into
`(((<tag ...>...</tag>)))`, except an occurrence that lies wholly inside a
block the message already held before the edit. A modular skip rule on
message ids decides which messages are left alone.

The model has these modules:

- `Selection` holds the settings, the skip rule `shouldSkipMessage` and the
  indices the two wrapping passes select.
- `Patterns` writes out the three regular expressions of the source as
  scanners over strings:
  - a sticky attempt at one position (`Attempt`, `MatchAt`);
  - `RegExp.exec` with the `g` flag, which finds the leftmost match at or
    after `lastIndex` (`Next`);
  - the global scan loop (`Scan`).
- `Edits` defines replacement edits and applies them from the last to the
  first, as `replacements.reverse().forEach` does. It proves that this is
  a left-to-right rebuild that keeps every character outside the edits.
- `Wrapping` holds what `processMessage` computes:
  - the wrapped spans and the replacements it collects;
  - `WrapAsWritten`, the new body exactly as the code builds it;
  - `Wrap`, a corrected single-scan wrapper (see Findings).
- `Agreement` proves that `Wrap` and `WrapAsWritten` give the same text
  whenever no raw occurrence straddles the edge of a wrapped block.
- `WrapCounterexample` works out, position by position, an input on which
  a second run of the as-written wrapper changes the message again.
- `Idempotence` proves the corrected wrapper idempotent.
- `Seqs` holds small facts about concatenation and slicing that the other modules share.
- `Stripping` models the block stripper `text.replace(/\(\(\([\s\S]*?\)\)\)/g, '')`.
- `Passes` states what each pass does to a snapshot of the chat: one entry
  per slot. It also proves bounds for the passes and idempotence for the two wrapping passes.
- `Chat` models the imperative code:
  - a `Message` class whose `mes` field the passes reassign;
  - the `while (regex.exec(...))` loops, the containment `for` loop and
    the right-to-left edit loop of `processMessage`;
  - the three passes as methods over an `array<Message?>`.

  Each method is proved equal to the functions above.

The comments of `processMessage` (index.js:155 and index.js:160) say that
it prevents duplicate processing and leaves tags already inside `((()))`
alone. The code does not quite do that: a second run can change a message
again. The model follows the code and records the gap under Findings.

## Model

| member | source | states |
|---|---|---|
| Selection.Interval | index.js:85 | the skip interval is at least 1, and it is `skipInterval` whenever that is non-zero (0 falls back to 18) |
| Selection.TagOf | index.js:157 | the tag name used is never empty: it is `tagName` when set, else `format` |
| Selection.SkipFlags | index.js:81-98 | once either skip rule is on, id 0 is skipped; with both rules off, no id is ever skipped |
| Selection.SkipEveryNOnly | index.js:85-91 | with only the first rule on, an id is skipped exactly when it is a multiple of the interval |
| Selection.SkipEveryNPlus1Only | index.js:81-96 | with only the second rule on, an id is skipped exactly when it is 0, or one past a multiple of the interval other than 1 |
| Selection.SkipOne | index.js:81-96 | id 1 is skipped only by the first rule with an interval of 1 |
| Selection.SkipPeriodic | index.js:85-96 | for ids from 2 on, the skip decision repeats with the period of the interval |
| Selection.SkipDefaultInterval | index.js:85-96 | with the default interval of 18: 0, 18 and 36 are skipped by the first rule; 19 and 37 but not 1 by the second; nothing in 1..17 without the second |
| Selection.SingleTarget | index.js:109 | the single target is a valid index of a non-empty chat; it is `messageOffset` places before the newest message, or 0 when the offset reaches past the start |
| Selection.Excluded | index.js:131 | the bulk pass excludes at least one message: `messageOffset`, or 6 when that is 0 |
| Selection.BulkEnd | index.js:132 | the visited prefix ends `Excluded` places before the end of the chat, or is empty when the chat is no longer than that |
| Selection.OffsetMeanings | index.js:109-132 | with a non-zero offset smaller than the chat length the single target sits just before the bulk end; an offset of 0 means the newest message to the single pass and the six newest to the bulk pass |
| Selection.SelectionExample | index.js:109-132 | with ten messages and the default offset, the single target is 3 and the bulk pass visits [0, 4) |
| Patterns.IndexOf | index.js:161-162 | a found position is an occurrence of the literal at or after the start |
| Patterns.IndexOfSpec | index.js:161-162 | the search finds something exactly when an occurrence exists, and nothing occurs before what it finds |
| Patterns.AttemptIff | index.js:161-162 | an attempt succeeds exactly when its lead is there and, for a tag pattern, a `>` follows with a closing tag after it (for a block, a `)))` follows) |
| Patterns.AttemptLeftmost | index.js:161-162 | a tag match stops at the first `>` after the lead and at the first closing tag after that, as `[^>]*` and the lazy `[\s\S]*?` do |
| Patterns.MatchSpelling | index.js:162 | a raw match is exactly its lead, its first capture group, `>`, its second capture group and its closing tag |
| Patterns.Next | index.js:167 | `exec` returns a match of the pattern that starts at or after `lastIndex` |
| Patterns.NextSpec | index.js:183 | no match starts between `lastIndex` and the one `exec` returns, and none at all when it returns null |
| Patterns.NextIs | index.js:183 | a match with no earlier match after `lastIndex` is the one `exec` returns |
| Patterns.Scan | index.js:167-172 | the matches of the global scan lie inside the text and are ascending and pairwise disjoint |
| Patterns.ScanMatches | index.js:183-185 | every element of the scan is what the pattern matches at its start |
| Edits.Splice | index.js:208-210 | one splice keeps the text before the edit and the text after it, and changes the length by the edit's growth |
| Edits.ApplyEditsIsRebuild | index.js:207-211 | applying ordered edits from the last to the first equals the left-to-right rebuild: every span replaced, every other character kept in order |
| Edits.ApplyEditsLength | index.js:207-211 | when every edit lengthens its span by `d`, the result is `d` longer per edit |
| Wrapping.PlanFrom | index.js:183-204 | a replacement is collected exactly for each scanned occurrence that no wrapped span contains |
| Wrapping.PlanFromAppend | index.js:196-203 | one more scanned occurrence appends its replacement unless a wrapped span contains it |
| Wrapping.PlanFromOrdered | index.js:183-204 | replacements collected from an ascending, disjoint scan are ordered, disjoint edits |
| Wrapping.PlanEdits | index.js:183-204 | the collected replacements are ordered, disjoint edits inside the text |
| Wrapping.ReplacementWraps | index.js:201 | the replacement for an occurrence is that occurrence, attributes and content unchanged, inside `(((` and `)))` |
| Wrapping.PlanEditsSpec | index.js:183-204 | a replacement is planned exactly for each raw occurrence that lies wholly inside no wrapped span (overlap alone does not count); each one wraps its occurrence in `(((` `)))` |
| Wrapping.PlanEditsGrow | index.js:201 | every replacement is six characters longer than its occurrence |
| Wrapping.WrapAsWrittenLength | index.js:207-211 | the new body is six characters longer per replacement |
| Wrapping.WrapAsWrittenChanges | index.js:211-219 | the body changes exactly when some replacement was collected |
| Wrapping.WrapAsWrittenRebuild | index.js:207-211 | the new body keeps every character outside the replaced occurrences, in order |
| Agreement.WrapAgrees | index.js:156-212 | when every collected raw occurrence lies wholly inside or wholly outside each recorded wrapped block, the corrected wrapper produces exactly the body the source produces |
| WrapCounterexample.FirstRun | index.js:161-212 | the wrapper turns `<b>(((<b></b><b></b>)))` into `(((<b>(((<b></b>)))<b></b>)))` |
| WrapCounterexample.SecondRun | index.js:161-204 | on that output the wrapper collects another replacement |
| WrapCounterexample.WrapAsWrittenNotIdempotent | index.js:156-220 | running `processMessage` a second time changes the body again |
| Idempotence.ReplacementIsBlock | index.js:161-162 | an occurrence wrapped in `(((` `)))` is an already wrapped block spanning exactly the wrapped text |
| Idempotence.KeptStep | index.js:166-172 | a block kept by the corrected wrapper is kept again, at the same place, by a second run |
| Idempotence.RawStep | index.js:196-203 | an occurrence the corrected wrapper wraps becomes a block that a second run keeps whole |
| Idempotence.PlainStep | index.js:183-204 | a character the corrected wrapper copies is copied again by a second run, for a tag name without parentheses |
| Idempotence.WrapIdempotent | index.js:155-220 | a second run of the corrected wrapper changes nothing, for a tag name without parentheses |
| Stripping.StripFrom | index.js:235 | the stripper never lengthens the text, and keeps its length exactly when there is no block to delete |
| Stripping.Strip | index.js:235 | a stripped body is never longer than before |
| Stripping.StripChanges | index.js:235-237 | a body changes exactly when it holds a block |
| Stripping.BlockDeletions | index.js:227-235 | the deleted blocks form ordered, disjoint edits |
| Stripping.StripIsRebuild | index.js:227-235 | stripping keeps exactly the characters outside the blocks, in order |
| Passes.Changed | index.js:142-144 | the count of changed slots never exceeds the chat length |
| Passes.ChangedZero | index.js:237-240 | no slot is counted exactly when the two snapshots are equal |
| Passes.ChangedAtMost | index.js:135-152 | when the snapshots agree from slot `k` on, at most `k` slots are counted |
| Passes.SingleResult | index.js:102-124 | the single pass keeps the length of the chat |
| Passes.SingleOnlyTarget | index.js:103-122 | only the target slot can change, and only when the pass is enabled and the target has a body whose effective id is not skipped; it then holds the wrapped body |
| Passes.SingleIdempotent | index.js:102-124 | a second single pass changes nothing, for a tag name without parentheses |
| Passes.BulkUntouched | index.js:131-135 | slots at or past the bulk end are unchanged, so only the visited prefix counts |
| Passes.BulkCountBound | index.js:133-152 | the count of changed messages never exceeds the bulk end |
| Passes.BulkIdempotent | index.js:127-153 | a second bulk pass changes nothing and counts 0, for a tag name without parentheses |
| Passes.StripChangedIff | index.js:230-240 | a message changes exactly when its body holds a block, whatever the tag name |
| Chat.Message.ProcessMessageAsWritten | index.js:156-220 | the body becomes `WrapAsWritten` of the old body, and the result is true exactly when the body changed |
| Chat.Message.ProcessMessage | index.js:156-220 | the body becomes the corrected wrap of the old body, and the result is true exactly when the body changed |
| Chat.CollectWrapped | index.js:165-172 | the loop collects exactly the global scan of wrapped blocks |
| Chat.IsAlreadyWrapped | index.js:188-194 | the flag is set exactly when some recorded span contains the occurrence |
| Chat.CollectReplacements | index.js:179-204 | the loop collects exactly the planned replacements, in scan order |
| Chat.ApplyFromLast | index.js:206-212 | the loop computes the right-to-left application, and `hasChanges` is set exactly when there was a replacement |
| Chat.WrapText | index.js:156-220 | the loop computes the corrected wrapper |
| Chat.ProcessMessageFormat | index.js:102-124 | the chat afterwards is the single-pass result on the chat before |
| Chat.BulkSlot | index.js:136-144 | one turn changes only its own slot, as `BulkAt` says, and reports whether it changed |
| Chat.ProcessAllMessages | index.js:127-153 | the chat afterwards is the bulk-pass result, and the count returned is the number of messages whose body changed |
| Chat.StripSlot | index.js:231-240 | one turn changes only its own slot, as `StripAt` says, and reports whether it changed |
| Chat.RemoveAllHiddenBlocks | index.js:223-249 | the chat afterwards is the stripped chat, and the count returned is the number of messages whose body changed |

## Left out

- Patterns.MatchAt: the tag name is matched exact-case, so the case-insensitive `gi` flag of the two tag patterns is not modelled. With it, a replacement could rewrite the case of the opening and closing tag names, because it writes the configured name back.
- Patterns.Lead: the tag name is taken literally. The source puts it into the pattern unescaped, so a name holding regular-expression metacharacters would change the pattern itself. That is not modelled.
- Idempotence.WrapIdempotent: proved only for tag names without `(` or `)`. A name holding them is a metacharacter case the source does not handle either.
- Passes.SingleIdempotent and Passes.BulkIdempotent carry the same restriction on the tag name.
- Chat.ProcessMessageFormat, Chat.ProcessAllMessages and Chat.RemoveAllHiddenBlocks require that no message object sits in two slots of the chat, and Chat.BulkSlot and Chat.StripSlot require it of the slot they handle, because the snapshot view of the chat gives every slot its own body. With such aliasing, the bulk pass and the stripper would process one object twice, and after the single pass (which calls `processMessage` once, index.js:109-120) the other slot holding the target object would show the new body too, while `Passes.SingleResult` changes the target slot only.
- Wrapping.Wrap: agrees with the source whenever no raw occurrence straddles a wrapped block's edge (`Agreement.WrapAgrees`); when one does, the two can differ already on the first run, though they need not. For tag `b` and `<b>(((<b></b><b></b>)))`, the source wraps `<b>(((<b></b>` and leaves the second `<b></b>`, which lies inside the recorded block `(((<b></b><b></b>)))`, alone: `(((<b>(((<b></b>)))<b></b>)))`. `Wrap` wraps both occurrences: `(((<b>(((<b></b>)))(((<b></b>))))))`. The first replacement cuts the recorded block open, so `Wrap` no longer sees it.
- Chat.ProcessAllMessages: the passes use the corrected `ProcessMessage`. The as-written behaviour is modelled separately by `Chat.Message.ProcessMessageAsWritten` and `Wrapping.WrapAsWritten`.
- Host chat lookup (`getChatData`) is a parameter: the chat is passed in as an array. A missing chat behaves like an empty one: nothing changes and the count is 0.
- Saving the chat (`saveChatData`) and refreshing the display (`updateAllMessageDisplays`) are I/O and DOM work, so they are not modelled. The single pass calls both after every `processMessage` call, whether the body changed or not (index.js:120-122). The bulk pass and the stripper call them only when their count is above 0 (index.js:147-150, 243-246).
- Settings persistence, the settings UI, the toast messages, the display toggling of hidden blocks and the automatic triggers (observer, timers, polling) are browser I/O. They are not modelled.
- Settings are values passed to each pass. Ids, offsets and intervals are natural numbers, so negative, fractional and NaN values, and JavaScript's `%` on them, are not modelled. A message id is either a natural number or absent (`undefined`, which falls back to the slot index); an id that is `null` or not a number is not modelled. The source passes such an id on to the skip rule (index.js:116, index.js:139), where `null % interval` is 0, so the first skip rule would skip that message.
- A message body that is `undefined` or `null` is modelled as the empty string. All three are falsy, so every pass leaves such a message alone either way.
- The `original` field of a collected replacement is never read by the source and is not modelled.

## Findings

| source | as written | input that shows it | evidently intended | confidence | as-written member | corrected member |
|---|---|---|---|---|---|---|
| index.js:155-212 | raw occurrences are filtered against the wrapped spans found before any edit. The replacements are then spliced in, and a new block can swallow the start of an existing one. | tag `b`, body `<b>(((<b></b><b></b>)))`: the first run gives `(((<b>(((<b></b>)))<b></b>)))`, and a second run wraps the exposed `<b></b>` again | as the comments at index.js:155 and index.js:160 say: duplicate processing is prevented and tags already inside `((()))` are left alone, so a second run leaves an already processed message unchanged | not executed | WrapCounterexample.WrapAsWrittenNotIdempotent | Idempotence.WrapIdempotent |
