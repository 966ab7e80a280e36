# WXF expression serializer — a Dafny model

This project models the binary encoder core of the Wolfram Client Library for
Python, `wolframclient/serializers/wxfencoder/serializer.py`. The serializer writes an
expression in the Wolfram Exchange Format (WXF). It has three parts:

- **Varint encoder** (`varint_bytes`, `write_varint`). It writes a non-negative integer as
  7-bit groups, least significant group first, with the continuation bit 0x80 on every byte
  but the last (unsigned LEB128). It writes into a fixed nine-byte buffer.
- **Structural contexts** (`SerializationContext`, `NoEnforcingContext`). The enforcing
  context keeps three parallel list-stacks and a depth cursor. They hold, for every
  expression still being written, its declared length, the parts written so far and its
  association flag. The permissive context checks nothing.
- **`WXFExprSerializer`**. It writes the header `8:` or `8C:`, feeds every token to its own
  encoder together with the active context (through a compressing writer when asked to),
  and raises `WXFSerializerException` when the context is not in its final state at the end.

Files:

- `base.dfy` (module `Base`): bytes, the exceptions (`TypeError`, `IndexError`,
  `WXFSerializerException`), results, and a byte stream class.
- `varint.dfy` (module `Varint`): the varint encoder. `VarintBytes` is a loop over a
  nine-byte array. It is proved against the functions `Encode` and `Decode`.
- `context_spec.dfy` (module `ContextSpec`): the context stated on values. The live frames
  form a sequence; `AddPart`, `StepIn`, `Step` and `Run` act on it. A `Tree` datatype gives
  the pre-order events a depth-first encoder issues.
- `context.dfy` (module `Context`): the two context classes. The enforcing one has the
  source's fields (`depth`, and the three stacks as `seq` fields) and methods that update
  them in place. Each method is proved to follow `ContextSpec` on its live frames
  (`Frames()`). The abstract `_Context` base becomes the tagged union `ActiveContext`.
- `serializer.dfy` (module `Serializer`): the header, the serializer class, and `Drive`.
  `Drive` is what feeding a token sequence to a context does: the context's outcome and the
  bytes written.

Behaviour of the code that the model keeps, and proves:

- A value of 2^63 or more needs a tenth group. It overruns the nine-byte buffer and raises
  `IndexError` (`Varint.VarintBytes`, `Varint.FitsInBuffer`).
- The stacks hold only incomplete frames. `add_part` and `step_in_new_expr` pop every
  complete frame at once, in cascade. So a part beyond a frame's declared length is
  counted in the parent frame. Once the root is complete, depth is -1, the bound check is
  skipped, and the part is counted in the last slot of the index stack (Python index -1).
  With non-negative declared lengths no call ever raises `IndexError`
  (`ContextSpec.NonNegativeLengthsNeverRaise`). Surplus atoms after a complete expression
  are accepted and the context stays final (`ContextSpec.ExtraPartAccepted`). Only a
  negative declared length makes a later part raise (`ContextSpec.NegativeLengthRejectsNextPart`).
- While a frame is live, each event changes the number of parts the live frames still owe
  by a fixed amount: a part pays one, and a step-in of length `n` pays one and owes `n`
  more (`ContextSpec.OwedStep`). So a token stream that leaves out any subtree of a tree,
  such as the last child of any node, ends with one part still owed and a live frame, and
  `serialize` raises (`ContextSpec.OmittedNotFinal`, `Serializer.OmittedRejected`).
- `is_rule_valid` at depth -1 reads the last slot of the association stack
  (`Context.SerializationContext.IsRuleValid`).
- The second write of the new frame's slots in `step_in_new_expr` changes nothing, and
  `_set_at_index_or_append` never reaches its error branch there
  (`Context.SerializationContext.WriteFrame`).

The code does not keep two promises of its own docstrings. The `SerializationContext`
docstring (`serializer.py:82-85`) says the expected length and the part count prevent
inconsistencies between the number of elements and the declared length. The
`WXFExprSerializer` docstring (`serializer.py:164-165`) says the output is a valid WXF
expression, or an exception is raised. The model follows the code:

- A part beyond a frame's declared length does not raise. It is counted in the parent
  frame, or in a stale slot at depth -1, as described above
  (`ContextSpec.NonNegativeLengthsNeverRaise`).
- After a whole expression, surplus atoms and surplus whole expressions are accepted and
  written, and `serialize` ends without an exception, because the context stays or ends
  final (`ContextSpec.ExtraPartAccepted`, `ContextSpec.ExtraTreeAccepted`).
- A surplus step-in that opens a non-empty expression is accepted too, but its frame goes
  live at depth 0 (`ContextSpec.SurplusStepInNotFinal`). `serialize` then raises
  `WXFSerializerException` unless that expression is completed.

## Model

| member | source | states |
|---|---|---|
| Varint.Encode | wolframclient/serializers/wxfencoder/serializer.py:29-38 | the encoding is canonical: continuation bit on every byte but the last, off on the last, no redundant zero group; its length is the number of 7-bit groups |
| Varint.DecodeEncode | wolframclient/serializers/wxfencoder/serializer.py:29-38 | decoding the bytes (sum of `(b & 0x7f) << 7i`) gives the value back |
| Varint.EncodeDecode | wolframclient/serializers/wxfencoder/serializer.py:29-38 | every canonical varint is the encoding of its value, so the encoding is the only canonical one |
| Varint.FitsInBuffer | wolframclient/serializers/wxfencoder/serializer.py:25-40 | a value fits in the nine-byte buffer exactly when it is below 2^63 |
| Varint.KnownEncodings | wolframclient/serializers/wxfencoder/serializer.py:29-40 | 0, 127, 128 and 300 encode as `00`, `7F`, `80 01` and `AC 02` |
| Varint.VarintBytes | wolframclient/serializers/wxfencoder/serializer.py:23-40 | a negative value raises `TypeError`; a value below 2^63 yields its encoding, 1 to 9 bytes that decode back to it; a larger value raises `IndexError` |
| Varint.WriteVarint | wolframclient/serializers/wxfencoder/serializer.py:17-21 | the stream gets exactly the bytes `varint_bytes` produces, and nothing when it raises |
| ContextSpec.PopComplete | wolframclient/serializers/wxfencoder/serializer.py:105-107 | the result is a prefix of the stack, every popped frame was complete, the new top is not, and a stack with no complete frame is left alone |
| ContextSpec.PopCompleteAt | wolframclient/serializers/wxfencoder/serializer.py:105-107 | popping stops exactly at the highest frame that is not complete |
| ContextSpec.AddPart | wolframclient/serializers/wxfencoder/serializer.py:109-114 | with no live frame the part is accepted and the stack stays empty; otherwise it raises `IndexError` exactly when the top frame is full, and else counts one part in the top frame and pops it if that completed it |
| ContextSpec.StepIn | wolframclient/serializers/wxfencoder/serializer.py:129-149 | raises exactly when counting the new node as a part raises; otherwise the result is the counted stack plus the frame `(length, 0, is_assoc)`, which a zero length pops at once |
| ContextSpec.StepKeepsNoComplete | wolframclient/serializers/wxfencoder/serializer.py:105-149 | after any successful `add_part` or `step_in_new_expr` no complete frame stays on the stack |
| ContextSpec.NonNegativeLengthsNeverRaise | wolframclient/serializers/wxfencoder/serializer.py:100-149 | from a stack whose frames all have room, events with non-negative lengths never raise and keep every frame with room |
| ContextSpec.NegativeLengthRejectsNextPart | wolframclient/serializers/wxfencoder/serializer.py:100-149 | from any stack without a complete frame, a negative declared length that `step_in_new_expr` accepts is left as the top frame `(length, 0, is_assoc)`, and the next part raises `IndexError`; from a fresh context it is always accepted |
| ContextSpec.Replay | wolframclient/serializers/wxfencoder/serializer.py:129-149 | inside a frame with room, the events of any tree have the same effect as one part |
| ContextSpec.ReplayFromFresh | wolframclient/serializers/wxfencoder/serializer.py:90-152 | the events of any tree drive a fresh context to its final state |
| ContextSpec.TruncatedNotFinal | wolframclient/serializers/wxfencoder/serializer.py:90-152 | any proper prefix of a tree's events, in particular all but the last, leaves a fresh context outside its final state |
| ContextSpec.ExtraPartAccepted | wolframclient/serializers/wxfencoder/serializer.py:100-114 | an atom after a whole tree is accepted and the context stays final |
| ContextSpec.ExtraTreeAccepted | wolframclient/serializers/wxfencoder/serializer.py:100-149 | a second whole tree after the first is accepted and the context ends final again |
| ContextSpec.SurplusStepInNotFinal | wolframclient/serializers/wxfencoder/serializer.py:129-149 | a step-in of positive length after a whole tree is accepted, and its frame `(length, 0, is_assoc)` becomes the only live frame, so the context is not final |
| ContextSpec.OwedCoversFrames | wolframclient/serializers/wxfencoder/serializer.py:100-114 | a stack whose frames all have room owes at least one part per frame, so it owes a part exactly when a frame is live |
| ContextSpec.OwedStep | wolframclient/serializers/wxfencoder/serializer.py:100-149 | on a live stack whose frames all have room, an event with a non-negative length never raises, keeps every frame with room, and changes the parts owed by -1 for a part and `length - 1` for a step-in, even when it pops every frame |
| ContextSpec.ChildrenOwed | wolframclient/serializers/wxfencoder/serializer.py:129-149 | whole children written while more parts are owed than there are children pay one part each |
| ContextSpec.OmitOwed | wolframclient/serializers/wxfencoder/serializer.py:129-149 | on a live stack whose frames all have room, the events of a tree with any one subtree left out leave exactly as many parts owed as before |
| ContextSpec.OmittedNotFinal | wolframclient/serializers/wxfencoder/serializer.py:100-152 | from a fresh context, the events of a tree with any one subtree left out (such as the last child of any node) leave exactly one part owed and a live frame, so the context is not final |
| Context.SetAtIndexOrAppend | wolframclient/serializers/wxfencoder/serializer.py:116-127 | the slot `index` gets the value, appended when it is one past the end, every other slot unchanged; an index further out raises `IndexError` |
| Context.Slot | wolframclient/serializers/wxfencoder/serializer.py:111 | the list position Python uses for `stack[depth]`: `depth` itself, or the last position for depth -1 |
| Context.SerializationContext.constructor | wolframclient/serializers/wxfencoder/serializer.py:90-98 | depth 0 and a single root frame (expected 1, index 0, not an association), so not yet final |
| Context.SerializationContext.CheckInsert | wolframclient/serializers/wxfencoder/serializer.py:100-103 | raises `IndexError` exactly when there is a live frame and it already has its declared parts, which is exactly when `ContextSpec.AddPart` of the live frames fails |
| Context.SerializationContext.StepOutFinalizedExpr | wolframclient/serializers/wxfencoder/serializer.py:105-107 | the cursor drops past every complete level and stops at one that is not; the live frames become `PopComplete` of the old ones |
| Context.SerializationContext.AddPart | wolframclient/serializers/wxfencoder/serializer.py:109-114 | raises `IndexError` and changes nothing exactly when a live top frame is full; otherwise the index in slot `depth` (the last slot at depth -1) grows by one, and the live frames become `ContextSpec.AddPart` of the old ones; no complete frame is left |
| Context.SerializationContext.StepInNewExpr | wolframclient/serializers/wxfencoder/serializer.py:129-149 | the live frames become `ContextSpec.StepIn` of the old ones, or it raises exactly when that does, changing nothing; each stack is exactly the old one with the part counted in slot `depth` and the new frame's value set at the level above the frames left open, every other slot unchanged; no complete frame is left |
| Context.SerializationContext.WriteFrame | wolframclient/serializers/wxfencoder/serializer.py:133-147 | one level up, the frame `(length, 0, is_assoc)` is pushed on the live frames; each stack is exactly `_set_at_index_or_append` of the old one at `depth + 1`, every other slot unchanged, so the second write of the same slots changes nothing |
| Context.SerializationContext.IsValidFinalState | wolframclient/serializers/wxfencoder/serializer.py:151-152 | true exactly when no frame is live |
| Context.SerializationContext.IsRuleValid | wolframclient/serializers/wxfencoder/serializer.py:154-155 | the association flag of the top live frame; at depth -1, the flag in the last slot of the stack |
| Context.NoEnforcingContext.AddPart | wolframclient/serializers/wxfencoder/serializer.py:64-65 | never raises and changes nothing |
| Context.NoEnforcingContext.StepInNewExpr | wolframclient/serializers/wxfencoder/serializer.py:67-68 | never raises and changes nothing |
| Context.NoEnforcingContext.IsValidFinalState | wolframclient/serializers/wxfencoder/serializer.py:70-71 | always true |
| Context.NoEnforcingContext.IsRuleValid | wolframclient/serializers/wxfencoder/serializer.py:73-74 | always true |
| Context.Accept | wolframclient/serializers/wxfencoder/serializer.py:42-74 | the definition of the `_Context` interface that `Apply` and `Drive` follow: an enforcing context is the state machine `ContextSpec.Step`; a permissive one accepts every event and has no frames to change |
| Context.Apply | wolframclient/serializers/wxfencoder/serializer.py:46-52 | one event sent to the active context ends as `Accept` says; only `IndexError` is raised, and then the live frames are unchanged |
| Context.IsFinal | wolframclient/serializers/wxfencoder/serializer.py:209 | the active context is final exactly when it has no live frame, which a permissive one never has |
| Serializer.HeaderRoundTrip | wolframclient/serializers/wxfencoder/serializer.py:196-199 | the header is `38 3A`, or `38 43 3A` when compressing, and reading it back gives the compression flag and where the body starts |
| Serializer.DriveRun | wolframclient/serializers/wxfencoder/serializer.py:201-207 | feeding tokens to an enforcing context runs their events; when nothing raises, all their bytes are written in order |
| Serializer.DrivePermissive | wolframclient/serializers/wxfencoder/serializer.py:201-207 | a permissive context accepts every token and lets all bytes through |
| Serializer.DriveStops | wolframclient/serializers/wxfencoder/serializer.py:201-207 | once a token raises, the tokens after it change neither the exception, nor the frames reached, nor the bytes |
| Serializer.DriveExtend | wolframclient/serializers/wxfencoder/serializer.py:201-207 | a token whose event is accepted after a prefix that raised nothing moves the frames on as `Accept` says and appends its bytes |
| Serializer.DriveRaises | wolframclient/serializers/wxfencoder/serializer.py:201-207 | a token whose event raises after a prefix that raised nothing ends the whole feed with that exception, the frames reached before it and the bytes written before it |
| Serializer.TreeAccepted | wolframclient/serializers/wxfencoder/serializer.py:191-210 | the tokens of any well-formed tree pass a fresh enforcing context, which ends final, and all their bytes are written |
| Serializer.TruncatedRejected | wolframclient/serializers/wxfencoder/serializer.py:209-210 | tokens that stop short of a whole tree leave a fresh enforcing context outside its final state, so `serialize` raises |
| Serializer.OmittedRejected | wolframclient/serializers/wxfencoder/serializer.py:201-210 | tokens that leave out any subtree of a tree raise nothing, leave a fresh enforcing context with one part owed and outside its final state, so `serialize` raises |
| Serializer.SerializeToWxf | wolframclient/serializers/wxfencoder/serializer.py:204-207 | a token's event goes to the context first; its bytes are written only if that does not raise, and when it raises the live frames are unchanged |
| Serializer.WXFExprSerializer.constructor | wolframclient/serializers/wxfencoder/serializer.py:172-180 | the context is enforcing and fresh when `enforce` is set, permissive otherwise; the other settings are kept |
| Serializer.WXFExprSerializer.ProvideWxfExpr | wolframclient/serializers/wxfencoder/serializer.py:186-189 | the provider's tokens, or the argument itself when there is no provider |
| Serializer.WXFExprSerializer.WriteTokens | wolframclient/serializers/wxfencoder/serializer.py:201-207 | the sink gets the bytes of the tokens up to the first one that raises, that exception is passed on, and the live frames end as `Drive` says: those reached before the raising token, or those after the last token |
| Serializer.WXFExprSerializer.WriteToken | wolframclient/serializers/wxfencoder/serializer.py:204-207 | one pass of the token loop: after a prefix that raised nothing, the token either raises, writing nothing and ending the whole feed as `Drive` says, or writes its bytes and leaves the frames `Drive` gives for the prefix one token longer |
| Serializer.WXFExprSerializer.Serialize | wolframclient/serializers/wxfencoder/serializer.py:191-210 | the uncompressed header comes first, then the body, deflated on every exit path when compressing; a token's exception is passed on; otherwise it raises `WXFSerializerException` exactly when the enforcing context is not final; the live frames end as `Drive` says on every path, and a value that is not a token sequence raises `TypeError` and leaves them unchanged; a permissive serializer never raises on tokens |

## Left out

- `wolframclient/evaluation/kernel/kernelpool.py` is not part of this model. It drives asyncio tasks and external kernel processes, and has no sequential logic worth stating.
- `wolframclient/cli/commands/refactor.py` is not part of this model. It only calls foreign formatting tools.
- `ZipCompressedWriter` is a parameter `deflate`: a function from the bytes written through it to the bytes it puts on the stream when it is closed. Incremental compression and flushing are not modelled.
- The token encoders (`_serialize_to_wxf`) are not in the modelled file. A token is the one context event its encoder issues and the bytes it writes. The model assumes the event comes first and that nothing is written when the event raises.
- The association check that rule tokens make with `is_rule_valid` belongs to the token encoders and is not modelled. `is_rule_valid` itself is.
- The expression provider is a function from the argument to a token sequence. A provider object that Python treats as false is modelled as no provider.
- A value to serialize that is not iterable is `PyExpr.Native` and raises `TypeError`. An iterable of objects that are not tokens (Python's `AttributeError`) is not modelled.
- Errors raised by the output stream itself are not modelled.
- The `context` property is a plain accessor; the model's `context` field is public.
- `SerializationContext.__str__` is debug formatting and is not modelled.
- The `_Context` base only raises `NotImplementedError`. It becomes the tagged union `ActiveContext`, which has no such path.
- Exception messages are not modelled; only which exception is raised.
