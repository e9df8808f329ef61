# WatchCat, modelled and proved

WatchCat runs multi-step health checks: plans of HTTP, WebSocket and delay steps, fired by cron, passing variables
from step to step and logging every execution. This project models the parts of it whose correctness is not plain from
reading one function, and proves what they promise. Everything is in Dafny 4.11; `dafny verify dfyconfig.toml` checks
the whole.

| files | what they model |
|---|---|
| `Bits`, `VarInt`, `Message`, `Packet`, `TwoLayer` | the pomelo wire format: 24-bit length-prefixed packets, and inside them messages with a flag byte, a variable-length id (unsigned LEB128, section 7.6 of DWARF Version 5) and a length-prefixed route |
| `Client` | a connected pomelo client: numbered sends, and a receiver that scans the frames of the server |
| `Library`, `Context`, `Common` | the variable context, template rendering, captures and assertions |
| `Matching`, `Rounds`, `PlainRounds`, `PomeloRounds` | the two WebSocket executors as machines over the stream of inbound messages |
| `Runner`, `StepExecutors`, `PlanExecution`, `RunnerLocks` | running the steps of a plan, the kinds of steps, what a firing stores, and the per-plan locks under all interleavings |
| `Scheduler` | the registry of plans and the cron jobs behind it |
| `LogPages`, `LogStore`, `Buckets` | keyset paging over a changing log table, cursors, and time buckets |
| `StepVariables` | the analysis of which variables a step can use, against what a run computes, and reordering |

Procedures of the source that loop or change state are methods, proved against functions that say what they compute;
the theorems are lemmas about those functions. A connection is a finite sequence of frames or messages after which
reading fails. Library calls (JSON paths, number comparison, cron and cursor text formats) are uninterpreted functions
passed as parameters.

## What the proofs found

- A rejected execution reports that the plan is already running, which can be wrong: `IsRunning` takes the plan's lock
  for a moment, and an execution that arrives then is rejected although nothing runs (`ProbeCanRejectExecute`). It is
  truthful exactly when no probe holds the lock (`RejectionIsTruthfulIff`), so always if nobody asks.
- Rendering is one pass, but a rendered template can contain a new placeholder if braces are nested
  (`NestedBracesAreNotIdempotent`). With brace-free values a second rendering changes nothing exactly when the first left
  no key that resolves (`IdempotentIff`). For every template without two opening braces in a row outside its
  placeholders, which JSON has only inside strings, it changes nothing, and rendering in stages equals rendering with the
  merged context; for dotted keys the exact condition is `UnsafeKeysAgreeIff`.
- The single-round and the one-element multi-round WebSocket modes agree on the status if no assertion names a variable
  that the same step captures (`AssertionsIgnoreCaptures`, a condition on the configuration). Without it they can differ
  (`CapturedNamesBreakCompatibility`); `SameStatusIff` says on which messages. When an accepted message fails an
  assertion, the single-round mode reports its captures and the message as its response, the multi-round mode reports
  neither and shows the message in its round details (`SingleRoundCompatible`).
- The receiver returns the first data packet of a frame and drops the rest of that frame; `WholeStreamIffLossless` says
  when nothing is lost.
- The encoders do not reject what the format cannot carry: packet lengths wrap at 2^24 and route lengths at 256
  (`RoundTripIffWellFormed`, `RoundTripIffEncodable`).
- Overlapping reloads of one plan can leave a job that no later removal reaches (`OverlappingReloadsLeaveAnOrphan`).
  That happens exactly when an entry is registered for a plan that has one already (`OverlapAgreesIff`), and never if
  each registration follows an unregistration of its plan (`FreedPlansAgree`).
- The analysis of available variables reads the captures declared on steps. Round lists and pomelo steps keep theirs in
  their configuration and ignore those declared on the step, so the analysis can miss variables and promise others
  (`ListCaptureIsMissed`, `IgnoredCaptureIsInvented`); `AgreesOnNameIff` says for every plan when it is right.
- The comment on `ListByPlanID` promises a default page size of 50 (`internal/store/log_store.go:67`); the code uses 20
  (`internal/store/log_store.go:15`), and so does the model.

## Model

| member | source | states |
|---|---|---|
| VarInt.VarIntLen | internal/engine/pomelo/message.go:98-108 | the least number of seven-bit groups that hold the id; between 1 and 5 for every 32-bit id |
| VarInt.EncodeVarInt | internal/engine/pomelo/message.go:110-124 | the bytes before the offset and after the written field are untouched, and the field holds the id in its shortest spelling |
| VarInt.DecodeVarInt | internal/engine/pomelo/message.go:126-139 | for every buffer and offset: the little-endian base-128 number up to the first byte below 128, modulo 2^32, and the offset just past that byte; a panic exactly when there is no such byte |
| VarInt.AccumulateGroup | internal/engine/pomelo/message.go:131 | or-ing a seven-bit group shifted inside a 32-bit word adds its weight modulo 2^32, however many groups came before |
| VarInt.BytesFit | internal/engine/pomelo/message.go:98-108 | an id needs at most k groups exactly when it is below 2^(7k) |
| VarInt.BytesSpell | internal/engine/pomelo/message.go:110-124 | what the encoder writes has one terminating byte, at its end, spells the id, and carries no padding |
| VarInt.BytesAt | internal/engine/pomelo/message.go:110-124 | byte k of what the encoder writes is the k-th group of seven bits, lowest first, with 128 added to all but the last |
| VarInt.TerminatorIsFirst | internal/engine/pomelo/message.go:134-136 | decoding stops at the first byte below 128 and at no other |
| VarInt.DecodeEncode | internal/engine/pomelo/message.go:110-139 | decoding an encoded id gives the id back at every 32-bit value, whatever bytes follow |
| VarInt.EncoderIsShortest | internal/engine/pomelo/message.go:98-139 | no terminated string that decodes to an id is shorter than the encoded id |
| VarInt.ReencodeIffCanonical | internal/engine/pomelo/message.go:110-139 | re-encoding a decoded string gives the same bytes if and only if it has at most five bytes, no padding and no bits past the 32nd |
| VarInt.EncodingsAreCanonical | internal/engine/pomelo/message.go:110-124 | every encoded id has that canonical form |
| MessageCodec.EncodeMessage | internal/engine/pomelo/message.go:30-57 | the buffer is filled exactly: flag byte, id bytes for requests and responses, length-prefixed route unless a response, body; type and route length keep their low eight bits |
| MessageCodec.DecodeRoute | internal/engine/pomelo/message.go:73-84 | the route field, including the skipped two-byte compressed form, or an out-of-bounds offset |
| MessageCodec.DecodeMessage | internal/engine/pomelo/message.go:60-87 | for every byte string: the message it holds, or the index panic of a truncated one |
| MessageCodec.WriteRoute | internal/engine/pomelo/message.go:49-54 | a length byte and the route, behind what is in the buffer already |
| MessageCodec.RequestFormat | internal/engine/pomelo/message.go:30-87 | byte for byte, for every 32-bit id, route of at most 255 bytes and body: a request is 0, the id's bytes, the route behind its length, the body; encoder and decoder both |
| MessageCodec.NotifyFormat | internal/engine/pomelo/message.go:30-87 | a notify is 2, the route behind its length, the body; it is read back with id 0 |
| MessageCodec.ResponseFormat | internal/engine/pomelo/message.go:30-87 | a response is 4, the id's bytes, the body; it is read back with an empty route, also under flag 5 |
| MessageCodec.PushFormat | internal/engine/pomelo/message.go:30-87 | a push is 6, the route behind its length, the body; it is read back with id 0 |
| MessageCodec.CompressedFormat | internal/engine/pomelo/message.go:73-84 | an odd flag puts two bytes in place of the route, which is then empty, for the three types that have one |
| MessageCodec.OtherTypes | internal/engine/pomelo/message.go:60-87 | types 4 to 7 have neither id nor route |
| MessageCodec.HighFlagBits | internal/engine/pomelo/message.go:62-66 | only the low four bits of the flag matter |
| MessageCodec.DecodesIff | internal/engine/pomelo/message.go:60-87 | for every byte string, the exact condition for decoding to stay in bounds, on the bytes alone |
| MessageCodec.DecodeEncoded | internal/engine/pomelo/message.go:28-87 | a message of the format decodes to what is visible of it: id 0 for notify and push, empty route for a response |
| MessageCodec.RoundTripIffEncodable | internal/engine/pomelo/message.go:28-87 | a message survives encoding and decoding if and only if its type fits three bits and its route, if sent, has at most 255 bytes |
| MessageCodec.DecodePartitions | internal/engine/pomelo/message.go:60-87 | whenever decoding stays in bounds, flag, id bytes, route field and body cover the input exactly and each part means its field |
| MessageCodec.ReencodeIffCanonical | internal/engine/pomelo/message.go:30-87 | encoding a decoded message gives back the input bytes if and only if the flag is even and below 16 and the id bytes are canonical |
| MessageCodec.EncodingIsShortest | internal/engine/pomelo/message.go:30-87 | no input is shorter than the encoding of the message it decodes to |
| PacketCodec.EncodePacket | internal/engine/pomelo/packet.go:21-30 | type byte, 24-bit big-endian length and body; a length of 2^24 or more wraps |
| PacketCodec.PacketFormat | internal/engine/pomelo/packet.go:21-52 | type, three length bytes, most significant first, and body: the encoder writes them and the decoder takes such a packet off the front and goes on behind it |
| PacketCodec.IncompletePacket | internal/engine/pomelo/packet.go:33-43 | nothing is read if and only if there are under four bytes or fewer than the header declares |
| PacketCodec.ReadLength | internal/engine/pomelo/packet.go:38 | shifting and or-ing three bytes is their big-endian value |
| PacketCodec.DecodePackets | internal/engine/pomelo/packet.go:33-52 | for every byte string the loop terminates in bounds and returns its parse |
| PacketCodec.ParseCovers | internal/engine/pomelo/packet.go:33-52 | re-encoding the packets gives the input up to a leftover that is under four bytes or a header declaring more than remains |
| PacketCodec.ParseEncoded | internal/engine/pomelo/packet.go:21-52 | well-formed packets followed by such a leftover are read back as they were |
| PacketCodec.ParseIsUniqueMaximal | internal/engine/pomelo/packet.go:33-52 | a packet list and a tail are the result for an input if and only if they spell it and the tail starts no complete packet |
| PacketCodec.RoundTripIffWellFormed | internal/engine/pomelo/packet.go:21-52 | a packet list survives the trip if and only if every type fits a byte and every body is below 2^24 bytes |
| TwoLayer.UnpackPointwise | internal/engine/pomelo/client.go:122-131 | decoding a packet list succeeds exactly when each body decodes, message by message and in order |
| TwoLayer.WireDecodes | internal/engine/pomelo/client.go:108-131 | sendable messages, packed one per data packet and concatenated, come back as the same list of visible messages |
| TwoLayer.RoundTripIffSendable | internal/engine/pomelo/client.go:108-131 | a message list survives both layers if and only if each message has a type below 8, a route it sends of at most 255 bytes, and an encoding below 2^24 bytes |
| PomeloClient.Client.Send | internal/engine/pomelo/client.go:108-112 | the id is the last one plus 1, modulo 2^32, is used up even if the write fails, and is the id in the frame handed to the connection; apart from echoes, the frames written stay those of the messages sent, in order |
| PomeloClient.Client.Recv | internal/engine/pomelo/client.go:116-135 | one call returns what the first deciding frame holds, or the closed connection; leaves exactly the frames after it; and echoes each heartbeat it met once, writing nothing else |
| PomeloClient.Client.RecvFrame | internal/engine/pomelo/client.go:118-133 | one frame: its first data or kick packet decides, and the heartbeats before that are echoed |
| PomeloClient.Client.ScanFrame | internal/engine/pomelo/client.go:122-133 | the same over the decoded packets |
| PomeloClient.SentIsReadable | internal/engine/pomelo/client.go:108-112 | a peer reads back exactly the message that was sent if and only if it is sendable |
| PomeloClient.SentFrame | internal/engine/pomelo/client.go:108-112 | the frame of a message is a packet of type 4 around its encoding, the length in three bytes |
| PomeloClient.PacketKinds | internal/engine/pomelo/client.go:122-133 | type 3 is counted as a heartbeat, 4 hands its body on, 5 is a kick, any other type is passed over |
| PomeloClient.OutcomesAndEcho | internal/engine/pomelo/client.go:122-133 | what a call returns for data and for a kick; an echo is the bytes 3, 0, 0, 0 |
| PomeloClient.MessagesArrive | internal/engine/pomelo/client.go:108-135 | from encoder to receiver: sendable messages sent one per frame are received in order, as far as they are visible, with nothing written back |
| PomeloClient.ScanStops | internal/engine/pomelo/client.go:122-133 | with a data or kick packet in the frame, the first one is the outcome and the heartbeats before it are the echoes |
| PomeloClient.ScanReadsThrough | internal/engine/pomelo/client.go:122-133 | a frame with neither yields nothing and every heartbeat in it is echoed |
| PomeloClient.ReceiveEndsAt | internal/engine/pomelo/client.go:116-135 | over the frame stream: the first data or kick packet is the outcome of a call, the heartbeats before that packet, in its frame and in the frames read through, are the echoes, and the frames left are those after its frame |
| PomeloClient.ReceiveReadsThrough | internal/engine/pomelo/client.go:116-135 | a stream without such a packet is read to its end, every heartbeat in it echoed once |
| PomeloClient.KeptIsPart | internal/engine/pomelo/client.go:122-133 | a frame hands on all its data packets if and only if it has at most one and no kick before it |
| PomeloClient.WholeStreamIffLossless | internal/engine/pomelo/client.go:116-135 | the messages received are the whole data stream, in order, if and only if every frame holds at most one data packet and no kick before it |
| Context.Merge | internal/engine/context.go:19-28 | a fresh context in which the overlay wins; neither argument changes |
| Context.FirstDot | internal/engine/context.go:40 | the first dot, with none before it |
| Context.ResolveMeaning | internal/engine/context.go:33-60 | a known key gives its value; an unknown one without a dot nothing; otherwise the part before the first dot is looked up and the rest is a path into it |
| Context.RenderKey | internal/engine/context.go:33-88 | what a placeholder with a key renders to in each of these cases: the value, what is found at the path, or the placeholder itself |
| Context.ScannerIsPattern | internal/engine/context.go:15 | the scanner matches a prefix if and only if it is two braces, a letter or underscore, letters, digits, underscores and dots, and two braces |
| Context.PlaceholderIsKey | internal/engine/context.go:15 | by character codes: a placeholder is a key in double braces, and a key starts with a letter or underscore and goes on with letters, digits, underscores and dots |
| Context.RenderPassesText | internal/engine/context.go:78-88 | text without braces is copied |
| Context.RenderAtPlaceholder | internal/engine/context.go:78-88 | a placeholder is replaced where it stands and scanning resumes after it, so inserted text is not scanned |
| Context.SafeKeysAgree | internal/engine/context.go:33-60 | looking an undotted key up in one context and then another is looking it up in their merge; so for a dotted key the first context holds whole or has no root for |
| Context.UnsafeKeysAgreeIff | internal/engine/context.go:33-60 | for the other dotted keys, the exact condition on the second context |
| Context.StagedIsMerged | internal/engine/context.go:19-88 | rendering with one context and then another equals rendering with their merge, for every template whose text outside placeholders has no two opening braces in a row, brace-free values, and keys on which the lookups agree |
| Context.StagedIsMergedForSafeKeys | internal/engine/context.go:19-88 | the same with conditions on the keys alone, undotted keys always qualifying |
| Context.StagedIsMergedIff | internal/engine/context.go:19-88 | the condition on a key is necessary: a lone placeholder with brace-free values renders alike in stages and merged if and only if the lookups agree on its key |
| Context.RenderIsIdempotent | internal/engine/context.go:78-88 | for such templates and brace-free values rendering twice is rendering once, dotted keys included |
| Context.RenderKeepsIff | internal/engine/context.go:78-88 | for every text and brace-free values, rendering leaves the text as it is if and only if none of its keys resolves |
| Context.IdempotentIff | internal/engine/context.go:78-88 | for every template, whatever its braces: a second rendering changes nothing if and only if the first left no key that resolves |
| Context.RenderLosesBraces | internal/engine/context.go:78-88 | each placeholder replaced by a brace-free value costs opening braces and nothing adds any |
| Context.LooseAround | internal/engine/context.go:15 | text with single braces, not ending in an opening one, a placeholder and more such text make a template with that one key that can be rendered in stages |
| Context.JsonRendersInStages | internal/engine/context.go:78-88 | a JSON object with a placeholder in a string is such a template |
| Context.RenderDependsOnKeys | internal/engine/context.go:78-88 | contexts that resolve the template's keys alike render it alike |
| Context.NestedBracesAreNotIdempotent | internal/engine/context.go:78-88 | a concrete template with nested braces renders to a new placeholder, which a second pass replaces; the condition that fails is that of Context.IdempotentIff |
| Context.QuoteSurvives | internal/engine/context.go:15 | a double quote in a template is in every rendering of it |
| Context.RenderPlain | internal/engine/context.go:78-88 | a template without placeholders renders to itself |
| Common.ExecuteCaptures | internal/engine/executor_common.go:15-39 | the returned map is what the rules capture, later rules over earlier ones, and the context gains exactly that |
| Common.CapturedNames | internal/engine/executor_common.go:22-37 | which variables are captured depends on the rules alone, not on the response: a missing path captures the empty string |
| Common.LastCaptureWins | internal/engine/executor_common.go:22-37 | a captured variable holds what the last rule naming it extracts |
| Common.SourceMeaning | internal/engine/executor_common.go:22-61 | what a capture or an assertion looks at: the status code, a header, or a path in the body, a missing path reading as empty |
| Common.NameMeaning | internal/engine/executor_common.go:22-37 | a name is captured if and only if a rule has it and it is not empty |
| Common.Collect | internal/engine/executor_ws.go:173-175 | collecting captures overlays them on the step's |
| Common.ExecuteAssertions | internal/engine/executor_common.go:43-74 | reports no failure if and only if every rule holds, and otherwise the first rule that fails |
| Common.OperatorMeaning | internal/engine/executor_common.go:76-102 | for every operator what it means; greater and less compare as numbers where both are numbers and as texts otherwise; an unknown operator never holds |
| Common.ContainsMeaning | internal/engine/executor_common.go:83 | contains holds if and only if the text occurs at some position |
| Common.TextLessMeaning | internal/engine/executor_common.go:85-99 | texts are compared at the first position where they differ, a proper prefix being less |
| Common.UnmentionedNamesDoNotMatter | internal/engine/executor_common.go:63-65 | adding variables an assertion does not name, directly or as the root of a dotted key, does not change its outcome |
| Matching.FirstFromMeaning | internal/engine/executor_ws.go:137-165 | what a receive loop finds is the first acceptable message from the current position, or nothing when there is none |
| Matching.GreedyIsAssignment | internal/engine/executor_ws.go:115-193 | taking the first acceptable message after the previous one gives strictly increasing positions that pass every test |
| Matching.GreedyIsEarliest | internal/engine/executor_ws.go:115-193 | if any strictly increasing assignment exists, greedy matching succeeds and no position is later than that assignment's |
| Matching.GreedyIffAssignment | internal/engine/executor_ws.go:115-193 | greedy matching is complete and sound for every message sequence and every list of tests |
| Rounds.Record | internal/engine/executor_ws.go:156-161 | the trace is the first hundred messages read, shortened to 4096 |
| Rounds.TraceMeaning | internal/engine/executor_ws.go:149-161 | a text over 4096 characters is cut there and marked, a trace has at most 100 messages, and none at all is no response |
| Rounds.MatchExpect | internal/engine/executor_ws.go:429-440 | holds if and only if every expected path exists and prints as expected |
| Rounds.SettleRound | internal/engine/executor_ws.go:166-192 | an accepted message is recorded, captured into round variables and step captures, and then asserted against the updated variables |
| Rounds.SettleShows | internal/engine/executor_ws.go:166-192 | a settled round shows its message; it ends the run only as a failure, and never without assertions |
| Rounds.SettleMeaning | internal/engine/executor_ws.go:166-192 | what a settled round leaves: its detail, its captures on top of the variables, and a failure without a response if and only if an assertion fails under those variables |
| Rounds.SettleCaptures | internal/engine/executor_ws.go:169-176 | a settled round adds exactly the names of its capture rules to what was captured |
| Rounds.FixedSendsCount | internal/engine/executor_ws.go:116-119 | when raw texts fix who sends, the number of sends does not depend on messages or variables |
| Rounds.SettleKeepsStep | internal/engine/executor_ws.go:169-192 | the round variables stay the step's variables overlaid with its captures, also when an assertion fails |
| Rounds.SendIsFixed | internal/engine/executor_ws.go:116-119 | for raw text that contains a quote or no placeholder, variables have no say in whether the round sends |
| PlainRounds.Conn.ReadMessage | internal/engine/executor_ws.go:138 | the next inbound message, then failure for good |
| PlainRounds.Conn.WriteMessage | internal/engine/executor_ws.go:122 | a successful write adds the text to what was sent |
| PlainRounds.ReceiveMatching | internal/engine/executor_ws.go:136-165 | consumes messages up to and including the first acceptable one, or all of them, and traces those read |
| PlainRounds.SendAndReceive | internal/engine/executor_ws.go:119-165 | the rendered text is added to what was written if and only if it and the raw text are not empty, it is not null, and a write is left; a failed write reads nothing |
| PlainRounds.PlayRound | internal/engine/executor_ws.go:115-193 | one turn of the loop changes connection, variables, captures and details as the round function says |
| PlainRounds.ExecuteMultiRound | internal/engine/executor_ws.go:86-198 | connection, phase, completed rounds, details, response and captures at the end of the step, and the positions taken with which PlainRounds.StepWrites holds; the caller's variables are untouched |
| PlainRounds.ExecuteSingle | internal/engine/executor_ws.go:200-255 | the single-round mode: the rendered text is written under the same condition; captures go to the step only and are reported before the assertions run, which see the caller's variables |
| PlainRounds.SingleCapturesDeclared | internal/engine/executor_ws.go:248 | a single round that succeeds captures exactly the names its rules declare |
| PlainRounds.RunKeepsStep | internal/engine/executor_ws.go:113-176 | at every round boundary and at every exit, the round variables are the caller's overlaid with what was captured |
| PlainRounds.CapturesGiveRoundVars | internal/engine/executor_ws.go:113-198 | so merging the step's captures into the caller's variables gives what the last round saw |
| PlainRounds.RunCaptures | internal/engine/executor_ws.go:169-176 | a successful run captured exactly the union of the names its rounds declare |
| PlainRounds.RunTracks | internal/engine/executor_ws.go:106-196 | at every exit the progress report is right: a success completed every round, a failure has one detail more than completed rounds, for the round its phase names, and a received message there only after asserting |
| PlainRounds.SuccessIsGreedy | internal/engine/executor_ws.go:115-193 | a run that succeeds, assertions or not, has greedy positions |
| PlainRounds.SuccessShowsGreedy | internal/engine/executor_ws.go:115-193 | its round details show the messages at those positions, one per round |
| PlainRounds.GreedySucceeds | internal/engine/executor_ws.go:115-193 | given the greedy positions, the rest of a run succeeds if and only if its sends do not outnumber the writes that succeed and every round's assertions hold of its message with the variables captured so far |
| PlainRounds.OneRoundGoesOn | internal/engine/executor_ws.go:116-192 | a round with a message to take goes on if and only if its send succeeds and its assertions hold |
| PlainRounds.OneRoundWrites | internal/engine/executor_ws.go:115-193 | what one round writes, how it ends the run if it does, and the variables it leaves, with the texts, statuses and conditions written out |
| PlainRounds.OneRoundShows | internal/engine/executor_ws.go:115-196 | the detail of a round has its number, the text it was to send and the message it took, empty if it took none |
| PlainRounds.StepWrites | internal/engine/executor_ws.go:86-198 | over every run, failed ones included: each round takes the first message after the previous one's that meets its expectation; the texts written are the rendered sends of the rounds begun, in order, each rendered with the variables captured before it; only a round whose write failed has not written; and status and response go with the phase |
| PlainRounds.CompletesIff | internal/engine/executor_ws.go:115-198 | for every run, with assertions and with failing writes: it completes if and only if the messages can be assigned to the rounds, and at the greedy positions the sends do not outnumber the successful writes and all assertions hold with the accumulated variables |
| PlainRounds.CompletesIffAssignment | internal/engine/executor_ws.go:115-193 | without assertions and with sends fixed by their raw text, a run completes if and only if the inbound messages can be assigned to the rounds in strictly increasing order, each meeting its expectation, and the rounds that send do not outnumber the writes that succeed |
| PlainRounds.CompletedRunIsEarliest | internal/engine/executor_ws.go:115-193 | even with assertions, each round of a completed run took the earliest message any assignment gives it |
| PlainRounds.AssertionsAgree | internal/engine/executor_ws.go:183 | assertions that name no captured variable come out alike with and without the captures |
| PlainRounds.SingleRoundCompatible | internal/engine/executor_ws.go:86-255 | a one-element round list has the status, captured variables and traffic of the same fields at top level, when no assertion names a variable the round captures; the reported response and captures agree if and only if no message was accepted on which an assertion fails, or, for stored captures, if there are none |
| PlainRounds.SameStatusIff | internal/engine/executor_ws.go:183-249 | without that condition: the modes give the same status if and only if no message was accepted or the round's captures do not turn the outcome of its assertions around |
| PlainRounds.CapturedNamesBreakCompatibility | internal/engine/executor_ws.go:183-249 | a concrete round that captures x and asserts against x succeeds in a list and fails at top level |
| PomeloRounds.Incoming | internal/engine/pomelo/client.go:116-135 | the messages before the first reception that is not one |
| PomeloRounds.BytesOfText | internal/engine/executor_ws.go:330 | a text of bytes survives the way to the wire and back |
| PomeloRounds.NextMessage | internal/engine/executor_ws.go:350 | each receive yields the next message until the connection ends, and then how it ends |
| PomeloRounds.Accepts | internal/engine/executor_ws.go:376-389 | the filter and the expectation together |
| PomeloRounds.ReceiveMatching | internal/engine/executor_ws.go:348-390 | consumes messages up to and including the first acceptable one; skipped messages are traced too; the sends are untouched |
| PomeloRounds.SendAndReceive | internal/engine/executor_ws.go:323-390 | a round that sends hands over exactly the message with the next id modulo 2^32, type 0 for a request and 1 otherwise, its route and its rendered text; the filter uses the id of this very send |
| PomeloRounds.SendRound | internal/engine/executor_ws.go:323-334 | the send alone, with that message and id, and whether it succeeds |
| PomeloRounds.PlayRound | internal/engine/executor_ws.go:313-418 | one turn of the loop, empty rounds being skipped without counting |
| PomeloRounds.TakeRound | internal/engine/executor_ws.go:321-417 | the turn of a round that is not empty |
| PomeloRounds.ExecutePomelo | internal/engine/executor_ws.go:262-426 | the outcome of the whole step over any frame stream, and the positions taken with which PomeloRounds.StepSends holds; the data frames written are exactly those of the messages the run sends, in order |
| PomeloRounds.RunKeepsStep | internal/engine/executor_ws.go:310-401 | at every round boundary and exit, the round variables are the caller's overlaid with what was captured |
| PomeloRounds.CapturesGiveRoundVars | internal/engine/executor_ws.go:310-425 | so merging the step's captures into the caller's variables gives what the last round saw |
| PomeloRounds.RunCaptures | internal/engine/executor_ws.go:394-401 | a successful run captured exactly the union of the names its rounds declare |
| PomeloRounds.RunTracks | internal/engine/executor_ws.go:283-425 | the same progress report, with skipped rounds neither completed nor shown |
| PomeloRounds.OneRoundTakes | internal/engine/executor_ws.go:313-418 | a played round takes the first message its filter and expectation accept, or ends the step without success; an empty round changes nothing |
| PomeloRounds.OneRoundGoesOn | internal/engine/executor_ws.go:323-415 | a played round with a message to take goes on if and only if its send succeeds and its assertions hold |
| PomeloRounds.OneRoundMessage | internal/engine/executor_ws.go:313-334 | what one round hands over: nothing, or one message with id, type, route and text written out |
| PomeloRounds.OneRoundOutcome | internal/engine/executor_ws.go:313-418 | a round is skipped if and only if it is empty; otherwise it fails if its send does or no message is left that it takes, and else takes the first such message |
| PomeloRounds.OneRoundEnds | internal/engine/executor_ws.go:333-415 | a round that ends the run has the status and response of its phase: a timeout only past the deadline |
| PomeloRounds.OneRoundShows | internal/engine/executor_ws.go:321-424 | the detail of a round that is not empty has its number, the text it was to send and the message it took, empty if it took none |
| PomeloRounds.StepSends | internal/engine/executor_ws.go:262-426 | over every run, failed ones included: each round that is not empty takes the first message it can take after the previous one's; the messages sent are those of the rounds begun, in order, type 0 for a request and 1 otherwise, numbered on from the counter, each with its route and its text rendered with the variables captured before it |
| PomeloRounds.SuccessIsGreedy | internal/engine/executor_ws.go:313-418 | a run that succeeds, assertions or not, took the greedy positions and shows their messages |
| PomeloRounds.GreedySucceeds | internal/engine/executor_ws.go:313-418 | given the greedy positions, the rest of a run succeeds if and only if its sends do not outnumber those that succeed and every played round's assertions hold of its message with the variables captured so far |
| PomeloRounds.CompletesIff | internal/engine/executor_ws.go:313-425 | with assertions and with failing sends: a run completes if and only if the messages can be assigned to the played rounds, and at the greedy positions the rounds that send do not outnumber the successful sends and all assertions hold with the accumulated variables |
| PomeloRounds.CompletesIffAssignment | internal/engine/executor_ws.go:313-418 | without assertions a run completes if and only if the messages can be assigned to the non-empty rounds in strictly increasing order, each passing its round's filter and expectation, and the rounds that send do not outnumber the sends that succeed |
| PomeloRounds.CompletedRunIsEarliest | internal/engine/executor_ws.go:313-418 | even with assertions, each played round of a completed run took the earliest message any assignment gives it |
| PomeloRounds.RequestTestMeaning | internal/engine/executor_ws.go:376-389 | a request round that sent accepts a message if and only if it meets the expectation, is not of type 1 or 3, and, if of type 2, has the round's id |
| PomeloRounds.OtherTestMeaning | internal/engine/executor_ws.go:376-389 | any other round accepts exactly the messages that meet its expectation |
| PomeloRounds.RequestGetsItsReply | internal/engine/executor_ws.go:376-389 | if only responses, pushes and notifies arrive, what a request round that sent accepts is a response carrying its id |
| PomeloRounds.CompletedRunGotReplies | internal/engine/executor_ws.go:313-418 | over a whole completed run of that kind, each request round that sent took a response carrying the id of its own send, which is the start id plus the number of sends so far |
| PomeloRounds.IdsAreConsecutive | internal/engine/pomelo/client.go:108-112 | ids count the sends, modulo 2^32 |
| PomeloRounds.SameIdIff | internal/engine/pomelo/client.go:108-112 | two rounds carry the same id if and only if the number of sends between them is a multiple of 2^32 |
| PomeloRounds.OldReplyIsRejected | internal/engine/executor_ws.go:381-383 | with fewer than 2^32 rounds, a reply to an earlier request never satisfies a later request round |
| PomeloRounds.RunNumbersSends | internal/engine/executor_ws.go:313-418 | over every run, failed ones included, the messages sent carry consecutive ids |
| Runner.ExecResult.Append | internal/engine/runner.go:125 | the result list grows by that result |
| Runner.Execute | internal/engine/runner.go:73-147 | a rejected execution runs nothing; any other runs a prefix of the steps, all but the last successful, and stops only at a failure, a cancellation or the end; status, error, calls and variables follow, each outcome written out |
| Runner.MergeCaptured | internal/engine/runner.go:132-135 | the context after a step is the one before overlaid with its captures |
| Runner.LastCapturedIsSeen | internal/engine/runner.go:104-135 | before every step, a variable holds what the last step that captured it captured |
| Runner.PlanVariableStays | internal/engine/runner.go:104-135 | or, if no step captured it, what the plan gives it, if anything |
| Runner.RunSteps | internal/engine/runner.go:115-143 | the same, as the loop keeps it |
| Runner.OneMoreStep | internal/engine/runner.go:124-135 | one more step extends the prefix, the callback trace and the variables |
| Runner.ResultsAreDetermined | internal/engine/runner.go:115-143 | there is only one result list an execution can end with |
| Runner.SuccessIff | internal/engine/runner.go:93-143 | the status is success if and only if every step ran and succeeded |
| Runner.ExtractFailedStep | internal/handler/alert_handler.go:139-156 | the first failed or timed-out result, none if there is none |
| Runner.AlertIsStoppingStep | internal/handler/alert_handler.go:139-156 | an alert shows the last result exactly when a step stopped the run, and none after a timeout between steps |
| Runner.TrimStepResults | internal/engine/runner.go:165-174 | in place: name, type, status and duration of the first results stay and every other field is emptied; anything after them is untouched |
| Runner.TrimResultsIfNeeded | internal/engine/runner.go:151-162 | trims so if and only if the execution is a success that took less than a positive threshold in seconds, and otherwise changes nothing |
| Runner.TrimKeepsSummary | internal/engine/runner.go:165-174 | names, types, statuses, durations and the step an alert picks survive trimming |
| Runner.TrimSparesFailures | internal/engine/runner.go:151-162 | details are only ever dropped from runs in which every step succeeded |
| PlanExecution.ExecutePlan | internal/engine/scheduler.go:82-111 | a firing writes a log if and only if the plan is found and enabled, and the log is that of the run, trimmed when due |
| PlanExecution.StoredLogIsFaithful | internal/engine/scheduler.go:92-102 | a stored log is a success exactly if every step ran and succeeded; the details it keeps are spelled out; and the step an alert picks from it is the one its error names |
| StepExecutors.ExecuteHttp | internal/engine/executor_http.go:89-151 | for any exchange: no response is a failure, by timeout if the deadline has passed, a lost body always a plain one; with a response the captures are reported, and the step succeeds if and only if every assertion holds |
| StepExecutors.ExecuteWs | internal/engine/executor_ws.go:59-259 | which of the three WebSocket modes runs a step, over a fresh connection or none |
| StepExecutors.ExecuteStep | internal/engine/runner.go:177-197 | the dispatch over step types: result and captures of every kind of step for anything the outside does |
| StepExecutors.SuccessCapturesConfigured | internal/engine/runner.go:177-197 | a successful step captures exactly the names its configuration says: its own rules for HTTP and single-round steps, the rounds' rules for round lists and pomelo, none for delays |
| StepExecutors.ResultMeaning | internal/engine/runner.go:177-197 | a result carries its step's name and is a success exactly if the step succeeded |
| RunnerLocks.LookupKeepsInv | internal/engine/runner.go:51-58 | looking a lock up keeps every invariant and leaves the plan with a lock |
| RunnerLocks.StepKeepsInv | internal/engine/runner.go:51-88 | every atomic step of every thread keeps: locks distinct per plan, each held by one thread, each thread on its plan's lock, gauge equal to the executions counted |
| RunnerLocks.RunKeepsInv | internal/engine/runner.go:51-88 | so does every interleaving |
| RunnerLocks.LocksAreNeverReplaced | internal/engine/runner.go:51-58 | along every interleaving a plan keeps the lock it got first |
| RunnerLocks.MutualExclusion | internal/engine/runner.go:73-83 | in every reachable state at most one execution of a plan is past TryLock, and no probe holds that lock |
| RunnerLocks.GaugeCountsExecutions | internal/engine/runner.go:85-88 | in every reachable state the gauge is the number of executions between Inc and Dec and at most the number of held locks |
| RunnerLocks.QuietMeansFree | internal/engine/runner.go:61-88 | when no call holds a lock, none is held and the gauge is zero: nothing leaks |
| RunnerLocks.RefusalHasAHolder | internal/engine/runner.go:61-82 | a rejected execution, or an IsRunning answering true, met another thread holding that plan's lock |
| RunnerLocks.AnswerIffHeld | internal/engine/runner.go:61-68 | whatever the other threads do in between: IsRunning answers true if and only if another thread held the plan's lock when it tried |
| RunnerLocks.LoneProberHearsNo | internal/engine/runner.go:61-68 | in every interleaving without executions of the plan and with a single prober, no answer about it is true |
| RunnerLocks.ExecuteAlone | internal/engine/runner.go:73-88 | undisturbed, an execution that finds the lock free takes it, is counted, and leaves locks and gauge as they were; one that finds it held is rejected and changes neither |
| RunnerLocks.ProbeAlone | internal/engine/runner.go:61-68 | undisturbed, a probe answers false if the lock is free and true if it is held, and leaves locks and gauge as they were |
| RunnerLocks.AdmissionHasNoHolder | internal/engine/runner.go:61-83 | one that gets the lock met no holder |
| RunnerLocks.RejectionIsTruthfulIff | internal/engine/runner.go:61-82 | in every reachable state, an execution about to be rejected, or a probe about to answer true, meets an execution of the plan if and only if no probe of the plan holds its lock |
| RunnerLocks.WithoutProbesRejectionIsTruthful | internal/engine/runner.go:61-82 | along every interleaving in which nobody calls IsRunning for the plan, every rejection meets an execution of it |
| RunnerLocks.ProbeCanRejectExecute | internal/engine/runner.go:61-82 | a reachable state in which an execution was rejected as already running although none is: an IsRunning probe held the lock |
| Scheduler.Cron.AddFunc | internal/engine/scheduler.go:69-74 | a parseable expression gets a new entry number and a job for the plan; any other changes nothing |
| Scheduler.Cron.RemoveEntry | internal/engine/scheduler.go:134 | that job and no other is gone |
| Scheduler.Scheduler.AddPlan | internal/engine/scheduler.go:67-79 | registry and cron change together, or not at all |
| Scheduler.Scheduler.RemovePlan | internal/engine/scheduler.go:131-138 | the plan's entry and job are gone; a plan that has none changes nothing |
| Scheduler.Scheduler.Start | internal/engine/scheduler.go:50-64 | the listed plans are registered in order, skipping those with a bad expression |
| Scheduler.Scheduler.ReloadPlan | internal/engine/scheduler.go:114-128 | removed in every case, and registered again if and only if found, stored as enabled and parseable; an error exactly if not found, or enabled and not parseable; the reported count follows only without an error |
| Scheduler.Scheduler.RunningCount | internal/engine/scheduler.go:156-160 | the count reported is that of the live cron jobs as long as registry and cron agree |
| Scheduler.AgreementMeaning | internal/engine/scheduler.go:29 | agreement makes the registry injective, its values exactly the live jobs, and the counts equal |
| Scheduler.AddKeepsAgreementIff | internal/engine/scheduler.go:67-79 | adding a plan keeps agreement if and only if its expression is bad or the plan is not registered |
| Scheduler.StepKeepsAgreement | internal/engine/scheduler.go:114-138 | every reload and every removal keeps registry and cron in agreement, each job firing its own plan |
| Scheduler.StartRegisters | internal/engine/scheduler.go:50-64 | after Start on a fresh scheduler they agree and a plan is registered exactly if it is enabled with a parseable expression |
| Scheduler.RunAgrees | internal/engine/scheduler.go:50-138 | over every non-overlapping sequence of calls they agree, and whether a plan is registered is decided by the last call about it |
| Scheduler.StepLeavesOthersAlone | internal/engine/scheduler.go:114-138 | a call about one plan leaves entry and job of every other plan as they were |
| Scheduler.ReloadFollowsStore | internal/engine/scheduler.go:114-128 | after a reload without error the plan is registered if and only if it is stored as enabled |
| Scheduler.ReloadMeaning | internal/engine/scheduler.go:114-128 | when a reload reports an error and when the plan is registered after it, for disabled plans and for errors too |
| Scheduler.OverlapAgreesIff | internal/engine/scheduler.go:67-138 | for any interleaving of removals, of jobs being scheduled and of their entries being registered: they agree at the end if and only if every registration found its plan unregistered; and every entry still has a live job firing its own plan in any case |
| Scheduler.FreedPlansAgree | internal/engine/scheduler.go:67-138 | a condition on the calls alone: if every registration of a plan comes after the plan was unregistered, with no other registration of it in between, they agree at the end; so reloads of different plans may overlap |
| Scheduler.PartKeepsEntriesFiring | internal/engine/scheduler.go:67-138 | each of these parts keeps that last fact |
| Scheduler.OrphanStays | internal/engine/scheduler.go:130-138 | a job that is neither registered nor about to be is there for ever |
| Scheduler.LandedAgreement | internal/engine/scheduler.go:29 | with nothing about to be registered, agreement in flight is the agreement of registry and cron |
| Scheduler.UninterruptedReload | internal/engine/scheduler.go:114-128 | the parts of a reload, uninterrupted, are the reload |
| Scheduler.OverlappingReloadsLeaveAnOrphan | internal/engine/scheduler.go:114-128 | two overlapping reloads of a plan can leave a job that survives its removal |
| LogPages.Latest | internal/store/log_store.go:97 | the greatest row by time and then id |
| LogPages.Find | internal/store/log_store.go:97-99 | the first n rows of the table in descending order: every row left out comes after all of them |
| LogPages.ListingIsUnique | internal/store/log_store.go:97 | a table has one descending listing |
| LogPages.List | internal/store/log_store.go:72-111 | a page is the start of the matching rows below the cursor, in descending order, and names a next cursor exactly if rows are left |
| LogPages.PageFacts | internal/store/log_store.go:88-109 | every matching row below the cursor is on the page or below its next cursor |
| LogPages.WalkIsDescending | internal/store/log_store.go:71-112 | whatever happens to the table between fetches, the pages together are strictly descending, so nothing is listed twice |
| LogPages.PresentRowIsListed | internal/store/log_store.go:71-112 | a matching row that is there at every fetch of a finished walk is listed |
| LogPages.ListedRowWasPresent | internal/store/log_store.go:71-112 | a listed row matches and was there when its page was fetched |
| LogPages.SparedRowStays | internal/store/log_store.go:282-286 | inserts and cleanups whose cutoff does not reach a row leave it in place |
| LogPages.SurvivorsAreListedOnce | internal/store/log_store.go:71-112 | a matching row present at the start and reached by no cleanup is listed exactly once, for any interleaving of inserts and cleanups |
| LogPages.PageCountIsCeiling | internal/store/log_store.go:105-109 | the page count is the number of rows over the limit, rounded up, and one for none |
| LogPages.WalkLength | internal/store/log_store.go:71-112 | with no changes a walk cannot go past that many pages and is finished exactly when it has them |
| LogPages.RestingWalkListsAll | internal/store/log_store.go:71-112 | with no changes a finished walk is the filtered table in descending order, in that many pages |
| LogStore.CursorRoundTrip | internal/store/log_store.go:39-63 | a cursor parses back to the time and id it was made from, and is never the empty string |
| LogStore.CursorMeaning | internal/store/log_store.go:39-50 | a cursor is the encoded text of time, bar and id; undecodable text and text without a bar are errors of their own |
| LogStore.PartsOfCursor | internal/store/log_store.go:46-63 | what is before the first bar is read as the time, the rest as the id, and which error comes first |
| LogStore.NextCursorIsNextPosition | internal/store/log_store.go:88-109 | the cursor string handed out stands for the next position, and is empty exactly at the end |
| LogStore.ListByPlanID | internal/store/log_store.go:71-112 | every row listed has the plan asked for, the status if one is given, and a time within both inclusive bounds; every row of the table like that, older than the cursor, is on the page or older than the next cursor; at most 20 by default; or the cursor's error |
| LogStore.ListFailed | internal/store/log_store.go:117-158 | the same for rows that failed or timed out, and the plan if one is given |
| LogStore.TextWalkIsWalk | internal/store/log_store.go:71-158 | a client that sends back each cursor string walks by positions and stops where that walk is finished, so the paging theorems hold for it |
| Buckets.IndexIsBucket | internal/store/log_store.go:369-375 | the clamped quotient is the one bucket whose span holds the log |
| Buckets.GoDivMeaning | internal/store/log_store.go:369 | integer division rounds toward zero, for every sign |
| Buckets.SpanMeaning | internal/store/log_store.go:363-375 | a log is in a bucket if and only if its time is from the start on and, below the last bucket, before the next start |
| Buckets.TimeBuckets | internal/store/log_store.go:346-388 | every bucket has its start, the counts of exactly its logs and their rate, negative sizes included; which arguments panic |
| Buckets.EmptyBuckets | internal/store/log_store.go:363-366 | consecutive starts, zero counts |
| Buckets.Fill | internal/store/log_store.go:368-380 | after the loop each bucket counts the logs of its span |
| Buckets.FillRates | internal/store/log_store.go:382-386 | only the rates change |
| Buckets.BucketsConserve | internal/store/log_store.go:368-380 | for every bucket size, bucket totals sum to the number of logs and success counts to the number of successes |
| Buckets.BucketHoldsItsSpan | internal/store/log_store.go:363-380 | a bucket below the last holds exactly the logs between its start and the next, the last one all later logs |
| Buckets.SuccessesAreFew | internal/store/log_store.go:376-379 | success counts never exceed totals |
| Buckets.RateIsAShare | internal/store/log_store.go:382-386 | a rate is between 0 and 1, and 1 exactly for a non-empty bucket of successes |
| Buckets.RateMeaning | internal/store/log_store.go:382-386 | the rate times the total is the success count; an empty bucket has rate 0 |
| Buckets.SuccessCount | internal/store/log_store.go:376-379 | the success count is the number of logs with status success |
| StepVariables.Ordered | internal/store/step_store.go:92-95 | an ascending listing of the steps, each once; steps that share a seq stand in some order |
| StepVariables.GetAvailableVariables | internal/store/step_store.go:71-110 | the names are the plan's variables and what steps with a smaller seq declare; the labels are those an ascending listing of these steps leaves, the only such listing if seq values are distinct |
| StepVariables.AddCaptures | internal/store/step_store.go:96-107 | every declared, named capture of a step is attributed to it |
| StepVariables.PrecedingIsPrefix | internal/store/step_store.go:92-95 | the steps before the k-th are the first k steps of the run |
| StepVariables.ExecutionReaches | internal/engine/runner.go:115-143 | the runner gets to a step only in a run in which every earlier step succeeded |
| StepVariables.StepOn | internal/engine/runner.go:124-135 | each successful step adds exactly the variables its configuration captures |
| StepVariables.RunVariables | internal/engine/runner.go:104-143 | the variables of a run reaching a step are the plan's and those the configurations of earlier steps capture |
| StepVariables.AnalysedVariables | internal/store/step_store.go:96-107 | the names the analysis finds are the plan's and those earlier steps declare |
| StepVariables.PlainStepsCaptureAsDeclared | internal/engine/runner.go:184-189 | HTTP and single-round WebSocket steps, and delays that declare nothing, capture what they declare |
| StepVariables.LabelOfLastDeclarer | internal/store/step_store.go:102-106 | each label is step: and the name of the last step that declares the variable |
| StepVariables.SameVariables | internal/store/step_store.go:71-110 | a run that reaches a step has exactly the variables the analysis names, if the configurations of the steps before it capture what these steps declare |
| StepVariables.LabelNamesLastWriter | internal/store/step_store.go:102-106 | under that condition each label names the step that wrote the variable last in the run |
| StepVariables.LabelIsRightIff | internal/store/step_store.go:102-106 | for every plan, the label of a variable names its last writer in the run if and only if the last step declaring the variable has that name |
| StepVariables.UndeclaredIsNotLabelled | internal/store/step_store.go:96-107 | a variable that a step wrote and none declares has no label naming that step |
| StepVariables.UnwrittenIsFromPlan | internal/store/step_store.go:79-88 | under that condition a variable no step wrote is attributed to the plan, or absent |
| StepVariables.AnalysisAgreesWithRun | internal/store/step_store.go:71-110 | all three, from the step table to any run that reaches the step, for configurations that capture what their steps declare |
| StepVariables.AgreesOnNameIff | internal/store/step_store.go:71-110 | for every plan and every run reaching a step, the analysis is right about a name if and only if it is a plan variable, or earlier steps declare it exactly when the configuration of earlier steps captures it |
| StepVariables.ListCaptureIsMissed | internal/engine/executor_ws.go:169-176 | a concrete step with a list of rounds: whatever message arrives, the run has a variable the analysis does not know |
| StepVariables.IgnoredCaptureIsInvented | internal/engine/executor_ws.go:59-62 | a concrete pomelo step whose own capture rule is ignored: the analysis names a variable no run has |
| StepVariables.StepStore.UpdateSeqBatch | internal/store/step_store.go:49-60 | each listed step of the plan gets its last position in the list as seq and keeps its other fields; rows of other plans and unlisted rows stay |
| StepVariables.ReorderTakesEffect | internal/store/step_store.go:47-60 | after reordering all of a plan's steps, seq values are distinct and listing by seq gives the desired order |
| StepVariables.ReorderDistinctIff | internal/store/step_store.go:47-60 | for any list, with repetitions and gaps: the plan's seq values are distinct afterwards if and only if those of the steps left out differ and none of them is the last position of a listed step |

## Left out

- PomeloRounds.CompletesIff: for rounds whose decision to send does not depend on variables, which Rounds.SendIsFixed shows for every raw text with a quote or without placeholders
- MessageCodec.DecodeMessage: a Go slice may have spare capacity past its length, so that the route could be read from there; the packet decoder makes bodies without any, and the model has none
- Scheduler.RunAgrees: calls that do not overlap; for those that do, Scheduler.OverlapAgreesIff has the exact condition
- Buckets.TimeBuckets: time differences do not saturate, and a rate is an exact quotient rather than a rounded one
- RunnerLocks is a transition system over values: the lookup of a lock under the runner's own mutex is one atomic step, and the panics and waits of real mutexes are not modelled
- Index panics on truncated data are an explicit outcome (None, or a crashed reception); the process they end is not modelled
- The handshake, dialling, TLS, headers and the timer that sends heartbeats of its own; the model starts with an open connection
- Clocks, deadlines and cancellation are flags and functions given from outside; time stamps in traces and measured durations are left out
- Error texts, except that the error of an execution names the step that stopped it
- The configuration JSON of steps, captures and assertions is taken as parsed; malformed JSON, which counts as no rules, is not modelled
- Numbers and other JSON values appear in their printed form; the order in which expectations are tried is arbitrary, as it is for a Go map
- User scripts, which write the shared variables in place, and the building of HTTP requests; an exchange is any response, a lost body, or none
- A crashed step ends the process; the model gives it a status of its own so that it counts as neither success nor failure
- StepVariables.AnalysisAgreesWithRun: for plans with distinct seq values, since steps that share one can run in an order the analysis does not see
- Text is a sequence of characters that stand for bytes; a body is turned into text byte by byte
- Tables are finite sets of rows with unique ids; GORM, SQL, transactions that fail, and stored precision of times are left out
- GetRecentStatuses, FillLastRunStatus and the dashboard statistics: display queries that would add easy members only
- Creating, cloning and deleting plans and steps, and whether seq values stay dense after a deletion
- Sessions, passwords, HTTP handlers, templates and metrics export
