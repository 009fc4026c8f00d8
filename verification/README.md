# Recorded-message playback for Jupyter tests, modelled in Dafny

`MessagePlayback` stands in for a remote Jupyter kernel in the .NET Interactive
Jupyter tests. It is built from a recording of a real session. Each live request
passed to `SendAsync` is published on the sent stream and queued. A background
loop takes requests off the queue one at a time. For each one it groups the
recorded messages by their parent header's (message id, message type) and
takes the first group whose parent type is the request's type; recorded
replies of that type to a different original request stay in the recording.
It then goes through the group in recording order: it removes each member
from the recording, rebuilds it as a reply to the live request and publishes
it on the received stream. Once the received stream is disposed it stops
after removing the current member, without publishing it. Rebuilding means two things: the parent
header gets the live request's message id, and comm ids in `comm_msg` /
`comm_close` content are replaced by the comm id of a live `comm_open` /
`comm_msg` request.

The model is functional:

- `wrappers.dfy`: `Option` stands for a nullable reference. `Result` stands for
  a call that may throw.
- `messages.dfy` (module `Messages`): immutable `Header`, `Message` and
  `Content` datatypes. `Content` is a closed set of kinds: `CommOpen`,
  `CommMsg`, `CommClose` and `Other`. This module also holds the grouping
  `Key`, the content rewrite (`GetContent`) and the construction of one reply.
- `recording.dfy` (module `Recording`): the pool of recorded messages. Each
  entry carries an identity, its position in the recording, so `List.Remove`
  is modelled as removal by identity. This module also holds LINQ `GroupBy`
  (groups in order of first key appearance, members in pool order) and
  `FirstOrDefault`, a reference definition of the match as a plain scan, and
  the proof that the two agree.
- `matcher.dfy` (module `Matcher`): serving one dequeued request as a pure
  function `(pool, request, disposed) -> (pool', consumed, replies)`, and serving a
  queue of requests in FIFO order.
- `playback_loop.dfy` (module `PlaybackLoop`): the engine as a single-threaded
  state machine over `(pool, queue, sent, received, phase, cancelled,
  disposed flags)`. Its actions are `SendAsync`, `Dispose` and one step of
  the loop. A step handles one dequeue or one member of a group, so a
  `Dispose` can fall between two members of a group. Lemmas tie the machine
  to the pure matcher.

Three details of the code shape the model:

- A matched message is removed from the pool before the disposed check
  (lines 69 and 85-88). A message can therefore leave the pool without being
  emitted.
- After `Dispose`, `SendAsync` throws: `OnNext` on the disposed Rx `Subject`
  (line 41) throws `ObjectDisposedException` before anything is queued. This
  is System.Reactive behaviour, and System.Reactive is not part of this
  model. `SendAsync` returns `Failure(ObjectDisposed)` and leaves the engine
  unchanged.
- The only loop failure the model keeps is a null parent header at line 77.
  The loop's `catch` (lines 99-102) turns that failure into
  `Stopped(Failed)`, after the message has already left the pool.
  `PlaybackLoop.NeverFails` proves that groups chosen by the matcher never
  reach that branch. The other exceptions that end at the same `catch` are
  listed under "Left out".

## Model

| member | source | states |
|---|---|---|
| Messages.RewriteContent | src/Microsoft.DotNet.Interactive.Jupyter.Tests/MessagePlayback.cs:109-134 | the reply content keeps the recorded kind and data; a non-null comm id from a live comm_open/comm_msg replaces the comm id of a recorded comm_msg/comm_close; in every other case the recorded content is returned unchanged |
| Messages.RewriteIsIdentityIff | src/Microsoft.DotNet.Interactive.Jupyter.Tests/MessagePlayback.cs:109-134 | the rewrite returns the recorded content exactly when the request carries no comm id, the recorded kind is not comm_msg/comm_close, or it already names the live comm |
| Messages.RewriteIdempotent | src/Microsoft.DotNet.Interactive.Jupyter.Tests/MessagePlayback.cs:121-133 | rewriting an already rewritten content changes nothing |
| Messages.ReplyRestampsParent | src/Microsoft.DotNet.Interactive.Jupyter.Tests/MessagePlayback.cs:71-81 | the reply's parent header carries the live request's id and otherwise equals the recorded parent header (type, version, session, username, date); its content is the rewritten recorded content; header, signature, metadata, identifiers, buffers and channel are the recorded ones |
| Recording.Load | src/Microsoft.DotNet.Interactive.Jupyter.Tests/MessagePlayback.cs:30-32 | the pool holds the whole recording in order, each message a distinct entry |
| Recording.RemoveFirst | src/Microsoft.DotNet.Interactive.Jupyter.Tests/MessagePlayback.cs:69 | removing an identity that is present shrinks the pool by one and adds nothing; removing an absent one changes nothing |
| Recording.RemoveFirstDropsFirstOccurrence | src/Microsoft.DotNet.Interactive.Jupyter.Tests/MessagePlayback.cs:69 | `Remove` takes out the first occurrence of the identity and keeps all other entries in order |
| Recording.RemoveFirstIsDropId | src/Microsoft.DotNet.Interactive.Jupyter.Tests/MessagePlayback.cs:69 | with distinct identities, `Remove` drops exactly the entry with that identity |
| Recording.GroupByMembersShareKey | src/Microsoft.DotNet.Interactive.Jupyter.Tests/MessagePlayback.cs:59-60 | every group is non-empty and holds exactly the pool entries with its (parent id, parent type) key, in pool order |
| Recording.GroupByKeysDistinct | src/Microsoft.DotNet.Interactive.Jupyter.Tests/MessagePlayback.cs:59-60 | no key is split over two groups |
| Recording.GroupByCoversPool | src/Microsoft.DotNet.Interactive.Jupyter.Tests/MessagePlayback.cs:59-60 | every recorded message falls in some group |
| Recording.FirstMatching | src/Microsoft.DotNet.Interactive.Jupyter.Tests/MessagePlayback.cs:61 | the chosen group is one of the groups and its key has the request type; none is chosen exactly when no group key has that type |
| Recording.FirstMatchingIsFirst | src/Microsoft.DotNet.Interactive.Jupyter.Tests/MessagePlayback.cs:61 | the chosen group is the first one whose key has the request type: every group before it has a key of another type |
| Recording.SelectGroupIsFirstKeyOfType | src/Microsoft.DotNet.Interactive.Jupyter.Tests/MessagePlayback.cs:59-61 | the selected group is the full (parent id, parent type) key of the first recorded message answering the request type, with all entries of that key in pool order; no group is selected exactly when no recorded message answers the type |
| Recording.SelectedGroupAnswersType | src/Microsoft.DotNet.Interactive.Jupyter.Tests/MessagePlayback.cs:59-63 | a selected group is non-empty, drawn from the pool, and every member has a parent header of the request type |
| Recording.SameTypeDifferentIdsNotMerged | src/Microsoft.DotNet.Interactive.Jupyter.Tests/MessagePlayback.cs:60-61 | two recorded replies to original requests with different ids are never taken together, even when their types agree |
| Matcher.EmitGroup | src/Microsoft.DotNet.Interactive.Jupyter.Tests/MessagePlayback.cs:67-91 | with the received stream live every member is consumed and one reply per member is emitted, in group order; once disposed only the first member leaves the pool and nothing is emitted; the pool never gains entries |
| Matcher.Serve | src/Microsoft.DotNet.Interactive.Jupyter.Tests/MessagePlayback.cs:55-92 | with no group answering the request type nothing is consumed or emitted and the pool is unchanged; the pool never gains entries |
| Matcher.ServeAnswersRequest | src/Microsoft.DotNet.Interactive.Jupyter.Tests/MessagePlayback.cs:59-81 | every reply emitted for a request has a parent header carrying the live request's id and the request's type |
| Matcher.EmitGroupRemovesPending | src/Microsoft.DotNet.Interactive.Jupyter.Tests/MessagePlayback.cs:67-69 | emitting a group of distinct pool entries leaves the pool minus exactly those entries, in order, shorter by the group's size |
| Matcher.ServeConsumesSelectedGroup | src/Microsoft.DotNet.Interactive.Jupyter.Tests/MessagePlayback.cs:59-91 | serving a matched request consumes exactly the selected group; the pool loses exactly its members and keeps the rest in order; replies follow the group's recorded order |
| Matcher.ServeStopsWhenDisposed | src/Microsoft.DotNet.Interactive.Jupyter.Tests/MessagePlayback.cs:67-88 | with the received stream disposed, the first group member is removed but not emitted and the later members stay in the pool |
| Matcher.ServeAllConsumesAtMostOnce | src/Microsoft.DotNet.Interactive.Jupyter.Tests/MessagePlayback.cs:51-92 | over any sequence of requests the consumed entries are distinct recorded messages, none is left in the pool, the pool is the original minus them in order, and there is one reply per consumed entry |
| PlaybackLoop.Create | src/Microsoft.DotNet.Interactive.Jupyter.Tests/MessagePlayback.cs:30-35 | a new engine's pool is the recording with distinct identities, with empty queue and logs, loop running, not cancelled or disposed |
| PlaybackLoop.SendAsync | src/Microsoft.DotNet.Interactive.Jupyter.Tests/MessagePlayback.cs:39-45 | the message is appended to the sent log and to the tail of the queue and nothing else changes; it fails exactly when the sent stream is disposed |
| PlaybackLoop.Dispose | src/Microsoft.DotNet.Interactive.Jupyter.Tests/MessagePlayback.cs:141-155 | cancellation is requested and both streams are disposed; nothing else changes |
| PlaybackLoop.LoopStepFrame | src/Microsoft.DotNet.Interactive.Jupyter.Tests/MessagePlayback.cs:47-107 | a loop step never touches the sent log or the flags, appends at most one reply and none once disposed, dequeues only from the head and only at the loop head (never in the middle of a group), only shrinks the pool, stays stopped once stopped, and stops normally only at the loop head after cancellation |
| PlaybackLoop.LoopStepKeepsValid | src/Microsoft.DotNet.Interactive.Jupyter.Tests/MessagePlayback.cs:59-81 | a loop step keeps pool identities distinct and keeps a group being emitted inside the pool and made of messages with parent headers |
| PlaybackLoop.NeverFails | src/Microsoft.DotNet.Interactive.Jupyter.Tests/MessagePlayback.cs:67-103 | from construction, whatever callers do, the loop never stops on the modelled exception path (a recorded reply without a parent header, line 77); timeouts, the dispose race and subscriber exceptions are not modelled |
| PlaybackLoop.StepConsumesOnce | src/Microsoft.DotNet.Interactive.Jupyter.Tests/MessagePlayback.cs:51-91 | one action (a send, a dispose or a loop step) takes at most one recorded entry (the group member removed at line 69), removes it from the pool for good, keeps the engine invariant, and extends the received log by exactly the replies it publishes, each built from the member it took (lines 69-90) |
| PlaybackLoop.LifetimeConsumesAtMostOnce | src/Microsoft.DotNet.Interactive.Jupyter.Tests/MessagePlayback.cs:39-107 | under any interleaving of sends, disposals (also in the middle of a group) and loop steps, the entries taken are distinct recorded entries, none is ever in the pool again, the pool is the original minus exactly them, in order, and no more replies are published than entries taken |
| PlaybackLoop.FromCreateConsumesAtMostOnce | src/Microsoft.DotNet.Interactive.Jupyter.Tests/MessagePlayback.cs:30-107 | from construction, each recorded message is taken at most once over the engine's lifetime, so there are never more replies than recorded messages |
| PlaybackLoop.LifetimeRepliesAtMostOnce | src/Microsoft.DotNet.Interactive.Jupyter.Tests/MessagePlayback.cs:39-107 | under any interleaving of sends, disposals and loop steps, the received log only grows, and what it gains is exactly the published replies in order, each the restamp for its live request of an entry the loop took from the pool; no two replies come from the same recorded entry |
| PlaybackLoop.FromCreateRepliesAtMostOnce | src/Microsoft.DotNet.Interactive.Jupyter.Tests/MessagePlayback.cs:30-107 | from construction, the received log is exactly the published replies; each is the recorded message at some position rebuilt for a live request, and no position of the recording is replayed twice |
| PlaybackLoop.DisposalQuiescence | src/Microsoft.DotNet.Interactive.Jupyter.Tests/MessagePlayback.cs:85-90 | after `Dispose`, no further message is received or sent, whatever happens next |
| PlaybackLoop.DisposeStopsLoop | src/Microsoft.DotNet.Interactive.Jupyter.Tests/MessagePlayback.cs:51-52 | an idle loop returns normally at its next step after `Dispose` and leaves the pool alone |
| PlaybackLoop.DisposedMidGroup | src/Microsoft.DotNet.Interactive.Jupyter.Tests/MessagePlayback.cs:67-88 | `Dispose` in the middle of a group: the current member leaves the pool unemitted, the loop returns normally, the later members stay in the pool |
| PlaybackLoop.EmittingPublishesGroup | src/Microsoft.DotNet.Interactive.Jupyter.Tests/MessagePlayback.cs:67-91 | emitting a group on a live stream publishes exactly the pure matcher's replies, in order, and leaves exactly its pool |
| PlaybackLoop.ServeHeadRequest | src/Microsoft.DotNet.Interactive.Jupyter.Tests/MessagePlayback.cs:55-92 | serving the head of the queue dequeues it and publishes the pure matcher's replies; an unmatched request is dropped with no reply |
| PlaybackLoop.DrainServesInOrder | src/Microsoft.DotNet.Interactive.Jupyter.Tests/MessagePlayback.cs:51-104 | with no caller in between, the loop drains the queue in FIFO order, serving each request completely before the next; the received log grows by the replies of each request in turn |
| PlaybackLoop.SendCommutesWithLoopStep | src/Microsoft.DotNet.Interactive.Jupyter.Tests/MessagePlayback.cs:39-96 | a caller's `SendAsync` and a loop step commute unless the loop is polling an empty queue, so concurrent callers neither interrupt a group nor reorder the queue |
| PlaybackLoop.SendDuringGroup | src/Microsoft.DotNet.Interactive.Jupyter.Tests/MessagePlayback.cs:39-91 | a request sent while a group is emitted leaves that group's emission unchanged and is only queued behind the others |

## Left out

- Rx `Subject` plumbing: subscribers, the `Messages` / `SentMessages` / `ReceivedMessages` properties. Each stream is a log of published messages.
- `Task.Factory.StartNew`, the concurrent queue, and thread interleaving inside one loop step. Steps are atomic. So a `Dispose` that lands between the `IsDisposed` check and `OnNext` (line 85 to line 90) is not modelled. In the code that race would throw and stop the loop.
- The `Task.Run(...).Timeout(5.Seconds())` emission wait (line 90). Timeouts are timing. The failure they would cause is not modelled.
- Exceptions thrown by a subscriber's `OnNext` handler. On the received stream they come back through the awaited `Task.Run` at line 90 and would end the loop at the `catch` (lines 99-102). On the sent stream they make `OnNext` at line 41 throw out of `SendAsync` before the `Enqueue` at line 42, so `SendAsync` fails only on disposal here. Subscribers are not part of this model, so publishing always succeeds.
- `Task.Delay(50)` on an empty queue. It is a loop step that changes nothing.
- Pocket logging (`operation.Info/Fail/Succeed/Error`). It is diagnostics only.
- The exception swallowing in `Dispose`. The modelled `Dispose` cannot fail.
- `Attach`. It is an explicit no-op.
- Null messages, null request headers and null header fields. `Header` fields are non-null strings. A recorded message without a parent header has key `(null, null)` and never matches a request.
- Messages.ReplyRestampsParent: requires the recorded message to have a parent header, as does `Reply`. The null-parent case (a `NullReferenceException` at line 77) is modelled in `PlaybackLoop.LoopStep` instead.
- Content payloads (`Data`, metadata) are opaque string maps. Identifiers and buffers are opaque byte sequences.
- `src/Microsoft.DotNet.Interactive/SqlKernel.cs` is not part of this model. It walks a kernel tree through collaborators that are not shown, and its only output is markdown sent to a display.
- `src/dotnet-interactive/Http/HttpProbingSettings.cs` is not part of this model. It is driven by operating-system network enumeration and URI parsing.
