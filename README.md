# Live record merge of the analytics dashboard

The dashboard keeps a client-side list of records (`id`, `name`, `salary`)
that a STOMP subscription on `/topic/records` keeps up to date. Each message
carries one full record. The React state updater merges it into the list by
"upsert by id":

- it looks for the first entry whose `id` equals the incoming `id`;
- if there is one, it replaces that entry in place and keeps everything
  before and after it;
- otherwise it appends the incoming record at the end.

This project models that merge and proves what it guarantees.

- `merge.dfy` (module `RecordMerge`) holds the `Record` datatype and the lookup
  `FirstIndex`, which mirrors `findIndex` with `===`. It also holds the updater
  `ApplyChange`, its fold over a stream of events `ApplyAll`, and the lemmas.
- `store.dfy` (module `RecordStore`) holds `RecordsCell`, the `useState` cell.
  It starts empty and is replaced with the updater's result on every message.
  Its invariant ties the snapshot to the events delivered so far.

The code has no validation of the incoming `id`, no dispose state and no
handling of undecodable payloads, so the model has none either.

## Model

| member | source | states |
|---|---|---|
| `RecordMerge.FirstIndex` | src/WebSocketContext.js:14 | The result is -1 exactly when no entry has the id. Otherwise it is an index whose entry has the id, and no earlier entry has it. |
| `RecordMerge.ApplyChange` | src/WebSocketContext.js:13-19 | Length accounting: the length is unchanged when the id is present and grows by one otherwise. The incoming record sits at the first slot for its id, or at the end. Every other old index keeps its entry. |
| `RecordMerge.ReplaceInPlace` | src/WebSocketContext.js:14-16 | When the id is present, the result is the old list with only the first matching slot overwritten by the incoming record. |
| `RecordMerge.AppendOnMiss` | src/WebSocketContext.js:17-18 | When no entry has the id, the result is the old list followed by the incoming record. |
| `RecordMerge.FullReplacement` | src/WebSocketContext.js:16-18 | The entry found for the id afterwards is exactly the incoming record. No field of the old entry survives. With unique ids beforehand, every entry with that id is the incoming record. |
| `RecordMerge.IdsAfterChange` | src/WebSocketContext.js:14-18 | The set of ids afterwards is the old set plus the incoming id. |
| `RecordMerge.UniqueIdsPreserved` | src/WebSocketContext.js:14-18 | If the list holds at most one record per id, so does the result. |
| `RecordMerge.Idempotent` | src/WebSocketContext.js:14-18 | Applying the same record twice gives the same list as applying it once, so duplicate delivery is absorbed. |
| `RecordMerge.LastAppliedWins` | src/WebSocketContext.js:14-18 | Applying `a` and then `b` with the same id gives the list that `b` alone gives. Arrival order decides, with no timestamp check. |
| `RecordMerge.LaterDuplicatesSurvive` | src/WebSocketContext.js:14-16 | If the id already occurs at two indices, the first match is at or before the earlier one. The later duplicate is left unchanged, and the result still has a repeated id. |
| `RecordMerge.LookupAfterChange` | src/WebSocketContext.js:14-18 | After a change, the entry for the incoming id is the incoming record. Every other id has the same entry as before. |
| `RecordMerge.ApplyAll` | src/WebSocketContext.js:11-20 | Successive invocations of the subscription callback, in arrival order, each applying the updater to the previous result. Position stability over a stream: every earlier entry keeps its position and id. The list grows by at most one entry per event. |
| `RecordMerge.ApplyAllSnoc` | src/WebSocketContext.js:11-13 | Handling one more message after a stream equals folding the extended stream, with messages handled in arrival order. |
| `RecordMerge.ApplyAllUniqueIds` | src/WebSocketContext.js:11-19 | Any stream of messages keeps the at-most-one-record-per-id invariant. |
| `RecordMerge.LookupAfterStream` | src/WebSocketContext.js:11-19 | After a stream, the entry for each delivered id is the last event delivered for that id. An id that no event mentioned keeps its earlier entry. |
| `RecordMerge.IdsAfterStream` | src/WebSocketContext.js:11-19 | After a stream, the ids are the earlier ids plus every delivered id. Nothing is dropped, because no delete event exists. |
| `RecordMerge.Scenarios` | src/WebSocketContext.js:14-18 | Three worked results. Inserting into the empty list, replacing salary 5000 by 6000 in place, and appending a second id. |
| `RecordStore.RecordsCell.constructor` | src/WebSocketContext.js:7 | The cell starts as the empty list with no events delivered. |
| `RecordStore.RecordsCell.OnMessage` | src/WebSocketContext.js:11-20 | The new snapshot is the updater applied to the old one, and the message is recorded as delivered. Three things stay true: the snapshot is the fold of all delivered events, its ids are unique, and they are exactly the delivered ids. |

## Left out

- `JSON.parse` of the message body (src/WebSocketContext.js:12) is not modelled. The input is an already-decoded `Record`, and a malformed body, which would throw inside the callback, is not modelled.
- The STOMP client (`activate`, `deactivate`, the `onConnect` registration, SockJS transport) is not modelled. Neither is React's scheduling of state updates. Messages are taken to be handled one at a time in arrival order.
- `id` is modelled as a mathematical integer compared with `==`. JavaScript numbers are floating point, so `===` on `NaN` or on non-numeric ids is outside the model.
- The `Dashboard` UI, its GraphQL queries and mutations, and the CSV export are not modelled. They are presentation and network I/O, and they destructure the merged list but never render it.
- Validation errors, a disposed state and dropping of undecodable events are not modelled, because the code has none of them.
