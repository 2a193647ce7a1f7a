# webext-bridge: the session table and framing of the protocol bridge

This project models the protocol bridge of the todo-list prototype
(`complex/webext-bridge/src/main.rs`). The bridge is a process that reads
length-prefixed JSON requests from its standard input. It dispatches each one
against a table of live sessions ("toodles", each wrapping a store opened at a
uri). It writes one length-prefixed JSON response per request to its standard
output.

Modules:

- `Wrappers`: `Option` and `Result`.
- `Framing`: the 4-byte length prefix, written little-endian; writing one
  frame (`write_to`) and reading one frame (`read_from`).
- `Protocol`: the error kinds, the `Label` and `Item` records, the closed
  `Request` and `Response` variants, and reading a request or writing a
  response through a JSON codec supplied by the caller.
- `Sessions`: the bridge as a specification. `Table` holds the session map
  `toodles` and the counter `next_toodle_id`. `Step` is one dispatch
  step, the whole `match` on a decoded request. `Round` is one pass of the loop, and `Serve` is the loop over a
  finite input. The lemmas state the bridge's promises.
- `Server`: class `Bridge`. Its fields `toodles` and `nextToodleId` are
  updated in place by `Dispatch` and by the loop `Serve`. Each method is proved
  equal to the matching function of `Sessions`.

The external crates are given to the bridge as total functions in
`Sessions.Externals`:

- `json.parseRequest`: serde_json's request parser. It is partial, so it
  returns an `Option`.
- `json.serializeResponse`: serde_json's serialiser.
- `openStore(uri)`: `Toodle::new`, giving the items already stored at `uri`.
- `createLabel(items, name, color)`: the store's `create_label`, which may
  refuse.

`fetch_item` and `update_item` become a lookup and an update of the session's
item map.

Where the source cannot be taken literally, the model does this:

- The source does not compile as written. Its `Error` enum lacks `BadItem`,
  which the dispatcher still returns (main.rs:132); the model adds it.
- Line 140 names `Response::Error` for the variant declared as `Err`. The
  model answers `Err(BadRequest)` for every failed read.
- `read_u32`'s own failure is not handled (line 51). The model treats a
  missing or short prefix like any other unreadable request: `BadRequest`.
- The dispatcher's `match` has no arm for `GetLabels`, `GetTodos`,
  `CreateTodo`, `DeleteTodo`, `MarkCompleted` or `SetDue`. The model answers
  them with `Err(BadRequest)` and leaves the table unchanged.
- The loop in `main` has no exit, so it keeps running after the input ends.
  `Sessions.Serve` and `Server.Bridge.Serve` stop when the input is used up
  (see Findings).

## Model

| member | source | states |
|---|---|---|
| `Framing.U32Value` | complex/webext-bridge/src/main.rs:51 | the value of a 4-byte prefix is below 2^32 |
| `Framing.U32Bytes` | complex/webext-bridge/src/main.rs:72 | the prefix written for n is 4 bytes long and reads back as n |
| `Framing.U32BytesOfValue` | complex/webext-bridge/src/main.rs:51 | a prefix is determined by its value: writing the value read gives the same 4 bytes |
| `Framing.WriteFrame` | complex/webext-bridge/src/main.rs:70-74 | a frame is the body's length modulo 2^32 (the `as u32` cast) in 4 bytes, followed by exactly the body |
| `Framing.ReadFrame` | complex/webext-bridge/src/main.rs:50-54 | reading fails exactly when the stream ends inside the prefix or before the declared length; otherwise the input splits into prefix, a body of the declared length, and the rest |
| `Framing.FrameRoundTrip` | complex/webext-bridge/src/main.rs:50-74 | reading a written frame gives back the body and leaves what followed it unread (bodies below 2^32 bytes) |
| `Framing.TruncatedFrameFails` | complex/webext-bridge/src/main.rs:51-52 | every proper prefix of a frame is a read failure: a missing prefix below 4 bytes, a short body from 4 on |
| `Protocol.ReadRequest` | complex/webext-bridge/src/main.rs:50-54 | a failed read or a body the parser rejects gives `BadRequest`; a read always consumes input; after a readable frame reading resumes right after it, whether or not the body parsed |
| `Protocol.FrameReadsBack` | complex/webext-bridge/src/main.rs:70-74 | a frame alone on a stream reads back as its body, when the body is below 2^32 bytes |
| `Protocol.WriteResponse` | complex/webext-bridge/src/main.rs:70-74 | the written response reads back as one frame holding its serialised body (bodies below 2^32 bytes) |
| `Protocol.ReadRequestOfFrame` | complex/webext-bridge/src/main.rs:50-54 | a request framed by the peer is read back as what the parser makes of its body, and the stream after it is untouched |
| `Sessions.AttachLabel` | complex/webext-bridge/src/main.rs:125-128 | the item keeps its other fields and its labels in order; at most one label is appended; the label is present afterwards; an item already holding it is unchanged; it then occurs once if it was absent |
| `Sessions.Step` | complex/webext-bridge/src/main.rs:90-140 | dispatch keeps the table valid (every id below the counter); an error response leaves the table unchanged; only `NewToodle` advances the counter, by one |
| `Sessions.NewToodleAddsFreshId` | complex/webext-bridge/src/main.rs:91-97 | `NewToodle` answers the counter's value, which was absent; the table gains exactly that entry and every earlier entry is unchanged |
| `Sessions.DestroyRemovesOnly` | complex/webext-bridge/src/main.rs:98-101 | `DestroyToodle` reports whether the id was present and removes exactly that id; the counter and other entries are unchanged |
| `Sessions.DestroyTwice` | complex/webext-bridge/src/main.rs:98-101 | a second destroy of the same id reports `false` and changes nothing |
| `Sessions.UnknownToodle` | complex/webext-bridge/src/main.rs:107-135 | `CreateLabel` or `AddLabel` on an id absent from the table is `Err(BadToodle)` with the table unchanged |
| `Sessions.DestroyedIsNeverCreated` | complex/webext-bridge/src/main.rs:98-135 | after destroying an id, every request addressed to it is answered exactly as in a table that never held it, and changes nothing |
| `Sessions.CreateLabelOutcome` | complex/webext-bridge/src/main.rs:107-115 | on a live session `CreateLabel` answers the label the store yields, or `Err(BadLabel)` when it yields none; the table is unchanged |
| `Sessions.AddLabelUnknownItem` | complex/webext-bridge/src/main.rs:122-132 | `AddLabel` naming an item the session's store lacks is `Err(BadItem)` with the table unchanged |
| `Sessions.AddLabelUpdatesOnlyItem` | complex/webext-bridge/src/main.rs:122-131 | `AddLabel` on a held item answers `AddLabel` and appends the label unless present; the item keeps its other fields; no other item, session, uri or the counter changes |
| `Sessions.AddLabelIdempotent` | complex/webext-bridge/src/main.rs:125-130 | repeating `AddLabel` answers `AddLabel` and changes nothing; the label then occurs exactly once if it occurred at most once before |
| `Sessions.Replay` | complex/webext-bridge/src/main.rs:87-138 | one response per request, and the table stays valid across the whole sequence |
| `Sessions.NewToodleIdsIncrease` | complex/webext-bridge/src/main.rs:79-97 | over any request sequence the ids handed out are strictly increasing and lie between the counter before and after, so none is reused, destroys notwithstanding |
| `Sessions.ThreeSessionsThenOne` | complex/webext-bridge/src/main.rs:79-101 | three sessions, destroy of the second, one more session: ids 1, 2, 3, `destroyed: true`, then 4 |
| `Sessions.Round` | complex/webext-bridge/src/main.rs:88-146 | one pass keeps the table valid, never lowers the counter, and always consumes input |
| `Sessions.Serve` | complex/webext-bridge/src/main.rs:87-147 | the loop ends on every finite input, keeps the table valid and never lowers the counter |
| `Sessions.ServeFrames` | complex/webext-bridge/src/main.rs:87-147 | on a stream of well-formed request frames the loop writes exactly one response frame per request, in order, and ends in the table that dispatching them in turn gives |
| `Sessions.BadBodyIsSkipped` | complex/webext-bridge/src/main.rs:88-146 | a frame whose body does not parse is answered `Err(BadRequest)`, leaves the table alone, and the following frames are served as if it had not been sent |
| `Sessions.TruncatedFrameEndsLoop` | complex/webext-bridge/src/main.rs:50-54 | a stream ending inside a frame gets one `Err(BadRequest)` and the table is unchanged |
| `Sessions.RunAsWritten` | complex/webext-bridge/src/main.rs:87-147 | the loop with no exit, run for a given number of passes, never lowers the counter |
| `Sessions.AsWrittenSpinsAtEnd` | complex/webext-bridge/src/main.rs:87-147 | once the input is used up, every further pass of the loop as written writes another `Err(BadRequest)` frame and changes nothing |
| `Sessions.ServeStopsAtEnd` | complex/webext-bridge/src/main.rs:87 | the corrected loop writes nothing and changes nothing on an exhausted input |
| `Server.Bridge.constructor` | complex/webext-bridge/src/main.rs:78-79 | a new bridge has an empty table and the counter at 1 |
| `Server.Bridge.Dispatch` | complex/webext-bridge/src/main.rs:90-138 | updating the map and counter in place gives exactly the response and table of `Sessions.Step`, and keeps the table valid |
| `Server.Bridge.Serve` | complex/webext-bridge/src/main.rs:87-147 | the in-place loop writes exactly the bytes and reaches exactly the table of `Sessions.Serve` |

## Left out

- Standard input and output, their locks, blocking reads and writes, and the logging of failed writes (main.rs:81-85, 143-146) are left out. The streams are byte sequences. A write never fails in the model; in the source a failed write is only logged, so the table is unaffected either way.
- JSON parsing and serialisation, including the derived and hand-written `Serialize`/`Deserialize` impls (main.rs:19-20, 57-58, 150-174), belong to serde_json. They are the supplied functions `parseRequest` and `serializeResponse`.
- The JSON round trip of a response (serialise, then parse back to an equal value) is serde_json's promise and is not stated. What is proved is the frame-level round trip: `Protocol.WriteResponse` reads back as one frame holding the serialised body.
- The store crate is left out: `Toodle::new`, `create_label`, `fetch_item` and `update_item`. A session's store is a map of items by uuid. What a store holds when opened, and whether `create_label` accepts, are supplied functions. The labels a store records on `CreateLabel` are not modelled, so `CreateLabel` changes no modelled state.
- Two sessions opened at the same uri share persisted data in the real store. In the model each session has its own item map.
- The native C and Android boundary (`complex objects/cargo/src/lib.rs`) is not part of this model. That covers handle creation and destruction and the reference-counted login and list managers.
- The prefix uses the platform's native byte order in the source. The model fixes it to little-endian.
- `Sessions.Step`: the counter is an unbounded integer, so overflow of `i64` after 2^63 - 1 sessions is not modelled. Request ids are unbounded integers too.
- `Framing.FrameRoundTrip`: holds only for bodies below 2^32 bytes. A longer body gets a prefix cut to 32 bits by the `as u32` cast, as `Framing.WriteFrame` states.
- `Protocol.ReadRequest`: a frame's whole body is taken as consumed even when it does not parse. In the source the streaming parser may stop reading partway through a malformed body.
- `Protocol.ReadRequest`: a body shorter than its prefix declares is a read failure. In the source the limited reader hands the parser whatever bytes remain before the stream ends.
- The request variants `GetLabels`, `GetTodos`, `CreateTodo`, `DeleteTodo`, `MarkCompleted` and `SetDue` have no behaviour in the source. The model answers them with `Err(BadRequest)`. The `CreateItem` response is declared but never produced.

## Findings

| source | as written | input that shows it | evidently intended | confidence | as-written member | corrected member |
|---|---|---|---|---|---|---|
| complex/webext-bridge/src/main.rs:87-147 | the `loop` has no exit: at end of input `read_from` fails, and every further pass writes another `Err(BadRequest)` frame, forever | the peer closes the bridge's standard input | the loop ends when the input stream ends | not executed; high | `Sessions.AsWrittenSpinsAtEnd` | `Sessions.Serve` |
