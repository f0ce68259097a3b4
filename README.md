# DemoService key-value front end, modelled in Dafny

This project models the service layer of a single-node key-value server
(`ok.dht.test.shestakova.DemoService`). The service takes HTTP requests on
`/v0/entity`. It checks the `id` query parameter, turns it into a binary key
with UTF-8, and reads or writes an embedded storage engine. A delete writes a
tombstone under the key. The engine is the `MemorySegmentDao` class, which is
not part of this model.

The model has these modules:

- `Utf8`: UTF-8 as defined in RFC 3629. It has a concrete encoder (what
  `getBytes(StandardCharsets.UTF_8)` does to a well-formed string) and a
  validating decoder used as its reference. The round trip is proved in both
  directions, so encoding is one-to-one.
- `Store`: the engine seen as a map from keys to a value-state, either
  `Present(bytes)` or `Tombstone`. `Dao` is a class that holds the map and a
  ghost log of the calls made to it, the way a counting test double would.
  `Visible` states the engine contract the service depends on: `get` hides
  tombstones.
- `Http`: the methods, the status codes (section 15 of RFC 9110), responses,
  and `Outcome`. An `Outcome` is either a response that gets sent or a `Fault`,
  meaning an exception escaped the handler.
- `Admission`: the worker pool, a `ThreadPoolExecutor` with
  `POOL_SIZE` core and maximum threads and an `ArrayBlockingQueue` of 256
  slots. It is modelled sequentially as counts of busy workers and queued
  tasks.
- `DemoService`: the `Service` class. It owns the store handle, the pool and
  the listener state. Its methods are the three handlers, the fallback
  handler, the router, the acceptor callback, a worker running a task, and
  `Start`/`Stop`. A ghost trace records the order of the lifecycle steps.
  Pure functions (`ReadReply`, `Answer`, `Effect`) specify the handlers, and
  lemmas over them state the read-after-write properties.

The read path rests on the engine hiding tombstones. The GET handler checks
only whether `get` returned an entry (`DemoService.java:91`) and then reads its
value (`:100`). A tombstone's value is null. `GetReply` models those lines over
any `get` result, so a tombstone that reaches line 100 is a `Fault`.
`TombstoneThroughRawGetFaults` shows that a `get` which returns tombstones
faults on a deleted id. `Dao.Get` follows `Visible`, and under that contract
`HandleGet` never faults.

A PUT with no body reaches `MemorySegment.ofArray(null)` (`:116`). That throws
before the store is called, and the model records it as a `Fault`.

`Stop` follows the code. If the wait for the pool times out, line 70 throws
and the store is left open. Closing the store anyway would avoid leaking it,
but the code does not do that. If the wait is interrupted, the store is closed
even though the pool may still hold tasks.

## Model

| member | source | states |
|---|---|---|
| `Utf8.EncodeScalar` | src/main/java/ok/dht/test/shestakova/DemoService.java:156 | one character encodes to 1 to 4 bytes; the leading byte announces the length; the rest are continuation bytes; only ASCII takes one byte |
| `Utf8.Encode` | src/main/java/ok/dht/test/shestakova/DemoService.java:156 | a string of n characters encodes to between n and 4n bytes, so a non-empty id gives a non-empty key |
| `Utf8.DecodeScalar` | src/main/java/ok/dht/test/shestakova/DemoService.java:156 | a decoded sequence takes at least one byte, no more than are there, and exactly as many as its leading byte announces |
| `Utf8.Decode` | src/main/java/ok/dht/test/shestakova/DemoService.java:156 | a decoded string is never longer than the bytes it came from |
| `Utf8.DecodeScalarEncodeScalar` | src/main/java/ok/dht/test/shestakova/DemoService.java:156 | decoding a character's encoding, whatever follows it, gives back the character and consumes exactly its bytes |
| `Utf8.DecodeEncode` | src/main/java/ok/dht/test/shestakova/DemoService.java:156 | round trip: decoding the UTF-8 bytes of any string gives the string back |
| `Utf8.EncodeScalarDecodeScalar` | src/main/java/ok/dht/test/shestakova/DemoService.java:156 | re-encoding a decoded character reproduces exactly the bytes it was read from |
| `Utf8.EncodeDecode` | src/main/java/ok/dht/test/shestakova/DemoService.java:156 | reverse round trip: any byte sequence that decodes is the encoding of what it decodes to |
| `Utf8.EncodeInjective` | src/main/java/ok/dht/test/shestakova/DemoService.java:156 | distinct strings have distinct encodings |
| `Utf8.EncodeEmptyIff` | src/main/java/ok/dht/test/shestakova/DemoService.java:156 | the encoding is empty exactly when the string is |
| `DemoService.FromString` | src/main/java/ok/dht/test/shestakova/DemoService.java:155-157 | null maps to null; otherwise the key decodes back to the id; the key is empty exactly when the id is |
| `DemoService.FromStringInjective` | src/main/java/ok/dht/test/shestakova/DemoService.java:155-157 | distinct ids, null included, give distinct keys |
| `Store.Apply` | src/main/java/ok/dht/test/shestakova/DemoService.java:114-117 | an upsert sets the entry's key to the entry's value-state; every other key keeps its value-state and no key disappears |
| `Store.Visible` | src/main/java/ok/dht/test/shestakova/DemoService.java:89 | the engine's `get` contract: an entry comes back exactly when the key holds a present value, and it is that key's entry |
| `Store.Raw` | src/main/java/ok/dht/test/shestakova/DemoService.java:89 | a `get` without that contract: returns whatever the key holds, tombstones included |
| `Store.Dao.Open` | src/main/java/ok/dht/test/shestakova/DemoService.java:33 | opening gives an open engine over the recovered contents with the given flush threshold and no calls yet |
| `Store.Dao.Get` | src/main/java/ok/dht/test/shestakova/DemoService.java:89 | returns `Visible` of the contents, changes nothing, and logs one get of that key |
| `Store.Dao.Upsert` | src/main/java/ok/dht/test/shestakova/DemoService.java:114-117 | the contents become `Apply` of the entry, and one upsert of that entry is logged |
| `Store.Dao.Close` | src/main/java/ok/dht/test/shestakova/DemoService.java:75 | the engine is closed afterwards and one close is logged; it may be called only while open |
| `DemoService.GetReply` | src/main/java/ok/dht/test/shestakova/DemoService.java:91-101 | no entry gives 404 with an empty body; a present value gives 200 with exactly its bytes; a tombstone faults, and nothing else does |
| `DemoService.ReadReply` | src/main/java/ok/dht/test/shestakova/DemoService.java:81-101 | a bad id gives 400; a valid id gives 200 or 404, and 404 exactly when its key is missing or tombstoned; a present value gives 200 with exactly the stored bytes |
| `DemoService.PutThenGet` | src/main/java/ok/dht/test/shestakova/DemoService.java:89-122 | after PUT of a body, GET on the same id gives 200 with exactly that body |
| `DemoService.DeleteThenGet` | src/main/java/ok/dht/test/shestakova/DemoService.java:89-143 | after DELETE, GET on the same id gives 404, whatever the key held before |
| `DemoService.WriteLeavesOtherIds` | src/main/java/ok/dht/test/shestakova/DemoService.java:114-138 | a PUT or DELETE under one id does not change GET's answer for any other id |
| `DemoService.TombstoneThroughRawGetFaults` | src/main/java/ok/dht/test/shestakova/DemoService.java:89-101 | after DELETE, a `get` that returns the tombstone makes GET fault; with the engine contract it gives 404 |
| `DemoService.Route` | src/main/java/ok/dht/test/shestakova/DemoService.java:79-127 | GET, PUT and DELETE on `/v0/entity` reach their handlers, in both directions; every other method or path reaches the default handler |
| `DemoService.Answer` | src/main/java/ok/dht/test/shestakova/DemoService.java:54-144 | an unmatched route or a bad id gives 400; GET answers as `ReadReply`; a valid PUT with a body gives 201 and a valid DELETE 202; the only fault is a PUT with a valid id and no body |
| `DemoService.Effect` | src/main/java/ok/dht/test/shestakova/DemoService.java:106-144 | only PUT and DELETE with a valid id change the store; a PUT with no body leaves it unchanged; no key except the id's own is added or changed; that key holds `Present(body)` after a PUT with a body and a tombstone after a DELETE |
| `DemoService.Service.constructor` | src/main/java/ok/dht/test/shestakova/DemoService.java:23-29 | the pool size is the processor count; no store, pool or listener yet |
| `DemoService.Service.Start` | src/main/java/ok/dht/test/shestakova/DemoService.java:32-62 | opens the store with a flush threshold of 1 MiB, then builds an idle pool of `POOL_SIZE` workers and 256 queue slots, then starts the listener; each step is a guarded step method, so no other order verifies |
| `DemoService.Service.Stop` | src/main/java/ok/dht/test/shestakova/DemoService.java:65-77 | stops the listener, shuts the pool down, waits, then closes the store, each through a guarded step method; a timeout throws and leaves the store open; an interrupt re-sets the flag and closes the store |
| `DemoService.Service.OpenStoreStep` | src/main/java/ok/dht/test/shestakova/DemoService.java:33 | opens a fresh store over the recovered contents with the 1 MiB threshold and records the step |
| `DemoService.Service.CreatePoolStep` | src/main/java/ok/dht/test/shestakova/DemoService.java:34-40 | builds an idle pool of `POOL_SIZE` workers and 256 slots; allowed only over an open store right after it was opened |
| `DemoService.Service.StartServerStep` | src/main/java/ok/dht/test/shestakova/DemoService.java:41-60 | starts the listener; allowed only with the store open and an accepting pool just built |
| `DemoService.Service.StopServerStep` | src/main/java/ok/dht/test/shestakova/DemoService.java:66 | halts the listener and records the step |
| `DemoService.Service.ShutdownPoolStep` | src/main/java/ok/dht/test/shestakova/DemoService.java:67 | shuts the pool down; allowed only right after the listener was halted |
| `DemoService.Service.AwaitPoolStep` | src/main/java/ok/dht/test/shestakova/DemoService.java:68-74 | records the bounded wait; allowed only right after the pool was shut down |
| `DemoService.Service.CloseStoreStep` | src/main/java/ok/dht/test/shestakova/DemoService.java:75 | closes the store and logs one close; allowed only with the listener halted, the pool shut down and the wait just over |
| `DemoService.Calls` | src/main/java/ok/dht/test/shestakova/DemoService.java:81-144 | the store calls per request: one get for a valid GET, one upsert of `Present(body)` for a valid PUT with a body, one tombstone upsert for a valid DELETE, none otherwise |
| `DemoService.Service.HandleRequest` | src/main/java/ok/dht/test/shestakova/DemoService.java:43-51 | submits each request to the pool; a rejected request is answered 503 at once (corrected); an accepted one is answered later by its worker |
| `DemoService.Service.Execute` | src/main/java/ok/dht/test/shestakova/DemoService.java:44-50 | a worker answers its request as `Answer` says, changes the store as `Effect` says, makes exactly the store calls `Calls` lists, then frees its slot or takes a queued task |
| `DemoService.Service.Dispatch` | src/main/java/ok/dht/test/shestakova/DemoService.java:53-59 | the routed handler's answer and store change, and exactly the store calls `Calls` lists |
| `DemoService.Service.HandleGet` | src/main/java/ok/dht/test/shestakova/DemoService.java:81-102 | a null or empty id gives 400 with no store call; otherwise exactly one get of the id's key; never a fault; the store never changes |
| `DemoService.Service.HandlePut` | src/main/java/ok/dht/test/shestakova/DemoService.java:106-123 | a null or empty id gives 400 with no store call; a missing body faults with no store call; otherwise one upsert of `Present(body)` under the id's key, answered 201 with an empty body |
| `DemoService.Service.HandleDelete` | src/main/java/ok/dht/test/shestakova/DemoService.java:127-144 | a null or empty id gives 400 with no store call; otherwise one upsert of a tombstone under the id's key, answered 202 with an empty body |
| `DemoService.Service.HandleDefault` | src/main/java/ok/dht/test/shestakova/DemoService.java:54-57 | any unmatched request gets 400 with an empty body |
| `Admission.New` | src/main/java/ok/dht/test/shestakova/DemoService.java:34-40 | a new pool is valid, idle and accepting, with the given worker count and queue capacity |
| `Admission.Submit` | src/main/java/ok/dht/test/shestakova/DemoService.java:44 | a task starts iff a worker is free; it is rejected iff the pool is shut down or saturated, and a rejection changes nothing; otherwise it is queued; validity is kept |
| `Admission.Finish` | src/main/java/ok/dht/test/shestakova/DemoService.java:34-40 | a finishing worker lowers the load by one: it takes a queued task if there is one; validity is kept |
| `Admission.Shutdown` | src/main/java/ok/dht/test/shestakova/DemoService.java:67 | only the accepting flag changes: size, capacity, busy workers and queued tasks stay, and every later submission is rejected |
| `Admission.Burst` | src/main/java/ok/dht/test/shestakova/DemoService.java:44 | n submissions in a row give n verdicts |
| `Admission.BurstAt` | src/main/java/ok/dht/test/shestakova/DemoService.java:34-44 | the i-th submission of a burst starts, queues or is rejected according to the load ahead of it |
| `Admission.Backpressure` | src/main/java/ok/dht/test/shestakova/DemoService.java:23-44 | on a fresh pool, P + Q + 1 submissions start P tasks, queue Q and reject the last |
| `Admission.AcceptorReplyAsWritten` | src/main/java/ok/dht/test/shestakova/DemoService.java:43-51 | as written, an accepted task gets no immediate reply and a rejected one faults |
| `Admission.AcceptorReply` | src/main/java/ok/dht/test/shestakova/DemoService.java:43-51 | corrected: a rejected task is answered 503 with an empty body |
| `Admission.SaturatedPoolDropsRequest` | src/main/java/ok/dht/test/shestakova/DemoService.java:44 | a pool with 4 busy workers and 256 queued tasks, as written, drops the next request without a response |
| `Admission.OverloadAnswered` | src/main/java/ok/dht/test/shestakova/DemoService.java:44 | with the correction, no submission faults and a saturated pool answers 503 |

## Left out

- HTTP transport, sessions, acceptor configuration and `createConfigFromPort` (`:41-60`, `:146-153`) belong to the one.nio library. The routing it does is modelled only as a match on path and method.
- Threads. The pool is a sequential counter model. `awaitTermination` is the `Wait` parameter of `Stop`, and it may report `Terminated` only for an idle pool. Which request waits in which queue slot is not tracked.
- The order of concurrent writes to one key is the engine's contract and is not modelled.
- `Service.Stop` closes the store after an interrupted wait even if tasks remain. The model cannot show those tasks running against the closed store, because `Execute` requires an open store.
- `MemorySegmentDao` internals: persistence, flushing and compaction. The contents the engine recovers from its working directory are a parameter of `Start`. I/O failures while opening, reading or writing are not modelled, and the service does not catch them either.
- The `IOException` from `sendResponse` that a worker rethrows (`:47-48`) is not modelled, because response writing is transport I/O.
- `Start` when the service is already running: the source would drop the old handles without closing them, and the model simply replaces them.
- `Utf8.Encode`: Java strings can hold unpaired surrogates, which `getBytes` turns into `?`. Such strings are not modelled, because a Dafny `char` is a Unicode scalar value. Encoding is one-to-one only on well-formed strings.
- `MemorySegment` memory management, the `CompletableFuture` results of `start`/`stop`, and the `Factory` class (`:159-166`) are foreign-API glue.

## Findings

| source | as written | input that shows it | evidently intended | confidence | as-written member | corrected member |
|---|---|---|---|---|---|---|
| src/main/java/ok/dht/test/shestakova/DemoService.java:43-51 | `workersPool.execute` throws `RejectedExecutionException` from the acceptor callback when the pool is saturated, so no response is written | 4 workers all busy and 256 tasks queued, then one more request | answer the rejected request with an explicit 503 | not executed; the rejection behaviour is the documented default policy of `ThreadPoolExecutor` | `Admission.SaturatedPoolDropsRequest` | `Admission.OverloadAnswered` |
