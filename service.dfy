/**
  The key-value front end: three handlers on `/v0/entity`, the fallback
  handler, the hand-off of each request to the worker pool, and the start
  and stop sequences that open and close the store, the pool and the
  listener.
*/
module DemoService {
  import opened Wrappers
  import opened Utf8
  import opened Http
  import opened Store
  import Admission

  /** The engine's flush threshold, 1 << 20 bytes. */
  const FLUSH_THRESHOLD: int := 0x10_0000

  const ENTITY_PATH: string := "/v0/entity"

  // ---------------------------------------------------------------------
  // Pure request semantics

  /** An `id` is usable when it is present and not empty. */
  predicate ValidId(id: Option<string>) {
    id.Some? && id.value != []
  }

  /** The storage key of an `id`: absent stays absent, otherwise the UTF-8
      bytes of the string, which decode back to it. */
  function FromString(id: Option<string>): (r: Option<Key>)
    ensures r.Some? <==> id.Some?
    ensures r.Some? ==> Decode(r.value) == Some(id.value)
    ensures r.Some? ==> (r.value == [] <==> id.value == [])
  {
    DecodeEncode(if id.Some? then id.value else []);
    if id.None? then None else Some(Encode(id.value))
  }

  /** The key a valid `id` is stored under. */
  function KeyOf(id: Option<string>): Key
    requires ValidId(id)
  {
    FromString(id).value
  }

  /** Distinct ids give distinct keys. */
  lemma FromStringInjective(a: Option<string>, b: Option<string>)
    ensures FromString(a) == FromString(b) ==> a == b
  {
    if FromString(a) == FromString(b) && a.Some? {
      EncodeInjective(a.value, b.value);
    }
  }

  /** How the GET handler answers what the store's `get` returned: nothing
      is 404; a stored value is 200 with exactly its bytes; an entry whose
      value is a tombstone dereferences null and faults. */
  function GetReply(entry: Option<Entry>): (r: Outcome)
    ensures r == Empty(NOT_FOUND) <==> entry.None?
    ensures r.Fault? <==> entry.Some? && entry.value.value.Tombstone?
    ensures entry.Some? && entry.value.value.Present? ==>
      r == Sent(Response(OK, entry.value.value.bytes))
  {
    match entry
    case None => Empty(NOT_FOUND)
    case Some(Entry(_, Present(bytes))) => Sent(Response(OK, bytes))
    case Some(Entry(_, Tombstone)) => Fault
  }

  /** The answer to GET for a given `id` over store contents `m`. */
  function ReadReply(m: map<Key, ValueState>, id: Option<string>): (r: Outcome)
    ensures !ValidId(id) ==> r == Empty(BAD_REQUEST)
    ensures ValidId(id) ==> r.Sent? && r.response.status in {OK, NOT_FOUND}
    ensures ValidId(id) ==>
      (r == Empty(NOT_FOUND) <==> KeyOf(id) !in m || m[KeyOf(id)] == Tombstone)
    ensures ValidId(id) && KeyOf(id) in m && m[KeyOf(id)].Present? ==>
      r == Sent(Response(OK, m[KeyOf(id)].bytes))
  {
    if !ValidId(id) then Empty(BAD_REQUEST) else GetReply(Visible(m, KeyOf(id)))
  }

  /** The store's contents after writing value-state `v` under a valid `id`. */
  function Written(m: map<Key, ValueState>, id: Option<string>, v: ValueState): map<Key, ValueState>
    requires ValidId(id)
  {
    Apply(m, Entry(KeyOf(id), v))
  }

  /** PUT, then GET on the same id: exactly the body that was put. */
  lemma PutThenGet(m: map<Key, ValueState>, id: Option<string>, body: seq<byte>)
    requires ValidId(id)
    ensures ReadReply(Written(m, id, Present(body)), id) == Sent(Response(OK, body))
  {
  }

  /** DELETE, then GET on the same id: 404, whether or not the key existed. */
  lemma DeleteThenGet(m: map<Key, ValueState>, id: Option<string>)
    requires ValidId(id)
    ensures ReadReply(Written(m, id, Tombstone), id) == Empty(NOT_FOUND)
  {
  }

  /** A write under one id is invisible to GET on any other id. */
  lemma WriteLeavesOtherIds(m: map<Key, ValueState>, id: Option<string>, v: ValueState, other: Option<string>)
    requires ValidId(id) && other != id
    ensures ReadReply(Written(m, id, v), other) == ReadReply(m, other)
  {
    if ValidId(other) {
      FromStringInjective(id, other);
    }
  }

  /** Why the engine must hide tombstones: were `get` to return the
      tombstone it holds, GET on a deleted id would fault instead of 404. */
  lemma TombstoneThroughRawGetFaults(m: map<Key, ValueState>, id: Option<string>)
    requires ValidId(id)
    ensures GetReply(Raw(Written(m, id, Tombstone), KeyOf(id))) == Fault
    ensures GetReply(Visible(Written(m, id, Tombstone), KeyOf(id))) == Empty(NOT_FOUND)
  {
  }

  /** The handler a request reaches. */
  datatype Handler = GetHandler | PutHandler | DeleteHandler | DefaultHandler

  /** Routing: GET, PUT and DELETE on the entity path have handlers; every
      other method or path falls through to the default handler. */
  function Route(verb: Method, path: string): (h: Handler)
    ensures h != DefaultHandler <==> path == ENTITY_PATH && verb in {GET, PUT, DELETE}
    ensures h == GetHandler <==> path == ENTITY_PATH && verb == GET
    ensures h == PutHandler <==> path == ENTITY_PATH && verb == PUT
    ensures h == DeleteHandler <==> path == ENTITY_PATH && verb == DELETE
  {
    if path != ENTITY_PATH then DefaultHandler
    else match verb
      case GET => GetHandler
      case PUT => PutHandler
      case DELETE => DeleteHandler
      case _ => DefaultHandler
  }

  // ---------------------------------------------------------------------
  // The service object

  datatype ServerState = NoServer | Listening | Halted

  /** Steps of the start and stop sequences, in the order they happen. */
  datatype Action = OpenStore | CreatePool | StartServer | StopServer | ShutdownPool | AwaitPool | CloseStore

  /** How the bounded wait for the pool to drain ended. */
  datatype Wait = Terminated | TimedOut | Interrupted

  /** `Failed` is the exception thrown when the wait times out; `Stopped`
      records whether the thread's interrupt flag was set again. */
  datatype StopResult = Stopped(reinterrupted: bool) | Failed

  class Service {
    /** Workers in the pool: the number of available processors. */
    const poolSize: nat
    var dao: Dao?
    var workers: Option<Admission.Pool>
    var server: ServerState
    ghost var trace: seq<Action>

    ghost predicate Valid()
      reads this
    {
      && 1 <= poolSize
      && (workers.Some? ==> Admission.Valid(workers.value) && workers.value.size == poolSize
                            && workers.value.capacity == Admission.QUEUE_CAPACITY)
    }

    /** Handlers may run: the store is open. */
    ghost predicate Serving()
      reads this, dao
    {
      dao != null && dao.open
    }

    constructor (processors: nat)
      requires 1 <= processors
      ensures Valid() && poolSize == processors
      ensures dao == null && workers == None && server == NoServer && trace == []
    {
      poolSize := processors;
      dao := null;
      workers := None;
      server := NoServer;
      trace := [];
    }

    /** The last lifecycle step taken was `a`. */
    ghost predicate After(a: Action)
      reads this
    {
      trace != [] && trace[|trace| - 1] == a
    }

    /** Opens the store over what it recovers, with the 1 MiB flush threshold. */
    method OpenStoreStep(recovered: map<Key, ValueState>)
      modifies this`dao, this`trace
      ensures Serving() && fresh(dao)
      ensures dao.entries == recovered && dao.calls == [] && dao.flushThreshold == FLUSH_THRESHOLD
      ensures trace == old(trace) + [OpenStore]
    {
      dao := new Dao.Open(recovered, FLUSH_THRESHOLD);
      trace := trace + [OpenStore];
    }

    /** Builds the pool; only over a store that was just opened. */
    method CreatePoolStep()
      requires Valid() && Serving() && After(OpenStore)
      modifies this`workers, this`trace
      ensures Valid() && workers == Some(Admission.New(poolSize, Admission.QUEUE_CAPACITY))
      ensures trace == old(trace) + [CreatePool]
    {
      workers := Some(Admission.New(poolSize, Admission.QUEUE_CAPACITY));
      trace := trace + [CreatePool];
    }

    /** Starts the listener; only once the store is open and a fresh pool
        accepts tasks. */
    method StartServerStep()
      requires Serving() && workers.Some? && !workers.value.shutdown && After(CreatePool)
      modifies this`server, this`trace
      ensures server == Listening
      ensures trace == old(trace) + [StartServer]
    {
      server := Listening;
      trace := trace + [StartServer];
    }

    /** Opens the store, then builds the pool, then starts the listener. */
    method Start(recovered: map<Key, ValueState>)
      requires Valid()
      modifies this
      ensures Valid() && Serving() && fresh(dao)
      ensures dao.entries == recovered && dao.calls == [] && dao.flushThreshold == FLUSH_THRESHOLD
      ensures workers == Some(Admission.New(poolSize, Admission.QUEUE_CAPACITY))
      ensures server == Listening
      ensures trace == old(trace) + [OpenStore, CreatePool, StartServer]
    {
      OpenStoreStep(recovered);
      CreatePoolStep();
      StartServerStep();
    }

    /** Stops the listener, so that no new request comes in. */
    method StopServerStep()
      requires server != NoServer
      modifies this`server, this`trace
      ensures server == Halted
      ensures trace == old(trace) + [StopServer]
    {
      server := Halted;
      trace := trace + [StopServer];
    }

    /** Shuts the pool down; only once the listener has stopped. */
    method ShutdownPoolStep()
      requires Valid() && workers.Some? && server == Halted && After(StopServer)
      modifies this`workers, this`trace
      ensures Valid() && workers == Some(Admission.Shutdown(old(workers.value)))
      ensures trace == old(trace) + [ShutdownPool]
    {
      workers := Some(Admission.Shutdown(workers.value));
      trace := trace + [ShutdownPool];
    }

    /** The bounded wait for the pool; only after it was shut down. */
    method AwaitPoolStep()
      requires workers.Some? && workers.value.shutdown && After(ShutdownPool)
      modifies this`trace
      ensures trace == old(trace) + [AwaitPool]
    {
      trace := trace + [AwaitPool];
    }

    /** Closes the store; only with the listener stopped, the pool shut
        down and the wait for it just over. */
    method CloseStoreStep()
      requires Serving() && server == Halted && workers.Some? && workers.value.shutdown && After(AwaitPool)
      modifies this`trace, dao
      ensures dao == old(dao) && !dao.open && dao.entries == old(dao.entries)
      ensures dao.calls == old(dao.calls) + [CloseCall]
      ensures trace == old(trace) + [CloseStore]
    {
      dao.Close();
      trace := trace + [CloseStore];
    }

    /** Stops the listener, shuts the pool down, waits for it, then closes
        the store.  A timed-out wait throws before the store is closed; an
        interrupted one sets the interrupt flag again and closes the store
        all the same, whatever tasks the pool still holds. */
    method Stop(wait: Wait) returns (r: StopResult)
      requires Valid() && Serving() && workers.Some? && server != NoServer
      requires wait == Terminated ==> Admission.Idle(workers.value)
      modifies this, dao
      ensures Valid() && dao == old(dao) && dao.entries == old(dao.entries)
      ensures server == Halted
      ensures workers == Some(Admission.Shutdown(old(workers.value)))
      ensures r == if wait == TimedOut then Failed else Stopped(wait == Interrupted)
      ensures dao.open <==> wait == TimedOut
      ensures dao.calls == old(dao.calls) + if wait == TimedOut then [] else [CloseCall]
      ensures trace == old(trace) + [StopServer, ShutdownPool, AwaitPool]
                                  + if wait == TimedOut then [] else [CloseStore]
    {
      StopServerStep();
      ShutdownPoolStep();
      AwaitPoolStep();
      if wait == TimedOut {
        return Failed;
      }
      CloseStoreStep();
      r := Stopped(wait == Interrupted);
    }

    /** The acceptor's callback: every request is submitted to the pool; a
        rejected one is answered 503 at once (see `Admission.AcceptorReply`),
        an accepted one is answered later by the worker that runs it. */
    method HandleRequest(req: Request) returns (reply: Option<Outcome>)
      requires Valid() && workers.Some?
      modifies this`workers
      ensures Valid() && workers.Some?
      ensures var (v, p) := Admission.Submit(old(workers.value));
        workers.value == p && reply == Admission.AcceptorReply(v)
    {
      var (v, p) := Admission.Submit(workers.value);
      workers := Some(p);
      reply := Admission.AcceptorReply(v);
    }

    /** A worker runs one accepted request through the router and then
        takes the next queued task or becomes free. */
    method Execute(req: Request) returns (out: Outcome)
      requires Valid() && Serving() && workers.Some? && workers.value.busy > 0
      modifies this`workers, dao
      ensures Valid() && Serving() && dao == old(dao)
      ensures workers == Some(Admission.Finish(old(workers.value)))
      ensures out == Answer(old(dao.entries), req)
      ensures dao.entries == Effect(old(dao.entries), req)
      ensures dao.calls == old(dao.calls) + Calls(req)
    {
      out := Dispatch(req);
      workers := Some(Admission.Finish(workers.value));
    }

    /** Routes a request to its handler. */
    method Dispatch(req: Request) returns (out: Outcome)
      requires Serving()
      modifies dao
      ensures Serving() && dao == old(dao)
      ensures out == Answer(old(dao.entries), req)
      ensures dao.entries == Effect(old(dao.entries), req)
      ensures dao.calls == old(dao.calls) + Calls(req)
    {
      match Route(req.verb, req.path)
      case GetHandler => out := HandleGet(req.id);
      case PutHandler => out := HandlePut(req.id, req.body);
      case DeleteHandler => out := HandleDelete(req.id);
      case DefaultHandler => out := HandleDefault();
    }

    /** GET: a missing or empty id is 400 without touching the store;
        otherwise one `get` on the id's key, answered by `GetReply`.  The
        store never changes, and the answer is never a fault. */
    method HandleGet(id: Option<string>) returns (out: Outcome)
      requires Serving()
      modifies dao`calls
      ensures Serving() && dao == old(dao) && dao.entries == old(dao.entries)
      ensures out == ReadReply(old(dao.entries), id) && out.Sent?
      ensures !ValidId(id) ==> dao.calls == old(dao.calls)
      ensures ValidId(id) ==> dao.calls == old(dao.calls) + [GetCall(KeyOf(id))]
    {
      if id.None? || id.value == [] {
        return Empty(BAD_REQUEST);
      }
      var entry := dao.Get(FromString(id).value);
      if entry.None? {
        return Empty(NOT_FOUND);
      }
      out := GetReply(entry);
    }

    /** PUT: a missing or empty id is 400 without touching the store; a
        missing body faults before the store is reached; otherwise the
        body is upserted under the id's key and the answer is 201. */
    method HandlePut(id: Option<string>, body: Option<seq<byte>>) returns (out: Outcome)
      requires Serving()
      modifies dao`entries, dao`calls
      ensures Serving() && dao == old(dao)
      ensures !ValidId(id) ==> out == Empty(BAD_REQUEST)
      ensures ValidId(id) && body.None? ==> out == Fault
      ensures !ValidId(id) || body.None? ==>
        dao.entries == old(dao.entries) && dao.calls == old(dao.calls)
      ensures ValidId(id) && body.Some? ==>
        && out == Empty(CREATED)
        && dao.entries == Written(old(dao.entries), id, Present(body.value))
        && dao.calls == old(dao.calls) + [UpsertCall(Entry(KeyOf(id), Present(body.value)))]
    {
      if id.None? || id.value == [] {
        return Empty(BAD_REQUEST);
      }
      var key := FromString(id).value;
      if body.None? {
        return Fault;
      }
      dao.Upsert(Entry(key, Present(body.value)));
      out := Empty(CREATED);
    }

    /** DELETE: a missing or empty id is 400 without touching the store;
        otherwise a tombstone is upserted under the id's key and the
        answer is 202, whether or not the key held anything. */
    method HandleDelete(id: Option<string>) returns (out: Outcome)
      requires Serving()
      modifies dao`entries, dao`calls
      ensures Serving() && dao == old(dao)
      ensures !ValidId(id) ==> out == Empty(BAD_REQUEST)
      ensures !ValidId(id) ==> dao.entries == old(dao.entries) && dao.calls == old(dao.calls)
      ensures ValidId(id) ==>
        && out == Empty(ACCEPTED)
        && dao.entries == Written(old(dao.entries), id, Tombstone)
        && dao.calls == old(dao.calls) + [UpsertCall(Entry(KeyOf(id), Tombstone))]
    {
      if id.None? || id.value == [] {
        return Empty(BAD_REQUEST);
      }
      dao.Upsert(Entry(FromString(id).value, Tombstone));
      out := Empty(ACCEPTED);
    }

    /** Any request no handler matches: 400 with an empty body. */
    method HandleDefault() returns (out: Outcome)
      ensures out == Empty(BAD_REQUEST)
    {
      out := Empty(BAD_REQUEST);
    }
  }

  /** What the router answers to `req` over store contents `m`. */
  function Answer(m: map<Key, ValueState>, req: Request): (r: Outcome)
    ensures Route(req.verb, req.path) == DefaultHandler || !ValidId(req.id) ==> r == Empty(BAD_REQUEST)
    ensures r.Fault? <==> Route(req.verb, req.path) == PutHandler && ValidId(req.id) && req.body.None?
    ensures Route(req.verb, req.path) == GetHandler ==> r == ReadReply(m, req.id)
    ensures Route(req.verb, req.path) == PutHandler && ValidId(req.id) && req.body.Some? ==>
      r == Empty(CREATED)
    ensures Route(req.verb, req.path) == DeleteHandler && ValidId(req.id) ==> r == Empty(ACCEPTED)
  {
    match Route(req.verb, req.path)
    case GetHandler => ReadReply(m, req.id)
    case PutHandler =>
      if !ValidId(req.id) then Empty(BAD_REQUEST)
      else if req.body.None? then Fault
      else Empty(CREATED)
    case DeleteHandler => if !ValidId(req.id) then Empty(BAD_REQUEST) else Empty(ACCEPTED)
    case DefaultHandler => Empty(BAD_REQUEST)
  }

  /** The store contents after the router handles `req` over `m`. */
  function Effect(m: map<Key, ValueState>, req: Request): (r: map<Key, ValueState>)
    ensures Route(req.verb, req.path) !in {PutHandler, DeleteHandler} || !ValidId(req.id) ==> r == m
    ensures forall k :: k in m && (!ValidId(req.id) || k != KeyOf(req.id)) ==> k in r && r[k] == m[k]
    ensures r.Keys <= m.Keys + (if ValidId(req.id) then {KeyOf(req.id)} else {})
    ensures Route(req.verb, req.path) == PutHandler && req.body.None? ==> r == m
    ensures Route(req.verb, req.path) == PutHandler && ValidId(req.id) && req.body.Some? ==>
      KeyOf(req.id) in r && r[KeyOf(req.id)] == Present(req.body.value)
    ensures Route(req.verb, req.path) == DeleteHandler && ValidId(req.id) ==>
      KeyOf(req.id) in r && r[KeyOf(req.id)] == Tombstone
  {
    match Route(req.verb, req.path)
    case PutHandler =>
      if ValidId(req.id) && req.body.Some? then Written(m, req.id, Present(req.body.value)) else m
    case DeleteHandler => if ValidId(req.id) then Written(m, req.id, Tombstone) else m
    case _ => m
  }

  /** The store calls the router makes for `req`: one get of the id's key
      for GET, one upsert for PUT with a body and for DELETE, and none for
      a bad id, a PUT without a body or an unmatched request. */
  function Calls(req: Request): (r: seq<Call>)
    ensures Route(req.verb, req.path) == DefaultHandler || !ValidId(req.id) ==> r == []
    ensures Route(req.verb, req.path) == PutHandler && req.body.None? ==> r == []
    ensures Route(req.verb, req.path) == GetHandler && ValidId(req.id) ==> r == [GetCall(KeyOf(req.id))]
    ensures Route(req.verb, req.path) == PutHandler && ValidId(req.id) && req.body.Some? ==>
      r == [UpsertCall(Entry(KeyOf(req.id), Present(req.body.value)))]
    ensures Route(req.verb, req.path) == DeleteHandler && ValidId(req.id) ==>
      r == [UpsertCall(Entry(KeyOf(req.id), Tombstone))]
  {
    if !ValidId(req.id) then []
    else match Route(req.verb, req.path)
      case GetHandler => [GetCall(KeyOf(req.id))]
      case PutHandler =>
        if req.body.Some? then [UpsertCall(Entry(KeyOf(req.id), Present(req.body.value)))] else []
      case DeleteHandler => [UpsertCall(Entry(KeyOf(req.id), Tombstone))]
      case DefaultHandler => []
  }
}
