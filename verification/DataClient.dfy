/**
 The conditional-request cache of tui/src/data-client.ts: what one completed
 request does to it, and what overlapping requests get from it while the server
 keeps changing.
 */
module DataClient {
  import opened Wrappers

  type Path = string
  type Etag = string
  /** A JSON value, by its text. */
  type Json = string

  const JSON_NULL: Json := "null"

  datatype Cached = Cached(etag: Etag, body: Json)

  /** How reading a response body ends: JSON, a refusal of the bounded reader, or a broken read. */
  datatype Body<J> = Parsed(json: J) | Refused | Broken

  datatype Response<J> = Response(status: nat, etag: Option<Etag>, body: Body<J>)

  datatype Outcome = Accepted | Unchanged

  datatype Snapshot<J> = Snapshot(data: J, outcome: Outcome)

  datatype ClientError =
    | NotModifiedBeforeSnapshot
    | OverBudget(status: nat)
    | ServerError(status: nat)
    | Malformed(status: nat)

  predicate Success(status: nat) {
    200 <= status < 300
  }

  /** The rest of `getJsonResult` once its response is there; `cached` is what it read from the cache before. */
  function Complete(cache: map<Path, Cached>, path: Path, cached: Option<Cached>, r: Response<Json>)
    : (map<Path, Cached>, Result<Snapshot<Json>, ClientError>)
  {
    if r.status == 304 then
      (cache, if cached.None? then Err(NotModifiedBeforeSnapshot) else Ok(Snapshot(cached.value.body, Unchanged)))
    else if r.body.Refused? then (cache, Err(OverBudget(r.status)))
    else if !Success(r.status) then
      (if r.status == 404 || r.status == 410 then cache - {path} else cache, Err(ServerError(r.status)))
    else if r.body.Broken? || r.body.json == JSON_NULL then (cache, Err(Malformed(r.status)))
    else
      (if r.etag.Some? && r.etag.value != "" then cache[path := Cached(r.etag.value, r.body.json)] else cache,
       Ok(Snapshot(r.body.json, Accepted)))
  }

  /** When a request succeeds, and what it changes in the cache: its own path at most. */
  lemma CompleteIsExact(cache: map<Path, Cached>, path: Path, cached: Option<Cached>, r: Response<Json>)
    ensures var (after, result) := Complete(cache, path, cached, r);
            var anew := r.status != 304 && 200 <= r.status <= 299 && r.body.Parsed? && r.body.json != "null";
            && (result.Ok? <==> anew || (r.status == 304 && cached.Some?))
            && (result.Ok? ==> result.value.data == if anew then r.body.json else cached.value.body)
            && (result.Ok? ==> (result.value.outcome.Accepted? <==> anew))
            && (forall p :: p != path ==> Lookup(after, p) == Lookup(cache, p))
            && Lookup(after, path)
               == (if anew && r.etag.Some? && r.etag.value != "" then Some(Cached(r.etag.value, r.body.json))
                   else if r.status in {404, 410} && !r.body.Refused? then None
                   else Lookup(cache, path))
  {
  }

  // ----- the code: a shared map of objects that callers must not be able to reach

  /** A JSON value held by reference. */
  class Box {
    var json: Json

    constructor (json: Json)
      ensures this.json == json
    {
      this.json := json;
    }
  }

  datatype Entry = Entry(etag: Etag, body: Box)

  class JsonClient {
    var cache: map<Path, Entry>
    /** Every clone this client ever stored. */
    ghost var owned: set<Box>

    ghost predicate Valid()
      reads this
    {
      forall p :: p in cache ==> cache[p].body in owned
    }

    /** The cache by value. */
    ghost function Contents(): map<Path, Cached>
      requires Valid()
      reads this, owned
    {
      map p | p in cache :: Cached(cache[p].etag, cache[p].body.json)
    }

    constructor ()
      ensures Valid() && owned == {} && Contents() == map[]
    {
      cache, owned := map[], {};
    }

    method CloneJson(value: Box) returns (copy: Box)
      ensures fresh(copy) && copy.json == value.json
    {
      copy := new Box(value.json);
    }

    /** Before the request: what its `If-None-Match` is taken from. */
    method Begin(path: Path) returns (cached: Option<Entry>)
      requires Valid()
      ensures cached.Some? ==> cached.value.body in owned
      ensures (if cached.Some? then Some(Cached(cached.value.etag, cached.value.body.json)) else None)
           == (if path in Contents() then Some(Contents()[path]) else None)
    {
      cached := if path in cache then Some(cache[path]) else None;
    }

    method Store(path: Path, etag: Etag, body: Box)
      requires Valid() && body !in owned
      modifies this
      ensures Valid() && old(owned) <= owned && body !in owned && fresh(owned - old(owned))
      ensures Contents() == old(Contents())[path := Cached(etag, old(body.json))]
    {
      var stored := CloneJson(body);
      cache := cache[path := Entry(etag, stored)];
      owned := owned + {stored};
    }

    /** After the request. Other requests may have completed in between. */
    method Finish(path: Path, cached: Option<Entry>, r: Response<Box>)
      returns (result: Result<Snapshot<Box>, ClientError>)
      requires Valid()
      requires cached.Some? ==> cached.value.body in owned
      requires r.body.Parsed? ==> r.body.json !in owned
      modifies this
      ensures Valid() && old(owned) <= owned
      ensures forall box :: box in old(owned) ==> box.json == old(box.json)
      ensures result.Ok? ==> fresh(result.value.data) && result.value.data !in owned
      ensures var reply := Response(r.status, r.etag,
                if r.body.Parsed? then Parsed(old(r.body.json.json)) else if r.body.Refused? then Refused else Broken);
              var before := if cached.Some? then Some(Cached(cached.value.etag, old(cached.value.body.json))) else None;
              var (after, value) := Complete(old(Contents()), path, before, reply);
              && Contents() == after
              && (result.Ok? <==> value.Ok?)
              && (result.Ok?
                  ==> result.value.data.json == value.value.data && result.value.outcome == value.value.outcome)
              && (result.Err? ==> result.error == value.error)
    {
      if r.status == 304 {
        if cached.None? { return Err(NotModifiedBeforeSnapshot); }
        var data := CloneJson(cached.value.body);
        return Ok(Snapshot(data, Unchanged));
      }
      if r.body.Refused? { return Err(OverBudget(r.status)); }
      if !Success(r.status) {
        if r.status == 404 || r.status == 410 { cache := cache - {path}; }
        return Err(ServerError(r.status));
      }
      if r.body.Broken? || r.body.json.json == JSON_NULL { return Err(Malformed(r.status)); }
      if r.etag.Some? && r.etag.value != "" { Store(path, r.etag.value, r.body.json); }
      var data := CloneJson(r.body.json);
      return Ok(Snapshot(data, Accepted));
    }
  }

  // ----- overlapping requests against a changing server

  /** The representation a server currently holds. */
  datatype Rep = Rep(etag: Option<Etag>, body: Json)

  type RequestId = nat

  /** A request under way: what it read from the cache, and the reply with what the server held when it answered. */
  datatype Flight = Flight(path: Path, cached: Option<Cached>, answer: Option<Answer>)

  datatype Answer = Answer(reply: Response<Json>, held: Option<Json>)

  datatype Done = Done(path: Path, result: Result<Snapshot<Json>, ClientError>, held: Option<Json>)

  datatype World = World(
    server: map<Path, Rep>,
    versions: set<(Path, Cached)>, // every validator the server ever held, with its body
    sent: set<(Path, Cached)>,     // those it put into a 200 reply together
    cache: map<Path, Cached>,
    flights: map<RequestId, Flight>,
    done: seq<Done>)

  datatype Step =
    | ServerPuts(path: Path, rep: Rep)
    | ServerDrops(path: Path)
    | Start(id: RequestId, path: Path)
    | Answers(id: RequestId, reply: Response<Json>)
    | Finishes(id: RequestId)
    | Aborts(id: RequestId)

  /**
   A reply the server may give: 304 only when the request's validator is the
   current one (RFC 9110, sections 13.1.2 and 15.4.5); a success carries the
   current representation. Errors are unconstrained.
   */
  predicate Honest(server: map<Path, Rep>, path: Path, cached: Option<Cached>, r: Response<Json>) {
    && (r.status == 304 ==> path in server && cached.Some? && server[path].etag == Some(cached.value.etag))
    && (Success(r.status)
        ==> path in server && r.etag == server[path].etag && (r.body.Parsed? ==> r.body.json == server[path].body))
  }

  predicate Enabled(w: World, step: Step) {
    match step
    // A strong validator never stands for two bodies (RFC 9110, section 8.8.1).
    case ServerPuts(path, rep) => rep.etag.Some?
        ==> forall v :: v in w.versions && v.0 == path && v.1.etag == rep.etag.value ==> v.1.body == rep.body
    case ServerDrops(_) => true
    case Start(id, _) => id !in w.flights
    case Answers(id, reply) => id in w.flights && w.flights[id].answer.None?
        && Honest(w.server, w.flights[id].path, w.flights[id].cached, reply)
    case Finishes(id) => id in w.flights && w.flights[id].answer.Some?
    case Aborts(id) => id in w.flights
  }

  function Held(server: map<Path, Rep>, path: Path): Option<Json> {
    if path in server then Some(server[path].body) else None
  }

  function Apply(w: World, step: Step): World
    requires Enabled(w, step)
  {
    match step
    case ServerPuts(path, rep) =>
      w.(server := w.server[path := rep],
         versions := if rep.etag.Some? then w.versions + {(path, Cached(rep.etag.value, rep.body))} else w.versions)
    case ServerDrops(path) => w.(server := w.server - {path})
    case Start(id, path) =>
      w.(flights := w.flights[id := Flight(path, if path in w.cache then Some(w.cache[path]) else None, None)])
    case Answers(id, reply) =>
      var f := w.flights[id];
      w.(flights := w.flights[id := f.(answer := Some(Answer(reply, Held(w.server, f.path))))],
         sent := if Success(reply.status) && reply.body.Parsed? && reply.etag.Some?
                 then w.sent + {(f.path, Cached(reply.etag.value, reply.body.json))} else w.sent)
    case Finishes(id) =>
      var f := w.flights[id];
      var (cache, result) := Complete(w.cache, f.path, f.cached, f.answer.value.reply);
      w.(cache := cache, flights := w.flights - {id}, done := w.done + [Done(f.path, result, f.answer.value.held)])
    case Aborts(id) => w.(flights := w.flights - {id})
  }

  const INITIAL := World(map[], {}, {}, map[], map[], [])

  ghost predicate Reaches(from: World, steps: seq<Step>, to: World)
    decreases |steps|
  {
    if steps == [] then from == to
    else Enabled(from, steps[0]) && Reaches(Apply(from, steps[0]), steps[1..], to)
  }

  // ----- what holds in every reachable world

  ghost predicate ServerConsistent(w: World) {
    && (forall p ::
        p in w.server && w.server[p].etag.Some?
        ==> (p, Cached(w.server[p].etag.value, w.server[p].body)) in w.versions)
    && (forall u, v ::
        u in w.versions && v in w.versions && u.0 == v.0 && u.1.etag == v.1.etag
        ==> u.1.body == v.1.body)
    && w.sent <= w.versions
  }

  ghost predicate FlightConsistent(w: World, f: Flight) {
    && (f.cached.Some? ==> (f.path, f.cached.value) in w.sent)
    && (f.answer.Some? ==>
          var (r, held) := (f.answer.value.reply, f.answer.value.held);
          && (r.status == 304 ==> f.cached.Some? && held == Some(f.cached.value.body))
          && (Success(r.status) && r.body.Parsed? ==>
                held == Some(r.body.json) && (r.etag.Some? ==> (f.path, Cached(r.etag.value, r.body.json)) in w.sent)))
  }

  /** A successful result is what the server held when it answered; a 304 never comes too early. */
  predicate Faithful(d: Done) {
    match d.result
    case Ok(snapshot) => d.held == Some(snapshot.data)
    case Err(error) => error != NotModifiedBeforeSnapshot
  }

  ghost predicate Consistent(w: World) {
    && ServerConsistent(w)
    && (forall p :: p in w.cache ==> (p, w.cache[p]) in w.sent)
    && (forall id :: id in w.flights ==> FlightConsistent(w, w.flights[id]))
    && (forall i :: 0 <= i < |w.done| ==> Faithful(w.done[i]))
  }

  lemma CompleteIsFaithful(w: World, f: Flight)
    requires f.answer.Some? && FlightConsistent(w, f)
    requires forall p :: p in w.cache ==> (p, w.cache[p]) in w.sent
    ensures var (cache, result) := Complete(w.cache, f.path, f.cached, f.answer.value.reply);
            && Faithful(Done(f.path, result, f.answer.value.held))
            && (forall p :: p in cache ==> (p, cache[p]) in w.sent)
  {
  }

  lemma StepKeepsConsistent(w: World, step: Step)
    requires Consistent(w) && Enabled(w, step)
    ensures Consistent(Apply(w, step))
  {
    var after := Apply(w, step);
    if step.Finishes? {
      CompleteIsFaithful(w, w.flights[step.id]);
    }
    if step.Answers? {
      var f := w.flights[step.id];
      assert FlightConsistent(after, after.flights[step.id]) by {
        assert f.cached.Some? ==> (f.path, f.cached.value) in w.versions;
      }
      forall id | id in after.flights ensures FlightConsistent(after, after.flights[id]) {
        if id != step.id { assert FlightConsistent(w, w.flights[id]); }
      }
    } else {
      forall id | id in after.flights ensures FlightConsistent(after, after.flights[id]) {
        if id in w.flights { assert FlightConsistent(w, w.flights[id]); }
      }
    }
  }

  lemma {:induction false} RunKeepsConsistent(from: World, steps: seq<Step>, to: World)
    requires Consistent(from) && Reaches(from, steps, to)
    ensures Consistent(to)
    decreases |steps|
  {
    if steps != [] {
      StepKeepsConsistent(from, steps[0]);
      RunKeepsConsistent(Apply(from, steps[0]), steps[1..], to);
    }
  }

  /**
   Whatever the interleaving of requests, server changes, replies, aborts and
   cache updates: every successful result is the representation the server held
   when it answered that request, every cache entry is a validator and a body
   the server once sent together, and no 304 arrives before a snapshot.
   */
  lemma EveryRunIsFaithful(steps: seq<Step>, w: World)
    requires Reaches(INITIAL, steps, w)
    ensures forall i :: 0 <= i < |w.done| ==> Faithful(w.done[i])
    ensures forall p :: p in w.cache ==> (p, w.cache[p]) in w.sent
  {
    RunKeepsConsistent(INITIAL, steps, w);
  }

  /** The world after three steps of one request. */
  ghost predicate Served(w: World, id: RequestId, path: Path, reply: Response<Json>, after: World) {
    Reaches(w, [Start(id, path), Answers(id, reply), Finishes(id)], after)
  }

  /**
   From any world in which the server holds a value with a validator: a request
   gets the value and caches it, and the next one is told that it is unchanged
   and gets the same value, without its body being sent again.
   */
  lemma SecondRequestIsUnchanged(w: World, id: RequestId, path: Path, etag: Etag, body: Json)
    requires Consistent(w) && id !in w.flights && path in w.server && w.server[path] == Rep(Some(etag), body)
    requires etag != "" && body != "null"
    ensures exists one, two ::
              && Served(w, id, path, Response(200, Some(etag), Parsed(body)), one)
              && one.cache == w.cache[path := Cached(etag, body)]
              && one.done == w.done + [Done(path, Ok(Snapshot(body, Accepted)), Some(body))]
              && Served(one, id, path, Response(304, Some(etag), Broken), two)
              && two.cache == one.cache && two.server == w.server
              && two.done == one.done + [Done(path, Ok(Snapshot(body, Unchanged)), Some(body))]
  {
    var one := ServeOne(w, id, path, Response(200, Some(etag), Parsed(body)));
    assert one.cache == w.cache[path := Cached(etag, body)];
    var two := ServeOne(one, id, path, Response(304, Some(etag), Broken));
  }

  lemma ServeOne(w: World, id: RequestId, path: Path, reply: Response<Json>) returns (after: World)
    requires id !in w.flights && path in w.server
    requires Honest(w.server, path, Lookup(w.cache, path), reply)
    ensures Served(w, id, path, reply, after)
    ensures after.server == w.server && id !in after.flights
    ensures var (cache, result) := Complete(w.cache, path, Lookup(w.cache, path), reply);
            after.cache == cache && after.done == w.done + [Done(path, result, Some(w.server[path].body))]
  {
    hide Complete, Honest;
    var steps := [Start(id, path), Answers(id, reply), Finishes(id)];
    var started := Apply(w, steps[0]);
    var answered := Apply(started, steps[1]);
    after := Apply(answered, steps[2]);
    assert steps[1..][0] == steps[1] && steps[1..][1..] == [steps[2]] && [steps[2]][1..] == [];
    assert Reaches(after, [], after);
    assert Reaches(answered, [steps[2]], after);
    assert Reaches(started, steps[1..], after);
  }
}
