/**
 * The protocol bridge as a specification: the session table, the dispatch of
 * one request against it, and the read-dispatch-write loop over a whole input
 * stream. The class in module Server runs the same steps imperatively and is
 * proved equal to these functions.
 */
module Sessions {
  import opened Wrappers
  import opened Framing
  import opened Protocol

  /**
   * A live session (the source's `Toodle`): the uri its store was opened at
   * and the items that store holds, by uuid.
   */
  datatype Toodle = Toodle(uri: string, items: map<string, Item>)

  /**
   * The bridge's external collaborators: the JSON library, opening a store at
   * a uri (with whatever items are already persisted there), and the store's
   * `create_label`, which may refuse.
   */
  datatype Externals = Externals(
    json: Json,
    openStore: string -> map<string, Item>,
    createLabel: (map<string, Item>, string, string) -> Option<Label>)

  /** The state of the bridge's loop: the session table `toodles` and the counter `next_toodle_id`. */
  datatype Table = Table(toodles: map<int, Toodle>, nextToodleId: int)

  /** The state before the first request: no sessions, and the counter at 1. */
  const Initial: Table := Table(map[], 1)

  /** Every id in the table was handed out before: it is positive and below the counter. */
  predicate Valid(t: Table) {
    && 1 <= t.nextToodleId
    && forall id :: id in t.toodles ==> 1 <= id < t.nextToodleId
  }

  /**
   * The label update of `AddLabel`: append `l` to the item's labels unless
   * the item already holds it.
   */
  function AttachLabel(item: Item, l: Label): (r: Item)
    ensures r == item.(labels := r.labels)
    ensures |item.labels| <= |r.labels| <= |item.labels| + 1
    ensures r.labels[..|item.labels|] == item.labels
    ensures l in r.labels
    ensures l in item.labels ==> r == item
    ensures multiset(r.labels)[l] == if l in item.labels then multiset(item.labels)[l] else 1
  {
    if l in item.labels then item
    else
      assert (item.labels + [l])[..|item.labels|] == item.labels;
      item.(labels := item.labels + [l])
  }

  /** The session a request is addressed to, for the requests that carry one. */
  function Target(req: Request): Option<int> {
    match req
    case DestroyToodle(id) => Some(id)
    case CreateLabel(id, _, _) => Some(id)
    case AddLabel(id, _, _) => Some(id)
    case _ => None
  }

  /**
   * One dispatch step: the dispatcher's whole `match` on a decoded request. The request kinds the source does
   * not dispatch (`GetLabels`, `GetTodos`, `CreateTodo`, `DeleteTodo`,
   * `MarkCompleted`, `SetDue`) are answered with `BadRequest`.
   */
  function Step(x: Externals, t: Table, req: Request): (r: (Response, Table))
    ensures Valid(t) ==> Valid(r.1)
    ensures r.0.Err? ==> r.1 == t
    ensures r.1.nextToodleId == if req.NewToodle? then t.nextToodleId + 1 else t.nextToodleId
    ensures req.NewToodle? <==> r.0.NewToodle?
  {
    match req
    case NewToodle(uri) =>
      var id := t.nextToodleId;
      (Response.NewToodle(id), Table(t.toodles[id := Toodle(uri, x.openStore(uri))], id + 1))
    case DestroyToodle(id) =>
      (Response.DestroyToodle(id in t.toodles), t.(toodles := t.toodles - {id}))
    case CreateLabel(id, name, color) =>
      if id !in t.toodles then (Response.Err(BadToodle), t)
      else
        (match x.createLabel(t.toodles[id].items, name, color)
         case Some(created) => (Response.CreateLabel(created), t)
         case None => (Response.Err(BadLabel), t))
    case AddLabel(id, uuid, l) =>
      if id !in t.toodles then (Response.Err(BadToodle), t)
      else
        var toodle := t.toodles[id];
        if uuid !in toodle.items then (Response.Err(BadItem), t)
        else
          var item := AttachLabel(toodle.items[uuid], l);
          (Response.AddLabel, t.(toodles := t.toodles[id := toodle.(items := toodle.items[uuid := item])]))
    case _ => (Response.Err(BadRequest), t)
  }

  /** `NewToodle` answers the counter's value, which was not in the table, adds exactly that entry, and keeps every other. */
  lemma NewToodleAddsFreshId(x: Externals, t: Table, uri: string)
    requires Valid(t)
    ensures var (resp, t') := Step(x, t, Request.NewToodle(uri));
      && resp == Response.NewToodle(t.nextToodleId)
      && t.nextToodleId !in t.toodles
      && t'.toodles.Keys == t.toodles.Keys + {t.nextToodleId}
      && t'.toodles[t.nextToodleId] == Toodle(uri, x.openStore(uri))
      && forall id :: id in t.toodles ==> t'.toodles[id] == t.toodles[id]
  {
  }

  /** `DestroyToodle` reports whether the id was present, leaves it absent, and keeps every other entry and the counter. */
  lemma DestroyRemovesOnly(x: Externals, t: Table, id: int)
    ensures var (resp, t') := Step(x, t, Request.DestroyToodle(id));
      && resp == Response.DestroyToodle(id in t.toodles)
      && t'.toodles.Keys == t.toodles.Keys - {id}
      && t'.nextToodleId == t.nextToodleId
      && forall other :: other in t'.toodles ==> t'.toodles[other] == t.toodles[other]
  {
  }

  /** A second `DestroyToodle` of the same id reports `false` and changes nothing. */
  lemma DestroyTwice(x: Externals, t: Table, id: int)
    ensures var t' := Step(x, t, Request.DestroyToodle(id)).1;
      Step(x, t', Request.DestroyToodle(id)) == (Response.DestroyToodle(false), t')
  {
    var t' := Step(x, t, Request.DestroyToodle(id)).1;
    assert t'.toodles - {id} == t'.toodles;
  }

  /** A label request addressed to an id absent from the table is `BadToodle` and changes nothing. */
  lemma UnknownToodle(x: Externals, t: Table, req: Request)
    requires req.CreateLabel? || req.AddLabel?
    requires req.toodleId !in t.toodles
    ensures Step(x, t, req) == (Response.Err(BadToodle), t)
  {
  }

  /**
   * After `DestroyToodle(id)`, every request addressed to `id` is answered
   * exactly as in any table that never held `id`, and changes nothing.
   */
  lemma DestroyedIsNeverCreated(x: Externals, t: Table, u: Table, id: int, req: Request)
    requires Target(req) == Some(id)
    requires id !in u.toodles
    ensures var t' := Step(x, t, Request.DestroyToodle(id)).1;
      && Step(x, t', req).0 == Step(x, u, req).0
      && Step(x, t', req).1 == t'
      && Step(x, u, req).1 == u
  {
  }

  /** `CreateLabel` on a live session answers what the store's `create_label` yields, `BadLabel` when it yields nothing. */
  lemma CreateLabelOutcome(x: Externals, t: Table, id: int, name: string, color: string)
    requires id in t.toodles
    ensures Step(x, t, Request.CreateLabel(id, name, color)) ==
      match x.createLabel(t.toodles[id].items, name, color)
      case Some(created) => (Response.CreateLabel(created), t)
      case None => (Response.Err(BadLabel), t)
  {
  }

  /** `AddLabel` naming an item the session's store does not hold is `BadItem` and changes nothing. */
  lemma AddLabelUnknownItem(x: Externals, t: Table, id: int, uuid: string, l: Label)
    requires id in t.toodles && uuid !in t.toodles[id].items
    ensures Step(x, t, Request.AddLabel(id, uuid, l)) == (Response.Err(BadItem), t)
  {
  }

  /**
   * `AddLabel` on a held item answers `AddLabel`; the item's labels gain `l`
   * at the end unless already there, and no other item, session or counter
   * changes.
   */
  lemma AddLabelUpdatesOnlyItem(x: Externals, t: Table, id: int, uuid: string, l: Label)
    requires id in t.toodles && uuid in t.toodles[id].items
    ensures var (resp, t') := Step(x, t, Request.AddLabel(id, uuid, l));
      var before := t.toodles[id].items[uuid];
      && resp == Response.AddLabel
      && t'.nextToodleId == t.nextToodleId
      && t'.toodles.Keys == t.toodles.Keys
      && t'.toodles[id].uri == t.toodles[id].uri
      && t'.toodles[id].items.Keys == t.toodles[id].items.Keys
      && t'.toodles[id].items[uuid] ==
           before.(labels := if l in before.labels then before.labels else before.labels + [l])
      && (forall other :: other in t.toodles && other != id ==> t'.toodles[other] == t.toodles[other])
      && (forall u :: u in t.toodles[id].items && u != uuid ==> t'.toodles[id].items[u] == t.toodles[id].items[u])
  {
  }

  /**
   * `AddLabel` is idempotent: repeating it answers `AddLabel` again and
   * changes nothing; afterwards the label occurs exactly once on the item when
   * it occurred at most once before.
   */
  lemma AddLabelIdempotent(x: Externals, t: Table, id: int, uuid: string, l: Label)
    requires id in t.toodles && uuid in t.toodles[id].items
    ensures var req := Request.AddLabel(id, uuid, l);
      var t' := Step(x, t, req).1;
      && Step(x, t', req) == (Response.AddLabel, t')
      && (multiset(t.toodles[id].items[uuid].labels)[l] <= 1 ==>
            multiset(t'.toodles[id].items[uuid].labels)[l] == 1)
  {
    var req := Request.AddLabel(id, uuid, l);
    var t' := Step(x, t, req).1;
    var toodle := t'.toodles[id];
    var item := toodle.items[uuid];
    assert l in item.labels;
    assert AttachLabel(item, l) == item;
    assert toodle.items[uuid := item] == toodle.items;
    assert t'.toodles[id := toodle.(items := toodle.items)] == t'.toodles;
  }

  /** The responses to a sequence of requests dispatched one after another, and the table after them. */
  function Replay(x: Externals, t: Table, reqs: seq<Request>): (r: (seq<Response>, Table))
    ensures |r.0| == |reqs|
    ensures Valid(t) ==> Valid(r.1)
    decreases |reqs|
  {
    if reqs == [] then ([], t)
    else
      var (resp, t') := Step(x, t, reqs[0]);
      var (rest, t'') := Replay(x, t', reqs[1..]);
      ([resp] + rest, t'')
  }

  /**
   * Session ids handed out by `NewToodle` are strictly increasing, lie
   * between the counter before and the counter after, and so are never
   * handed out twice, whatever was destroyed in between.
   */
  lemma {:induction false} NewToodleIdsIncrease(x: Externals, t: Table, reqs: seq<Request>)
    ensures var (resps, t') := Replay(x, t, reqs);
      && t.nextToodleId <= t'.nextToodleId
      && (forall i :: 0 <= i < |resps| && resps[i].NewToodle? ==>
            t.nextToodleId <= resps[i].toodleId < t'.nextToodleId)
      && (forall i, j :: 0 <= i < j < |resps| && resps[i].NewToodle? && resps[j].NewToodle? ==>
            resps[i].toodleId < resps[j].toodleId)
    decreases |reqs|
  {
    if reqs != [] {
      var (resp, t1) := Step(x, t, reqs[0]);
      NewToodleIdsIncrease(x, t1, reqs[1..]);
      var (rest, t2) := Replay(x, t1, reqs[1..]);
      assert Replay(x, t, reqs) == ([resp] + rest, t2);
      assert resp.NewToodle? ==> resp.toodleId == t.nextToodleId && t1.nextToodleId == t.nextToodleId + 1;
    }
  }

  /** Three sessions, the second destroyed, then a fourth: the ids are 1, 2, 3 and then 4. */
  lemma ThreeSessionsThenOne(x: Externals, uri: string)
    ensures Replay(x, Initial, [Request.NewToodle(uri), Request.NewToodle(uri), Request.NewToodle(uri),
                                Request.DestroyToodle(2), Request.NewToodle(uri)]).0 ==
      [Response.NewToodle(1), Response.NewToodle(2), Response.NewToodle(3),
       Response.DestroyToodle(true), Response.NewToodle(4)]
  {
    var a := Toodle(uri, x.openStore(uri));
    var n, d := Request.NewToodle(uri), Request.DestroyToodle(2);
    var t1 := Table(map[1 := a], 2);
    var t2 := Table(map[1 := a, 2 := a], 3);
    var t3 := Table(map[1 := a, 2 := a, 3 := a], 4);
    var t4 := Table(map[1 := a, 3 := a], 4);
    assert Step(x, Initial, n) == (Response.NewToodle(1), t1);
    assert Step(x, t1, n) == (Response.NewToodle(2), t2);
    assert Step(x, t2, n) == (Response.NewToodle(3), t3);
    assert t3.toodles - {2} == t4.toodles;
    assert Step(x, t3, d) == (Response.DestroyToodle(true), t4);
    assert Replay(x, t4, [n]).0 == [Response.NewToodle(4)];
    assert [d, n][1..] == [n];
    assert Replay(x, t3, [d, n]).0 == [Response.DestroyToodle(true), Response.NewToodle(4)];
    assert [n, d, n][1..] == [d, n];
    assert Replay(x, t2, [n, d, n]).0 ==
      [Response.NewToodle(3), Response.DestroyToodle(true), Response.NewToodle(4)];
    assert [n, n, d, n][1..] == [n, d, n];
    assert Replay(x, t1, [n, n, d, n]).0 ==
      [Response.NewToodle(2), Response.NewToodle(3), Response.DestroyToodle(true), Response.NewToodle(4)];
    assert [n, n, n, d, n][1..] == [n, n, d, n];
  }

  /**
   * One pass of the bridge's loop: read a request, dispatch it (a read
   * failure is answered with its error), and write the response. Yields the
   * response frame, the new table and the unread input.
   */
  function Round(x: Externals, t: Table, input: seq<byte>): (r: (seq<byte>, Table, seq<byte>))
    ensures Valid(t) ==> Valid(r.1)
    ensures t.nextToodleId <= r.1.nextToodleId
    ensures input != [] ==> |r.2| < |input|
  {
    var (read, rest) := ReadRequest(x.json, input);
    var (resp, t') := match read
      case Success(req) => Step(x, t, req)
      case Failure(e) => (Response.Err(e), t);
    (WriteResponse(x.json, resp), t', rest)
  }

  /**
   * The bridge's loop over a finite input stream, ending when the input is
   * used up: the bytes written and the final table.
   */
  function Serve(x: Externals, t: Table, input: seq<byte>): (r: (seq<byte>, Table))
    ensures Valid(t) ==> Valid(r.1)
    ensures t.nextToodleId <= r.1.nextToodleId
    decreases |input|
  {
    if input == [] then ([], t)
    else
      var (out, t', rest) := Round(x, t, input);
      var (more, t'') := Serve(x, t', rest);
      (out + more, t'')
  }

  /** Frames laid end to end, as a peer writes them. */
  function WriteFrames(bodies: seq<seq<byte>>): (s: seq<byte>)
    ensures bodies != [] ==> |s| >= 4
    decreases |bodies|
  {
    if bodies == [] then [] else WriteFrame(bodies[0]) + WriteFrames(bodies[1..])
  }

  /** Response frames laid end to end, as the bridge writes them. */
  function WriteResponses(json: Json, resps: seq<Response>): (s: seq<byte>)
    ensures resps != [] ==> |s| >= 4
    decreases |resps|
  {
    if resps == [] then [] else WriteResponse(json, resps[0]) + WriteResponses(json, resps[1..])
  }

  /**
   * On a stream of well-formed request frames the loop answers each request
   * in order with exactly one response frame, and ends in the table that
   * dispatching the requests one after another produces.
   */
  lemma {:induction false} ServeFrames(x: Externals, t: Table, bodies: seq<seq<byte>>, reqs: seq<Request>)
    requires |bodies| == |reqs|
    requires forall i :: 0 <= i < |bodies| ==>
      |bodies[i]| < U32_LIMIT && x.json.parseRequest(bodies[i]) == Some(reqs[i])
    ensures Serve(x, t, WriteFrames(bodies)) ==
      (WriteResponses(x.json, Replay(x, t, reqs).0), Replay(x, t, reqs).1)
    decreases |bodies|
  {
    if bodies != [] {
      var rest := WriteFrames(bodies[1..]);
      ReadRequestOfFrame(x.json, bodies[0], rest);
      var (resp, t1) := Step(x, t, reqs[0]);
      assert Round(x, t, WriteFrames(bodies)) == (WriteResponse(x.json, resp), t1, rest);
      ServeFrames(x, t1, bodies[1..], reqs[1..]);
    }
  }

  /**
   * A frame whose body does not parse is answered with `BadRequest`, leaves
   * the table alone, and the loop carries on with the next frame as if the
   * bad one had not been sent.
   */
  lemma BadBodyIsSkipped(x: Externals, t: Table, body: seq<byte>, more: seq<byte>)
    requires |body| < U32_LIMIT && x.json.parseRequest(body) == None
    ensures Serve(x, t, WriteFrame(body) + more) ==
      (WriteResponse(x.json, Response.Err(BadRequest)) + Serve(x, t, more).0, Serve(x, t, more).1)
  {
    ReadRequestOfFrame(x.json, body, more);
  }

  /** A stream that ends inside a frame is answered with one `BadRequest` and ends the loop with the table unchanged. */
  lemma TruncatedFrameEndsLoop(x: Externals, t: Table, body: seq<byte>, m: nat)
    requires |body| < U32_LIMIT
    requires 0 < m < 4 + |body|
    ensures Serve(x, t, WriteFrame(body)[..m]) == (WriteResponse(x.json, Response.Err(BadRequest)), t)
  {
    TruncatedFrameFails(body, m);
    var out := WriteResponse(x.json, Response.Err(BadRequest));
    assert Round(x, t, WriteFrame(body)[..m]) == (out, t, []);
    assert out + [] == out;
  }

  /** `n` copies of `s`, one after another. */
  function Repeat(s: seq<byte>, n: nat): seq<byte> {
    if n == 0 then [] else s + Repeat(s, n - 1)
  }

  /**
   * The loop as the source writes it: `loop` without an exit, so it runs
   * `rounds` passes whatever is left of the input.
   */
  function RunAsWritten(x: Externals, t: Table, input: seq<byte>, rounds: nat): (r: (seq<byte>, Table))
    ensures t.nextToodleId <= r.1.nextToodleId
    decreases rounds
  {
    if rounds == 0 then ([], t)
    else
      var (out, t', rest) := Round(x, t, input);
      var (more, t'') := RunAsWritten(x, t', rest, rounds - 1);
      (out + more, t'')
  }

  /**
   * Once the input is used up, every further pass of the source's loop fails
   * to read and writes another `BadRequest` frame: the loop never stops.
   */
  lemma {:induction false} AsWrittenSpinsAtEnd(x: Externals, t: Table, rounds: nat)
    ensures RunAsWritten(x, t, [], rounds) ==
      (Repeat(WriteResponse(x.json, Response.Err(BadRequest)), rounds), t)
  {
    if rounds > 0 {
      AsWrittenSpinsAtEnd(x, t, rounds - 1);
    }
  }

  /** The corrected loop stops at the end of the input, writing nothing more and keeping the table. */
  lemma ServeStopsAtEnd(x: Externals, t: Table)
    ensures Serve(x, t, []) == ([], t)
  {
  }
}
