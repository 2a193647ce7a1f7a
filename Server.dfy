/**
 * The bridge process's `main`: a session table and an id counter updated in
 * place by a loop that reads a request, dispatches it and writes the
 * response. Each method is proved to do exactly what the functions of module
 * Sessions specify.
 */
module Server {
  import opened Wrappers
  import opened Framing
  import opened Protocol
  import opened Sessions

  class Bridge {
    /** The session table, by id (`toodles`). */
    var toodles: map<int, Toodle>
    /** The id the next `NewToodle` hands out (`next_toodle_id`). */
    var nextToodleId: int
    /** The JSON library and the store the bridge calls into. */
    const externals: Externals

    /** The bridge's state as a value of the specification. */
    function Snapshot(): Table
      reads this
    {
      Table(toodles, nextToodleId)
    }

    ghost predicate Valid()
      reads this
    {
      Sessions.Valid(Snapshot())
    }

    /** The state at start-up: an empty table and the counter at 1. */
    constructor (x: Externals)
      ensures Valid() && Snapshot() == Initial && externals == x
    {
      toodles := map[];
      nextToodleId := 1;
      externals := x;
    }

    /** Dispatch one decoded request against the table. */
    method Dispatch(req: Request) returns (resp: Response)
      requires Valid()
      modifies this
      ensures Valid()
      ensures (resp, Snapshot()) == Step(externals, old(Snapshot()), req)
    {
      match req
      case NewToodle(uri) =>
        var toodle := Toodle(uri, externals.openStore(uri));
        toodles := toodles[nextToodleId := toodle];
        resp := Response.NewToodle(nextToodleId);
        nextToodleId := nextToodleId + 1;
      case DestroyToodle(id) =>
        var present := id in toodles;
        toodles := toodles - {id};
        resp := Response.DestroyToodle(present);
      case CreateLabel(id, name, color) =>
        if id in toodles {
          match externals.createLabel(toodles[id].items, name, color)
          case Some(created) => resp := Response.CreateLabel(created);
          case None => resp := Response.Err(BadLabel);
        } else {
          resp := Response.Err(BadToodle);
        }
      case AddLabel(id, uuid, l) =>
        if id in toodles {
          var toodle := toodles[id];
          if uuid in toodle.items {
            var item := toodle.items[uuid];
            if l !in item.labels {
              item := item.(labels := item.labels + [l]);
              toodles := toodles[id := toodle.(items := toodle.items[uuid := item])];
            } else {
              assert toodle.items[uuid := item] == toodle.items;
              assert toodles[id := toodle] == toodles;
            }
            resp := Response.AddLabel;
          } else {
            resp := Response.Err(BadItem);
          }
        } else {
          resp := Response.Err(BadToodle);
        }
      case _ =>
        resp := Response.Err(BadRequest);
    }

    /**
     * The loop of `main` over a finite input stream: read a request, answer
     * it, write the response, until the input is used up. Returns everything
     * written.
     */
    method Serve(input: seq<byte>) returns (output: seq<byte>)
      requires Valid()
      modifies this
      ensures Valid()
      ensures (output, Snapshot()) == Sessions.Serve(externals, old(Snapshot()), input)
    {
      output := [];
      var rest := input;
      while rest != []
        invariant Valid()
        invariant output + Sessions.Serve(externals, Snapshot(), rest).0 ==
          Sessions.Serve(externals, old(Snapshot()), input).0
        invariant Sessions.Serve(externals, Snapshot(), rest).1 ==
          Sessions.Serve(externals, old(Snapshot()), input).1
        decreases |rest|
      {
        ghost var before := Snapshot();
        var next := ReadRequest(externals.json, rest);
        var read, unread := next.0, next.1;
        var resp: Response;
        match read {
          case Success(req) =>
            resp := Dispatch(req);
          case Failure(e) =>
            resp := Response.Err(e);
        }
        var out := WriteResponse(externals.json, resp);
        assert Round(externals, before, rest) == (out, Snapshot(), unread);
        output := output + out;
        rest := unread;
      }
      assert output + [] == output;
    }
  }
}
