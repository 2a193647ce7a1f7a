/**
 * The bridge's message vocabulary: the error kinds, the store's labels and
 * items, the closed set of requests and responses, and how one request is
 * read from the input stream and one response written to the output stream.
 * The JSON (de)serialisation itself belongs to an external library and is a
 * pair of functions supplied by the caller.
 */
module Protocol {
  import opened Wrappers
  import opened Framing

  /**
   * Why a request failed. The source's `Error` enum lists only the first
   * three kinds although the dispatcher also answers `BadItem`; the model
   * includes it.
   */
  datatype Error = BadRequest | BadToodle | BadLabel | BadItem

  /** A label of the store; two labels are the same label when name and colour are equal. */
  datatype Label = Label(name: string, color: string)

  /** A todo item of the store, identified by its uuid. */
  datatype Item = Item(
    uuid: string,
    name: string,
    dueDate: Option<int>,
    completionDate: Option<int>,
    labels: seq<Label>)

  /** The requests a peer may send, tagged by `type` on the wire. Ids are the wire's `i64`, modelled as an unbounded int. */
  datatype Request =
    | NewToodle(uri: string)
    | DestroyToodle(toodleId: int)
    | GetLabels
    | GetTodos(labelFilter: Option<seq<string>>)
    | CreateTodo(name: string, due: int, labelNames: seq<string>)
    | DeleteTodo(id: int)
    | MarkCompleted(id: int)
    | CreateLabel(toodleId: int, name: string, color: string)
    | AddLabel(toodleId: int, itemUuid: string, attached: Label)
    | SetDue(id: int, due: int)

  /** The responses the bridge sends, one per request. */
  datatype Response =
    | NewToodle(toodleId: int)
    | DestroyToodle(destroyed: bool)
    | CreateLabel(created: Label)
    | CreateItem(item: Item)
    | AddLabel
    | Err(error: Error)

  /** The JSON library as the bridge uses it: a partial parser of request bodies and a serialiser of responses. */
  datatype Json = Json(parseRequest: seq<byte> -> Option<Request>, serializeResponse: Response -> seq<byte>)

  /**
   * `Request::read_from`: read one frame and parse its body. A framing
   * failure or a body the parser rejects is `BadRequest`. A failed read means
   * the stream ended, so nothing of it is left; otherwise reading resumes
   * right after the frame, whether or not its body parsed.
   */
  function ReadRequest(json: Json, input: seq<byte>): (r: (Result<Request, Error>, seq<byte>))
    ensures r.0.Failure? ==> r.0.error == BadRequest
    ensures input != [] ==> |r.1| < |input|
    ensures ReadFrame(input).Failure? ==> r == (Failure(BadRequest), [])
    ensures ReadFrame(input).Success? ==>
      var frame := ReadFrame(input).value;
      && r.1 == frame.rest
      && (r.0.Success? <==> json.parseRequest(frame.body).Some?)
      && (r.0.Success? ==> r.0.value == json.parseRequest(frame.body).value)
  {
    match ReadFrame(input)
    case Failure(_) => (Failure(BadRequest), [])
    case Success(frame) =>
      match json.parseRequest(frame.body)
      case Some(request) => (Success(request), frame.rest)
      case None => (Failure(BadRequest), frame.rest)
  }

  /** `Response::write_to`: the serialised response as one frame. */
  function WriteResponse(json: Json, response: Response): (out: seq<byte>)
    ensures |json.serializeResponse(response)| < U32_LIMIT ==>
      ReadFrame(out) == Success(Frame(json.serializeResponse(response), []))
  {
    var body := json.serializeResponse(response);
    FrameReadsBack(body);
    WriteFrame(body)
  }

  /** A frame alone on a stream reads back as its body, when the body fits the 32-bit prefix. */
  lemma FrameReadsBack(body: seq<byte>)
    ensures |body| < U32_LIMIT ==> ReadFrame(WriteFrame(body)) == Success(Frame(body, []))
  {
    if |body| < U32_LIMIT {
      FrameRoundTrip(body, []);
      assert WriteFrame(body) + [] == WriteFrame(body);
    }
  }

  /**
   * A request written as a frame by a peer is read back as that request, and
   * the stream after it is left untouched.
   */
  lemma ReadRequestOfFrame(json: Json, body: seq<byte>, rest: seq<byte>)
    requires |body| < U32_LIMIT
    ensures ReadRequest(json, WriteFrame(body) + rest) ==
      (match json.parseRequest(body) case Some(q) => Success(q) case None => Failure(BadRequest), rest)
  {
    FrameRoundTrip(body, rest);
  }
}
