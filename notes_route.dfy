/**
  The notes API route (app/api/notes/route.ts): a module-level in-memory
  array of notes and the `POST` handler that validates a request body and
  appends a new note to it.

  The parsed request body, the generated UUID and the creation time are
  inputs; the response is a status code with a JSON body.
 */
module NotesRoute {
  import opened Json

  /** Milliseconds since the epoch, as `new Date()` reads it. */
  type Timestamp = int

  /**
    A stored note. `content` holds whatever truthy JSON value the request
    carried: the handler declares it a string but never checks its type.
   */
  datatype Note = Note(id: string, content: Value, createdAt: Timestamp)

  /** What `await request.json()` gave: a parse failure (it throws) or a value. */
  datatype ParsedBody = Malformed | Parsed(json: Value)

  datatype ResponseBody = ErrorMessage(error: string) | Created(note: Note)

  datatype Response = Response(status: int, body: ResponseBody)

  const ContentRequired := "Content is required"
  const ProcessingError := "Error processing request"

  /** The three ways a `POST` can end. */
  datatype Verdict = Failed | Rejected | Accepted(content: Value)

  /**
    How the handler judges a body: an exception (parse failure, or
    destructuring `null`) ends in the `catch`; a falsy or missing `content`
    is rejected; anything else is accepted with `content` as it came.
   */
  function Judge(body: ParsedBody): (v: Verdict)
    ensures v.Failed? <==> body == Malformed || body == Parsed(Null)
    ensures v.Accepted? <==> body.Parsed? && body.json.Object? && "content" in body.json.members
                             && IsTruthy(body.json.members["content"])
    ensures v.Accepted? ==> v.content == body.json.members["content"]
  {
    match body
    case Malformed => Failed
    case Parsed(json) =>
      match ContentProperty(json)
      case Throws => Failed
      case Undefined => Rejected
      case Defined(content) => if IsTruthy(content) then Accepted(content) else Rejected
  }

  /** The module-level `notes` array together with the `POST` handler that appends to it. */
  class NoteStore {
    var notes: seq<Note>

    /** The store starts empty when the module is loaded. */
    constructor ()
      ensures notes == []
    {
      notes := [];
    }

    /**
      `POST /api/notes`. Status 500 with "Error processing request" when the
      body does not parse or is `null`; 400 with "Content is required" when
      `content` is missing or falsy; otherwise 201 with the new note, which
      is appended at the end of the store. Only the 201 path changes the store.
     */
    method Post(body: ParsedBody, uuid: string, now: Timestamp) returns (response: Response)
      modifies this
      ensures response.status == 500 <==> body == Malformed || body == Parsed(Null)
      ensures response.status == 500 ==> response.body == ErrorMessage(ProcessingError)
      ensures response.status == 400 <==> Judge(body).Rejected?
      ensures response.status == 400 ==> response.body == ErrorMessage(ContentRequired)
      ensures response.status == 201 <==> Judge(body).Accepted?
      ensures response.status == 201 ==>
                response.body == Created(Note(uuid, Judge(body).content, now))
                && notes == old(notes) + [response.body.note]
      ensures response.status != 201 ==> notes == old(notes)
      ensures |old(notes)| <= |notes| <= |old(notes)| + 1
      ensures |notes| == |old(notes)| + 1 <==> response.status == 201
    {
      if body.Malformed? {
        return Response(500, ErrorMessage(ProcessingError));
      }
      var property := ContentProperty(body.json);
      if property.Throws? {
        return Response(500, ErrorMessage(ProcessingError));
      }
      if property.Undefined? || !IsTruthy(property.value) {
        return Response(400, ErrorMessage(ContentRequired));
      }
      var newNote := Note(uuid, property.value, now);
      notes := notes + [newNote];
      response := Response(201, Created(newNote));
    }
  }

  /** A body whose `content` is missing or falsy is rejected, whatever else the object holds. */
  lemma FalsyContentIsRejected(members: map<string, Value>)
    requires "content" !in members || members["content"] in {Null, Bool(false), Number(0.0), String("")}
    ensures Judge(Parsed(Object(members))) == Rejected
  {
  }

  /** Primitive and array bodies have no `content` property, so they are rejected, not failed. */
  lemma NonObjectBodyIsRejected(json: Value)
    requires !json.Object? && json != Null
    ensures Judge(Parsed(json)) == Rejected
  {
  }

  /** The four requests of the handler's test file, and what the handler does with them. */
  lemma HandlerTestCases()
    ensures Judge(Parsed(Object(map["content" := String("My first test note")])))
            == Accepted(String("My first test note"))
    ensures Judge(Parsed(Object(map[]))) == Rejected
    ensures Judge(Parsed(Object(map["content" := String("")]))) == Rejected
    ensures Judge(Malformed) == Failed
  {
  }

  /** Two successful posts keep their notes in posting order after the earlier ones. */
  method PostTwice(store: NoteStore, first: string, firstId: string, second: string, secondId: string, now: Timestamp)
    requires first != "" && second != ""
    modifies store
    ensures store.notes == old(store.notes) + [Note(firstId, String(first), now), Note(secondId, String(second), now)]
  {
    var r1 := store.Post(Parsed(Object(map["content" := String(first)])), firstId, now);
    var r2 := store.Post(Parsed(Object(map["content" := String(second)])), secondId, now);
  }
}
