/**
 * What ClientHandler does with one request line, and with a whole session of
 * lines, as pure functions of the table, the input and the store's behaviour.
 * The imperative handler is proved to follow these definitions exactly.
 */
module Dispatch {
  import opened Optional
  import opened Json
  import opened Text
  import opened StudentModel
  import opened Codes
  import opened Payload
  import opened Store
  import opened Protocol

  /** How the loop in `run` goes on after a request: read the next line, return after QUIT, or break after an exception. */
  datatype Next = Continue | Quit | Abort

  /** The state after one request, the one response it wrote and how the loop goes on. */
  datatype Outcome = Outcome(table: Table, reply: Response, next: Next)

  /** How the store behaves on the (at most two) calls one request makes. */
  datatype CallFaults = CallFaults(first: StoreFault, second: StoreFault)

  const NoFaults: CallFaults := CallFaults(Healthy, Healthy)

  /** The store's behaviour for the request on input line `i`; a healthy store past the end of `faults`. */
  function FaultsAt(faults: seq<CallFaults>, i: nat): CallFaults
  {
    if i < |faults| then faults[i] else NoFaults
  }

  /** `sendError` with a code's fixed message. */
  function Error(code: Code): Response
    requires HasFixedMessage(code)
  {
    Failed(code, MessageFor(code))
  }

  /** The result of `idStudentExistsed`: the stored record, or the error it already sent. */
  datatype Lookup = Hit(record: Student) | Miss(reply: Response)

  /** `idStudentExistsed`: reject a negative id, then look the id up. */
  function LookupStep(t: Table, m: map<string, Json>, f: StoreFault): (r: Lookup)
    ensures r.Hit? <==> RequestedId(m) >= 0 && !Fails(f) && RequestedId(m) in t.rows
    ensures r.Hit? ==> r.record == t.rows[RequestedId(m)]
    ensures r == Miss(Error(INVALID_ID)) <==> RequestedId(m) < 0
    ensures r == Miss(Error(ID_NOT_EXIST)) <==> RequestedId(m) >= 0 && !Fails(f) && RequestedId(m) !in t.rows
    ensures r.Miss? && r != Miss(Error(INVALID_ID)) && r != Miss(Error(ID_NOT_EXIST)) <==>
      RequestedId(m) >= 0 && Fails(f) && r == Miss(Failed(DB_ERROR, f.message))
  {
    var id := RequestedId(m);
    if id < 0 then Miss(Error(INVALID_ID))
    else match FindById(t, id, f)
      case Failure(message) => Miss(Failed(DB_ERROR, message))
      case Ok(None) => Miss(Error(ID_NOT_EXIST))
      case Ok(Some(s)) => Hit(s)
  }

  /**
   * `handleInsert` once the payload is an object: the ordered field checks,
   * then the insert. The reply reports the id `insert` returned (-1 when no
   * key came back) or the exception; the table is whatever the database now
   * holds, which includes a committed row even when the reply is an error.
   */
  function InsertStep(t: Table, m: map<string, Json>, f: StoreFault): (r: (Table, Response))
    ensures var s := Normalize(m);
      && (FirstInsertError(s).Some? ==> r == (t, Error(FirstInsertError(s).value)))
      && (FirstInsertError(s).None? ==>
            && r.0 == Insert(t, s, f).0
            && (Fails(f) ==> r.1 == Failed(DB_ERROR, f.message))
            && (f.Healthy? ==> r.1 == Done(Inserted(t.nextId)))
            && (f.NoRowAffected? || f.KeyLost? ==> r.1 == Done(Inserted(-1))))
  {
    var s := Normalize(m);
    match FirstInsertError(s)
    case Some(code) => (t, Error(code))
    case None =>
      var (t', result) := Insert(t, s, f);
      match result
      case Failure(message) => (t', Failed(DB_ERROR, message))
      case Ok(id) => (t', Done(Inserted(id)))
  }

  /** `handleFind` once the payload is an object. */
  function FindStep(t: Table, m: map<string, Json>, f: StoreFault): (r: Response)
    ensures r.Found? <==> LookupStep(t, m, f).Hit?
    ensures r.Found? ==> RequestedId(m) in t.rows && r.record == t.rows[RequestedId(m)]
    ensures LookupStep(t, m, f).Miss? ==> r == LookupStep(t, m, f).reply
  {
    match LookupStep(t, m, f)
    case Miss(reply) => reply
    case Hit(s) => Found(s)
  }

  /** `handleList`: every row, or DB_ERROR. */
  function ListStep(t: Table, f: StoreFault): (r: Response)
    ensures r.Listed? <==> !Fails(f)
    ensures r.Listed? ==> r.records == RowsOf(t.rows, t.order)
    ensures r.Failed? ==> r.code == DB_ERROR && r.message == f.message
  {
    match FindAll(t, f)
    case Failure(message) => Failed(DB_ERROR, message)
    case Ok(rows) => Listed(rows)
  }

  /**
   * `handleUpdate` once the payload is an object: look up, merge the payload
   * into the stored record, write it back. The table is whatever the database
   * now holds.
   */
  function UpdateStep(t: Table, m: map<string, Json>, fs: CallFaults): (r: (Table, Response))
    ensures LookupStep(t, m, fs.first).Miss? ==> r == (t, LookupStep(t, m, fs.first).reply)
    ensures LookupStep(t, m, fs.first).Hit? ==>
      var merged := Merge(LookupStep(t, m, fs.first).record, Normalize(m));
      && r.0 == (if Writes(fs.second) && merged.id in t.rows then t.(rows := t.rows[merged.id := merged]) else t)
      && (Fails(fs.second) ==> r.1 == Failed(DB_ERROR, fs.second.message))
      && (!Fails(fs.second) ==> (r.1.Done? <==> Writes(fs.second) && merged.id in t.rows))
      && (r.1.Done? ==> r.1 == Done(Updated(merged.id, merged.name)))
      && (!Fails(fs.second) && !r.1.Done? ==> r.1 == Error(UPDATE_FAIL))
  {
    match LookupStep(t, m, fs.first)
    case Miss(reply) => (t, reply)
    case Hit(stored) =>
      var merged := Merge(stored, Normalize(m));
      var (t', result) := Update(t, merged, fs.second);
      match result
      case Failure(message) => (t', Failed(DB_ERROR, message))
      case Ok(true) => (t', Done(Updated(merged.id, merged.name)))
      case Ok(false) => (t', Error(UPDATE_FAIL))
  }

  /**
   * `handleDelete` once the payload is an object: look up, then delete the id
   * read again with `asLong()`. The table is whatever the database now holds.
   */
  function DeleteStep(t: Table, m: map<string, Json>, fs: CallFaults): (r: (Table, Response))
    ensures LookupStep(t, m, fs.first).Miss? ==> r == (t, LookupStep(t, m, fs.first).reply)
    ensures LookupStep(t, m, fs.first).Hit? ==>
      var id := RequestedId(m);
      && r.0 == Delete(t, id, fs.second).0
      && (Fails(fs.second) ==> r.1 == Failed(DB_ERROR, fs.second.message))
      && (fs.second.NoRowAffected? ==> r == (t, Error(DELETE_FAIL)))
      && (fs.second.Healthy? || fs.second.KeyLost? ==> r.1 == Done(Deleted(id)) && id in t.rows)
  {
    match LookupStep(t, m, fs.first)
    case Miss(reply) => (t, reply)
    case Hit(_) =>
      var id := AsLong(Path(m, "id"), 0);
      var (t', result) := Delete(t, id, fs.second);
      match result
      case Failure(message) => (t', Failed(DB_ERROR, message))
      case Ok(true) => (t', Done(Deleted(id)))
      case Ok(false) => (t', Error(DELETE_FAIL))
  }

  /** The actions that take a payload. */
  predicate TakesPayload(a: Action)
  {
    a in {INSERT, FIND, UPDATE, DELETE}
  }

  /** The payload as `validatePayload` and the cast to ObjectNode see it. */
  datatype PayloadState = Absent | NotAnObject | Members(m: map<string, Json>)

  function PayloadOf(request: map<string, Json>): (r: PayloadState)
    ensures r.Absent? <==> !PayloadGiven(Path(request, "payload"))
    ensures r.NotAnObject? <==> PayloadGiven(Path(request, "payload")) && !Path(request, "payload").value.JObject?
    ensures r.Members? ==> Path(request, "payload") == Some(JObject(r.m)) && r.m != map[]
  {
    var payload := Path(request, "payload");
    if !PayloadGiven(payload) then Absent
    else if !payload.value.JObject? then NotAnObject
    else Members(payload.value.members)
  }

  /** A payload handler once its payload is an object. */
  function ActionStep(t: Table, a: Action, m: map<string, Json>, fs: CallFaults): (r: (Table, Response))
    requires TakesPayload(a)
    ensures a == INSERT ==> r == InsertStep(t, m, fs.first)
    ensures a == FIND ==> r == (t, FindStep(t, m, fs.first))
    ensures a != INSERT && LookupStep(t, m, fs.first).Miss? ==> r == (t, LookupStep(t, m, fs.first).reply)
    ensures a == UPDATE && LookupStep(t, m, fs.first).Hit? ==> r == UpdateStep(t, m, fs)
    ensures a == DELETE && LookupStep(t, m, fs.first).Hit? ==> r == DeleteStep(t, m, fs)
  {
    match a
    case INSERT => InsertStep(t, m, fs.first)
    case FIND => (t, FindStep(t, m, fs.first))
    case UPDATE => UpdateStep(t, m, fs)
    case DELETE => DeleteStep(t, m, fs)
  }

  /**
   * One of the four payload handlers: `validatePayload`, the cast of the
   * payload to an object (an array throws, which aborts the session), then the
   * action itself.
   */
  function PayloadStep(t: Table, a: Action, request: map<string, Json>, fs: CallFaults): (o: Outcome)
    requires TakesPayload(a)
    ensures !PayloadGiven(Path(request, "payload")) ==> o == Outcome(t, Error(MissingPayload(ActionName(a))), Continue)
    ensures o.next == Abort <==> PayloadGiven(Path(request, "payload")) && !Path(request, "payload").value.JObject?
    ensures o.next == Abort ==> o == Outcome(t, Failed(SERVER_ERROR, NOT_AN_OBJECT), Abort)
    ensures o.next != Quit
    ensures PayloadGiven(Path(request, "payload")) && Path(request, "payload").value.JObject? ==>
      var step := ActionStep(t, a, Path(request, "payload").value.members, fs);
      o == Outcome(step.0, step.1, Continue)
  {
    match PayloadOf(request)
    case Absent => Outcome(t, Error(MissingPayload(ActionName(a))), Continue)
    case NotAnObject => Outcome(t, Failed(SERVER_ERROR, NOT_AN_OBJECT), Abort)
    case Members(m) => var (t', reply) := ActionStep(t, a, m, fs); Outcome(t', reply, Continue)
  }

  /** One pass of the loop in `run` for a line that was read: decode, select the action, handle it. */
  function Respond(t: Table, line: Line, fs: CallFaults, client: string): (o: Outcome)
    ensures o.next == Quit <==> line.Parsed? && line.root.JObject? && ActionOf(ActionText(line.root.members)) == Some(QUIT)
    ensures o.next == Quit ==> o == Outcome(t, Done(Closed(client)), Quit)
    ensures o.next == Abort ==> o.table == t && o.reply.Failed? && o.reply.code == SERVER_ERROR
    ensures !line.Parsed? || !line.root.JObject? ==> o.next == Abort
    ensures line.Parsed? && line.root.JObject? && ActionOf(ActionText(line.root.members)).None? ==>
      o == Outcome(t, Error(UNKNOWN_ACTION), Continue)
    ensures line.Parsed? && line.root.JObject? && ActionOf(ActionText(line.root.members)) == Some(LIST) ==>
      o == Outcome(t, ListStep(t, fs.first), Continue)
    ensures (line.Parsed? && line.root.JObject? && ActionOf(ActionText(line.root.members)).Some? &&
             TakesPayload(ActionOf(ActionText(line.root.members)).value)) ==>
      o == PayloadStep(t, ActionOf(ActionText(line.root.members)).value, line.root.members, fs)
  {
    match line
    case Malformed(reason) => Outcome(t, Failed(SERVER_ERROR, reason), Abort)
    case Parsed(root) =>
      if !root.JObject? then Outcome(t, Failed(SERVER_ERROR, NOT_AN_OBJECT), Abort)
      else
        var request := root.members;
        match ActionOf(ActionText(request))
        case None => Outcome(t, Error(UNKNOWN_ACTION), Continue)
        case Some(LIST) => Outcome(t, ListStep(t, fs.first), Continue)
        case Some(QUIT) => Outcome(t, Done(Closed(client)), Quit)
        case Some(a) => PayloadStep(t, a, request, fs)
  }

  /** How a session ends: the client closed its side, sent QUIT, caused an exception, or a read threw. */
  datatype Ending = EndOfInput | Quitted | Aborted | ReadError

  /** The state after a session, what it wrote, and how many input events it consumed. */
  datatype SessionResult = SessionResult(table: Table, replies: seq<Response>, consumed: nat, ending: Ending)

  /**
   * The loop in `run`, from input event `from` on: one reply per line read,
   * until the input ends, a QUIT or an exception stops the loop, or a read
   * throws (a timed-out or failed read ends the session without a reply).
   */
  function Session(t: Table, input: seq<Incoming>, faults: seq<CallFaults>, client: string, from: nat): (r: SessionResult)
    requires from <= |input|
    ensures from <= r.consumed <= |input|
    ensures r.ending == EndOfInput ==> r.consumed == |input|
    ensures r.ending != EndOfInput ==> from < r.consumed
    ensures |r.replies| == r.consumed - from - (if r.ending == ReadError then 1 else 0)
    decreases |input| - from
  {
    if from == |input| then SessionResult(t, [], from, EndOfInput)
    else match input[from]
      case ReadFailed => SessionResult(t, [], from + 1, ReadError)
      case Received(line) =>
        var o := Respond(t, line, FaultsAt(faults, from), client);
        if o.next == Continue then
          var rest := Session(o.table, input, faults, client, from + 1);
          rest.(replies := [o.reply] + rest.replies)
        else
          SessionResult(o.table, [o.reply], from + 1, if o.next == Quit then Quitted else Aborted)
  }

  /** One step of the loop: the session from a line read is that line's outcome followed by the rest. */
  lemma SessionAfterLine(t: Table, input: seq<Incoming>, faults: seq<CallFaults>, client: string, i: nat)
    requires i < |input| && input[i].Received?
    ensures var o := Respond(t, input[i].line, FaultsAt(faults, i), client);
      && (o.next == Continue ==>
            var rest := Session(o.table, input, faults, client, i + 1);
            Session(t, input, faults, client, i) == rest.(replies := [o.reply] + rest.replies))
      && (o.next != Continue ==>
            Session(t, input, faults, client, i) == SessionResult(o.table, [o.reply], i + 1, if o.next == Quit then Quitted else Aborted))
  {
  }
}
