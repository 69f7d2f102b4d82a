/**
 * ClientHandler.java as an object: one connection's handler, holding the
 * store it talks to and the responses written to the socket so far. Each
 * method is proved to do exactly what the Dispatch definitions say.
 */
module Handler {
  import opened Optional
  import opened Json
  import opened Text
  import opened StudentModel
  import opened Codes
  import opened Payload
  import opened Store
  import opened Protocol
  import opened Dispatch

  lemma AppendAssoc<T>(a: seq<T>, b: seq<T>, c: seq<T>)
    ensures a + (b + c) == (a + b) + c
  {
  }

  /** The whole session's result is what was already sent followed by the rest of the session from here. */
  ghost predicate Resumes(full: SessionResult, here: SessionResult, done: seq<Response>)
  {
    full == here.(replies := done + here.replies)
  }

  lemma ResumesAfter(full: SessionResult, here: SessionResult, rest: SessionResult, done: seq<Response>, x: Response)
    requires Resumes(full, here, done)
    requires here == rest.(replies := [x] + rest.replies)
    ensures Resumes(full, rest, done + [x])
  {
    AppendAssoc(done, [x], rest.replies);
  }

  /** The setter calls of `handleUpdate`: each usable payload field overwrites the stored one. */
  method SetUsableFields(stored: Student, studentPayload: Student) returns (dbStudent: Student)
    ensures dbStudent == Merge(stored, studentPayload)
  {
    dbStudent := stored;
    if NotBlank(studentPayload.name) {
      dbStudent := dbStudent.(name := studentPayload.name);
    }
    if studentPayload.dob.Some? {
      dbStudent := dbStudent.(dob := studentPayload.dob);
    }
    if studentPayload.gpa != GPA_ABSENT {
      dbStudent := dbStudent.(gpa := studentPayload.gpa);
    }
    if studentPayload.sex.Some? {
      dbStudent := dbStudent.(sex := studentPayload.sex);
    }
    if NotBlank(studentPayload.major) {
      dbStudent := dbStudent.(major := studentPayload.major);
    }
  }

  class ClientHandler {
    /** The store, as the repository sees it. */
    var db: Table
    /** Every response written to the client, in order. */
    var sent: seq<Response>
    /** `String.valueOf(clientSocket.getRemoteSocketAddress())`. */
    const client: string

    constructor(client: string, db: Table)
      ensures this.client == client && this.db == db && sent == []
    {
      this.client := client;
      this.db := db;
      sent := [];
    }

    /** Write one response line and flush it. */
    method Write(r: Response)
      modifies this
      ensures db == old(db) && sent == old(sent) + [r]
    {
      sent := sent + [r];
    }

    method SendSuccess(note: Note)
      modifies this
      ensures db == old(db) && sent == old(sent) + [Done(note)]
    {
      Write(Done(note));
    }

    method SendError(code: Code, message: string)
      modifies this
      ensures db == old(db) && sent == old(sent) + [Failed(code, message)]
    {
      Write(Failed(code, message));
    }

    /** `validatePayload`: reports a missing or empty payload under the action's own name. */
    method ValidatePayload(payload: Option<Json>, action: string) returns (given: bool)
      modifies this
      ensures given == PayloadGiven(payload)
      ensures db == old(db) && sent == old(sent) + (if given then [] else [Error(MissingPayload(action))])
    {
      if payload.None? || IsEmptyNode(payload.value) {
        SendError(MissingPayload(action), MessageFor(MissingPayload(action)));
        return false;
      }
      return true;
    }

    /** `idStudentExistsed`: the stored record, or None after sending the reason. */
    method IdStudentExists(m: map<string, Json>, f: StoreFault) returns (found: Option<Student>)
      modifies this
      ensures db == old(db)
      ensures LookupStep(old(db), m, f).Hit? ==> found == Some(LookupStep(old(db), m, f).record) && sent == old(sent)
      ensures LookupStep(old(db), m, f).Miss? ==> found == None && sent == old(sent) + [LookupStep(old(db), m, f).reply]
    {
      var id := AsLong(Path(m, "id"), -1);
      if id < 0 {
        SendError(INVALID_ID, MessageFor(INVALID_ID));
        return None;
      }
      match FindById(db, id, f)
      case Failure(message) =>
        SendError(DB_ERROR, message);
        return None;
      case Ok(row) =>
        if row.Some? {
          return row;
        }
        SendError(ID_NOT_EXIST, MessageFor(ID_NOT_EXIST));
        return None;
    }

    /** `handleInsert`; `thrown` is the ClassCastException of a payload that is not an object. */
    method HandleInsert(request: map<string, Json>, fs: CallFaults) returns (thrown: bool)
      modifies this
      ensures var p := PayloadOf(request);
        && thrown == p.NotAnObject?
        && (p.Absent? ==> db == old(db) && sent == old(sent) + [Error(MissingPayload("INSERT"))])
        && (p.NotAnObject? ==> db == old(db) && sent == old(sent))
        && (p.Members? ==> db == InsertStep(old(db), p.m, fs.first).0 && sent == old(sent) + [InsertStep(old(db), p.m, fs.first).1])
    {
      var given := ValidatePayload(Path(request, "payload"), "INSERT");
      if !given {
        return false;
      }
      var payload := Path(request, "payload").value;
      if !payload.JObject? {
        return true;
      }
      InsertStudent(payload.members, fs.first);
      return false;
    }

    /** The part of `handleInsert` after the cast: map the payload, check it, insert it. */
    method InsertStudent(payload: map<string, Json>, f: StoreFault)
      modifies this
      ensures db == InsertStep(old(db), payload, f).0 && sent == old(sent) + [InsertStep(old(db), payload, f).1]
    {
      var student := Normalize(payload);
      var invalid := ReportInvalidField(student);
      if invalid {
        return;
      }
      StoreStudent(student, f);
    }

    /** `repository.insert` and the reply to it: the new id (-1 when no key came back), or DB_ERROR. */
    method StoreStudent(student: Student, f: StoreFault)
      modifies this
      ensures db == Insert(old(db), student, f).0
      ensures var result := Insert(old(db), student, f).1;
        sent == old(sent) + [if result.Ok? then Done(Inserted(result.value)) else Failed(DB_ERROR, result.message)]
    {
      var (written, result) := Insert(db, student, f);
      db := written;
      match result {
        case Failure(message) =>
          SendError(DB_ERROR, message);
        case Ok(id) =>
          SendSuccess(Inserted(id));
      }
    }

    /** The five field checks of `handleInsert`, in source order: report the first that fails. */
    method ReportInvalidField(student: Student) returns (invalid: bool)
      modifies this
      ensures invalid == FirstInsertError(student).Some?
      ensures db == old(db) && sent == old(sent) + (if invalid then [Error(FirstInsertError(student).value)] else [])
    {
      if !NotBlank(student.name) {
        SendError(INVALID_NAME, MessageFor(INVALID_NAME));
        return true;
      }
      if student.dob.None? {
        SendError(INVALID_DOB, MessageFor(INVALID_DOB));
        return true;
      }
      if student.gpa == GPA_ABSENT {
        SendError(INVALID_GPA, MessageFor(INVALID_GPA));
        return true;
      }
      if student.sex.None? {
        SendError(INVALID_SEX, MessageFor(INVALID_SEX));
        return true;
      }
      if !NotBlank(student.major) {
        SendError(INVALID_MAJOR, MessageFor(INVALID_MAJOR));
        return true;
      }
      return false;
    }

    /** `handleFind`. */
    method HandleFind(request: map<string, Json>, fs: CallFaults) returns (thrown: bool)
      modifies this
      ensures var p := PayloadOf(request);
        && thrown == p.NotAnObject?
        && (p.Absent? ==> db == old(db) && sent == old(sent) + [Error(MissingPayload("FIND"))])
        && (p.NotAnObject? ==> db == old(db) && sent == old(sent))
        && (p.Members? ==> db == old(db) && sent == old(sent) + [FindStep(old(db), p.m, fs.first)])
    {
      var given := ValidatePayload(Path(request, "payload"), "FIND");
      if !given {
        return false;
      }
      var payload := Path(request, "payload").value;
      if !payload.JObject? {
        return true;
      }
      var found := IdStudentExists(payload.members, fs.first);
      if found.Some? {
        Write(Found(found.value));
      }
      return false;
    }

    /** `handleList`. */
    method HandleList(f: StoreFault)
      modifies this
      ensures db == old(db) && sent == old(sent) + [ListStep(old(db), f)]
    {
      match FindAll(db, f)
      case Failure(message) =>
        SendError(DB_ERROR, message);
      case Ok(rows) =>
        Write(Listed(rows));
    }

    /** `handleUpdate`: the stored record's fields are set one by one from the usable payload fields. */
    method HandleUpdate(request: map<string, Json>, fs: CallFaults) returns (thrown: bool)
      modifies this
      ensures var p := PayloadOf(request);
        && thrown == p.NotAnObject?
        && (p.Absent? ==> db == old(db) && sent == old(sent) + [Error(MissingPayload("UPDATE"))])
        && (p.NotAnObject? ==> db == old(db) && sent == old(sent))
        && (p.Members? ==> db == UpdateStep(old(db), p.m, fs).0 && sent == old(sent) + [UpdateStep(old(db), p.m, fs).1])
    {
      var given := ValidatePayload(Path(request, "payload"), "UPDATE");
      if !given {
        return false;
      }
      var payload := Path(request, "payload").value;
      if !payload.JObject? {
        return true;
      }
      var found := IdStudentExists(payload.members, fs.first);
      if found.Some? {
        var dbStudent := SetUsableFields(found.value, Normalize(payload.members));
        var (written, result) := Update(db, dbStudent, fs.second);
        db := written;
        match result {
          case Failure(message) =>
            SendError(DB_ERROR, message);
          case Ok(updated) =>
            if updated {
              SendSuccess(Updated(dbStudent.id, dbStudent.name));
            } else {
              SendError(UPDATE_FAIL, MessageFor(UPDATE_FAIL));
            }
        }
      }
      return false;
    }

    /** `handleDelete`. */
    method HandleDelete(request: map<string, Json>, fs: CallFaults) returns (thrown: bool)
      modifies this
      ensures var p := PayloadOf(request);
        && thrown == p.NotAnObject?
        && (p.Absent? ==> db == old(db) && sent == old(sent) + [Error(MissingPayload("DELETE"))])
        && (p.NotAnObject? ==> db == old(db) && sent == old(sent))
        && (p.Members? ==> db == DeleteStep(old(db), p.m, fs).0 && sent == old(sent) + [DeleteStep(old(db), p.m, fs).1])
    {
      var given := ValidatePayload(Path(request, "payload"), "DELETE");
      if !given {
        return false;
      }
      var payload := Path(request, "payload").value;
      if !payload.JObject? {
        return true;
      }
      var found := IdStudentExists(payload.members, fs.first);
      if found.Some? {
        var idExisted := AsLong(Path(payload.members, "id"), 0);
        var (written, result) := Delete(db, idExisted, fs.second);
        db := written;
        match result {
          case Failure(message) =>
            SendError(DB_ERROR, message);
          case Ok(deleted) =>
            if deleted {
              SendSuccess(Deleted(idExisted));
            } else {
              SendError(DELETE_FAIL, MessageFor(DELETE_FAIL));
            }
        }
      }
      return false;
    }

    /** `handlQuit`. */
    method HandleQuit()
      modifies this
      ensures db == old(db) && sent == old(sent) + [Done(Closed(client))]
    {
      SendSuccess(Closed(client));
    }

    /** The body of the loop in `run` for one line read: decode, dispatch, and turn an exception into SERVER_ERROR. */
    method Serve(line: Line, fs: CallFaults) returns (next: Next)
      modifies this
      ensures var o := Respond(old(db), line, fs, client);
        db == o.table && sent == old(sent) + [o.reply] && next == o.next
    {
      if line.Malformed? {
        SendError(SERVER_ERROR, line.reason);
        return Abort;
      }
      if !line.root.JObject? {
        SendError(SERVER_ERROR, NOT_AN_OBJECT);
        return Abort;
      }
      var request := line.root.members;
      ghost var o := Respond(old(db), line, fs, client);
      var thrown := false;
      match ActionOf(ActionText(request)) {
        case Some(INSERT) =>
          assert o == PayloadStep(old(db), INSERT, request, fs);
          thrown := HandleInsert(request, fs);
        case Some(LIST) =>
          assert o == Outcome(old(db), ListStep(old(db), fs.first), Continue);
          HandleList(fs.first);
        case Some(UPDATE) =>
          assert o == PayloadStep(old(db), UPDATE, request, fs);
          thrown := HandleUpdate(request, fs);
        case Some(DELETE) =>
          assert o == PayloadStep(old(db), DELETE, request, fs);
          thrown := HandleDelete(request, fs);
        case Some(FIND) =>
          assert o == PayloadStep(old(db), FIND, request, fs);
          thrown := HandleFind(request, fs);
        case Some(QUIT) =>
          HandleQuit();
          return Quit;
        case None =>
          SendError(UNKNOWN_ACTION, MessageFor(UNKNOWN_ACTION));
      }
      if thrown {
        SendError(SERVER_ERROR, NOT_AN_OBJECT);
        return Abort;
      }
      return Continue;
    }

    /**
     * One pass of the loop in `run`: read input event `i` and serve it.
     * `stop` says the loop is over, and `ending` why.
     */
    method ServeNext(input: seq<Incoming>, faults: seq<CallFaults>, i: nat, ghost full: SessionResult, ghost done: seq<Response>)
      returns (stop: bool, ending: Ending, ghost emitted: seq<Response>)
      requires i < |input|
      requires Resumes(full, Session(db, input, faults, client, i), done)
      modifies this
      ensures sent == old(sent) + emitted
      ensures !stop ==> Resumes(full, Session(db, input, faults, client, i + 1), done + emitted)
      ensures stop ==> full == SessionResult(db, done + emitted, i + 1, ending)
    {
      if input[i].ReadFailed? {
        assert done + [] == done;
        assert sent == old(sent) + [];
        return true, ReadError, [];
      }
      ghost var t0 := db;
      ghost var o := Respond(db, input[i].line, FaultsAt(faults, i), client);
      SessionAfterLine(db, input, faults, client, i);
      var next := Serve(input[i].line, FaultsAt(faults, i));
      if next != Continue {
        return true, if next == Quit then Quitted else Aborted, [o.reply];
      }
      ResumesAfter(full, Session(t0, input, faults, client, i), Session(db, input, faults, client, i + 1), done, o.reply);
      return false, EndOfInput, [o.reply];
    }

    /**
     * `run`: serve lines until the input ends, QUIT returns, an exception
     * breaks the loop, or a read throws. `faults[i]` is how the store behaves
     * for the request on input event `i`.
     */
    method Run(input: seq<Incoming>, faults: seq<CallFaults>) returns (consumed: nat, ending: Ending)
      modifies this
      ensures var r := Session(old(db), input, faults, client, 0);
        db == r.table && sent == old(sent) + r.replies && consumed == r.consumed && ending == r.ending
    {
      ghost var full := Session(db, input, faults, client, 0);
      ghost var done: seq<Response> := [];
      assert Resumes(full, full, done);
      var i := 0;
      while i < |input|
        invariant 0 <= i <= |input|
        invariant sent == old(sent) + done
        invariant Resumes(full, Session(db, input, faults, client, i), done)
        decreases |input| - i
      {
        var stop;
        ghost var emitted;
        stop, ending, emitted := ServeNext(input, faults, i, full, done);
        AppendAssoc(old(sent), done, emitted);
        done := done + emitted;
        if stop {
          return i + 1, ending;
        }
        i := i + 1;
      }
      assert done + [] == done;
      return i, EndOfInput;
    }
  }
}
