/**
 * Properties of the dispatcher that relate several operations or a whole
 * session: what reaches the store, what a later request sees, how a session
 * ends, and that the store's invariant survives every request.
 */
module Properties {
  import opened Optional
  import opened Json
  import opened Text
  import opened Dates
  import opened StudentModel
  import opened Codes
  import opened Payload
  import opened Store
  import opened Protocol
  import opened Dispatch

  /** A request line carrying an object. */
  function RequestLine(request: map<string, Json>): Line
  {
    Parsed(JObject(request))
  }

  // ----- action selection -----

  /** "insert" selects INSERT. */
  lemma LowerCaseActionAccepted()
    ensures ActionOf("insert") == Some(INSERT)
  {
    var w := "insert";
    ActionIgnoresCaseAndPadding(INSERT, w, "", "");
    assert "" + w + "" == w;
  }

  // ----- payload presence -----

  /** An empty object is no payload at all. */
  lemma EmptyPayloadIsMissing(request: map<string, Json>)
    requires Path(request, "payload") == Some(JObject(map[]))
    ensures !PayloadGiven(Path(request, "payload"))
  {
  }

  // ----- normalisation -----

  /**
   * The gpa survives normalisation exactly when it lies in [0, 4] (both
   * bounds kept) or already is the sentinel; a boolean gpa is read as 1.0 or
   * 0.0 and so always survives.
   */
  lemma NormalizeGpa(m: map<string, Json>)
    ensures var x := AsDouble(Path(m, "gpa"), GPA_ABSENT);
      (Normalize(m).gpa == x <==> (GPA_MIN <= x <= GPA_MAX || x == GPA_ABSENT))
    ensures var x := AsDouble(Path(m, "gpa"), GPA_ABSENT);
      (x < GPA_MIN || x > GPA_MAX ==> Normalize(m).gpa == GPA_ABSENT)
    ensures Path(m, "gpa").Some? && Path(m, "gpa").value.JBool? ==>
      Normalize(m).gpa == if Path(m, "gpa").value.b then 1.0 else 0.0
  {
  }

  /** Absent fields come out as null, the sentinel, or the builder's defaults. */
  lemma NormalizeAbsentFields(m: map<string, Json>)
    requires forall k :: k in m ==> k == "id"
    ensures Normalize(m) == Student(0, None, None, GPA_ABSENT, None, None)
  {
    assert "name" !in m && "dob" !in m && "gpa" !in m && "sex" !in m && "major" !in m;
  }

  // ----- INSERT -----

  /**
   * INSERT reaches the store only with a record meeting every Student.java
   * constraint (and a four-digit year); until then the store's behaviour
   * makes no difference to the outcome. Once the write executes, the same
   * row is stored whatever the reply says.
   */
  lemma InsertOnlyPersistable(t: Table, m: map<string, Json>, f: StoreFault, f': StoreFault)
    ensures FirstInsertError(Normalize(m)).Some? ==> InsertStep(t, m, f) == InsertStep(t, m, f') && InsertStep(t, m, f).0 == t
    ensures InsertStep(t, m, f).0 != t ==> Writes(f) && Persistable(Normalize(m))
    ensures FirstInsertError(Normalize(m)).None? && Writes(f) && Writes(f') ==> InsertStep(t, m, f).0 == InsertStep(t, m, f').0
  {
    InsertChecksAreStudentConstraints(m);
  }

  /**
   * INSERT says OK even when `insert` returned -1: with no row affected
   * nothing is stored, but with the row written and no key returned the row
   * is stored all the same.
   */
  lemma InsertWithoutKeyStillOk(t: Table, m: map<string, Json>)
    requires FirstInsertError(Normalize(m)).None?
    ensures InsertStep(t, m, NoRowAffected) == (t, Done(Inserted(-1)))
    ensures InsertStep(t, m, KeyLost) == (InsertStep(t, m, Healthy).0, Done(Inserted(-1)))
  {
  }

  /**
   * An exception after the write makes INSERT reply DB_ERROR, yet the row is
   * committed: FIND on the id it took returns it.
   */
  lemma InsertErrorStillStores(t: Table, m: map<string, Json>, message: string, m2: map<string, Json>, f: StoreFault)
    requires Wf(t) && FirstInsertError(Normalize(m)).None?
    requires RequestedId(m2) == t.nextId && !Fails(f)
    ensures var (t', reply) := InsertStep(t, m, ThrowsAfterWrite(message));
      && reply == Failed(DB_ERROR, message)
      && t' == InsertStep(t, m, Healthy).0
      && FindStep(t', m2, f) == Found(Normalize(m).(id := t.nextId))
  {
  }

  /** A successful INSERT stores the normalised record under a fresh positive id, and FIND on that id returns it. */
  lemma InsertThenFind(t: Table, m: map<string, Json>, m2: map<string, Json>, f: StoreFault)
    requires Wf(t) && FirstInsertError(Normalize(m)).None?
    requires RequestedId(m2) == t.nextId && !Fails(f)
    ensures var (t', reply) := InsertStep(t, m, Healthy);
      && reply == Done(Inserted(t.nextId))
      && t.nextId >= 1 && t.nextId !in t.rows
      && FindStep(t', m2, f) == Found(Normalize(m).(id := t.nextId))
  {
  }

  // ----- sessions -----

  predicate NotTimeout(r: Response)
  {
    !(r.Failed? && r.code.TIMEOUT?)
  }

  predicate NoTimeoutReply(replies: seq<Response>)
  {
    forall i :: 0 <= i < |replies| ==> NotTimeout(replies[i])
  }

  lemma LookupNeverTimesOut(t: Table, m: map<string, Json>, f: StoreFault)
    ensures LookupStep(t, m, f).Miss? ==> NotTimeout(LookupStep(t, m, f).reply)
  {
  }

  lemma ActionStepNeverTimesOut(t: Table, a: Action, m: map<string, Json>, fs: CallFaults)
    requires TakesPayload(a)
    ensures NotTimeout(ActionStep(t, a, m, fs).1)
  {
    LookupNeverTimesOut(t, m, fs.first);
    match a
    case INSERT =>
      var e := FirstInsertError(Normalize(m));
      assert e.Some? ==> e.value in {INVALID_NAME, INVALID_DOB, INVALID_GPA, INVALID_SEX, INVALID_MAJOR};
    case FIND =>
    case UPDATE =>
    case DELETE =>
  }

  /** No single request is answered with TIMEOUT. */
  lemma RespondNeverTimesOut(t: Table, line: Line, fs: CallFaults, client: string)
    ensures NotTimeout(Respond(t, line, fs, client).reply)
  {
    if line.Parsed? && line.root.JObject? {
      var request := line.root.members;
      var a := ActionOf(ActionText(request));
      if a.Some? && TakesPayload(a.value) && PayloadOf(request).Members? {
        ActionStepNeverTimesOut(t, a.value, PayloadOf(request).m, fs);
      }
    }
  }

  /**
   * The TIMEOUT error is never sent: a timed-out read throws from the loop
   * condition, outside the block whose handler would send it.
   */
  lemma {:induction false} SessionNeverTimesOut(t: Table, input: seq<Incoming>, faults: seq<CallFaults>, client: string, from: nat)
    requires from <= |input|
    ensures NoTimeoutReply(Session(t, input, faults, client, from).replies)
    decreases |input| - from
  {
    if from < |input| && input[from].Received? {
      var o := Respond(t, input[from].line, FaultsAt(faults, from), client);
      SessionAfterLine(t, input, faults, client, from);
      RespondNeverTimesOut(t, input[from].line, FaultsAt(faults, from), client);
      if o.next == Continue {
        var rest := Session(o.table, input, faults, client, from + 1);
        SessionNeverTimesOut(o.table, input, faults, client, from + 1);
        var all := [o.reply] + rest.replies;
        forall i | 0 <= i < |all| ensures NotTimeout(all[i]) {
          if i > 0 {
            assert all[i] == rest.replies[i - 1];
          }
        }
      }
    }
  }

  /** A QUIT line is answered with the goodbye note, and nothing after it is read. */
  lemma QuitEndsSession(t: Table, input: seq<Incoming>, faults: seq<CallFaults>, client: string, i: nat)
    requires i < |input| && input[i].Received? && input[i].line.Parsed? && input[i].line.root.JObject?
    requires ActionOf(ActionText(input[i].line.root.members)) == Some(QUIT)
    ensures Session(t, input, faults, client, i) == SessionResult(t, [Done(Closed(client))], i + 1, Quitted)
  {
    SessionAfterLine(t, input, faults, client, i);
  }

  /** A line that is not JSON is answered with SERVER_ERROR carrying the parser's message, and the session ends. */
  lemma MalformedEndsSession(t: Table, input: seq<Incoming>, faults: seq<CallFaults>, client: string, i: nat, reason: string)
    requires i < |input| && input[i] == Received(Malformed(reason))
    ensures Session(t, input, faults, client, i) == SessionResult(t, [Failed(SERVER_ERROR, reason)], i + 1, Aborted)
  {
    SessionAfterLine(t, input, faults, client, i);
  }

  /**
   * The loop of `run` with the handling of one line left open: what a session
   * does by the shape of its input alone, whatever each request does.
   */
  function Loop(step: (Table, Line, CallFaults) -> Outcome, t: Table, input: seq<Incoming>, faults: seq<CallFaults>, from: nat): SessionResult
    requires from <= |input|
    decreases |input| - from
  {
    if from == |input| then SessionResult(t, [], from, EndOfInput)
    else match input[from]
      case ReadFailed => SessionResult(t, [], from + 1, ReadError)
      case Received(line) =>
        var o := step(t, line, FaultsAt(faults, from));
        if o.next == Continue then
          var rest := Loop(step, o.table, input, faults, from + 1);
          rest.(replies := [o.reply] + rest.replies)
        else
          SessionResult(o.table, [o.reply], from + 1, if o.next == Quit then Quitted else Aborted)
  }

  /** The session of one client is the loop run with `Respond` for that client. */
  lemma {:induction false} SessionIsLoop(t: Table, input: seq<Incoming>, faults: seq<CallFaults>, client: string, from: nat)
    requires from <= |input|
    ensures Session(t, input, faults, client, from) == Loop((t, l, fs) => Respond(t, l, fs, client), t, input, faults, from)
    decreases |input| - from
  {
    if from < |input| && input[from].Received? {
      var o := Respond(t, input[from].line, FaultsAt(faults, from), client);
      SessionAfterLine(t, input, faults, client, from);
      if o.next == Continue {
        SessionIsLoop(o.table, input, faults, client, from + 1);
      }
    }
  }

  /**
   * Every event before the last one the loop consumed was a line that was
   * read, and the loop stops on a failed read exactly when its last event is one.
   */
  lemma {:induction false} LoopShape(step: (Table, Line, CallFaults) -> Outcome, t: Table, input: seq<Incoming>, faults: seq<CallFaults>, from: nat)
    requires from <= |input|
    ensures var r := Loop(step, t, input, faults, from);
      && from <= r.consumed <= |input|
      && (forall i :: from <= i < r.consumed - 1 ==> input[i].Received?)
      && (r.ending == ReadError <==> from < r.consumed && input[r.consumed - 1].ReadFailed?)
      && (r.ending == EndOfInput ==> r.consumed == |input|)
      && (r.ending != EndOfInput ==> from < r.consumed)
    decreases |input| - from
  {
    if from < |input| && input[from].Received? {
      var o := step(t, input[from].line, FaultsAt(faults, from));
      if o.next == Continue {
        LoopShape(step, o.table, input, faults, from + 1);
      }
    }
  }

  /** When every stopping step answers as `quit` and `abort` say, so does the loop's last reply. */
  lemma {:induction false} LoopLastReply(step: (Table, Line, CallFaults) -> Outcome, t: Table, input: seq<Incoming>, faults: seq<CallFaults>, from: nat, quit: Response, abort: Code)
    requires forall t', l, fs :: step(t', l, fs).next == Quit ==> step(t', l, fs).reply == quit
    requires forall t', l, fs :: step(t', l, fs).next == Abort ==> step(t', l, fs).reply.Failed? && step(t', l, fs).reply.code == abort
    ensures var r := Loop(step, t, input, faults, from);
      && (r.ending == Quitted ==> r.replies != [] && r.replies[|r.replies| - 1] == quit)
      && (r.ending == Aborted ==> r.replies != [] && r.replies[|r.replies| - 1].Failed? && r.replies[|r.replies| - 1].code == abort)
    requires from <= |input|
    decreases |input| - from
  {
    if from < |input| && input[from].Received? {
      var o := step(t, input[from].line, FaultsAt(faults, from));
      if o.next == Continue {
        LoopLastReply(step, o.table, input, faults, from + 1, quit, abort);
        var rest := Loop(step, o.table, input, faults, from + 1);
        if rest.replies != [] {
          assert ([o.reply] + rest.replies)[|rest.replies|] == rest.replies[|rest.replies| - 1];
        }
      }
    }
  }

  /**
   * The events a session consumed: all but the last were lines that were read
   * and answered, and it ends on a failed read exactly when its last event is one.
   */
  lemma SessionShape(t: Table, input: seq<Incoming>, faults: seq<CallFaults>, client: string, from: nat)
    requires from <= |input|
    ensures var r := Session(t, input, faults, client, from);
      && (forall i :: from <= i < r.consumed - 1 ==> input[i].Received?)
      && (r.ending == ReadError <==> from < r.consumed && input[r.consumed - 1].ReadFailed?)
  {
    var step := (t, l, fs) => Respond(t, l, fs, client);
    var r := Session(t, input, faults, client, from);
    SessionIsLoop(t, input, faults, client, from);
    LoopShape(step, t, input, faults, from);
    assert r == Loop(step, t, input, faults, from);
  }

  /** Only QUIT and an exception stop a request, and they answer with the goodbye note and SERVER_ERROR. */
  lemma RespondStops(client: string)
    ensures forall t, l, fs :: Respond(t, l, fs, client).next == Quit ==> Respond(t, l, fs, client).reply == Done(Closed(client))
    ensures forall t, l, fs :: Respond(t, l, fs, client).next == Abort ==>
      Respond(t, l, fs, client).reply.Failed? && Respond(t, l, fs, client).reply.code == SERVER_ERROR
  {
  }

  /** After QUIT the last reply of a session is the goodbye note; after an exception it is SERVER_ERROR. */
  lemma SessionLastReply(t: Table, input: seq<Incoming>, faults: seq<CallFaults>, client: string, from: nat)
    requires from <= |input|
    ensures var r := Session(t, input, faults, client, from);
      && (r.ending == Quitted ==> r.replies != [] && r.replies[|r.replies| - 1] == Done(Closed(client)))
      && (r.ending == Aborted ==> r.replies != [] && r.replies[|r.replies| - 1].Failed? && r.replies[|r.replies| - 1].code == SERVER_ERROR)
  {
    var step := (t, l, fs) => Respond(t, l, fs, client);
    var r := Session(t, input, faults, client, from);
    SessionIsLoop(t, input, faults, client, from);
    RespondStops(client);
    LoopLastReply(step, t, input, faults, from, Done(Closed(client)), SERVER_ERROR);
    assert r == Loop(step, t, input, faults, from);
  }

  // ----- the store's invariant -----

  lemma InsertStepKeepsWf(t: Table, m: map<string, Json>, f: StoreFault)
    requires Wf(t)
    ensures Wf(InsertStep(t, m, f).0)
  {
    if FirstInsertError(Normalize(m)).None? {
      InsertChecksAreStudentConstraints(m);
      InsertKeepsWf(t, Normalize(m), f);
    }
  }

  lemma UpdateStepKeepsWf(t: Table, m: map<string, Json>, fs: CallFaults)
    requires Wf(t)
    ensures Wf(UpdateStep(t, m, fs).0)
  {
    var l := LookupStep(t, m, fs.first);
    if l.Hit? {
      assert l.record == t.rows[RequestedId(m)];
      MergeKeepsValid(l.record, m);
      UpdateKeepsWf(t, Merge(l.record, Normalize(m)), fs.second);
    }
  }

  lemma DeleteStepKeepsWf(t: Table, m: map<string, Json>, fs: CallFaults)
    requires Wf(t)
    ensures Wf(DeleteStep(t, m, fs).0)
  {
    DeleteKeepsWf(t, AsLong(Path(m, "id"), 0), fs.second);
  }

  lemma ActionStepKeepsWf(t: Table, a: Action, m: map<string, Json>, fs: CallFaults)
    requires Wf(t) && TakesPayload(a)
    ensures Wf(ActionStep(t, a, m, fs).0)
  {
    match a
    case INSERT => InsertStepKeepsWf(t, m, fs.first);
    case FIND =>
    case UPDATE => UpdateStepKeepsWf(t, m, fs);
    case DELETE => DeleteStepKeepsWf(t, m, fs);
  }

  /** Whatever one request does, the table stays well formed. */
  lemma RespondKeepsWf(t: Table, line: Line, fs: CallFaults, client: string)
    requires Wf(t)
    ensures Wf(Respond(t, line, fs, client).table)
  {
    if line.Parsed? && line.root.JObject? {
      var request := line.root.members;
      var a := ActionOf(ActionText(request));
      if a.Some? && TakesPayload(a.value) && PayloadOf(request).Members? {
        ActionStepKeepsWf(t, a.value, PayloadOf(request).m, fs);
      }
    }
  }

  /** A session started on a well-formed table leaves it well formed, however it ends. */
  lemma {:induction false} SessionKeepsWf(t: Table, input: seq<Incoming>, faults: seq<CallFaults>, client: string, from: nat)
    requires Wf(t) && from <= |input|
    ensures Wf(Session(t, input, faults, client, from).table)
    decreases |input| - from
  {
    if from < |input| && input[from].Received? {
      var o := Respond(t, input[from].line, FaultsAt(faults, from), client);
      SessionAfterLine(t, input, faults, client, from);
      RespondKeepsWf(t, input[from].line, FaultsAt(faults, from), client);
      if o.next == Continue {
        SessionKeepsWf(o.table, input, faults, client, from + 1);
      }
    }
  }

  // ----- what a later request sees -----

  /** After a successful DELETE, FIND on the same id answers ID_NOT_EXIST. */
  lemma FindAfterDelete(t: Table, m: map<string, Json>, fs: CallFaults, m2: map<string, Json>, f: StoreFault)
    requires DeleteStep(t, m, fs).1.Done?
    requires RequestedId(m2) == RequestedId(m) && !Fails(f)
    ensures FindStep(DeleteStep(t, m, fs).0, m2, f) == Error(ID_NOT_EXIST)
  {
  }

  /** After a successful UPDATE, FIND on the same id returns the merged record. */
  lemma FindAfterUpdate(t: Table, m: map<string, Json>, fs: CallFaults, m2: map<string, Json>, f: StoreFault)
    requires Wf(t) && UpdateStep(t, m, fs).1.Done?
    requires RequestedId(m2) == RequestedId(m) && !Fails(f)
    ensures RequestedId(m) in t.rows
    ensures FindStep(UpdateStep(t, m, fs).0, m2, f) == Found(Merge(t.rows[RequestedId(m)], Normalize(m)))
  {
    assert LookupStep(t, m, fs.first).Hit?;
  }

  /** LIST on a well-formed table returns every stored row once, in scan order. */
  lemma ListReturnsEveryRow(t: Table, f: StoreFault)
    requires Wf(t) && !Fails(f)
    ensures var r := ListStep(t, f);
      && r.Listed? && |r.records| == |t.rows|
      && (forall i :: 0 <= i < |r.records| ==> r.records[i] == t.rows[t.order[i]])
      && (forall id :: id in t.rows ==> t.rows[id] in r.records)
  {
    ScanListsEveryRow(t);
    var r := ListStep(t, f);
    forall id | id in t.rows ensures t.rows[id] in r.records {
      assert id in t.order;
      var i :| 0 <= i < |t.order| && t.order[i] == id;
      assert r.records[i] == t.rows[id];
    }
  }

  /** A successful INSERT appends the new record to what LIST returns. */
  lemma ListAfterInsert(t: Table, m: map<string, Json>, f: StoreFault)
    requires Wf(t) && FirstInsertError(Normalize(m)).None? && !Fails(f)
    ensures ListStep(InsertStep(t, m, Healthy).0, f) == Listed(RowsOf(t.rows, t.order) + [Normalize(m).(id := t.nextId)])
  {
    var t' := InsertStep(t, m, Healthy).0;
    var s := Normalize(m).(id := t.nextId);
    var before := RowsOf(t.rows, t.order);
    var after := RowsOf(t'.rows, t'.order);
    forall i | 0 <= i < |t.order| ensures t.order[i] in t.rows {
      assert t.order[i] in t.order;
    }
    forall i | 0 <= i < |t'.order| ensures t'.order[i] in t'.rows {
      if i < |t.order| {
        assert t'.order[i] == t.order[i];
      }
    }
    assert after == before + [s] by {
      forall i | 0 <= i < |after| ensures after[i] == (before + [s])[i] {
        if i < |t.order| {
          assert t'.order[i] == t.order[i] && t.order[i] != t.nextId;
        }
      }
    }
  }

  /** FIND, UPDATE and DELETE with an id below zero never touch the store, whatever it would have done. */
  lemma BadIdNeverReachesStore(t: Table, a: Action, m: map<string, Json>, fs: CallFaults)
    requires a in {FIND, UPDATE, DELETE} && RequestedId(m) < 0
    ensures ActionStep(t, a, m, fs) == (t, Error(INVALID_ID))
  {
  }
}
