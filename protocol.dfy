/**
 * The wire protocol as the dispatcher sees it: what one read of the socket
 * yields, the six actions and how an action text selects one, and the
 * responses `sendSuccess`, `sendError`, FIND and LIST write.
 */
module Protocol {
  import opened Optional
  import opened Json
  import opened Text
  import opened Dates
  import opened StudentModel
  import opened Payload
  import opened Codes

  /** One line of input after Jackson's `readTree`: a tree, or text that is not JSON. */
  datatype Line = Malformed(reason: string) | Parsed(root: Json)

  /** One `readLine`: a line, or a read that threw (idle timeout, I/O failure). End of stream is the end of the input. */
  datatype Incoming = Received(line: Line) | ReadFailed

  datatype Action = INSERT | FIND | LIST | UPDATE | DELETE | QUIT

  function ActionName(a: Action): string
  {
    match a
    case INSERT => "INSERT"
    case FIND => "FIND"
    case LIST => "LIST"
    case UPDATE => "UPDATE"
    case DELETE => "DELETE"
    case QUIT => "QUIT"
  }

  /** `request.path("action").asText("")`. */
  function ActionText(request: map<string, Json>): (r: string)
    ensures "action" !in request ==> r == ""
    ensures "action" in request && request["action"].JStr? ==> r == request["action"].s
  {
    match AsText(Path(request, "action"))
    case None => ""
    case Some(t) => t
  }

  /** The case labels of the `switch` in `run`: the action named `key`; None is the default branch. */
  function ActionNamed(key: string): (r: Option<Action>)
    ensures forall a :: r == Some(a) <==> key == ActionName(a)
  {
    if key == "INSERT" then Some(INSERT)
    else if key == "FIND" then Some(FIND)
    else if key == "LIST" then Some(LIST)
    else if key == "UPDATE" then Some(UPDATE)
    else if key == "DELETE" then Some(DELETE)
    else if key == "QUIT" then Some(QUIT)
    else None
  }

  /** The `switch` in `run` selects on the upper-cased, trimmed action text. */
  function ActionOf(text: string): (r: Option<Action>)
    ensures forall a :: r == Some(a) <==> Trim(ToUpper(text)) == ActionName(a)
  {
    ActionNamed(Trim(ToUpper(text)))
  }

  /** Every spelling of an action name in any mix of cases, padded with spaces or control characters, selects that action. */
  lemma ActionIgnoresCaseAndPadding(a: Action, w: string, pre: string, post: string)
    requires IsCaseVariant(w, ActionName(a))
    requires AllTrimmable(pre) && AllTrimmable(post)
    ensures ActionOf(pre + w + post) == Some(a)
  {
    var name := ActionName(a);
    ToUpperOfCaseVariant(w, name);
    ToUpperAppend(pre + w, post);
    ToUpperAppend(pre, w);
    ToUpperKeepsTrimmable(pre);
    ToUpperKeepsTrimmable(post);
    TrimPadded(pre, name, post);
  }

  /** What a success message reports. */
  datatype Note =
    | Inserted(id: int)
    | Updated(id: int, name: Option<string>)
    | Deleted(id: int)
    | Closed(client: string)

  /** Java's string concatenation of a possibly null String. */
  function NullableText(t: Option<string>): string
  {
    if t.Some? then t.value else "null"
  }

  /** `r` reads `a`, then `b`, then `c`, and nothing more. */
  predicate Reads3(r: string, a: string, b: string, c: string)
  {
    && |r| == |a| + |b| + |c|
    && r[..|a|] == a
    && r[|a|..|a| + |b|] == b
    && r[|a| + |b|..] == c
  }

  /** `r` reads `a`, `b`, `c` and `d` in turn, and nothing more. */
  predicate Reads4(r: string, a: string, b: string, c: string, d: string)
  {
    && |r| == |a| + |b| + |c| + |d|
    && r[..|a|] == a
    && r[|a|..|a| + |b|] == b
    && r[|a| + |b|..|a| + |b| + |c|] == c
    && r[|a| + |b| + |c|..] == d
  }

  /** `r` reads `a` to `f` in turn, and nothing more. */
  predicate Reads6(r: string, a: string, b: string, c: string, d: string, e: string, f: string)
  {
    && |r| == |a| + |b| + |c| + |d| + |e| + |f|
    && r[..|a|] == a
    && r[|a|..|a| + |b|] == b
    && r[|a| + |b|..|a| + |b| + |c|] == c
    && r[|a| + |b| + |c|..|a| + |b| + |c| + |d|] == d
    && r[|a| + |b| + |c| + |d|..|a| + |b| + |c| + |d| + |e|] == e
    && r[|a| + |b| + |c| + |d| + |e|..] == f
  }

  /** Java's `a + b + c`. */
  function Concat3(a: string, b: string, c: string): (r: string)
    ensures Reads3(r, a, b, c)
  {
    assert (a + b + c)[..|a|] == a;
    assert (a + b + c)[|a|..|a| + |b|] == b;
    assert (a + b + c)[|a| + |b|..] == c;
    a + b + c
  }

  /** Java's `a + b + c + d`. */
  function Concat4(a: string, b: string, c: string, d: string): (r: string)
    ensures Reads4(r, a, b, c, d)
  {
    var r := a + b + (c + d);
    assert r[..|a|] == a;
    assert r[|a|..|a| + |b|] == b;
    assert r[|a| + |b|..] == c + d;
    assert (c + d)[..|c|] == c && (c + d)[|c|..] == d;
    r
  }

  /** Java's `a + b + c + d + e + f`. */
  function Concat6(a: string, b: string, c: string, d: string, e: string, f: string): (r: string)
    ensures Reads6(r, a, b, c, d, e, f)
  {
    var tail := Concat4(c, d, e, f);
    var r := a + b + tail;
    assert r[..|a|] == a;
    assert r[|a|..|a| + |b|] == b;
    assert r[|a| + |b|..] == tail;
    var k := |a| + |b|;
    assert r[k..k + |c|] == tail[..|c|];
    assert r[k + |c|..k + |c| + |d|] == tail[|c|..|c| + |d|];
    assert r[k + |c| + |d|..k + |c| + |d| + |e|] == tail[|c| + |d|..|c| + |d| + |e|];
    assert r[k + |c| + |d| + |e|..] == tail[|c| + |d| + |e|..];
    r
  }

  /** The fixed pieces of the success messages. */
  const STUDENT: string := "Student "
  const ID_LABEL: string := "id : "
  const INSERTED_END: string := " được insert thành công"
  const NAME_SEP: string := " và name : "
  const UPDATED_END: string := " đã được update"
  const DELETED_END: string := " đã được xóa"
  const CLIENT: string := "Client "
  const CLOSED_END: string := " đã đóng"

  /**
   * The text of each success message. INSERT, UPDATE and DELETE name the
   * student and its id in decimal, UPDATE also the name as Java concatenates
   * it, and QUIT names the client.
   */
  function NoteText(n: Note): (r: string)
    ensures n.Inserted? ==> Reads3(r, STUDENT, DecimalText(n.id), INSERTED_END)
    ensures n.Updated? ==> Reads6(r, STUDENT, ID_LABEL, DecimalText(n.id), NAME_SEP, NullableText(n.name), UPDATED_END)
    ensures n.Deleted? ==> Reads4(r, STUDENT, ID_LABEL, DecimalText(n.id), DELETED_END)
    ensures n.Closed? ==> Reads3(r, CLIENT, n.client, CLOSED_END)
  {
    match n
    case Inserted(id) => Concat3(STUDENT, DecimalText(id), INSERTED_END)
    case Updated(id, name) => Concat6(STUDENT, ID_LABEL, DecimalText(id), NAME_SEP, NullableText(name), UPDATED_END)
    case Deleted(id) => Concat4(STUDENT, ID_LABEL, DecimalText(id), DELETED_END)
    case Closed(client) => Concat3(CLIENT, client, CLOSED_END)
  }

  datatype Response =
    | Done(note: Note)                  // sendSuccess
    | Found(record: Student)            // FIND: status OK with the record as data
    | Listed(records: seq<Student>)     // LIST: status OK with the rows as data
    | Failed(code: Code, message: string)    // sendError

  function TextJson(t: Option<string>): Json
  {
    if t.Some? then JStr(t.value) else JNull
  }

  /** How the mapper writes a Student: its six properties, nulls included, the date as text. */
  function StudentJson(s: Student): (j: Json)
    ensures j.JObject?
    ensures Path(j.members, "id") == Some(JNum(s.id as real))
    ensures Path(j.members, "name") == Some(TextJson(s.name))
    ensures Path(j.members, "dob") == Some(if s.dob.Some? then JStr(FormatIsoDate(s.dob.value)) else JNull)
    ensures Path(j.members, "gpa") == Some(JNum(s.gpa))
    ensures Path(j.members, "sex") == Some(if s.sex.Some? then JStr(SexName(s.sex.value)) else JNull)
    ensures Path(j.members, "major") == Some(TextJson(s.major))
  {
    StudentObject(
      JNum(s.id as real),
      TextJson(s.name),
      if s.dob.Some? then JStr(FormatIsoDate(s.dob.value)) else JNull,
      JNum(s.gpa),
      if s.sex.Some? then JStr(SexName(s.sex.value)) else JNull,
      TextJson(s.major))
  }

  /** The object with the six Student properties, whatever their values. */
  function StudentObject(id: Json, name: Json, dob: Json, gpa: Json, sex: Json, major: Json): (j: Json)
    ensures j.JObject?
    ensures Path(j.members, "id") == Some(id) && Path(j.members, "name") == Some(name)
    ensures Path(j.members, "dob") == Some(dob) && Path(j.members, "gpa") == Some(gpa)
    ensures Path(j.members, "sex") == Some(sex) && Path(j.members, "major") == Some(major)
  {
    assert "major" != "id" && "major" != "name" && "major" != "dob" && "major" != "gpa" && "major" != "sex";
    assert "sex"[0] != "id"[0] && "sex"[0] != "name"[0] && "sex"[0] != "dob"[0] && "sex"[0] != "gpa"[0];
    assert "gpa"[0] != "id"[0] && "gpa"[0] != "name"[0] && "gpa"[0] != "dob"[0];
    assert "dob"[0] != "id"[0] && "dob"[0] != "name"[0];
    assert "name" != "id";
    JObject(map["id" := id, "name" := name, "dob" := dob, "gpa" := gpa, "sex" := sex, "major" := major])
  }


  /** The JSON object each response is written as. */
  function Encode(r: Response): (j: Json)
    ensures j.JObject? && "status" in j.members
    ensures j.members["status"] == JStr("ERROR") <==> r.Failed?
    ensures j.members["status"] == JStr("OK") <==> !r.Failed?
    ensures r.Failed? ==> Path(j.members, "code") == Some(JStr(CodeText(r.code))) && Path(j.members, "message") == Some(JStr(r.message))
    ensures r.Done? ==> Path(j.members, "message") == Some(JStr(NoteText(r.note)))
    ensures r.Found? ==> Path(j.members, "data") == Some(StudentJson(r.record))
    ensures r.Listed? ==>
      && Path(j.members, "data").Some? && Path(j.members, "data").value.JArray?
      && |Path(j.members, "data").value.items| == |r.records|
      && forall i :: 0 <= i < |r.records| ==> Path(j.members, "data").value.items[i] == StudentJson(r.records[i])
  {
    match r
    case Done(note) => JObject(map["status" := JStr("OK"), "message" := JStr(NoteText(note))])
    case Found(record) => JObject(map["status" := JStr("OK"), "data" := StudentJson(record)])
    case Listed(records) => JObject(map["status" := JStr("OK"), "data" := JArray(seq(|records|, i requires 0 <= i < |records| => StudentJson(records[i])))])
    case Failed(code, message) => JObject(map["status" := JStr("ERROR"), "code" := JStr(CodeText(code)), "message" := JStr(message)])
  }

  /** The upper case of an enum name is the name itself. */
  lemma SexNameIsUpper(x: Sex)
    ensures ToUpper(SexName(x)) == SexName(x)
  {
    ToUpperOfCaseVariant(SexName(x), SexName(x));
  }

  /**
   * A stored record sent back as a payload normalises to the same record,
   * apart from the id, which the payload mapping never takes.
   */
  lemma RecordRoundTrip(s: Student)
    requires Valid(s) && IsIsoDate(s.dob.value)
    ensures Normalize(StudentJson(s).members) == s.(id := 0)
  {
    var m := StudentJson(s).members;
    var r := Normalize(m);
    SexNameIsUpper(s.sex.value);
    assert AsText(Path(m, "dob")) == Some(FormatIsoDate(s.dob.value));
    NormalizeDob(m, s.dob.value);
    assert AsText(Path(m, "sex")) == Some(SexName(s.sex.value));
    assert r.sex == Some(s.sex.value);
    assert r.dob == Some(s.dob.value);
    assert r.gpa == s.gpa;
    assert r.name == s.name && r.major == s.major;
  }
}
