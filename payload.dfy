/**
 * The expression-level decisions of ClientHandler.java: the payload-presence
 * check, the mapping of untrusted payload fields to a Student with sentinel
 * values, the ordered INSERT field checks, the id check and the UPDATE merge.
 */
module Payload {
  import opened Optional
  import opened Json
  import opened Text
  import opened Dates
  import opened StudentModel
  import opened Codes

  /**
   * `validatePayload`: the payload is there and is not empty. A scalar node
   * has size 0, so a string or number payload counts as missing.
   */
  predicate PayloadGiven(payload: Option<Json>)
    ensures PayloadGiven(payload) ==> payload.Some?
    ensures payload.Some? && !payload.value.JArray? && !payload.value.JObject? ==> !PayloadGiven(payload)
    ensures payload.Some? && payload.value.JObject? ==> (PayloadGiven(payload) <==> payload.value.members != map[])
    ensures payload.Some? && payload.value.JArray? ==> (PayloadGiven(payload) <==> payload.value.items != [])
  {
    payload.Some? && !IsEmptyNode(payload.value)
  }

  /** ClientHandler's "absent or out of range" value for gpa. */
  const GPA_ABSENT: real := -1.0

  function DobOf(text: Option<string>): Option<Date>
  {
    if text.Some? then ParseIsoDate(text.value) else None
  }

  function SexOf(text: Option<string>): Option<Sex>
  {
    if text.Some? then SexValueOf(ToUpper(text.value)) else None
  }

  /**
   * `mappingPayloadToStudent`: every field read leniently, with None for an
   * absent or unusable text, date or sex, and GPA_ABSENT for an absent or
   * out-of-range gpa. The id is the builder's default, 0.
   */
  function Normalize(m: map<string, Json>): (r: Student)
    ensures r.id == 0
    ensures r.name == AsText(Path(m, "name")) && r.major == AsText(Path(m, "major"))
    ensures r.gpa == GPA_ABSENT || GPA_MIN <= r.gpa <= GPA_MAX
    ensures var x := AsDouble(Path(m, "gpa"), GPA_ABSENT); GPA_MIN <= x <= GPA_MAX ==> r.gpa == x
    ensures r.dob.Some? ==> IsIsoDate(r.dob.value) && AsText(Path(m, "dob")) == Some(FormatIsoDate(r.dob.value))
    ensures forall x :: r.sex == Some(x) <==>
      AsText(Path(m, "sex")).Some? && ToUpper(AsText(Path(m, "sex")).value) == SexName(x)
  {
    var gpa := AsDouble(Path(m, "gpa"), GPA_ABSENT);
    Student(
      0,
      AsText(Path(m, "name")),
      DobOf(AsText(Path(m, "dob"))),
      if gpa < 0.0 || gpa > 4.0 then GPA_ABSENT else gpa,
      SexOf(AsText(Path(m, "sex"))),
      AsText(Path(m, "major")))
  }

  /** A dob text that is the ISO form of a date yields exactly that date, and nothing else yields a date. */
  lemma NormalizeDob(m: map<string, Json>, d: Date)
    ensures Normalize(m).dob == Some(d) <==> IsIsoDate(d) && AsText(Path(m, "dob")) == Some(FormatIsoDate(d))
  {
    var t := AsText(Path(m, "dob"));
    if t.Some? {
      ParseIsoDateExact(t.value, d);
    }
  }

  /** The INSERT checks in source order; the first that fails names the error. */
  function FirstInsertError(s: Student): (r: Option<Code>)
    ensures r == Some(INVALID_NAME) <==> !NotBlank(s.name)
    ensures r == Some(INVALID_DOB) <==> NotBlank(s.name) && s.dob.None?
    ensures r == Some(INVALID_GPA) <==> NotBlank(s.name) && s.dob.Some? && s.gpa == GPA_ABSENT
    ensures r == Some(INVALID_SEX) <==> NotBlank(s.name) && s.dob.Some? && s.gpa != GPA_ABSENT && s.sex.None?
    ensures r == Some(INVALID_MAJOR) <==>
      NotBlank(s.name) && s.dob.Some? && s.gpa != GPA_ABSENT && s.sex.Some? && !NotBlank(s.major)
    ensures r.Some? ==> r.value in {INVALID_NAME, INVALID_DOB, INVALID_GPA, INVALID_SEX, INVALID_MAJOR}
  {
    if !NotBlank(s.name) then Some(INVALID_NAME)
    else if s.dob.None? then Some(INVALID_DOB)
    else if s.gpa == GPA_ABSENT then Some(INVALID_GPA)
    else if s.sex.None? then Some(INVALID_SEX)
    else if !NotBlank(s.major) then Some(INVALID_MAJOR)
    else None
  }

  /** A normalised payload passes the INSERT checks exactly when it satisfies Student.java's constraints. */
  lemma InsertChecksAreStudentConstraints(m: map<string, Json>)
    ensures FirstInsertError(Normalize(m)).None? <==> Valid(Normalize(m))
  {
  }

  /** `payload.path("id").asLong(-1)`. */
  function RequestedId(m: map<string, Json>): int
  {
    AsLong(Path(m, "id"), -1)
  }

  /**
   * The id check of `idStudentExistsed`: a number above -1 passes, so 0 and
   * -0.5 (read as 0) do, and so does a boolean (read as 1 or 0); every other
   * node is read as the default -1 and fails.
   */
  lemma IdCheck(m: map<string, Json>)
    ensures RequestedId(m) >= 0 <==>
      Path(m, "id").Some? && ((Path(m, "id").value.JNum? && Path(m, "id").value.n > -1.0) || Path(m, "id").value.JBool?)
  {
  }

  /**
   * The UPDATE merge: a field of the stored record is overwritten only by a
   * usable payload value (text non-blank, dob and sex present, gpa not the
   * sentinel); the id and every other field stay as stored.
   */
  function Merge(stored: Student, patch: Student): (r: Student)
    ensures r.id == stored.id
    ensures r.name == if NotBlank(patch.name) then patch.name else stored.name
    ensures r.dob == if patch.dob.Some? then patch.dob else stored.dob
    ensures r.gpa == if patch.gpa != GPA_ABSENT then patch.gpa else stored.gpa
    ensures r.sex == if patch.sex.Some? then patch.sex else stored.sex
    ensures r.major == if NotBlank(patch.major) then patch.major else stored.major
  {
    var t := stored;
    var t := if NotBlank(patch.name) then t.(name := patch.name) else t;
    var t := if patch.dob.Some? then t.(dob := patch.dob) else t;
    var t := if patch.gpa != GPA_ABSENT then t.(gpa := patch.gpa) else t;
    var t := if patch.sex.Some? then t.(sex := patch.sex) else t;
    if NotBlank(patch.major) then t.(major := patch.major) else t
  }

  /** Merging a normalised payload into a valid record gives a valid record. */
  lemma MergeKeepsValid(stored: Student, m: map<string, Json>)
    requires Valid(stored)
    ensures Valid(Merge(stored, Normalize(m)))
  {
  }

  /** A payload that supplies nothing usable leaves the record as it is. */
  lemma MergeOfNothing(stored: Student, m: map<string, Json>)
    requires !NotBlank(AsText(Path(m, "name"))) && !NotBlank(AsText(Path(m, "major")))
    requires Normalize(m).dob.None? && Normalize(m).sex.None? && Normalize(m).gpa == GPA_ABSENT
    ensures Merge(stored, Normalize(m)) == stored
  {
  }

  /** Applying the same payload twice changes nothing more. */
  lemma MergeIdempotent(stored: Student, patch: Student)
    ensures Merge(Merge(stored, patch), patch) == Merge(stored, patch)
  {
  }

  /** A payload that is a whole valid record replaces every field except the id. */
  lemma MergeOfComplete(stored: Student, patch: Student)
    requires Valid(patch)
    ensures Merge(stored, patch) == patch.(id := stored.id)
  {
  }
}
