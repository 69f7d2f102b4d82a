/**
 * The managed record (model/Student.java): a Lombok `@Data` class whose field
 * annotations state what a persisted record must satisfy. Absent text, date
 * and sex are Java `null`, modelled as None.
 */
module StudentModel {
  import opened Optional
  import opened Text
  import opened Dates

  /** The three constants of the `Sex` enum, in declaration order. */
  datatype Sex = MALE | FEMALE | OTHER

  function SexName(x: Sex): string
  {
    match x
    case MALE => "MALE"
    case FEMALE => "FEMALE"
    case OTHER => "OTHER"
  }

  /** `Sex.valueOf(s)`: the constant named exactly `s`, None where Java throws. */
  function SexValueOf(s: string): (r: Option<Sex>)
    ensures forall x :: r == Some(x) <==> SexName(x) == s
  {
    if s == "MALE" then Some(MALE)
    else if s == "FEMALE" then Some(FEMALE)
    else if s == "OTHER" then Some(OTHER)
    else None
  }

  datatype Student = Student(
    id: int,
    name: Option<string>,
    dob: Option<Date>,
    gpa: real,
    sex: Option<Sex>,
    major: Option<string>)

  /** Jakarta `@NotBlank`: not null and holding a non-whitespace character. */
  predicate NotBlank(t: Option<string>)
  {
    t.Some? && !IsBlank(t.value)
  }

  /**
   * Hibernate Validator's reading of `@NotBlank`: not null, and not empty
   * once `trim` has removed the code points up to U+0020.
   */
  predicate HasVisibleText(t: Option<string>)
  {
    t.Some? && Trim(t.value) != []
  }

  /** The two readings of `@NotBlank` agree on text whose whitespace is exactly its trimmable characters. */
  lemma NotBlankReadingsAgree(t: Option<string>)
    requires t.Some?
    requires forall i :: 0 <= i < |t.value| ==> (IsWhitespace(t.value[i]) <==> IsTrimmable(t.value[i]))
    ensures NotBlank(t) <==> HasVisibleText(t)
  {
    TrimEmpty(t.value);
  }

  /**
   * They differ on a control character that is not whitespace (U+0001, which
   * `trim` strips) and on whitespace above U+0020 (the em space U+2003, which
   * `trim` keeps).
   */
  lemma NotBlankReadingsDiffer()
    ensures NotBlank(Some("\U{1}")) && !HasVisibleText(Some("\U{1}"))
    ensures !NotBlank(Some("\U{2003}")) && HasVisibleText(Some("\U{2003}"))
  {
    OneCharReadings('\U{1}');
    OneCharReadings('\U{2003}');
  }

  /** On a one-character text, each reading tests its own character class. */
  lemma OneCharReadings(c: char)
    ensures NotBlank(Some([c])) <==> !IsWhitespace(c)
    ensures HasVisibleText(Some([c])) <==> !IsTrimmable(c)
  {
    assert [c][0] == c;
    TrimEmpty([c]);
  }

  const GPA_MIN: real := 0.0
  const GPA_MAX: real := 4.0

  /** The field constraints of Student.java, both gpa bounds inclusive. */
  predicate Valid(s: Student)
    ensures Valid(s) ==> s.name.Some? && s.dob.Some? && s.sex.Some? && s.major.Some?
    ensures Valid(s) ==> 0.0 <= s.gpa <= 4.0
  {
    && NotBlank(s.name)
    && s.dob.Some?
    && GPA_MIN <= s.gpa <= GPA_MAX
    && s.sex.Some?
    && NotBlank(s.major)
  }
}
