/** The machine-readable error codes and fixed message texts the server writes. */
module Codes {
  /**
   * The codes `sendError` is called with. `validatePayload` uses the
   * upper-cased action name itself as the code: MissingPayload(action).
   */
  datatype Code =
    | INVALID_NAME | INVALID_DOB | INVALID_GPA | INVALID_SEX | INVALID_MAJOR
    | INVALID_ID | ID_NOT_EXIST | UPDATE_FAIL | DELETE_FAIL | UNKNOWN_ACTION
    | DB_ERROR | TIMEOUT | SERVER_ERROR
    | MissingPayload(action: string)

  /** The code as written in the response's "code" member. */
  function CodeText(c: Code): string
  {
    match c
    case INVALID_NAME => "INVALID_NAME"
    case INVALID_DOB => "INVALID_DOB"
    case INVALID_GPA => "INVALID_GPA"
    case INVALID_SEX => "INVALID_SEX"
    case INVALID_MAJOR => "INVALID_MAJOR"
    case INVALID_ID => "INVALID_ID"
    case ID_NOT_EXIST => "ID_NOT_EXIST"
    case UPDATE_FAIL => "UPDATE_FAIL"
    case DELETE_FAIL => "DELETE_FAIL"
    case UNKNOWN_ACTION => "UNKNOWN_ACTION"
    case DB_ERROR => "DB_ERROR"
    case TIMEOUT => "TIMEOUT"
    case SERVER_ERROR => "SERVER_ERROR"
    case MissingPayload(action) => action
  }

  /** Codes whose message is a fixed text; DB_ERROR and SERVER_ERROR carry the exception's message instead. */
  predicate HasFixedMessage(c: Code)
  {
    !c.DB_ERROR? && !c.SERVER_ERROR?
  }

  /** The fixed message sent with each code; a missing payload's names the action after a fixed prefix. */
  function MessageFor(c: Code): (r: string)
    requires HasFixedMessage(c)
    ensures c.MissingPayload? ==> |r| == |MISSING_PREFIX| + |c.action| && r[..|MISSING_PREFIX|] == MISSING_PREFIX && r[|MISSING_PREFIX|..] == c.action
  {
    match c
    case INVALID_NAME => "Name không thể để trống"
    case INVALID_DOB => "Dob không để trống và chỉ được để ở dạng YYYY-MM-DD"
    case INVALID_GPA => "Gpa không để trống và chỉ nằm trong 0 và 4"
    case INVALID_SEX => "Sex không để trống và phải điền đúng yêu cầu"
    case INVALID_MAJOR => "Major không thể để trống"
    case INVALID_ID => "Id hợp lệ phải là số nguyên dương"
    case ID_NOT_EXIST => "Id không tồn tại"
    case UPDATE_FAIL => "Không thể update"
    case DELETE_FAIL => "Không thể xóa"
    case UNKNOWN_ACTION => "Chỉ hỗ trợ: INSERT,FIND,LIST,UPDATE,DELETE,QUIT"
    case TIMEOUT => "Không có data phản hồi quá thời gian quy định"
    case MissingPayload(action) => MISSING_PREFIX + action
  }

  const MISSING_PREFIX: string := "Payload phải có để yêu cầu "

  /** The SERVER_ERROR text for a node that is not an object (the JVM's ClassCastException text is not reproduced). */
  const NOT_AN_OBJECT: string := "ClassCastException: not an ObjectNode"
}
