/**
 * JSON trees as the request decoder (Jackson's ObjectMapper.readTree) hands
 * them to the dispatcher, and the Jackson accessors the dispatcher applies to
 * them: `path`, `asText(null)`, `asDouble(-1)`, `asLong(-1)`, `isEmpty`.
 */
module Json {
  import opened Optional

  datatype Json =
    | JNull
    | JBool(b: bool)
    | JNum(n: real)
    | JStr(s: string)
    | JArray(items: seq<Json>)
    | JObject(members: map<string, Json>)

  /** `node.path(key)` on an object node: None stands for Jackson's MissingNode. */
  function Path(members: map<string, Json>, key: string): (r: Option<Json>)
    ensures r.Some? <==> key in members
    ensures r.Some? ==> r.value == members[key]
  {
    if key in members then Some(members[key]) else None
  }

  /**
   * `node.asText(null)`: the text of a string node, "true"/"false" for a
   * boolean, "" for a container; the default (None) for a missing or null
   * node. Numbers are treated as carrying no text (see README, Left out).
   */
  function AsText(node: Option<Json>): (r: Option<string>)
    ensures r.None? <==> node.None? || node.value.JNull? || node.value.JNum?
    ensures node.Some? && node.value.JStr? ==> r == Some(node.value.s)
    ensures node.Some? && (node.value.JArray? || node.value.JObject?) ==> r == Some("")
  {
    match node
    case None => None
    case Some(JNull) => None
    case Some(JBool(b)) => Some(if b then "true" else "false")
    case Some(JNum(_)) => None
    case Some(JStr(s)) => Some(s)
    case Some(JArray(_)) => Some("")
    case Some(JObject(_)) => Some("")
  }

  /** `node.asDouble(default)`: the value of a number node, 1.0 or 0.0 for a boolean node, else the default. */
  function AsDouble(node: Option<Json>, default: real): (r: real)
    ensures node.Some? && node.value.JNum? ==> r == node.value.n
    ensures node.Some? && node.value.JBool? ==> r == if node.value.b then 1.0 else 0.0
    ensures node.None? || !(node.value.JNum? || node.value.JBool?) ==> r == default
  {
    match node
    case Some(JNum(n)) => n
    case Some(JBool(b)) => if b then 1.0 else 0.0
    case _ => default
  }

  /** Java's `(long) x` for a finite double: truncation toward zero. */
  function Truncate(x: real): (r: int)
    ensures 0.0 <= x ==> r as real <= x < r as real + 1.0
    ensures x < 0.0 ==> r as real - 1.0 < x <= r as real
  {
    if 0.0 <= x then x.Floor else -((-x).Floor)
  }

  /** `node.asLong(default)`: a number node truncated toward zero, else the default. */
  function AsLong(node: Option<Json>, default: int): (r: int)
    ensures node.Some? && node.value.JNum? ==> r == Truncate(node.value.n)
    ensures node.Some? && node.value.JBool? ==> r == if node.value.b then 1 else 0
    ensures node.None? || !(node.value.JNum? || node.value.JBool?) ==> r == default
  {
    match node
    case Some(JNum(n)) => Truncate(n)
    case Some(JBool(b)) => if b then 1 else 0
    case _ => default
  }

  /** `JsonNode.isEmpty()`: `size() == 0`, which holds for every scalar node. */
  predicate IsEmptyNode(node: Json)
    ensures !node.JArray? && !node.JObject? ==> IsEmptyNode(node)
    ensures node.JObject? ==> (IsEmptyNode(node) <==> node.members == map[])
    ensures node.JArray? ==> (IsEmptyNode(node) <==> node.items == [])
  {
    match node
    case JArray(items) => |items| == 0
    case JObject(members) => |members| == 0
    case _ => true
  }
}
