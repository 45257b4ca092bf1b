/** The values `json.loads` produces, seen as the Python objects the code
    then handles: truthiness, `type(v).__name__`, `dict.get`, `key in dict`
    and `str(v)`. */
module Json {
  import opened Wrappers
  import opened Text

  /** A decoded JSON value. A float carries its Python `str()` rendering and
      whether it is zero; an object carries its members in document order with
      distinct keys, as a Python `dict` built by the decoder does. */
  datatype Json =
    | JNull
    | JBool(b: bool)
    | JInt(n: int)
    | JFloat(rendered: string, isZero: bool)
    | JString(str: string)
    | JArray(items: seq<Json>)
    | JObject(members: seq<(string, Json)>)

  /** `json.loads`; `None` stands for a raised `JSONDecodeError`. */
  type Decoder = string -> Option<Json>

  /** Python's `bool(v)`. */
  predicate Truthy(j: Json) {
    match j
    case JNull => false
    case JBool(b) => b
    case JInt(n) => n != 0
    case JFloat(_, zero) => !zero
    case JString(s) => s != []
    case JArray(items) => items != []
    case JObject(members) => members != []
  }

  /** Python's `type(v).__name__`. */
  function TypeName(j: Json): string {
    match j
    case JNull => "NoneType"
    case JBool(_) => "bool"
    case JInt(_) => "int"
    case JFloat(_, _) => "float"
    case JString(_) => "str"
    case JArray(_) => "list"
    case JObject(_) => "dict"
  }

  /** The value stored under `key`, as `dict.get(key)` finds it. */
  function Lookup(members: seq<(string, Json)>, key: string): (r: Option<Json>)
    ensures r.None? <==> forall k :: 0 <= k < |members| ==> members[k].0 != key
    ensures r.Some? ==> exists k :: 0 <= k < |members| && members[k] == (key, r.value)
  {
    if members == [] then None
    else if members[0].0 == key then Some(members[0].1)
    else
      var r := Lookup(members[1..], key);
      assert forall k :: 1 <= k < |members| ==> members[k] == members[1..][k - 1];
      r
  }

  /** `key in v` for a decoded dict. */
  predicate HasKey(j: Json, key: string) {
    j.JObject? && Lookup(j.members, key).Some?
  }

  /** The message of the `AttributeError` that `.get` raises on a decoded value
      that is not a dict. */
  function NoGetMessage(j: Json): string {
    "'" + TypeName(j) + "' object has no attribute 'get'"
  }

  /** Python's `str(v)`: a string is itself, anything else its `repr`. */
  function PyStr(j: Json): string {
    if j.JString? then j.str else Repr(j)
  }

  /** Python's `repr(v)` for decoded values. */
  function Repr(j: Json): string
    decreases j
  {
    match j
    case JNull => "None"
    case JBool(b) => if b then "True" else "False"
    case JInt(n) => IntToDecimal(n)
    case JFloat(t, _) => t
    case JString(s) => "'" + s + "'"
    case JArray(items) =>
      "[" + Join(", ", seq(|items|, k requires 0 <= k < |items| => Repr(items[k]))) + "]"
    case JObject(ms) =>
      "{" + Join(", ", seq(|ms|, k requires 0 <= k < |ms| => "'" + ms[k].0 + "': " + Repr(ms[k].1))) + "}"
  }
}
