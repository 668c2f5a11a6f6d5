/** The JSON values the service exchanges, and the Python dict records built from them. */
module Json {

  datatype Option<T> = None | Some(value: T)

  datatype Result<T, E> = Ok(value: T) | Err(error: E)

  /** A JSON value as Python sees it after `json.loads`; numbers are integers in this model. */
  datatype Json =
    | JNull
    | JBool(b: bool)
    | JNum(n: int)
    | JStr(s: string)
    | JArr(items: seq<Json>)
    | JObj(fields: map<string, Json>)

  /** A Python dict with string keys, such as the tweet record. */
  type Record = map<string, Json>

  /** `not v` in Python: None, False, 0, '', [] and {} are falsy. */
  predicate Falsy(v: Json) {
    match v
    case JNull => true
    case JBool(b) => !b
    case JNum(n) => n == 0
    case JStr(s) => s == []
    case JArr(items) => items == []
    case JObj(fields) => fields == map[]
  }

  /** `type(v).__name__`, as it appears in Python's exception messages. */
  function TypeName(v: Json): string {
    match v
    case JNull => "NoneType"
    case JBool(_) => "bool"
    case JNum(_) => "int"
    case JStr(_) => "str"
    case JArr(_) => "list"
    case JObj(_) => "dict"
  }

  /** `d.get(key)`: the value under `key`, or None. */
  function Get(d: Record, key: string): (v: Json)
    ensures key !in d ==> v == JNull
    ensures key in d ==> v == d[key]
  {
    if key in d then d[key] else JNull
  }

  /** `d.get(key, default)` */
  function GetOr(d: Record, key: string, default: Json): (v: Json)
    ensures key !in d ==> v == default
    ensures key in d ==> v == d[key]
  {
    if key in d then d[key] else default
  }

  /** `v in [None, '', []]`: the values the extractor drops from a finished record. */
  predicate IsEmptyValue(v: Json) {
    v == JNull || v == JStr("") || v == JArr([])
  }

  /** `{k: v for k, v in d.items() if v not in [None, '', []]}` */
  function Sparse(d: Record): (r: Record)
    ensures r.Keys <= d.Keys
    ensures forall k :: k in r ==> r[k] == d[k] && !IsEmptyValue(d[k])
    ensures forall k :: k in d && !IsEmptyValue(d[k]) ==> k in r
  {
    map k | k in d && !IsEmptyValue(d[k]) :: d[k]
  }

  /** Updating `base` with `fields` and then dropping empty values, seen at one key: the
      update's value wins, and an entry survives exactly when its value is not empty. */
  lemma SparseMergeAt(base: Record, fields: Record, k: string)
    ensures var r := Sparse(base + fields);
            (k in fields ==> (k in r <==> !IsEmptyValue(fields[k])) && (k in r ==> r[k] == fields[k]))
            && (k !in fields ==> (k in r <==> k in base && !IsEmptyValue(base[k])) && (k in r ==> r[k] == base[k]))
  {
  }

  /** `r.get("status") != "error"`: a record that does not report an error. */
  predicate NotError(r: Record) {
    Get(r, "status") != JStr("error")
  }

  /** A list of strings as a JSON array. */
  function StringArray(xs: seq<string>): (v: Json)
    ensures v.JArr? && |v.items| == |xs|
    ensures forall i :: 0 <= i < |xs| ==> v.items[i] == JStr(xs[i])
  {
    if xs == [] then JArr([]) else JArr([JStr(xs[0])] + StringArray(xs[1..]).items)
  }
}
