/**
 * JSON values as Python's `json` module sees the task payloads: `None`, booleans, integers,
 * strings, lists and dicts. A dict is kept as its list of members in insertion order, the way
 * a Python dict iterates, so that key order is something the model can talk about.
 */
module Json {

  datatype Json =
    | Null
    | Bool(b: bool)
    | Int(i: int)
    | Str(s: string)
    | Arr(items: seq<Json>)
    | Obj(members: seq<Member>)

  /** One key/value entry of a dict. */
  datatype Member = Member(key: string, value: Json)

  /** Python truthiness: `None`, `False`, `0`, `""`, `[]` and `{}` are false. */
  predicate Falsy(v: Json) {
    match v
    case Null => true
    case Bool(b) => !b
    case Int(i) => i == 0
    case Str(s) => |s| == 0
    case Arr(xs) => |xs| == 0
    case Obj(ms) => |ms| == 0
  }

  /** Python's `v or default`. */
  function OrElse(v: Json, default: Json): Json {
    if Falsy(v) then default else v
  }

  /** No key occurs twice among the members. */
  predicate DistinctKeys(ms: seq<Member>) {
    forall i, j :: 0 <= i < j < |ms| ==> ms[i].key != ms[j].key
  }

  /** Every dict inside `v` has distinct keys, as every Python dict does. */
  predicate WellFormed(v: Json) {
    match v
    case Arr(xs) => forall i :: 0 <= i < |xs| ==> WellFormed(xs[i])
    case Obj(ms) => DistinctKeys(ms) && forall i :: 0 <= i < |ms| ==> WellFormed(ms[i].value)
    case _ => true
  }
}
