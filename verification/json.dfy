/**
 * The JavaScript values a handler sees in a parsed JSON request body.
 * A property the body does not carry reads as `undefined`.
 */
module JsonValue {

  /** A JSON value, plus `Undefined` for a property that is absent. Numbers are finite reals:
      the infinities a literal such as `1e400` parses to are not represented (they are truthy,
      like every non-zero number). */
  datatype Json =
    | Undefined
    | Null
    | Bool(b: bool)
    | Num(n: real)
    | Str(s: string)
    | Arr(items: seq<Json>)
    | Obj(members: map<string, Json>)

  /** JavaScript's ToBoolean: `undefined`, `null`, `false`, `0` (and `-0`) and `""` are falsy,
      every other value, empty arrays and objects included, is truthy. */
  predicate Truthy(v: Json)
    ensures !Truthy(v) <==> v in {Undefined, Null, Bool(false), Num(0.0), Str("")}
  {
    match v
    case Undefined => false
    case Null => false
    case Bool(b) => b
    case Num(n) => n != 0.0
    case Str(s) => s != ""
    case Arr(_) => true
    case Obj(_) => true
  }

  /** Reading `obj.key` out of a parsed JSON object. */
  function Property(obj: map<string, Json>, key: string): Json
  {
    if key in obj then obj[key] else Undefined
  }

}
