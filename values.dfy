/** Values exchanged with the request handlers: decoded JSON bodies, Python
    truthiness, `dict.get`, and the (status, body) pairs the handlers return. */
module Values {

  datatype Option<+T> = None | Some(value: T)

  /** A value as the handlers see it after `request.get_json()`, plus
      `Time` for the datetime columns that `to_dict` copies out of a row. */
  datatype Value =
    | Null
    | Bool(b: bool)
    | Int(i: int)
    | Str(s: string)
    | Time(t: nat)
    | List(items: seq<Value>)
    | Dict(entries: map<string, Value>)

  /** A decoded JSON object. */
  type Body = map<string, Value>

  /** Python truthiness: None, False, 0, '' and empty containers are false. */
  predicate Truthy(v: Value) {
    match v
    case Null => false
    case Bool(b) => b
    case Int(i) => i != 0
    case Str(s) => s != []
    case Time(_) => true
    case List(xs) => xs != []
    case Dict(m) => m != map[]
  }

  /** `body.get(key, default)`. */
  function Get(body: Body, key: string, default: Value := Null): Value {
    if key in body then body[key] else default
  }

  /** What a handler hands back to the framework: a status and a body. */
  datatype Reply = Reply(status: int, body: Value)

  /** `{'error': message}, status` as the handlers write it. */
  function ErrorReply(status: int, message: string): Reply {
    Reply(status, Dict(map["error" := Str(message)]))
  }

  /** A reply produced by the framework (a failed token check, `get_or_404`,
      an unhandled exception); its body is not part of this model. */
  function FrameworkReply(status: int): Reply {
    Reply(status, Null)
  }
}
