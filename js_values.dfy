/** The JavaScript values the relay passes around unchanged: a client's
    display name and a message body are whatever the client sent. */
module JsValues {

  /** A JSON-shaped JavaScript value. Numbers are integers here; objects and
      arrays are opaque, since the relay never looks inside them. */
  datatype Value = Undefined | Null | Bool(b: bool) | Num(n: int) | Str(s: string) | Obj

  /** The falsy values of JavaScript among those above. */
  const Falsy: set<Value> := {Undefined, Null, Bool(false), Num(0), Str("")}

  /** JavaScript truthiness, the test `if (username)` applies. */
  predicate Truthy(v: Value)
    ensures Truthy(v) <==> v !in Falsy
  {
    match v
    case Undefined => false
    case Null => false
    case Bool(b) => b
    case Num(n) => n != 0
    case Str(s) => s != ""
    case Obj => true
  }
}
