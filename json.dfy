/**
  The value `await request.json()` produces, and the two pieces of JavaScript
  semantics the create handler applies to it: the object destructuring
  `const { content } = body` and the truthiness test `!content`.
 */
module Json {

  /**
    A parsed JSON value. Numbers are the parsed double as a real (a JSON text
    never yields NaN). A literal too large for a double, such as `1e400`,
    parses to an infinity, which any non-zero real stands for here: both are
    truthy. An object maps each key to the value `JSON.parse` kept for it
    (the last one when a key is repeated).
   */
  datatype Value =
    | Null
    | Bool(b: bool)
    | Number(n: real)
    | String(s: string)
    | Array(items: seq<Value>)
    | Object(members: map<string, Value>)

  /**
    ECMAScript ToBoolean on a JSON value: the falsy ones are `null`, `false`,
    `0` (and `-0`) and the empty string; every array and object, even an
    empty one, is truthy.
   */
  function IsTruthy(v: Value): (t: bool)
    ensures !t <==> v == Null || v == Bool(false) || v == Number(0.0) || v == String("")
    ensures v.Array? || v.Object? ==> t
  {
    match v
    case Null => false
    case Bool(b) => b
    case Number(n) => n != 0.0
    case String(s) => s != ""
    case Array(_) => true
    case Object(_) => true
  }

  /** The result of reading a property: a thrown TypeError, `undefined`, or a value. */
  datatype Property = Throws | Undefined | Defined(value: Value)

  /**
    `const { content } = body`. Destructuring `null` throws a TypeError. An
    object yields its own `content` member or `undefined`. Strings, numbers,
    booleans and arrays have no `content` property, and neither do their
    prototypes, so they yield `undefined`.
   */
  function ContentProperty(body: Value): (p: Property)
    ensures p.Throws? <==> body == Null
    ensures p.Defined? <==> body.Object? && "content" in body.members
    ensures p.Defined? ==> p.value == body.members["content"]
  {
    match body
    case Null => Throws
    case Object(members) => if "content" in members then Defined(members["content"]) else Undefined
    case _ => Undefined
  }
}
