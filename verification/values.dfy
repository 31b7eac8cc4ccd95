/** JavaScript values as they appear in the records the client stores: the primitives the
    application writes, arrays, and opaque blobs. A field that is absent from a record is
    JavaScript's `undefined`. */
module Values {
  import Text
  import opened Hex

  datatype Value =
    | VStr(s: string)
    | VInt(n: int)
    | VBool(b: bool)
    | VNull
    | VList(items: seq<Value>)
    | VBlob(mime: string, bytes: seq<Byte>)

  /** A plain object: field name to value. Object spread `{...a, ...b}` is `a + b`. */
  type Record = map<string, Value>

  /** The properties every plain object inherits from `Object.prototype` (section 20.1.3 of
      ECMA-262 with the accessors of its Annex B.2.2). Reading one of these names from a plain
      object that has no own property of that name yields a function, or for `__proto__` the
      prototype object itself: a truthy object either way. */
  const InheritedNames: set<string> := {
    "constructor", "hasOwnProperty", "isPrototypeOf", "propertyIsEnumerable", "toLocaleString",
    "toString", "valueOf", "__proto__", "__defineGetter__", "__defineSetter__",
    "__lookupGetter__", "__lookupSetter__"}

  /** JavaScript truthiness. */
  predicate Truthy(v: Value) {
    match v
    case VStr(s) => s != ""
    case VInt(n) => n != 0
    case VBool(b) => b
    case VNull => false
    case VList(_) => true
    case VBlob(_, _) => true
  }

  predicate IsPrimitive(v: Value) {
    v.VStr? || v.VInt? || v.VBool? || v.VNull?
  }

  /** `a === b` for values read independently of each other: primitives compare by value,
      while two objects are identical only if they are the same object, which values taken
      from different places (a stored clone and a caller's argument) never are. */
  predicate StrictEquals(a: Value, b: Value) {
    a == b && IsPrimitive(a)
  }

  /** `record.field === v`, where a missing field is `undefined` and so equals no value here. */
  predicate FieldIs(r: Record, field: string, v: Value) {
    field in r && StrictEquals(r[field], v)
  }

  /** `String(v)`: the string `TextEncoder.encode` sees. */
  function ToJsString(v: Value): string
    decreases v
  {
    match v
    case VStr(s) => s
    case VInt(n) => Text.IntToDecimal(n)
    case VBool(b) => if b then "true" else "false"
    case VNull => "null"
    case VList(items) =>
      Text.Join(seq(|items|, i requires 0 <= i < |items| =>
                      if items[i].VNull? then "" else ToJsString(items[i])), ",")
    case VBlob(_, _) => "[object Blob]"
  }
}
