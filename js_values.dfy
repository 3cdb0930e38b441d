/** The JavaScript values that reach the engine from a JSON request body or a stored
    document field, as far as the engine distinguishes them. */
module JsValues {
  import opened Bytes

  /** `Primitive` stands for a number or a boolean, given by its `String()` text
      ("12", "0", "false", "NaN"); two primitives are `===` exactly when these texts are
      equal, so `===` on this type is datatype equality. */
  datatype JsValue = Undefined | Null | Str(text: Text) | Primitive(repr: NonEmptyText)

  /** The `String()` text of a number or boolean is never empty. */
  type NonEmptyText = t: Text | |t| > 0 witness [0x30]

  const UndefinedText: Text := [0x75, 0x6E, 0x64, 0x65, 0x66, 0x69, 0x6E, 0x65, 0x64]  // "undefined"
  const NullText: Text := [0x6E, 0x75, 0x6C, 0x6C]                                      // "null"
  const ZeroText: Text := [0x30]                                                        // "0"
  const FalseText: Text := [0x66, 0x61, 0x6C, 0x73, 0x65]                               // "false"
  const NaNText: Text := [0x4E, 0x61, 0x4E]                                             // "NaN"

  /** JavaScript truthiness: `undefined`, `null`, `""`, `0`, `NaN` and `false` are falsy. */
  predicate Truthy(v: JsValue) {
    match v
    case Undefined => false
    case Null => false
    case Str(t) => |t| > 0
    case Primitive(r) => r != ZeroText && r != FalseText && r != NaNText
  }

  /** `String(v)`, which is also what a template literal `${v}` inserts. */
  function StringOf(v: JsValue): Text {
    match v
    case Undefined => UndefinedText
    case Null => NullText
    case Str(t) => t
    case Primitive(r) => r
  }

  /** `v == null` in JavaScript (loose equality): true for `null` and `undefined` only. */
  predicate IsNullish(v: JsValue) { v.Undefined? || v.Null? }
}
