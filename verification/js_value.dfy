/**
 A scalar cell value of a row object, as a spreadsheet reader or `JSON.parse`
 produces it, together with the two JavaScript conversions the helpers in
 server.js apply to it: `typeof` and `String(...)`.

 Number formatting is floating-point territory, so it is not modelled: every
 function that renders a number takes the renderer `render` (JavaScript's
 `String(n)` on a number) as a parameter and promises nothing about it.
 */
module JsValue {

  /** A cell value. Numbers are carried as `real`; the model never computes with them. */
  datatype Val = Str(s: string) | Num(n: real) | Bool(b: bool) | Null

  /** JavaScript `typeof` on a cell value. `typeof null` is "object". */
  function TypeOf(v: Val): (t: string)
    ensures t in {"string", "number", "boolean", "object"}
    ensures t == "object" <==> v.Null?
  {
    match v
    case Str(_) => "string"
    case Num(_) => "number"
    case Bool(_) => "boolean"
    case Null => "object"
  }

  /** JavaScript `String(v)`. */
  function ToJsString(v: Val, render: real -> string): string
  {
    match v
    case Str(s) => s
    case Num(n) => render(n)
    case Bool(b) => if b then "true" else "false"
    case Null => "null"
  }

  /**
   How `Array.prototype.join` renders one element (section 23.1.3.18 of
   ECMA-262): `null` and `undefined` become the empty string, anything else
   goes through `String(...)`.
   */
  function JoinElement(v: Val, render: real -> string): string
  {
    if v.Null? then "" else ToJsString(v, render)
  }

  /** `typeof` tells the four kinds of cell value apart, and nothing more. */
  lemma TypeOfDistinguishesKinds(a: Val, b: Val)
    ensures TypeOf(a) == TypeOf(b) <==>
            (a.Str? && b.Str?) || (a.Num? && b.Num?) || (a.Bool? && b.Bool?) || (a.Null? && b.Null?)
  {
  }
}
