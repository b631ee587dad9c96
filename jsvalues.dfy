/** The dynamic JavaScript values that catalogue records are made of, with
    the conversions the source applies to them: `String(v)`, truthiness,
    `a || b`, `a ?? b` and property access. */
module JsValues {
  import opened Text

  /** A number is carried as the text `String(n)` gives for it; the source
      never does arithmetic on catalogue values. */
  datatype Value =
    | Undefined
    | Null
    | Bool(b: bool)
    | Num(text: string)
    | Str(s: string)
    | List(elems: seq<Value>)
    | Obj(fields: map<string, Value>)

  predicate IsNullish(v: Value) {
    v.Undefined? || v.Null?
  }

  /** `!!v`: `undefined`, `null`, `false`, `0`, `NaN` and `""` are falsy. */
  predicate Truthy(v: Value) {
    match v
    case Undefined => false
    case Null => false
    case Bool(b) => b
    case Num(t) => t != "0" && t != "NaN"
    case Str(s) => s != ""
    case List(_) => true
    case Obj(_) => true
  }

  /** `String(v)`; an array joins its elements with commas, rendering `null`
      and `undefined` elements as empty strings. */
  function ToStr(v: Value): string
    decreases v, 1
  {
    match v
    case Undefined => "undefined"
    case Null => "null"
    case Bool(b) => if b then "true" else "false"
    case Num(t) => t
    case Str(s) => s
    case List(es) => Join(",", ElemStrs(es))
    case Obj(_) => "[object Object]"
  }

  /** How `join` renders each element of an array. */
  function ElemStrs(es: seq<Value>): (r: seq<string>)
    decreases es, 0
    ensures |r| == |es|
  {
    if es == [] then []
    else [if IsNullish(es[0]) then "" else ToStr(es[0])] + ElemStrs(es[1..])
  }

  /** `a || b`. */
  function Or(a: Value, b: Value): Value
  {
    if Truthy(a) then a else b
  }

  /** `a ?? b`. */
  function Coalesce(a: Value, b: Value): Value
  {
    if IsNullish(a) then b else a
  }

  /** `v.key` for the keys the source reads: only plain objects carry them. */
  function Get(v: Value, key: string): Value
  {
    if v.Obj? && key in v.fields then v.fields[key] else Undefined
  }
}
