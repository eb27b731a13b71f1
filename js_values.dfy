/**
 * JavaScript values as the library sees them: the `any`/`unknown` that flows
 * through form values, change events and the type predicates of the utils package.
 */
module JsValues {
  import opened Wrappers

  /** A JavaScript number: `NaN` or a finite value (the infinities are not modelled). */
  datatype Number = NaN | Finite(r: real)

  /**
   * Objects carry their own enumerable properties in `props` (what `Object.keys`
   * lists); inherited properties are not modelled, so reading one gives `undefined`.
   * Functions and symbols are told apart by an identity only.
   */
  datatype JsValue =
    | Undefined
    | Null
    | Bool(b: bool)
    | Num(n: Number)
    | Str(s: string)
    | Arr(items: seq<JsValue>)
    | Obj(props: map<string, JsValue>)
    | Func(id: nat)
    | Sym(id: nat)
    | BigInt(i: int)

  /** The `typeof` operator. */
  function TypeOf(v: JsValue): string
  {
    match v
    case Undefined => "undefined"
    case Null => "object"
    case Bool(_) => "boolean"
    case Num(_) => "number"
    case Str(_) => "string"
    case Arr(_) => "object"
    case Obj(_) => "object"
    case Func(_) => "function"
    case Sym(_) => "symbol"
    case BigInt(_) => "bigint"
  }

  /** ToBoolean: what `if (v)`, `v && …` and `v || …` test. */
  predicate Truthy(v: JsValue)
  {
    match v
    case Undefined => false
    case Null => false
    case Bool(b) => b
    case Num(n) => n.Finite? && n.r != 0.0
    case Str(s) => s != ""
    case BigInt(i) => i != 0
    case _ => true
  }

  /** The `key in v` operator on an object value. */
  predicate HasProperty(v: JsValue, key: string)
  {
    v.Obj? && key in v.props
  }

  /**
   * Reading `v[key]`: on `undefined` or `null` it throws a TypeError; on an object
   * it gives the property or `undefined`. Properties of primitives, arrays and
   * functions (`length`, indices, prototype members) are not modelled: such a read
   * gives `undefined` here.
   */
  function Property(v: JsValue, key: string): (r: Result<JsValue>)
    ensures r.Err? <==> v == Undefined || v == Null
    ensures HasProperty(v, key) ==> r == Ok(v.props[key])
  {
    match v
    case Undefined => Err("TypeError: Cannot read properties of undefined")
    case Null => Err("TypeError: Cannot read properties of null")
    case Obj(props) => Ok(if key in props then props[key] else Undefined)
    case _ => Ok(Undefined)
  }
}
