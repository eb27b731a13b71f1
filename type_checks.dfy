/**
 * The type predicates of the utils package. Each is defined the way the
 * library writes it (through `typeof`, `===` and `Array.isArray`); its contract
 * says which kinds of value it accepts.
 */
module TypeChecks {
  import opened JsValues

  function IsUndefined(v: JsValue): (r: bool)
    ensures r <==> v.Undefined?
  {
    v == Undefined
  }

  function IsNull(v: JsValue): (r: bool)
    ensures r <==> v.Null?
  {
    v == Null
  }

  function IsNil(v: JsValue): (r: bool)
    ensures r <==> v.Undefined? || v.Null?
  {
    v == Null || v == Undefined
  }

  function IsString(v: JsValue): (r: bool)
    ensures r <==> v.Str?
  {
    TypeOf(v) == "string"
  }

  /** `NaN` is of type number but is rejected; numeric strings are not numbers. */
  function IsNumber(v: JsValue): (r: bool)
    ensures r <==> v.Num? && v.n.Finite?
  {
    TypeOf(v) == "number" && !v.n.NaN?
  }

  function IsBoolean(v: JsValue): (r: bool)
    ensures r <==> v.Bool?
  {
    TypeOf(v) == "boolean"
  }

  function IsFunction(v: JsValue): (r: bool)
    ensures r <==> v.Func?
  {
    TypeOf(v) == "function"
  }

  function IsArray(v: JsValue): (r: bool)
    ensures r <==> v.Arr?
  {
    v.Arr?
  }

  /** `null` and arrays have `typeof` "object" but are excluded. */
  function IsObject(v: JsValue): (r: bool)
    ensures r <==> v.Obj?
  {
    v != Null && TypeOf(v) == "object" && !IsArray(v)
  }

  /**
   * Empty means `null`, `undefined`, a string or array of length 0, or an object
   * with no keys; every other value (numbers including 0, booleans, functions,
   * symbols, bigints) is not empty.
   */
  function IsEmpty(v: JsValue): (r: bool)
    ensures r <==> v == Undefined || v == Null || v == Str("") || v == Arr([]) || v == Obj(map[])
  {
    if IsNil(v) then true
    else if IsString(v) then |v.s| == 0
    else if IsArray(v) then |v.items| == 0
    else if IsObject(v) then |v.props.Keys| == 0
    else false
  }

  /** `isNil` is the union of the two single-value predicates. */
  lemma NilIsUndefinedOrNull(v: JsValue)
    ensures IsNil(v) <==> IsUndefined(v) || IsNull(v)
    ensures IsUndefined(v) ==> !IsNull(v)
  {
  }

  /** Of the `typeof`-based predicates, at most one holds of any value, and `isObject` never overlaps them. */
  lemma KindsAreDisjoint(v: JsValue)
    ensures var kinds := [IsString(v), IsNumber(v), IsBoolean(v), IsFunction(v), IsArray(v), IsObject(v), IsNil(v)];
            forall i, j :: 0 <= i < j < |kinds| ==> !(kinds[i] && kinds[j])
  {
  }

  /** The expected outputs listed in the package's tests. */
  lemma MatchesTestExpectations()
    ensures IsUndefined(Undefined) && !IsUndefined(Null) && !IsUndefined(Str("")) && !IsUndefined(Num(Finite(0.0)))
    ensures IsNull(Null) && !IsNull(Undefined) && !IsNull(Str(""))
    ensures IsNil(Null) && IsNil(Undefined) && !IsNil(Str("")) && !IsNil(Num(Finite(0.0)))
    ensures IsString(Str("")) && IsString(Str("test")) && !IsString(Num(Finite(123.0))) && !IsString(Null)
    ensures IsNumber(Num(Finite(0.0))) && IsNumber(Num(Finite(123.0))) && !IsNumber(Num(NaN)) && !IsNumber(Str("123"))
    ensures IsBoolean(Bool(true)) && IsBoolean(Bool(false)) && !IsBoolean(Num(Finite(0.0))) && !IsBoolean(Str("true"))
    ensures IsFunction(Func(0)) && !IsFunction(Str("function")) && !IsFunction(Null)
    ensures IsObject(Obj(map[])) && IsObject(Obj(map["a" := Num(Finite(1.0))])) && !IsObject(Arr([]))
    ensures !IsObject(Null) && !IsObject(Str("object"))
    ensures IsArray(Arr([])) && IsArray(Arr([Num(Finite(1.0)), Num(Finite(2.0)), Num(Finite(3.0))]))
    ensures !IsArray(Obj(map[])) && !IsArray(Str("array"))
    ensures IsEmpty(Null) && IsEmpty(Undefined) && IsEmpty(Str("")) && IsEmpty(Arr([])) && IsEmpty(Obj(map[]))
    ensures !IsEmpty(Str("test")) && !IsEmpty(Arr([Num(Finite(1.0))])) && !IsEmpty(Obj(map["a" := Num(Finite(1.0))]))
  {
  }
}
