/**
 The runtime classifiers of src/common/utils/typeChecks.ts. Each is a total
 boolean test; the contracts say which constructors of `Value` it accepts.
 */
module TypeChecks {
  import opened JsValues

  /** `Object.prototype.toString.call(v) === '[object Array]'`: true exactly
      for arrays, and every array is also an object in the sense of IsObject. */
  function IsArray(v: Value): (r: bool)
    ensures r <==> v.Arr?
    ensures r ==> IsObject(v)
  {
    ClassOf(v) == ArrayClass
  }

  /** `typeof v === 'function'`. */
  function IsFunction(v: Value): (r: bool)
    ensures r <==> v.Func?
  {
    TypeOf(v) == FunctionTag
  }

  /** Neither null nor undefined. */
  predicate IsValid(v: Value)
  {
    v != Null && v != Undefined
  }

  /** `typeof v === 'object'` and not null or undefined: the composite values,
      arrays included, and nothing else. */
  function IsObject(v: Value): (r: bool)
    ensures r <==> v.Arr? || v.Obj?
  {
    TypeOf(v) == ObjectTag && IsValid(v)
  }

  /** `typeof v === 'number'` and finite: NaN and the infinities are rejected. */
  function IsNumber(v: Value): (r: bool)
    ensures r <==> v.Num? && v.n.Finite?
  {
    TypeOf(v) == NumberTag && v.n.Finite?
  }

  /** `typeof v === 'boolean'`. */
  function IsBoolean(v: Value): (r: bool)
    ensures r <==> v.Bool?
  {
    TypeOf(v) == BooleanTag
  }

  /** `typeof v === 'string'`. */
  function IsString(v: Value): (r: bool)
    ensures r <==> v.Str?
  {
    TypeOf(v) == StringTag
  }

  /** Every value falls into exactly one class: composite (array or plain
      object), callable, boolean, string, number (finite or not), or one of the
      two sentinels null and undefined, which are exactly what IsValid rejects. */
  lemma Classification(v: Value)
    ensures !IsValid(v) <==> v == Null || v == Undefined
    ensures IsObject(v) || IsFunction(v) || IsBoolean(v) || IsString(v) || v.Num? || !IsValid(v)
    ensures IsObject(v) ==> !IsFunction(v) && !IsBoolean(v) && !IsString(v) && !v.Num? && IsValid(v)
    ensures IsFunction(v) ==> !IsBoolean(v) && !IsString(v) && !v.Num? && IsValid(v)
    ensures IsBoolean(v) ==> !IsString(v) && !v.Num? && IsValid(v)
    ensures IsString(v) ==> !v.Num? && IsValid(v)
    ensures v.Num? ==> IsValid(v)
    ensures IsNumber(v) ==> v.Num?
  {
  }

  /** The edge cases the utilities rely on: null is not an object although
      its `typeof` is "object", an empty array is one, NaN and the
      infinities are not numbers, only a real array is an array, and only
      null and undefined are invalid. */
  lemma EdgeCases()
    ensures TypeOf(Null) == ObjectTag && !IsObject(Null)
    ensures IsObject(Arr([])) && IsObject(Obj(map[]))
    ensures !IsObject(Num(Finite(5.0))) && !IsObject(Func(0)) && !IsObject(Undefined)
    ensures !IsNumber(Num(NaN)) && !IsNumber(Num(PositiveInfinity)) && !IsNumber(Num(NegativeInfinity))
    ensures IsNumber(Num(Finite(3.0)))
    ensures IsArray(Arr([])) && !IsArray(Obj(map[])) && !IsArray(Str("ab"))
    ensures !IsValid(Null) && !IsValid(Undefined) && IsValid(Num(NaN)) && IsValid(Bool(false))
  {
  }
}
