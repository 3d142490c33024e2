/**
 Runtime values as the type checks and the clone/merge utilities of
 src/common/utils/typeChecks.ts see them: a closed, acyclic, JSON-like tree.
 Heap identity is not modelled; two values are the same exactly when they are
 structurally equal.
 */
module JsValues {

  /** A JavaScript number. Only finiteness matters to the type checks, so the
      finite case carries a mathematical real and no IEEE rounding. */
  datatype Number = Finite(value: real) | NaN | PositiveInfinity | NegativeInfinity

  datatype Value =
    | Null
    | Undefined
    | Bool(b: bool)
    | Str(s: string)
    | Num(n: Number)
      /** A callable; it is never copied, so it is known only by its reference. */
    | Func(ref: nat)
      /** An array without holes. */
    | Arr(elems: seq<Value>)
      /** A plain object: its own enumerable string-keyed properties. */
    | Obj(fields: map<string, Value>)

  /** The answers of JavaScript's `typeof` operator that these values can give. */
  datatype TypeTag = UndefinedTag | ObjectTag | BooleanTag | NumberTag | StringTag | FunctionTag

  /** `typeof v`. Note that `typeof null` is "object", as in JavaScript. */
  function TypeOf(v: Value): TypeTag
  {
    match v
    case Null => ObjectTag
    case Undefined => UndefinedTag
    case Bool(_) => BooleanTag
    case Str(_) => StringTag
    case Num(_) => NumberTag
    case Func(_) => FunctionTag
    case Arr(_) => ObjectTag
    case Obj(_) => ObjectTag
  }

  /** The class names `Object.prototype.toString` reports, as in "[object Array]". */
  datatype ClassTag = NullClass | UndefinedClass | BooleanClass | StringClass | NumberClass
                    | FunctionClass | ArrayClass | ObjectClass

  /** The class `Object.prototype.toString.call(v)` reports for `v`. */
  function ClassOf(v: Value): ClassTag
  {
    match v
    case Null => NullClass
    case Undefined => UndefinedClass
    case Bool(_) => BooleanClass
    case Str(_) => StringClass
    case Num(_) => NumberClass
    case Func(_) => FunctionClass
    case Arr(_) => ArrayClass
    case Obj(_) => ObjectClass
  }
}
