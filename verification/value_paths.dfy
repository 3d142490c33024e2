/**
 Addressing inside a value by a path of keys, the way repeated property
 reads `v[k1][k2]...` do. Used to state what merge does at every depth.
 */
module ValuePaths {
  import opened JsValues
  import opened TypeChecks

  datatype Option<T> = None | Some(value: T)

  /** One step of a path: an array index or an object property name. */
  datatype Key = Index(i: nat) | Field(name: string)

  /** The own member of `v` at `key`, if there is one. Atomic values have no
      members, and an index does not address an object nor a name an array. */
  function Entry(v: Value, key: Key): (r: Option<Value>)
    ensures r.Some? ==> IsObject(v)
  {
    match (v, key)
    case (Arr(a), Index(i)) => if i < |a| then Some(a[i]) else None
    case (Obj(m), Field(k)) => if k in m then Some(m[k]) else None
    case _ => None
  }

  /** `v[key]` as JavaScript reads it: a missing member is undefined. */
  function Slot(v: Value, key: Key): Value
  {
    match Entry(v, key)
    case Some(c) => c
    case None => Undefined
  }

  /** The value reached by following `p` from `v`, if every step exists. */
  function Get(v: Value, p: seq<Key>): Option<Value>
    decreases |p|
  {
    if |p| == 0 then Some(v)
    else match Entry(v, p[0])
      case None => None
      case Some(c) => Get(c, p[1..])
  }

  /** A merge from `s` leaves the target alone along `p`: walking `p` through
      `s`, every source member met on the way is composite (so merge recurses
      rather than overwrites) until `s` has no member at the next step. */
  predicate Untouched(s: Value, p: seq<Key>)
    decreases |p|
  {
    |p| > 0 &&
    match Entry(s, p[0])
    case None => true
    case Some(c) => IsObject(c) && Untouched(c, p[1..])
  }

  /** An untouched path does not exist in the source. */
  lemma {:induction false} UntouchedIsAbsent(s: Value, p: seq<Key>)
    requires Untouched(s, p)
    ensures Get(s, p) == None
    decreases |p|
  {
    match Entry(s, p[0])
    case None =>
    case Some(c) => UntouchedIsAbsent(c, p[1..]);
  }
}
