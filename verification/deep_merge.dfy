/**
 Deep merge (src/common/utils/typeChecks.ts, `merge`). The source mutates
 `target` in place and returns nothing; here `Merge` returns the updated
 target and the source is an ordinary (never changed) value.
 */
module DeepMerge {
  import opened JsValues
  import opened TypeChecks
  import opened DeepClone

  function Max(a: int, b: int): int
  {
    if a < b then b else a
  }

  /** `target[key]` on a plain object: a property the object neither has nor
      inherits reads as undefined. Inherited members (such as `__proto__`)
      are not modelled, so every absent key reads as undefined here. */
  function Property(m: map<string, Value>, k: string): (r: Value)
    ensures k in m ==> r == m[k]
    ensures k !in m ==> !IsObject(r)
  {
    if k in m then m[k] else Undefined
  }

  /** `target[i]` on an array: an index past the end reads as undefined. */
  function Element(a: seq<Value>, i: nat): (r: Value)
    ensures i < |a| ==> r == a[i]
    ensures i >= |a| ==> !IsObject(r)
  {
    if i < |a| then a[i] else Undefined
  }

  /** The argument pairs this model covers: both sides atomic (the early
      return), or both arrays, or both plain objects, and recursively every
      pair of composite values met at a shared key is again of one kind. */
  predicate Mergeable(t: Value, s: Value)
    decreases s, 0
  {
    if !IsObject(t) && !IsObject(s) then true
    else if IsArray(t) && IsArray(s) then
      forall i | 0 <= i < |t.elems| && i < |s.elems| :: EntryMergeable(t.elems[i], s.elems[i])
    else if t.Obj? && s.Obj? then
      forall k | k in t.fields && k in s.fields :: EntryMergeable(t.fields[k], s.fields[k])
    else false
  }

  /** The pair met at one key is mergeable whenever merge would recurse into it. */
  predicate EntryMergeable(tv: Value, sv: Value)
    decreases sv, 1
  {
    IsObject(tv) && IsObject(sv) ==> Mergeable(tv, sv)
  }

  /** The updated target. Where both sides are atomic nothing happens. Otherwise
      every own key of the source is visited: when the target and source values
      there are both composite the result is their merge, else the target value
      is replaced by a clone of the source value. Keys only the target has are
      left alone; array indices are keys like any other, so arrays merge
      position by position. */
  function Merge(t: Value, s: Value): (r: Value)
    requires Mergeable(t, s)
    decreases s, 0
    ensures !IsObject(t) && !IsObject(s) ==> r == t
    ensures IsObject(r) <==> IsObject(t)
    ensures t.Arr? ==> r.Arr? && |r.elems| == Max(|t.elems|, |s.elems|)
    ensures t.Obj? ==> r.Obj? && r.fields.Keys == t.fields.Keys + s.fields.Keys
  {
    if !IsObject(t) && !IsObject(s) then t
    else if IsArray(t) then
      var a, b := t.elems, s.elems;
      Arr(seq(Max(|a|, |b|), i requires 0 <= i < Max(|a|, |b|) =>
        if i < |b| then MergeEntry(Element(a, i), b[i]) else a[i]))
    else
      var m, n := t.fields, s.fields;
      Obj(map k | k in m.Keys + n.Keys :: if k in n then MergeEntry(Property(m, k), n[k]) else m[k])
  }

  /** The body of the loop for one source key: recurse when both values are
      composite, otherwise overwrite with a clone of the source value. The
      result is composite exactly when the source value is, and an overwrite
      is structurally equal to the source value. */
  function MergeEntry(tv: Value, sv: Value): (r: Value)
    requires EntryMergeable(tv, sv)
    decreases sv, 1
    ensures IsObject(r) <==> IsObject(sv)
    ensures !(IsObject(tv) && IsObject(sv)) ==> r == sv
  {
    if IsObject(sv) && IsObject(tv) then Merge(tv, sv) else Clone(sv)
  }
}
