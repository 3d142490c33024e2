/**
 Deep clone (src/common/utils/typeChecks.ts, `clone`). Non-composite values
 are returned as they are; arrays and plain objects are rebuilt element by
 element and key by key, recursing into composite members.
 */
module DeepClone {
  import opened JsValues
  import opened TypeChecks

  /** Without heap identity a deep copy is the input itself: the result is
      structurally equal to `v` at every depth. */
  function Clone(v: Value): (r: Value)
    ensures r == v
  {
    if !IsObject(v) then v
    else if IsArray(v) then
      var a := v.elems;
      var copy := seq(|a|, i requires 0 <= i < |a| => if IsObject(a[i]) then Clone(a[i]) else a[i]);
      assert forall i | 0 <= i < |a| :: copy[i] == a[i];
      Arr(copy)
    else
      var m := v.fields;
      Obj(map k | k in m :: if IsObject(m[k]) then Clone(m[k]) else m[k])
  }

  /** The shape of a clone: an atomic value comes back unchanged, an array
      keeps its length and each element is the clone of the original element,
      and a plain object keeps exactly its keys, each mapped to the clone of
      its original value. */
  lemma CloneShape(v: Value)
    ensures !IsObject(v) ==> Clone(v) == v
    ensures v.Arr? ==> Clone(v).Arr? && |Clone(v).elems| == |v.elems|
                       && forall i | 0 <= i < |v.elems| :: Clone(v).elems[i] == Clone(v.elems[i])
    ensures v.Obj? ==> Clone(v).Obj? && Clone(v).fields.Keys == v.fields.Keys
                       && forall k | k in v.fields :: Clone(v).fields[k] == Clone(v.fields[k])
  {
  }
}
