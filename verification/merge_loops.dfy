/**
 The for-in loop of merge, one source key at a time, reading the target as
 it stands when the key is visited. The key order of a plain object is left
 open (any order is allowed), and array indices are visited in increasing
 order, so an index one past the end appends. Each loop ends with exactly the
 value the declarative `Merge` describes, so the order in which object keys
 are visited does not matter.
 */
module MergeLoops {
  import opened JsValues
  import opened TypeChecks
  import opened DeepClone
  import opened DeepMerge

  /** Merge of two plain objects by visiting the source's keys one by one. */
  method MergeFields(m: map<string, Value>, n: map<string, Value>) returns (out: map<string, Value>)
    requires Mergeable(Obj(m), Obj(n))
    ensures Obj(out) == Merge(Obj(m), Obj(n))
  {
    assert forall k | k in n :: EntryMergeable(Property(m, k), n[k]);
    out := m;
    var pending := n.Keys;
    while pending != {}
      invariant pending <= n.Keys
      invariant out.Keys == m.Keys + (n.Keys - pending)
      invariant forall k | k in out ::
                  out[k] == if k in n && k !in pending then MergeEntry(Property(m, k), n[k]) else m[k]
      decreases pending
    {
      var key :| key in pending;
      var targetProp := Property(out, key);
      var sourceProp := n[key];
      assert targetProp == Property(m, key);
      if IsObject(sourceProp) && IsObject(targetProp) {
        out := out[key := Merge(targetProp, sourceProp)];
      } else {
        out := out[key := Clone(sourceProp)];
      }
      pending := pending - {key};
    }
    assert out == Merge(Obj(m), Obj(n)).fields;
  }

  /** Merge of two arrays by visiting the source's indices in order. */
  method MergeElements(a: seq<Value>, b: seq<Value>) returns (out: seq<Value>)
    requires Mergeable(Arr(a), Arr(b))
    ensures Arr(out) == Merge(Arr(a), Arr(b))
  {
    assert forall j | 0 <= j < |b| :: EntryMergeable(Element(a, j), b[j]);
    out := a;
    var i := 0;
    while i < |b|
      invariant 0 <= i <= |b|
      invariant |out| == Max(|a|, i)
      invariant forall j | 0 <= j < |out| :: out[j] == if j < i then MergeEntry(Element(a, j), b[j]) else a[j]
    {
      var targetProp := Element(out, i);
      var sourceProp := b[i];
      assert targetProp == Element(a, i);
      var v := if IsObject(sourceProp) && IsObject(targetProp) then Merge(targetProp, sourceProp) else Clone(sourceProp);
      if i < |out| {
        out := out[i := v];
      } else {
        out := out + [v];
      }
      i := i + 1;
    }
    assert out == Merge(Arr(a), Arr(b)).elems;
  }
}
