/**
 Worked instances of merge and clone on small literal values.
 */
module MergeExamples {
  import opened JsValues
  import opened TypeChecks
  import opened DeepClone
  import opened DeepMerge

  function One(): Value { Num(Finite(1.0)) }
  function Two(): Value { Num(Finite(2.0)) }
  function Five(): Value { Num(Finite(5.0)) }

  /** Disjoint keys are united: merge({a:1}, {b:2}) leaves {a:1, b:2}. */
  lemma DisjointKeysUnite()
    ensures Mergeable(Obj(map["a" := One()]), Obj(map["b" := Two()]))
    ensures Merge(Obj(map["a" := One()]), Obj(map["b" := Two()])) == Obj(map["a" := One(), "b" := Two()])
  {
    var r := Merge(Obj(map["a" := One()]), Obj(map["b" := Two()]));
    assert r.fields.Keys == {"a", "b"};
    assert r.fields["b"] == MergeEntry(Undefined, Two());
  }

  /** Nested objects merge deeply: merge({a:{x:1}}, {a:{y:2}}) leaves {a:{x:1, y:2}}. */
  lemma NestedObjectsMerge()
    ensures Mergeable(Obj(map["a" := Obj(map["x" := One()])]), Obj(map["a" := Obj(map["y" := Two()])]))
    ensures Merge(Obj(map["a" := Obj(map["x" := One()])]), Obj(map["a" := Obj(map["y" := Two()])]))
            == Obj(map["a" := Obj(map["x" := One(), "y" := Two()])])
  {
    var inner := Merge(Obj(map["x" := One()]), Obj(map["y" := Two()]));
    assert inner.fields.Keys == {"x", "y"};
    assert inner.fields["y"] == MergeEntry(Undefined, Two());
    assert inner.fields == map["x" := One(), "y" := Two()];
    var r := Merge(Obj(map["a" := Obj(map["x" := One()])]), Obj(map["a" := Obj(map["y" := Two()])]));
    assert r.fields.Keys == {"a"};
    assert r.fields["a"] == inner;
  }

  /** An atomic source value overwrites a composite target value rather than
      merging into it: merge({a:{x:1}}, {a:5}) leaves {a:5}. */
  lemma AtomOverwritesObject()
    ensures Mergeable(Obj(map["a" := Obj(map["x" := One()])]), Obj(map["a" := Five()]))
    ensures Merge(Obj(map["a" := Obj(map["x" := One()])]), Obj(map["a" := Five()])) == Obj(map["a" := Five()])
  {
    var r := Merge(Obj(map["a" := Obj(map["x" := One()])]), Obj(map["a" := Five()]));
    assert r.fields.Keys == {"a"};
    assert r.fields["a"] == MergeEntry(Obj(map["x" := One()]), Five());
  }

  /** Arrays merge by position: merge([1, {x:1}, 5], [2, {y:2}]) leaves
      [2, {x:1, y:2}, 5]. */
  lemma ArraysMergeByPosition()
    ensures Mergeable(Arr([One(), Obj(map["x" := One()]), Five()]), Arr([Two(), Obj(map["y" := Two()])]))
    ensures Merge(Arr([One(), Obj(map["x" := One()]), Five()]), Arr([Two(), Obj(map["y" := Two()])]))
            == Arr([Two(), Obj(map["x" := One(), "y" := Two()]), Five()])
  {
    var t := Arr([One(), Obj(map["x" := One()]), Five()]);
    var s := Arr([Two(), Obj(map["y" := Two()])]);
    assert Mergeable(t, s) by {
      assert forall i | 0 <= i < 2 :: EntryMergeable(t.elems[i], s.elems[i]);
    }
    var inner := Merge(Obj(map["x" := One()]), Obj(map["y" := Two()]));
    assert inner.fields.Keys == {"x", "y"};
    assert inner.fields["y"] == MergeEntry(Undefined, Two());
    assert inner.fields == map["x" := One(), "y" := Two()];
    var r := Merge(t, s);
    assert r.elems[0] == MergeEntry(One(), Two());
    assert r.elems[1] == inner;
    assert r.elems[2] == Five();
  }

  /** Atomic values clone to themselves, composites to an equal copy. */
  lemma CloneInstances()
    ensures Clone(Null) == Null && Clone(Func(7)) == Func(7)
    ensures Clone(Arr([One(), Obj(map["a" := Two()])])) == Arr([One(), Obj(map["a" := Two()])])
  {
  }
}
