/**
 What merge does, key by key and at every depth, and the algebraic laws it
 satisfies: merging into an empty record copies the source, merging an
 empty source changes nothing, merging a value with itself changes nothing,
 and merging the same source twice is the same as merging it once.
 */
module MergeLaws {
  import opened JsValues
  import opened TypeChecks
  import opened DeepClone
  import opened DeepMerge
  import opened ValuePaths

  /** Plain objects, one key at a time: where both values are composite the
      result holds their merge; where the source has the key but either value
      is atomic or the target lacks the key, the result holds a value
      structurally equal to the source's (the target's old value is dropped,
      not merged); a key only the target has keeps its value; and the result
      has exactly the keys of target and source together. */
  lemma MergeObjectAtKey(m: map<string, Value>, n: map<string, Value>, k: string)
    requires Mergeable(Obj(m), Obj(n))
    ensures k in Merge(Obj(m), Obj(n)).fields <==> k in m || k in n
    ensures k in n && k in m && IsObject(m[k]) && IsObject(n[k]) ==>
              Mergeable(m[k], n[k]) && Merge(Obj(m), Obj(n)).fields[k] == Merge(m[k], n[k])
    ensures k in n && !(k in m && IsObject(m[k]) && IsObject(n[k])) ==>
              Merge(Obj(m), Obj(n)).fields[k] == n[k]
    ensures k !in n && k in m ==> Merge(Obj(m), Obj(n)).fields[k] == m[k]
  {
    if k in n && k in m {
      assert EntryMergeable(m[k], n[k]);
    }
  }

  /** Arrays, one index at a time: the result is as long as the longer array;
      an index the source has holds the merge of two composite elements or
      else a copy of the source element; an index past the end of the source
      keeps the target element. */
  lemma MergeArrayAtIndex(a: seq<Value>, b: seq<Value>, i: nat)
    requires Mergeable(Arr(a), Arr(b))
    ensures |Merge(Arr(a), Arr(b)).elems| == Max(|a|, |b|)
    ensures i < |b| && i < |a| && IsObject(a[i]) && IsObject(b[i]) ==>
              Mergeable(a[i], b[i]) && Merge(Arr(a), Arr(b)).elems[i] == Merge(a[i], b[i])
    ensures i < |b| && !(i < |a| && IsObject(a[i]) && IsObject(b[i])) ==>
              Merge(Arr(a), Arr(b)).elems[i] == b[i]
    ensures |b| <= i < |a| ==> Merge(Arr(a), Arr(b)).elems[i] == a[i]
  {
    if i < |b| && i < |a| {
      assert EntryMergeable(a[i], b[i]);
    }
  }

  /** One level of merge in terms of members: a key the source lacks keeps the
      target's member, and a key the source has holds the outcome of the loop
      body on the target's current value there and the source member. */
  lemma MergeStep(t: Value, s: Value, key: Key)
    requires Mergeable(t, s) && IsObject(t)
    ensures Entry(s, key).None? ==> Entry(Merge(t, s), key) == Entry(t, key)
    ensures Entry(s, key).Some? ==>
              && EntryMergeable(Slot(t, key), Entry(s, key).value)
              && Entry(Merge(t, s), key) == Some(MergeEntry(Slot(t, key), Entry(s, key).value))
  {
    match key
    case Index(i) =>
      if t.Arr? && i < |t.elems| && i < |s.elems| {
        assert EntryMergeable(t.elems[i], s.elems[i]);
      }
    case Field(k) =>
      if t.Obj? && k in t.fields && k in s.fields {
        assert EntryMergeable(t.fields[k], s.fields[k]);
      }
  }

  /** Any value may be merged with itself, and that changes nothing. */
  lemma {:induction false} MergeSelf(x: Value)
    ensures Mergeable(x, x)
    ensures Merge(x, x) == x
    decreases x
  {
    match x
    case Arr(a) =>
      forall i | 0 <= i < |a|
        ensures EntryMergeable(a[i], a[i]) && MergeEntry(a[i], a[i]) == a[i]
      {
        MergeSelf(a[i]);
      }
      assert Mergeable(x, x);
      var r := Merge(x, x);
      assert forall i | 0 <= i < |a| :: r.elems[i] == MergeEntry(Element(a, i), a[i]);
      assert r.elems == a;
    case Obj(m) =>
      forall k | k in m
        ensures EntryMergeable(m[k], m[k]) && MergeEntry(m[k], m[k]) == m[k]
      {
        MergeSelf(m[k]);
      }
      assert Mergeable(x, x);
      var r := Merge(x, x);
      assert forall k | k in m :: r.fields[k] == MergeEntry(Property(m, k), m[k]);
      assert r.fields == m;
    case _ =>
  }

  /** Merging the same source a second time changes nothing more. */
  lemma {:induction false} MergeIdempotent(t: Value, s: Value)
    requires Mergeable(t, s)
    ensures Mergeable(Merge(t, s), s)
    ensures Merge(Merge(t, s), s) == Merge(t, s)
    decreases s, 0
  {
    if !IsObject(t) && !IsObject(s) {
      return;
    }
    var r := Merge(t, s);
    if t.Arr? {
      var a, b := t.elems, s.elems;
      forall i | 0 <= i < |b|
        ensures EntryMergeable(r.elems[i], b[i])
        ensures MergeEntry(r.elems[i], b[i]) == r.elems[i]
      {
        MergeArrayAtIndex(a, b, i);
        assert r.elems[i] == MergeEntry(Element(a, i), b[i]);
        EntryIdempotent(Element(a, i), b[i]);
      }
      assert Mergeable(r, s);
      var r2 := Merge(r, s);
      assert forall i | 0 <= i < |r.elems| :: r2.elems[i] == r.elems[i];
    } else {
      var m, n := t.fields, s.fields;
      forall k | k in n
        ensures EntryMergeable(r.fields[k], n[k])
        ensures MergeEntry(r.fields[k], n[k]) == r.fields[k]
      {
        assert r.fields[k] == MergeEntry(Property(m, k), n[k]);
        EntryIdempotent(Property(m, k), n[k]);
      }
      assert Mergeable(r, s);
      var r2 := Merge(r, s);
      assert forall k | k in r.fields :: r2.fields[k] == r.fields[k];
    }
  }

  /** The loop body applied twice with the same source value gives what it
      gave once. */
  lemma {:induction false} EntryIdempotent(tv: Value, sv: Value)
    requires EntryMergeable(tv, sv)
    ensures EntryMergeable(MergeEntry(tv, sv), sv)
    ensures MergeEntry(MergeEntry(tv, sv), sv) == MergeEntry(tv, sv)
    decreases sv, 1
  {
    if IsObject(sv) && IsObject(tv) {
      MergeIdempotent(tv, sv);
    } else if IsObject(sv) {
      MergeSelf(sv);
    }
  }

  /** Merging into an empty record (or empty array) yields a copy of the source. */
  lemma MergeIntoEmpty(s: Value)
    requires IsObject(s)
    ensures s.Obj? ==> Mergeable(Obj(map[]), s) && Merge(Obj(map[]), s) == s
    ensures s.Arr? ==> Mergeable(Arr([]), s) && Merge(Arr([]), s) == s
  {
    if s.Obj? {
      var r := Merge(Obj(map[]), s);
      assert forall k | k in s.fields :: r.fields[k] == MergeEntry(Undefined, s.fields[k]);
      assert r.fields == s.fields;
    } else {
      var r := Merge(Arr([]), s);
      assert forall i | 0 <= i < |s.elems| :: r.elems[i] == MergeEntry(Undefined, s.elems[i]);
      assert r.elems == s.elems;
    }
  }

  /** Merging an empty source changes nothing. */
  lemma MergeEmptySource(t: Value)
    requires IsObject(t)
    ensures t.Obj? ==> Mergeable(t, Obj(map[])) && Merge(t, Obj(map[])) == t
    ensures t.Arr? ==> Mergeable(t, Arr([])) && Merge(t, Arr([])) == t
  {
    if t.Obj? {
      assert Merge(t, Obj(map[])).fields == t.fields;
    } else {
      assert Merge(t, Arr([])).elems == t.elems;
    }
  }
}
