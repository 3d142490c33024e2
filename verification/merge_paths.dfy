/**
 What merge does at every nesting depth, stated over paths. Together these
 lemmas determine every path of the result below the top: source atoms land
 where the source has them, target members the source never reaches
 survive, target members below an overwrite disappear, and nothing appears
 that neither side had.
 */
module MergePaths {
  import opened JsValues
  import opened TypeChecks
  import opened DeepMerge
  import opened MergeLaws
  import opened ValuePaths

  /** Two composite values merge only when they are of one kind. */
  lemma MergeableSameKind(t: Value, s: Value)
    requires Mergeable(t, s) && IsObject(t) && IsObject(s)
    ensures t.Arr? <==> s.Arr?
  {
  }

  /** In a mergeable pair whose source is composite, the target is composite too. */
  lemma MergeableTargetComposite(t: Value, s: Value)
    requires Mergeable(t, s) && IsObject(s)
    ensures IsObject(t)
  {
  }

  /** Every member the source has below the top is present in the result: an
      atomic source member is there unchanged, and a composite one is there as
      a composite of the same kind. */
  lemma {:induction false} MergePlacesSource(t: Value, s: Value, p: seq<Key>, x: Value)
    requires Mergeable(t, s) && |p| > 0 && Get(s, p) == Some(x)
    ensures Get(Merge(t, s), p).Some?
    ensures !IsObject(x) ==> Get(Merge(t, s), p) == Some(x)
    ensures x.Arr? ==> Get(Merge(t, s), p).value.Arr?
    ensures x.Obj? ==> Get(Merge(t, s), p).value.Obj?
    decreases |p|
  {
    var sv := Entry(s, p[0]).value;
    var tv := Slot(t, p[0]);
    var rest := p[1..];
    MergeableTargetComposite(t, s);
    MergeStep(t, s, p[0]);
    var e := MergeEntry(tv, sv);
    assert Get(Merge(t, s), p) == Get(e, rest);
    assert Get(s, p) == Get(sv, rest);
    if |rest| == 0 {
      if IsObject(tv) && IsObject(sv) {
        MergeableSameKind(tv, sv);
      }
    } else if IsObject(tv) {
      MergePlacesSource(tv, sv, rest, x);
    }
  }

  /** A target member the source never reaches survives unchanged, at any depth. */
  lemma {:induction false} MergeKeepsUntouched(t: Value, s: Value, p: seq<Key>, x: Value)
    requires Mergeable(t, s) && Get(t, p) == Some(x) && Untouched(s, p)
    ensures Get(Merge(t, s), p) == Some(x)
    decreases |p|
  {
    var tv := Entry(t, p[0]).value;
    var rest := p[1..];
    assert Get(t, p) == Get(tv, rest);
    MergeStep(t, s, p[0]);
    match Entry(s, p[0])
    case None =>
    case Some(sv) =>
      assert Slot(t, p[0]) == tv;
      assert Get(Merge(t, s), p) == Get(MergeEntry(tv, sv), rest);
      assert |rest| > 0 && Entry(tv, rest[0]).Some?;
      MergeKeepsUntouched(tv, sv, rest, x);
  }

  /** Where the source overwrites a target member on the way down `p` (and has
      nothing at `p` itself), the target's old content at `p` is gone. */
  lemma {:induction false} MergeDropsOverwritten(t: Value, s: Value, p: seq<Key>)
    requires Mergeable(t, s) && |p| > 0 && Get(s, p) == None && !Untouched(s, p)
    ensures Get(Merge(t, s), p) == None
    decreases |p|
  {
    var sv := Entry(s, p[0]).value;
    var tv := Slot(t, p[0]);
    var rest := p[1..];
    MergeableTargetComposite(t, s);
    MergeStep(t, s, p[0]);
    var e := MergeEntry(tv, sv);
    assert Get(Merge(t, s), p) == Get(e, rest);
    assert Get(s, p) == Get(sv, rest);
    if IsObject(tv) && IsObject(sv) {
      MergeDropsOverwritten(tv, sv, rest);
    }
  }

  /** Every path of the result exists in the target or in the source. */
  lemma {:induction false} MergeAddsNothing(t: Value, s: Value, p: seq<Key>)
    requires Mergeable(t, s) && Get(Merge(t, s), p).Some?
    ensures Get(t, p).Some? || Get(s, p).Some?
    decreases |p|
  {
    if |p| == 0 || (!IsObject(t) && !IsObject(s)) {
      return;
    }
    var rest := p[1..];
    MergeStep(t, s, p[0]);
    match Entry(s, p[0])
    case None =>
      assert Get(Merge(t, s), p) == Get(Entry(t, p[0]).value, rest);
    case Some(sv) =>
      var tv := Slot(t, p[0]);
      assert Get(Merge(t, s), p) == Get(MergeEntry(tv, sv), rest);
      if IsObject(tv) && IsObject(sv) {
        MergeAddsNothing(tv, sv, rest);
        assert Entry(t, p[0]) == Some(tv);
      }
  }

  /** Along a path the source never reaches, the result reads exactly as the
      target does, whether the target has a member there or not. An untouched
      path is absent from the source, so this case and `MergePlacesSource`
      never apply to the same path. */
  lemma MergeUntouchedMirrorsTarget(t: Value, s: Value, p: seq<Key>)
    requires Mergeable(t, s) && Untouched(s, p)
    ensures Get(s, p) == None
    ensures Get(Merge(t, s), p) == Get(t, p)
  {
    UntouchedIsAbsent(s, p);
    match Get(t, p)
    case Some(x) =>
      MergeKeepsUntouched(t, s, p, x);
    case None =>
      if Get(Merge(t, s), p).Some? {
        MergeAddsNothing(t, s, p);
      }
  }
}
