/** `DeepMerge.merge` (identical in pim-iso.rb and pim-profile.rb): overlay
    wins key by key, a `nil` overlay value keeps the base, two mappings merge
    recursively. */
module DeepMerge {
  import opened Wrappers
  import opened Yaml

  /** The block passed to `Hash#merge`, applied to a key both sides hold. */
  function MergeValue(oldVal: Value, newVal: Value): Value
    decreases oldVal, 1
  {
    if newVal.Null? then oldVal
    else if oldVal.Mapping? && newVal.Mapping? then Mapping(MergeMaps(oldVal.fields, newVal.fields))
    else newVal
  }

  /** `base.merge(overlay) { ... }` on two hashes. */
  function MergeMaps(base: map<string, Value>, overlay: map<string, Value>): map<string, Value>
    decreases Mapping(base), 0
  {
    map k | k in base.Keys + overlay.Keys ::
      if k in base && k in overlay then MergeValue(base[k], overlay[k])
      else if k in overlay then overlay[k]
      else base[k]
  }

  /** `DeepMerge.merge(base, overlay)`; `None` where Ruby raises because a
      side is neither `nil` nor a hash (`Hash#merge` of a string, or
      `merge` sent to a string). */
  function Merge(base: Value, overlay: Value): Option<Value>
  {
    if base.Null? then Some(overlay)
    else if overlay.Null? then Some(base)
    else if base.Mapping? && overlay.Mapping? then Some(Mapping(MergeMaps(base.fields, overlay.fields)))
    else None
  }

  lemma MergeWithNull(v: Value)
    ensures Merge(Null, v) == Some(v) && Merge(v, Null) == Some(v)
  {
  }

  /** The per-key rules, for two mappings. */
  lemma MergeMappings(b: map<string, Value>, o: map<string, Value>)
    ensures Merge(Mapping(b), Mapping(o)).Some?
    ensures var r := Merge(Mapping(b), Mapping(o)).value;
      && r.Mapping?
      && r.fields.Keys == b.Keys + o.Keys
      && (forall k :: k in b && k !in o ==> r.fields[k] == b[k])
      && (forall k :: k !in b && k in o ==> r.fields[k] == o[k])
      && (forall k :: k in b && k in o && o[k].Null? ==> r.fields[k] == b[k])
      && (forall k :: k in b && k in o && b[k].Mapping? && o[k].Mapping? ==>
            r.fields[k] == Mapping(MergeMaps(b[k].fields, o[k].fields)))
      && (forall k :: k in b && k in o && !o[k].Null? && !(b[k].Mapping? && o[k].Mapping?) ==>
            r.fields[k] == o[k])
  {
    var r := MergeMaps(b, o);
    forall k | k in b && k in o ensures r[k] == MergeValue(b[k], o[k]) {
    }
  }

  /** Merge fails exactly when neither side is `nil` and one is not a mapping. */
  lemma MergeFails(b: Value, o: Value)
    ensures Merge(b, o).None? <==> !b.Null? && !o.Null? && (b.Scalar? || o.Scalar?)
  {
  }

  lemma {:induction false} MergeValueIdempotent(v: Value)
    ensures MergeValue(v, v) == v
    decreases v
  {
    if v.Mapping? {
      var m := v.fields;
      var r := MergeMaps(m, m);
      forall k | k in m ensures r[k] == m[k] {
        MergeValueIdempotent(m[k]);
      }
      assert r == m;
    }
  }

  /** `merge(b, b) == b` for every document Ruby can merge at all. */
  lemma MergeIdempotent(v: Value)
    ensures Merge(v, v) == if v.Scalar? then None else Some(v)
  {
    if v.Mapping? {
      MergeValueIdempotent(v);
      assert MergeValue(v, v) == Mapping(MergeMaps(v.fields, v.fields));
    }
  }

  /** A non-`nil` scalar in the overlay always reaches the result. */
  lemma {:induction false} OverlayScalarWins(b: Value, o: Value, path: seq<string>, s: string)
    requires At(o, path) == Some(Scalar(s))
    ensures At(MergeValue(b, o), path) == Some(Scalar(s))
    decreases |path|
  {
    if path != [] {
      var k := path[0];
      if b.Mapping? {
        var r := MergeMaps(b.fields, o.fields);
        if k in b.fields {
          OverlayScalarWins(b.fields[k], o.fields[k], path[1..], s);
        }
        assert r[k] == (if k in b.fields then MergeValue(b.fields[k], o.fields[k]) else o.fields[k]);
      }
    }
  }

  /** Absence never erases: a value of the base that the overlay leaves alone survives. */
  lemma {:induction false} BaseSurvives(b: Value, o: Value, path: seq<string>, x: Value)
    requires At(b, path) == Some(x) && Leaves(o, path)
    ensures At(MergeValue(b, o), path) == Some(x)
    decreases |path|
  {
    if path != [] && o.Mapping? {
      var k := path[0];
      var r := MergeMaps(b.fields, o.fields);
      if k in o.fields {
        BaseSurvives(b.fields[k], o.fields[k], path[1..], x);
      }
      assert r[k] == (if k in o.fields then MergeValue(b.fields[k], o.fields[k]) else b.fields[k]);
    }
  }
}
