/** Layered loading of a catalog (`Config#load_isos`, `Config#load_profiles`
    and `Config#load_runtime_config`): every `*.yml` fragment of a directory in
    sorted name order, then the project file, folded with `DeepMerge.merge`
    onto `{}`. Reading and parsing the files is left to the caller: each file
    arrives as a `Document`. */
module Layers {
  import opened Wrappers
  import opened Yaml
  import opened DeepMerge
  import opened StringOrder
  import opened Text

  /** `load_yaml`: a missing file, an empty document and one that fails to
      parse all count as `{}`. */
  function LoadYaml(d: Document): (v: Value)
    ensures !v.Null?
    ensures v.Scalar? <==> d.Parsed? && d.value.Scalar?
    ensures d.Parsed? && !d.value.Null? ==> v == d.value
    ensures !d.Parsed? || d.value.Null? ==> v == Mapping(map[])
  {
    match d
    case Missing => Mapping(map[])
    case Malformed => Mapping(map[])
    case Parsed(v) => if v.Null? then Mapping(map[]) else v
  }

  /** A document that `Hash#merge` refuses: a top-level value that is not a mapping. */
  predicate Unmergeable(d: Document)
  {
    d.Parsed? && d.value.Scalar?
  }

  /** The names `Dir.glob('*.yml')` matches: ending in `.yml`, not hidden,
      and directly in the directory (a name with a `/` lies in a subdirectory). */
  predicate IsYmlName(n: string)
  {
    EndsWith(n, ".yml") && n[0] != '.' && '/' !in n
  }

  /** The `.yml` names of a sorted list, in the same order. */
  function YmlNames(names: seq<string>): (r: seq<string>)
    ensures forall n :: n in r <==> n in names && IsYmlName(n)
    ensures Sorted(names) ==> Sorted(r)
    ensures Distinct(names) ==> Distinct(r)
  {
    if names == [] then []
    else
      var rest := YmlNames(names[1..]);
      assert forall n :: n in names[1..] ==> n in names;
      assert Sorted(names) ==> forall n :: n in names[1..] ==> Below(names[0], n);
      assert Distinct(names) ==> names[0] !in names[1..];
      if IsYmlName(names[0]) then [names[0]] + rest else rest
  }

  /** The fragment files of a directory in load order (`Dir.glob(...).sort`),
      or none when the directory does not exist. */
  function FragmentNames(dir: Option<map<string, Document>>): (r: seq<string>)
    ensures Sorted(r) && Distinct(r)
    ensures forall n :: n in r <==> dir.Some? && n in dir.value && IsYmlName(n)
  {
    if dir.None? then [] else YmlNames(SortedKeys(dir.value))
  }

  function FragmentDocuments(dir: Option<map<string, Document>>): (r: seq<Document>)
    ensures |r| == |FragmentNames(dir)|
    ensures forall i :: 0 <= i < |r| ==> r[i] == dir.value[FragmentNames(dir)[i]]
  {
    var names := FragmentNames(dir);
    seq(|names|, i requires 0 <= i < |names| => dir.value[names[i]])
  }

  /** `acc = DeepMerge.merge(acc, load_yaml(doc))` for each document in turn;
      `None` once a merge raises. */
  function FoldLayers(acc: map<string, Value>, docs: seq<Document>): Option<map<string, Value>>
    decreases |docs|
  {
    if docs == [] then Some(acc)
    else
      match Merge(Mapping(acc), LoadYaml(docs[0]))
      case Some(Mapping(m)) => FoldLayers(m, docs[1..])
      case _ => None
  }

  /** One layer: merging a mapping document onto the accumulated mapping. */
  lemma MergeLayer(acc: map<string, Value>, d: Document)
    ensures Unmergeable(d) <==> Merge(Mapping(acc), LoadYaml(d)).None?
    ensures !Unmergeable(d) ==>
      Merge(Mapping(acc), LoadYaml(d)) == Some(MergeValue(Mapping(acc), LoadYaml(d)))
      && MergeValue(Mapping(acc), LoadYaml(d)).Mapping?
  {
  }

  /** Loading raises exactly when some layer is not a mapping. */
  lemma {:induction false} FoldFailsIffUnmergeable(acc: map<string, Value>, docs: seq<Document>)
    ensures FoldLayers(acc, docs).None? <==> exists i :: 0 <= i < |docs| && Unmergeable(docs[i])
    decreases |docs|
  {
    if docs != [] {
      MergeLayer(acc, docs[0]);
      if !Unmergeable(docs[0]) {
        var m := MergeValue(Mapping(acc), LoadYaml(docs[0])).fields;
        FoldFailsIffUnmergeable(m, docs[1..]);
        if exists i :: 0 <= i < |docs| && Unmergeable(docs[i]) {
          var i :| 0 <= i < |docs| && Unmergeable(docs[i]);
          assert docs[1..][i - 1] == docs[i];
        }
      }
    }
  }

  /** A value that no later layer touches survives the rest of the fold. */
  lemma {:induction false} SurvivesLaterLayers(acc: map<string, Value>, docs: seq<Document>, path: seq<string>, x: Value)
    requires At(Mapping(acc), path) == Some(x)
    requires forall j :: 0 <= j < |docs| ==> Leaves(LoadYaml(docs[j]), path)
    requires FoldLayers(acc, docs).Some?
    ensures At(Mapping(FoldLayers(acc, docs).value), path) == Some(x)
    decreases |docs|
  {
    if docs != [] {
      MergeLayer(acc, docs[0]);
      FoldFailsIffUnmergeable(acc, docs);
      var v := MergeValue(Mapping(acc), LoadYaml(docs[0]));
      BaseSurvives(Mapping(acc), LoadYaml(docs[0]), path, x);
      SurvivesLaterLayers(v.fields, docs[1..], path, x);
    }
  }

  /** A non-`nil` scalar of layer `i` is what the merged catalog holds at its
      path, as long as no later layer sets that path. */
  lemma {:induction false} LaterScalarOverrides(acc: map<string, Value>, docs: seq<Document>, i: nat, path: seq<string>, s: string)
    requires i < |docs|
    requires At(LoadYaml(docs[i]), path) == Some(Scalar(s))
    requires forall j :: i < j < |docs| ==> Leaves(LoadYaml(docs[j]), path)
    requires FoldLayers(acc, docs).Some?
    ensures At(Mapping(FoldLayers(acc, docs).value), path) == Some(Scalar(s))
    decreases |docs|
  {
    MergeLayer(acc, docs[0]);
    FoldFailsIffUnmergeable(acc, docs);
    var v := MergeValue(Mapping(acc), LoadYaml(docs[0]));
    if i == 0 {
      OverlayScalarWins(Mapping(acc), LoadYaml(docs[0]), path, s);
      SurvivesLaterLayers(v.fields, docs[1..], path, Scalar(s));
    } else {
      LaterScalarOverrides(v.fields, docs[1..], i - 1, path, s);
    }
  }

  /** `load_isos` / `load_profiles`: merge every fragment of the directory in
      name order onto `{}`, then the project file. `None` where a merge raises. */
  method LoadCatalog(dir: Option<map<string, Document>>, project: Document) returns (r: Option<map<string, Value>>)
    ensures r == FoldLayers(map[], FragmentDocuments(dir) + [project])
    ensures r.None? <==> (project.Parsed? && project.value.Scalar?) ||
                         exists n :: n in FragmentNames(dir) && Unmergeable(dir.value[n])
  {
    r := MergeLayers(map[], FragmentDocuments(dir) + [project]);
    LoadFailure(dir, project);
  }

  /** The loop `acc = DeepMerge.merge(acc, layer)` over the layers in order;
      an exception ends it. */
  method MergeLayers(init: map<string, Value>, docs: seq<Document>) returns (r: Option<map<string, Value>>)
    ensures r == FoldLayers(init, docs)
  {
    var acc := init;
    var i := 0;
    while i < |docs|
      invariant 0 <= i <= |docs|
      invariant FoldLayers(init, docs) == FoldLayers(acc, docs[i..])
    {
      var merged := Merge(Mapping(acc), LoadYaml(docs[i]));
      assert docs[i..][0] == docs[i] && docs[i..][1..] == docs[i + 1..];
      if !(merged.Some? && merged.value.Mapping?) {
        return None;
      }
      acc := merged.value.fields;
      i := i + 1;
    }
    assert docs[i..] == [];
    r := Some(acc);
  }

  /** The load fails exactly when the project file or a fragment is a scalar. */
  lemma LoadFailure(dir: Option<map<string, Document>>, project: Document)
    ensures FoldLayers(map[], FragmentDocuments(dir) + [project]).None? <==>
            (project.Parsed? && project.value.Scalar?) ||
            exists n :: n in FragmentNames(dir) && Unmergeable(dir.value[n])
  {
    FoldFailsIffUnmergeable(map[], FragmentDocuments(dir) + [project]);
    FragmentFailure(dir, project);
  }

  lemma FragmentFailure(dir: Option<map<string, Document>>, project: Document)
    ensures (exists i :: 0 <= i < |FragmentDocuments(dir) + [project]| && Unmergeable((FragmentDocuments(dir) + [project])[i]))
        <==> (project.Parsed? && project.value.Scalar?) ||
             exists n :: n in FragmentNames(dir) && Unmergeable(dir.value[n])
  {
    var docs := FragmentDocuments(dir);
    var all := docs + [project];
    assert (exists i :: 0 <= i < |all| && Unmergeable(all[i])) <==>
           (exists i :: 0 <= i < |docs| && Unmergeable(docs[i])) || Unmergeable(project) by {
      assert all[|docs|] == project;
      assert forall i :: 0 <= i < |docs| ==> all[i] == docs[i];
    }
    FragmentDocumentsFail(dir);
  }

  lemma FragmentDocumentsFail(dir: Option<map<string, Document>>)
    ensures (exists i :: 0 <= i < |FragmentDocuments(dir)| && Unmergeable(FragmentDocuments(dir)[i]))
        <==> exists n :: n in FragmentNames(dir) && Unmergeable(dir.value[n])
  {
    var names := FragmentNames(dir);
    if exists n :: n in names && Unmergeable(dir.value[n]) {
      var n :| n in names && Unmergeable(dir.value[n]);
      var i :| 0 <= i < |names| && names[i] == n;
      assert Unmergeable(FragmentDocuments(dir)[i]);
    }
  }

  /** `load_runtime_config`: the global `pim.yml`, then the project one. */
  function LoadRuntimeConfig(global: Document, project: Document): (r: Option<map<string, Value>>)
    ensures r == FoldLayers(map[], [global, project])
  {
    assert [global, project][1..] == [project] && [project][1..] == [];
    match Merge(Mapping(map[]), LoadYaml(global))
    case Some(Mapping(g)) => (
      match Merge(Mapping(g), LoadYaml(project))
      case Some(Mapping(m)) =>
        assert FoldLayers(g, [project]) == FoldLayers(m, []);
        Some(m)
      case _ => None)
    case _ => None
  }

  /** `save_iso` / `save_profile`: the fragment directory after writing
      `<key>.yml` holding the single binding `{key => data}` (`mkdir_p`
      creates the directory when it is missing). */
  function SaveFragment(dir: Option<map<string, Document>>, key: string, data: Value): (r: map<string, Document>)
    ensures key + ".yml" in r && r[key + ".yml"] == Parsed(Mapping(map[key := data]))
    ensures forall n :: n in r && n != key + ".yml" ==> dir.Some? && n in dir.value && r[n] == dir.value[n]
    ensures dir.Some? ==> forall n :: n in dir.value && n != key + ".yml" ==> n in r && r[n] == dir.value[n]
  {
    (if dir.None? then map[] else dir.value)[key + ".yml" := Parsed(Mapping(map[key := data]))]
  }

  /** The saved file is picked up by the next load unless its name is hidden
      or holds a `/`, which puts it in a subdirectory the glob does not search. */
  lemma SavedFragmentVisible(key: string)
    ensures IsYmlName(key + ".yml") <==> key != [] && key[0] != '.' && '/' !in key
  {
    assert '/' in key + ".yml" <==> '/' in key by {
      if '/' in key + ".yml" {
        var i :| 0 <= i < |key + ".yml"| && (key + ".yml")[i] == '/';
        assert i < |key| && key[i] == '/';
      }
      if '/' in key {
        var i :| 0 <= i < |key| && key[i] == '/';
        assert (key + ".yml")[i] == '/';
      }
    }
    assert EndsWith(key + ".yml", ".yml") by {
      assert (key + ".yml")[|key + ".yml"| - 4..] == ".yml";
    }
    if key != [] { assert (key + ".yml")[0] == key[0]; }
  }

  lemma LeavesKey(v: Value, key: string)
    requires v.Mapping?
    ensures Leaves(v, [key]) <==> key !in v.fields || v.fields[key].Null?
  {
    if key in v.fields {
      assert [key][1..] == [];
      match v.fields[key]
      case Null =>
      case Scalar(_) =>
      case Mapping(_) =>
    }
  }

  /** Layers that leave a key unset keep it unset. */
  lemma {:induction false} StaysUnset(acc: map<string, Value>, docs: seq<Document>, key: string)
    requires key !in acc || acc[key].Null?
    requires forall j :: 0 <= j < |docs| ==> Leaves(LoadYaml(docs[j]), [key])
    requires FoldLayers(acc, docs).Some?
    ensures var r := FoldLayers(acc, docs).value; key !in r || r[key].Null?
    decreases |docs|
  {
    if docs != [] {
      MergeLayer(acc, docs[0]);
      FoldFailsIffUnmergeable(acc, docs);
      var o := LoadYaml(docs[0]);
      var m := MergeMaps(acc, o.fields);
      LeavesKey(o, key);
      if key in m {
        assert m[key] == if key in acc && key in o.fields then MergeValue(acc[key], o.fields[key])
                         else if key in o.fields then o.fields[key] else acc[key];
      }
      StaysUnset(m, docs[1..], key);
    }
  }

  /** A key set by one layer only loads as exactly that layer's value. */
  lemma {:induction false} OnlyLayerSets(acc: map<string, Value>, docs: seq<Document>, i: nat, key: string, v: Value)
    requires i < |docs| && !v.Null?
    requires key !in acc || acc[key].Null?
    requires LoadYaml(docs[i]).Mapping? && key in LoadYaml(docs[i]).fields && LoadYaml(docs[i]).fields[key] == v
    requires forall j :: 0 <= j < |docs| && j != i ==> Leaves(LoadYaml(docs[j]), [key])
    requires FoldLayers(acc, docs).Some?
    ensures var r := FoldLayers(acc, docs).value; key in r && r[key] == v
    decreases |docs|
  {
    MergeLayer(acc, docs[0]);
    FoldFailsIffUnmergeable(acc, docs);
    var o := LoadYaml(docs[0]);
    var m := MergeMaps(acc, o.fields);
    if i == 0 {
      assert m[key] == if key in acc then MergeValue(acc[key], v) else v;
      forall j | 0 <= j < |docs[1..]| ensures Leaves(LoadYaml(docs[1..][j]), [key]) {
        assert docs[1..][j] == docs[j + 1];
      }
      SurvivesLaterLayers(m, docs[1..], [key], v);
    } else {
      LeavesKey(o, key);
      if key in m {
        assert m[key] == if key in acc && key in o.fields then MergeValue(acc[key], o.fields[key])
                         else if key in o.fields then o.fields[key] else acc[key];
      }
      forall j | 0 <= j < |docs[1..]| && j != i - 1 ensures Leaves(LoadYaml(docs[1..][j]), [key]) {
        assert docs[1..][j] == docs[j + 1];
      }
      OnlyLayerSets(m, docs[1..], i - 1, key, v);
    }
  }

  /** Save, then load: a key no other file sets loads as the saved data. */
  lemma SaveThenLoad(dir: Option<map<string, Document>>, project: Document, key: string, data: Value)
    requires key != [] && key[0] != '.' && '/' !in key && !data.Null?
    requires forall n :: dir.Some? && n in dir.value && IsYmlName(n) && n != key + ".yml" ==>
               Leaves(LoadYaml(dir.value[n]), [key])
    requires Leaves(LoadYaml(project), [key])
    requires FoldLayers(map[], FragmentDocuments(Some(SaveFragment(dir, key, data))) + [project]).Some?
    ensures var r := FoldLayers(map[], FragmentDocuments(Some(SaveFragment(dir, key, data))) + [project]).value;
      key in r && r[key] == data
  {
    var docs := FragmentDocuments(Some(SaveFragment(dir, key, data))) + [project];
    var i := SavedLayerAlone(dir, project, key, data);
    OnlyLayerSets(map[], docs, i, key, data);
  }

  /** After the save, the saved fragment is the one layer that sets the key. */
  lemma SavedLayerAlone(dir: Option<map<string, Document>>, project: Document, key: string, data: Value) returns (i: nat)
    requires key != [] && key[0] != '.' && '/' !in key
    requires forall n :: dir.Some? && n in dir.value && IsYmlName(n) && n != key + ".yml" ==>
               Leaves(LoadYaml(dir.value[n]), [key])
    requires Leaves(LoadYaml(project), [key])
    ensures var docs := FragmentDocuments(Some(SaveFragment(dir, key, data))) + [project];
      i < |docs| && docs[i] == Parsed(Mapping(map[key := data])) &&
      forall j :: 0 <= j < |docs| && j != i ==> Leaves(LoadYaml(docs[j]), [key])
  {
    var saved := Some(SaveFragment(dir, key, data));
    var names := FragmentNames(saved);
    var docs := FragmentDocuments(saved) + [project];
    SavedFragmentVisible(key);
    i :| 0 <= i < |names| && names[i] == key + ".yml";
    assert docs[i] == Parsed(Mapping(map[key := data]));
    forall j | 0 <= j < |docs| && j != i ensures Leaves(LoadYaml(docs[j]), [key]) {
      if j < |names| {
        assert names[j] != key + ".yml";
        assert docs[j] == saved.value[names[j]];
      } else {
        assert docs[j] == project;
      }
    }
  }
}
