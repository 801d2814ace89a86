/** pim-profile: resolving a named profile against `default`, showing it
    with its templates, listing, and collecting a new profile from prompts.
    The profiles are the merged catalog that `Layers.LoadCatalog` builds from
    the fragments of `profiles.d` and the project `profiles.yml`. */
module Profiles {
  import opened Wrappers
  import opened Yaml
  import opened DeepMerge
  import opened StringOrder
  import opened Text
  import opened Layers

  type ProfileMap = map<string, Value>

  const EmptyMapping: Value := Mapping(map[])

  /** `@profiles['default'] || {}` */
  function DefaultProfile(profiles: ProfileMap): (v: Value)
    ensures !v.Null?
    ensures "default" in profiles && !profiles["default"].Null? ==> v == profiles["default"]
    ensures "default" !in profiles || profiles["default"].Null? ==> v == EmptyMapping
  {
    if "default" in profiles && !profiles["default"].Null? then profiles["default"] else EmptyMapping
  }

  /** `@profiles[name] || {}` */
  function NamedProfile(profiles: ProfileMap, name: string): (v: Value)
    ensures !v.Null?
    ensures name in profiles && !profiles[name].Null? ==> v == profiles[name]
    ensures name !in profiles || profiles[name].Null? ==> v == EmptyMapping
  {
    if name in profiles && !profiles[name].Null? then profiles[name] else EmptyMapping
  }

  /** `profile(name)`: the default profile for `default` and the empty name,
      otherwise the named profile merged over the default one; `None` where
      the merge raises (one of them is a scalar). */
  function Profile(profiles: ProfileMap, name: string): Option<Value>
  {
    if name == "default" || name == "" then Some(DefaultProfile(profiles))
    else Merge(DefaultProfile(profiles), NamedProfile(profiles, name))
  }

  /** `default` and the empty name both give the default profile, `{}` when
      there is none. */
  lemma DefaultAliases(profiles: ProfileMap)
    ensures Profile(profiles, "") == Profile(profiles, "default") == Some(DefaultProfile(profiles))
    ensures ("default" !in profiles || profiles["default"].Null?) ==> Profile(profiles, "default") == Some(EmptyMapping)
  {
  }

  /** Resolution fails exactly when the default or the named profile is a scalar. */
  lemma ProfileFails(profiles: ProfileMap, name: string)
    requires name != "default" && name != ""
    ensures Profile(profiles, name).None? <==> DefaultProfile(profiles).Scalar? || NamedProfile(profiles, name).Scalar?
  {
    MergeFails(DefaultProfile(profiles), NamedProfile(profiles, name));
  }

  /** An unknown name resolves to the default profile. */
  lemma UnknownNameIsDefault(profiles: ProfileMap, name: string)
    requires name !in profiles && !DefaultProfile(profiles).Scalar?
    ensures Profile(profiles, name) == Some(DefaultProfile(profiles))
  {
    if name != "default" && name != "" {
      var d := DefaultProfile(profiles).fields;
      MergeMappings(d, map[]);
      var r := Merge(Mapping(d), EmptyMapping).value.fields;
      assert r.Keys == d.Keys;
      assert forall k | k in d :: r[k] == d[k];
      assert r == d;
    }
  }

  /** A field the named profile leaves unset is inherited from the default;
      a scalar it sets overrides the default's. */
  lemma Inheritance(profiles: ProfileMap, name: string, field: string)
    requires name != "default" && name != ""
    requires DefaultProfile(profiles).Mapping? && NamedProfile(profiles, name).Mapping?
    ensures var named := NamedProfile(profiles, name).fields;
            var r := Profile(profiles, name);
      r.Some? && r.value.Mapping? &&
      ((field !in named || named[field].Null?) && field in DefaultProfile(profiles).fields ==>
         field in r.value.fields && r.value.fields[field] == DefaultProfile(profiles).fields[field]) &&
      (field in named && named[field].Scalar? ==> field in r.value.fields && r.value.fields[field] == named[field])
  {
    MergeMappings(DefaultProfile(profiles).fields, NamedProfile(profiles, name).fields);
  }

  /** `profile_names`: the keys, sorted. */
  function ProfileNames(profiles: ProfileMap): (names: seq<string>)
    ensures Sorted(names) && Distinct(names)
    ensures forall n :: n in names <==> n in profiles
  {
    SortedKeys(profiles)
  }

  // ---------------------------------------------------------------------------
  // Templates

  /** A template file either under the project directory or under the global
      configuration directory, at `<subdir>/<file>`. */
  datatype Location = Project(subdir: string, file: string) | Global(subdir: string, file: string)

  /** `find_template(subdir, file)` over the set of template files that exist. */
  function FindTemplate(existing: set<Location>, subdir: string, file: string): (r: Option<Location>)
    ensures r.Some? ==> r.value in existing && r.value.subdir == subdir && r.value.file == file
    ensures Project(subdir, file) in existing ==> r == Some(Project(subdir, file))
    ensures r.None? <==> Project(subdir, file) !in existing && Global(subdir, file) !in existing
  {
    if Project(subdir, file) in existing then Some(Project(subdir, file))
    else if Global(subdir, file) in existing then Some(Global(subdir, file))
    else None
  }

  /** The template of `name`, falling back to the `default` one for any other
      name: `find_template(subdir, name + suffix) || (name != 'default' && ...)`. */
  function TemplateFor(existing: set<Location>, subdir: string, name: string, suffix: string): Option<Location>
  {
    match FindTemplate(existing, subdir, name + suffix)
    case Some(l) => Some(l)
    case None => if name != "default" then FindTemplate(existing, subdir, "default" + suffix) else None
  }

  /** The profile's own template wins; otherwise the default template is used,
      unless the profile is `default` itself. */
  lemma TemplateFallback(existing: set<Location>, subdir: string, name: string, suffix: string)
    ensures var own := FindTemplate(existing, subdir, name + suffix);
      var r := TemplateFor(existing, subdir, name, suffix);
      (own.Some? ==> r == own) &&
      (own.None? && name != "default" ==> r == FindTemplate(existing, subdir, "default" + suffix)) &&
      (own.None? && name == "default" ==> r.None?)
    ensures var r := TemplateFor(existing, subdir, name, suffix);
      r.Some? ==> r.value in existing && (r.value.file == name + suffix || r.value.file == "default" + suffix)
  {
  }

  // ---------------------------------------------------------------------------
  // show

  datatype ShowResult =
    | NotFound                                                           // "Error: Profile '...' not found"
    | Shown(data: Value, preseed: Option<Location>, install: Option<Location>)
    | ShowRaised                                                         // the profile cannot be resolved or printed

  /** `profile_data.empty?`, for a mapping or a string. */
  predicate IsEmpty(v: Value)
  {
    v == EmptyMapping || v == Scalar("")
  }

  /** `show(name)`: not found for an empty profile unless it is `default`;
      otherwise the profile and where its preseed and install templates are.
      A non-empty string profile makes `each` raise. */
  function Show(profiles: ProfileMap, existing: set<Location>, name: string): ShowResult
  {
    match Profile(profiles, name)
    case None => ShowRaised
    case Some(data) =>
      if IsEmpty(data) && name != "default" then NotFound
      else if data.Scalar? && !IsEmpty(data) then ShowRaised
      else Shown(data,
                 TemplateFor(existing, "preseeds.d", name, ".cfg.erb"),
                 TemplateFor(existing, "installs.d", name, ".sh"))
  }

  /** `show` reports "not found" exactly for an empty resolved profile under a
      name other than `default`; for a name that is neither set nor the
      default, with an empty default profile, that is always the case. */
  lemma ShowNotFound(profiles: ProfileMap, existing: set<Location>, name: string)
    ensures Show(profiles, existing, name) == NotFound <==>
            Profile(profiles, name).Some? && IsEmpty(Profile(profiles, name).value) && name != "default"
    ensures name !in profiles && name != "default" && DefaultProfile(profiles) == EmptyMapping ==>
            Show(profiles, existing, name) == NotFound
  {
    if name !in profiles && name != "default" && DefaultProfile(profiles) == EmptyMapping {
      UnknownNameIsDefault(profiles, name);
    }
  }

  /** `default` is always shown when it is a mapping, even an empty one. */
  lemma ShowDefault(profiles: ProfileMap, existing: set<Location>)
    requires DefaultProfile(profiles).Mapping?
    ensures Show(profiles, existing, "default") ==
            Shown(DefaultProfile(profiles), FindTemplate(existing, "preseeds.d", "default.cfg.erb"),
                  FindTemplate(existing, "installs.d", "default.sh"))
  {
    assert "default" + ".cfg.erb" == "default.cfg.erb" && "default" + ".sh" == "default.sh";
  }

  // ---------------------------------------------------------------------------
  // list --long

  /** `profile_data[field] || '-'`. On a string profile `String#[]` gives the
      field name when the string contains it. */
  function ShownField(data: Value, field: string): (r: Value)
    requires field != []
    ensures r.Null? == false
    ensures data.Mapping? && (field !in data.fields || data.fields[field].Null?) ==> r == Scalar("-")
    ensures data.Mapping? && field in data.fields && !data.fields[field].Null? ==> r == data.fields[field]
  {
    match data
    case Mapping(m) => if field in m && !m[field].Null? then m[field] else Scalar("-")
    case Scalar(s) => if Contains(s, field) then Scalar(field) else Scalar("-")
    case Null => Scalar("-")
  }

  datatype ListRow = ListRow(name: string, hostname: Value, username: Value)

  /** `list --long`: one row per profile name in sorted order with the
      resolved hostname and username; `None` where resolving one raises. */
  function LongListing(profiles: ProfileMap): (r: Option<seq<ListRow>>)
    ensures r.None? <==> exists i :: 0 <= i < |ProfileNames(profiles)| && Profile(profiles, ProfileNames(profiles)[i]).None?
    ensures r.Some? ==>
      var names := ProfileNames(profiles);
      |r.value| == |names| &&
      forall i :: 0 <= i < |names| ==>
        r.value[i] == ListRow(names[i], ShownField(Profile(profiles, names[i]).value, "hostname"),
                              ShownField(Profile(profiles, names[i]).value, "username"))
  {
    var names := ProfileNames(profiles);
    if exists i :: 0 <= i < |names| && Profile(profiles, names[i]).None? then None
    else
      Some(seq(|names|, i requires 0 <= i < |names| =>
        var data := Profile(profiles, names[i]).value;
        ListRow(names[i], ShownField(data, "hostname"), ShownField(data, "username"))))
  }

  /** A profile that sets no hostname, and whose default sets none either,
      lists `-` as its hostname. */
  lemma MissingHostnameShowsDash(profiles: ProfileMap, i: nat)
    requires i < |ProfileNames(profiles)|
    requires var name := ProfileNames(profiles)[i];
      DefaultProfile(profiles).Mapping? && NamedProfile(profiles, name).Mapping? &&
      "hostname" !in DefaultProfile(profiles).fields && "hostname" !in NamedProfile(profiles, name).fields
    ensures LongListing(profiles).Some? ==> LongListing(profiles).value[i].hostname == Scalar("-")
  {
    var name := ProfileNames(profiles)[i];
    if name != "default" && name != "" {
      MergeMappings(DefaultProfile(profiles).fields, NamedProfile(profiles, name).fields);
    }
  }

  // ---------------------------------------------------------------------------
  // add

  const ProfileFields: seq<string> :=
    ["hostname", "username", "password", "timezone", "domain", "locale", "keyboard", "packages", "authorized_keys_url"]

  lemma ProfileFieldsDistinct()
    ensures Distinct(ProfileFields)
  {
    var fs := ProfileFields;
    forall i, j | 0 <= i < j < |fs| ensures fs[i] != fs[j] {
      assert fs[i][0] != fs[j][0] || fs[i][2] != fs[j][2];
    }
  }

  /** The non-empty answers among the first `n`, keyed by their field. */
  function Collected(answers: seq<string>, n: nat): map<string, Value>
    requires n <= |answers| && n <= |ProfileFields|
  {
    if n == 0 then map[]
    else
      var m := Collected(answers, n - 1);
      if answers[n - 1] == "" then m else m[ProfileFields[n - 1] := Scalar(answers[n - 1])]
  }

  /** The collected data holds exactly the fields that received a non-empty
      answer, each with its answer. */
  lemma {:induction false} CollectedFields(answers: seq<string>, n: nat)
    requires n <= |answers| && n <= |ProfileFields|
    ensures forall f :: f in Collected(answers, n) <==>
              exists i :: 0 <= i < n && ProfileFields[i] == f && answers[i] != ""
    ensures forall i :: 0 <= i < n && answers[i] != "" ==>
              Collected(answers, n)[ProfileFields[i]] == Scalar(answers[i])
    decreases n
  {
    if n > 0 {
      CollectedFields(answers, n - 1);
      ProfileFieldsDistinct();
    }
  }

  /** No answers, no fields. */
  lemma {:induction false} NothingCollected(answers: seq<string>, n: nat)
    requires n <= |answers| && n <= |ProfileFields|
    ensures Collected(answers, n) == map[] <==> forall i :: 0 <= i < n ==> answers[i] == ""
    decreases n
  {
    if n > 0 {
      NothingCollected(answers, n - 1);
      if answers[n - 1] != "" {
        assert ProfileFields[n - 1] in Collected(answers, n);
      }
    }
  }

  /** `add`: `None` (nothing written) for an empty name, a declined
      overwrite of an existing profile, or no answers at all; otherwise the
      fragment directory with `<name>.yml` holding `{name => data}`.
      `confirm` answers the overwrite prompt and `answers` the field prompts. */
  method Add(profiles: ProfileMap, dir: Option<map<string, Document>>, name: string, confirm: string, answers: seq<string>)
    returns (saved: Option<map<string, Document>>)
    requires |answers| == |ProfileFields|
    ensures name == "" ==> saved.None?
    ensures name in profiles && !Confirmed(confirm) ==> saved.None?
    ensures name != "" && (name !in profiles || Confirmed(confirm)) ==>
      var data := Collected(answers, |ProfileFields|);
      (data == map[] ==> saved.None?) &&
      (data != map[] ==> saved == Some(SaveFragment(dir, name, Mapping(data))))
  {
    if name == "" {
      return None;
    }
    if name in profiles {
      if !Confirmed(confirm) {
        return None;
      }
    }
    var data: map<string, Value> := map[];
    var i := 0;
    while i < |ProfileFields|
      invariant 0 <= i <= |ProfileFields|
      invariant data == Collected(answers, i)
    {
      var value := answers[i];
      if value != "" {
        data := data[ProfileFields[i] := Scalar(value)];
      }
      i := i + 1;
    }
    if data == map[] {
      return None;
    }
    saved := Some(SaveFragment(dir, name, Mapping(data)));
  }
}
