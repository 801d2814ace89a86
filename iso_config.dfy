/** `Config#iso_dir` of pim-iso: where downloaded images live, read from the
    merged runtime configuration (`pim.yml`) with `$HOME` and
    `$XDG_CACHE_HOME` substituted. */
module IsoConfig {
  import opened Wrappers
  import opened Yaml
  import opened Text

  /** `File.join(dir, name)` for a relative `name`: one separator between them. */
  function JoinPath(dir: string, name: string): (r: string)
    ensures EndsWith(r, name)
    ensures StartsWith(r, dir)
  {
    if EndsWith(dir, "/") then dir + name else dir + "/" + name
  }

  /** `File.join(XDG_CACHE_HOME, 'pim', 'isos')` */
  function DefaultIsoDir(cacheHome: string): string
  {
    JoinPath(JoinPath(cacheHome, "pim"), "isos")
  }

  /** The substitutions, in the order the code applies them. */
  function ExpandVars(s: string, home: string, cacheHome: string): string
  {
    ReplaceAll(ReplaceAll(s, "$HOME", home), "$XDG_CACHE_HOME", cacheHome)
  }

  /** `runtime.dig('iso', 'iso_dir')` followed by the substitutions; `None`
      where Ruby raises: `dig` into a scalar `iso` section, or `gsub` on a
      mapping-valued `iso_dir`. */
  function IsoDir(runtime: map<string, Value>, home: string, cacheHome: string): (r: Option<string>)
    ensures r.None? <==>
      "iso" in runtime &&
      (runtime["iso"].Scalar? ||
       (runtime["iso"].Mapping? && "iso_dir" in runtime["iso"].fields &&
        runtime["iso"].fields["iso_dir"].Mapping?))
  {
    if "iso" !in runtime || runtime["iso"].Null? then Some(DefaultIsoDir(cacheHome))
    else if runtime["iso"].Scalar? then None
    else
      var section := runtime["iso"].fields;
      if "iso_dir" !in section || section["iso_dir"].Null? then Some(DefaultIsoDir(cacheHome))
      else if section["iso_dir"].Scalar? then Some(ExpandVars(section["iso_dir"].text, home, cacheHome))
      else None
  }

  /** Without an `iso.iso_dir` setting the images go to `<cache>/pim/isos`. */
  lemma IsoDirDefault(runtime: map<string, Value>, home: string, cacheHome: string)
    requires "iso" !in runtime || runtime["iso"].Null? ||
             (runtime["iso"].Mapping? && ("iso_dir" !in runtime["iso"].fields || runtime["iso"].fields["iso_dir"].Null?))
    requires !EndsWith(cacheHome, "/")
    ensures IsoDir(runtime, home, cacheHome) == Some(cacheHome + "/pim/isos")
  {
    var pim := cacheHome + "/pim";
    assert JoinPath(cacheHome, "pim") == pim;
    assert !EndsWith(pim, "/") by { assert pim[|pim| - 1] == 'm'; }
    assert JoinPath(pim, "isos") == cacheHome + "/pim/isos";
  }

  lemma {:induction false} NoDollarNoMatch(s: string, p: string)
    requires p != [] && p[0] == '$' && '$' !in s
    ensures !Contains(s, p)
    decreases |s|
  {
    if s != [] {
      assert s[0] != '$';
      NoDollarNoMatch(s[1..], p);
    }
  }

  lemma {:induction false} ReplaceAllOfPrefix(pat: string, rest: string, rep: string)
    requires pat != []
    ensures ReplaceAll(pat + rest, pat, rep) == rep + ReplaceAll(rest, pat, rep)
  {
    assert (pat + rest)[..|pat|] == pat;
    assert (pat + rest)[|pat|..] == rest;
  }

  /** A setting without variables is used as written. */
  lemma IsoDirVerbatim(runtime: map<string, Value>, home: string, cacheHome: string, s: string)
    requires "iso" in runtime && runtime["iso"].Mapping?
    requires "iso_dir" in runtime["iso"].fields && runtime["iso"].fields["iso_dir"] == Scalar(s)
    requires '$' !in s
    ensures IsoDir(runtime, home, cacheHome) == Some(s)
  {
    NoDollarNoMatch(s, "$HOME");
    NoDollarNoMatch(s, "$XDG_CACHE_HOME");
  }

  /** `$HOME/...` is placed under the home directory. */
  lemma IsoDirUnderHome(runtime: map<string, Value>, home: string, cacheHome: string, rest: string)
    requires "iso" in runtime && runtime["iso"].Mapping?
    requires "iso_dir" in runtime["iso"].fields && runtime["iso"].fields["iso_dir"] == Scalar("$HOME" + rest)
    requires '$' !in rest && '$' !in home
    ensures IsoDir(runtime, home, cacheHome) == Some(home + rest)
  {
    ReplaceAllOfPrefix("$HOME", rest, home);
    NoDollarNoMatch(rest, "$HOME");
    assert '$' !in home + rest;
    NoDollarNoMatch(home + rest, "$XDG_CACHE_HOME");
  }

  /** `$XDG_CACHE_HOME/...` is placed under the cache directory. */
  lemma IsoDirUnderCache(runtime: map<string, Value>, home: string, cacheHome: string, rest: string)
    requires "iso" in runtime && runtime["iso"].Mapping?
    requires "iso_dir" in runtime["iso"].fields && runtime["iso"].fields["iso_dir"] == Scalar("$XDG_CACHE_HOME" + rest)
    requires '$' !in rest
    ensures IsoDir(runtime, home, cacheHome) == Some(cacheHome + rest)
  {
    var s := "$XDG_CACHE_HOME" + rest;
    assert !Contains(s, "$HOME") by {
      assert !StartsWith(s, "$HOME") by { assert s[1] == 'X'; }
      assert '$' !in s[1..] by { assert s[1..] == "XDG_CACHE_HOME" + rest; }
      NoDollarNoMatch(s[1..], "$HOME");
    }
    ReplaceAllOfPrefix("$XDG_CACHE_HOME", rest, cacheHome);
    NoDollarNoMatch(rest, "$XDG_CACHE_HOME");
  }
}
