/** `Manager#derive_attributes` of pim-iso and the parsing half of
    `download_checksum_file`: what the `add` command learns from an ISO URL and
    a checksum token. */
module IsoAttributes {
  import opened Wrappers
  import opened Text

  predicate IsHttpUrl(s: string)
  {
    StartsWith(s, "http://") || StartsWith(s, "https://")
  }

  // ---------------------------------------------------------------------------
  // The file name: the last segment of the URL path

  /** What follows the host and port: the URL from its first `/`, `?` or `#` on. */
  function SkipAuthority(s: string): string
  {
    if s == [] || EndsAuthority(s[0]) then s else SkipAuthority(s[1..])
  }

  /** The authority ends at the first `/`, `?` or `#`, and what is skipped
      holds none of them. */
  lemma {:induction false} SkipAuthorityStops(s: string)
    ensures var r := SkipAuthority(s);
      |r| <= |s| && r == s[|s| - |r|..] &&
      (r == [] || EndsAuthority(r[0])) &&
      forall i :: 0 <= i < |s| - |r| ==> !EndsAuthority(s[i])
    decreases |s|
  {
    if s != [] && !EndsAuthority(s[0]) {
      SkipAuthorityStops(s[1..]);
      var r := SkipAuthority(s);
      assert forall i :: 1 <= i < |s| - |r| ==> s[i] == s[1..][i - 1];
    }
  }

  predicate EndsAuthority(c: char)
  {
    c == '/' || c == '?' || c == '#'
  }

  function TakePath(s: string): string
  {
    if s == [] || s[0] == '?' || s[0] == '#' then [] else [s[0]] + TakePath(s[1..])
  }

  /** `URI.parse(url).path` for an http(s) URL: after the scheme and the
      authority, up to the query or fragment. */
  function UrlPath(url: string): string
    requires IsHttpUrl(url)
  {
    TakePath(SkipAuthority(if StartsWith(url, "https://") then url[8..] else url[7..]))
  }

  predicate AllSlashes(t: string)
  {
    forall i :: 0 <= i < |t| ==> t[i] == '/'
  }

  /** `path.split('/').last`: the last field once trailing empty fields are
      dropped; there is none exactly when the path is only slashes. */
  function LastSegment(path: string): (r: Option<string>)
    ensures r.Some? ==> r.value != [] && '/' !in r.value
    ensures r.None? <==> AllSlashes(path)
  {
    var fields := DropTrailingEmpty(SplitOn(path, '/'));
    SplitOnEmptyFields(path, '/');
    EmptyFieldsDropped(SplitOn(path, '/'));
    if fields == [] then None else Some(fields[|fields| - 1])
  }

  /** Ruby's `split` gives no field exactly when every field is empty. */
  lemma EmptyFieldsDropped(fs: seq<string>)
    ensures DropTrailingEmpty(fs) == [] <==> forall i :: 0 <= i < |fs| ==> fs[i] == ""
  {
    var r := DropTrailingEmpty(fs);
    if r != [] {
      assert r[|r| - 1] == fs[|r| - 1];
    }
  }

  lemma {:induction false} JoinAppendEmpties(ws: seq<string>, k: nat) returns (t: string)
    requires ws != []
    ensures AllSlashes(t) && Join(ws + seq(k, _ => ""), "/") == Join(ws, "/") + t
    decreases |ws|
  {
    var es := seq(k, _ => "");
    if |ws| == 1 {
      if k == 0 {
        assert ws + es == ws;
        t := "";
      } else {
        SlashesOfEmpties(k);
        assert (ws + es)[1..] == es;
        t := "/" + Join(es, "/");
        assert Join(ws + es, "/") == Join(ws, "/") + t;
      }
    } else {
      t := JoinAppendEmpties(ws[1..], k);
      assert (ws + es)[1..] == ws[1..] + es;
      assert Join(ws + es, "/") == Join(ws, "/") + t;
    }
  }

  lemma {:induction false} SlashesOfEmpties(k: nat)
    ensures AllSlashes(Join(seq(k, _ => ""), "/"))
    decreases k
  {
    if k > 1 {
      var es := seq(k, _ => "");
      SlashesOfEmpties(k - 1);
      assert es[1..] == seq(k - 1, _ => "");
    }
  }

  lemma {:induction false} JoinLast(ws: seq<string>) returns (a: string)
    requires ws != []
    ensures Join(ws, "/") == a + ws[|ws| - 1] && (a == [] || a[|a| - 1] == '/')
    decreases |ws|
  {
    if |ws| == 1 {
      a := [];
    } else {
      var b := JoinLast(ws[1..]);
      a := ws[0] + "/" + b;
      assert ws[1..][|ws[1..]| - 1] == ws[|ws| - 1];
      assert Join(ws, "/") == ws[0] + "/" + Join(ws[1..], "/");
      assert a[|a| - 1] == '/' by {
        if b != [] { assert a[|a| - 1] == b[|b| - 1]; }
      }
    }
  }

  /** The last segment really is the last non-empty field of the path:
      the path is some prefix ending at a `/`, then the segment, then only slashes. */
  lemma LastSegmentIsLastField(path: string)
    requires LastSegment(path).Some?
    ensures exists a, t :: path == a + LastSegment(path).value + t
                           && (a == [] || a[|a| - 1] == '/') && AllSlashes(t)
  {
    var all := SplitOn(path, '/');
    var kept := DropTrailingEmpty(all);
    SplitOnJoin(path, '/');
    assert all == kept + seq(|all| - |kept|, _ => "");
    var t := JoinAppendEmpties(kept, |all| - |kept|);
    var a := JoinLast(kept);
    assert path == a + LastSegment(path).value + t;
  }

  /** Conversely, a path that ends in a segment, followed by nothing but
      slashes, has that segment as its last one. */
  lemma SegmentIsLastSegment(path: string, a: string, seg: string, t: string)
    requires path == a + seg + t && (a == [] || a[|a| - 1] == '/')
    requires seg != [] && '/' !in seg && AllSlashes(t)
    ensures LastSegment(path) == Some(seg)
  {
    var tail := SplitOn(seg + t, '/');
    SegmentThenSlashes(seg, t);
    var fs := tail;
    var pre: seq<string> := [];
    if a != [] {
      var a' := a[..|a| - 1];
      assert path == a' + ['/'] + (seg + t);
      SplitOnAt(a', '/', seg + t);
      pre := SplitOn(a', '/');
      fs := pre + tail;
    } else {
      assert path == seg + t;
    }
    assert SplitOn(path, '/') == fs;
    var r := DropTrailingEmpty(fs);
    assert fs[|pre|] == seg;
    assert |r| == |pre| + 1;
  }

  /** A segment followed by slashes splits into the segment and empty fields. */
  lemma SegmentThenSlashes(seg: string, t: string)
    requires '/' !in seg && AllSlashes(t)
    ensures SplitOn(seg + t, '/')[0] == seg
    ensures forall i :: 1 <= i < |SplitOn(seg + t, '/')| ==> SplitOn(seg + t, '/')[i] == ""
  {
    SplitOnFree(seg, '/');
    if t == [] {
      assert seg + t == seg;
    } else {
      assert seg + t == seg + ['/'] + t[1..];
      SplitOnAt(seg, '/', t[1..]);
      SplitOnEmptyFields(t[1..], '/');
    }
  }

  /** The file name `add` accepts: the last path segment, which must end in `.iso`. */
  function IsoFilename(url: string): (r: Option<string>)
    requires IsHttpUrl(url)
    ensures r.Some? <==> LastSegment(UrlPath(url)).Some? && EndsWith(LastSegment(UrlPath(url)).value, ".iso")
    ensures r.Some? ==> r == LastSegment(UrlPath(url))
  {
    match LastSegment(UrlPath(url))
    case Some(f) => if EndsWith(f, ".iso") then Some(f) else None
    case None => None
  }

  // ---------------------------------------------------------------------------
  // The display name and the catalog key

  /** `s.sub(/\.iso$/, '')`: drop the leftmost `.iso` that ends a line. */
  function StripIso(s: string): string
  {
    StripIsoFrom(s, 0)
  }

  function StripIsoFrom(s: string, i: nat): string
    decreases |s| - i
  {
    if i + 4 > |s| then s
    else if s[i..i + 4] == ".iso" && LineEnd(s, i + 4) then s[..i] + s[i + 4..]
    else StripIsoFrom(s, i + 1)
  }

  /** On a one-line name ending in `.iso` (every name from a URL path), the
      substitution removes exactly that suffix. */
  lemma StripIsoSuffix(s: string)
    requires EndsWith(s, ".iso") && '\n' !in s
    ensures StripIso(s) == s[..|s| - 4]
  {
    StripIsoFromSuffix(s, 0);
  }

  lemma {:induction false} StripIsoFromSuffix(s: string, i: nat)
    requires EndsWith(s, ".iso") && '\n' !in s && i <= |s| - 4
    ensures StripIsoFrom(s, i) == s[..|s| - 4]
    decreases |s| - i
  {
    if i < |s| - 4 {
      assert s[i + 4] != '\n' by { assert s[i + 4] in s; }
      StripIsoFromSuffix(s, i + 1);
    } else {
      assert s[i..i + 4] == ".iso";
      assert s[i + 4..] == [];
    }
  }

  /** The words of the display name: `-` and `_` become spaces, then each
      whitespace-separated word is capitalized. */
  function NameWords(filename: string): seq<string>
  {
    var ws := Words(ReplaceChars(StripIso(filename), {'-', '_'}, ' '));
    seq(|ws|, i requires 0 <= i < |ws| => Capitalize(ws[i]))
  }

  /** `filename.sub(/\.iso$/, '').gsub(/[-_]/, ' ').split.map(&:capitalize).join(' ')` */
  function DisplayName(filename: string): string
  {
    Join(NameWords(filename), " ")
  }

  lemma {:induction false} JoinCharacters(ws: seq<string>, sep: string, c: char)
    requires c in Join(ws, sep)
    ensures c in sep || exists i :: 0 <= i < |ws| && c in ws[i]
    decreases |ws|
  {
    if |ws| > 1 {
      if c !in ws[0] && c !in sep {
        JoinCharacters(ws[1..], sep, c);
        var i :| 0 <= i < |ws[1..]| && c in ws[1..][i];
        assert c in ws[i + 1];
      }
    }
  }

  lemma CapitalizedWord(w: string)
    requires w != [] && forall j :: 0 <= j < |w| ==> !IsSpace(w[j]) && w[j] != '-' && w[j] != '_'
    ensures var c := Capitalize(w);
      IsCapitalized(c) && forall j :: 0 <= j < |c| ==> !IsSpace(c[j]) && c[j] != '-' && c[j] != '_'
  {
    var c := Capitalize(w);
    forall j | 0 <= j < |c| ensures !IsSpace(c[j]) && c[j] != '-' && c[j] != '_' {
      if j > 0 { assert c[j] == Downcase(w[1..])[j - 1] == ToLower(w[j]); }
    }
    forall j | 1 <= j < |c| ensures !IsUpper(c[j]) {
      assert c[j] == Downcase(w[1..])[j - 1];
    }
  }

  /** The display name is single-space-joined capitalized words, none of
      which contains a space, `-` or `_`. */
  lemma DisplayNameShape(filename: string)
    ensures DisplayName(filename) == Join(NameWords(filename), " ")
    ensures forall i :: 0 <= i < |NameWords(filename)| ==>
      IsCapitalized(NameWords(filename)[i]) &&
      forall j :: 0 <= j < |NameWords(filename)[i]| ==>
        !IsSpace(NameWords(filename)[i][j]) && NameWords(filename)[i][j] != '-' && NameWords(filename)[i][j] != '_'
    ensures '-' !in DisplayName(filename) && '_' !in DisplayName(filename)
  {
    var spaced := ReplaceChars(StripIso(filename), {'-', '_'}, ' ');
    var ws := Words(spaced);
    var nw := NameWords(filename);
    forall i | 0 <= i < |ws|
      ensures IsCapitalized(nw[i]) &&
              forall j :: 0 <= j < |nw[i]| ==> !IsSpace(nw[i][j]) && nw[i][j] != '-' && nw[i][j] != '_'
    {
      forall j | 0 <= j < |ws[i]| ensures ws[i][j] != '-' && ws[i][j] != '_' {
        var k := WordsKeepCharacters(spaced, i, j);
      }
      CapitalizedWord(ws[i]);
    }
    if '-' in DisplayName(filename) { JoinCharacters(nw, " ", '-'); }
    if '_' in DisplayName(filename) { JoinCharacters(nw, " ", '_'); }
  }

  /** The catalog key: the file name without its trailing `.iso`. */
  function CatalogKey(filename: string): string
  {
    StripIso(filename)
  }

  // ---------------------------------------------------------------------------
  // The architecture: the first of seven patterns that matches, ignoring case

  const ArchLabels: seq<string> := ["amd64", "x86_64", "arm64", "aarch64", "i386", "x86", "armhf"]

  /** `/\bx86\b/` at or after position `i` of a lower-cased name. */
  predicate X86WordFrom(t: string, i: nat)
    decreases |t| - i
  {
    i + 3 <= |t| &&
    ((t[i..i + 3] == "x86" && (i == 0 || !IsWordChar(t[i - 1])) && (i + 3 == |t| || !IsWordChar(t[i + 3])))
     || X86WordFrom(t, i + 1))
  }

  /** The pattern of `ArchLabels[i]` matches `filename`, case-insensitively. */
  predicate RuleMatches(i: nat, filename: string)
    requires i < |ArchLabels|
  {
    var t := Downcase(filename);
    if i == 0 then Contains(t, "amd64")
    else if i == 1 then Contains(t, "x8664") || Contains(t, "x86-64") || Contains(t, "x86_64")
    else if i == 2 then Contains(t, "arm64")
    else if i == 3 then Contains(t, "aarch64")
    else if i == 4 then Contains(t, "i386")
    else if i == 5 then X86WordFrom(t, 0)
    else Contains(t, "armhf")
  }

  function FirstMatchFrom(filename: string, i: nat): string
    requires i <= |ArchLabels|
    decreases |ArchLabels| - i
  {
    if i == |ArchLabels| then "unknown"
    else if RuleMatches(i, filename) then ArchLabels[i]
    else FirstMatchFrom(filename, i + 1)
  }

  /** The architecture label the ordered pattern list gives. */
  function ArchitectureOf(filename: string): string
  {
    FirstMatchFrom(filename, 0)
  }

  lemma {:induction false} FirstMatchFromIsFirst(filename: string, i: nat)
    requires i <= |ArchLabels|
    ensures FirstMatchFrom(filename, i) == "unknown" <==>
            forall j :: i <= j < |ArchLabels| ==> !RuleMatches(j, filename)
    ensures FirstMatchFrom(filename, i) != "unknown" ==>
            exists j :: i <= j < |ArchLabels| && ArchLabels[j] == FirstMatchFrom(filename, i)
                        && RuleMatches(j, filename)
                        && forall l :: i <= l < j ==> !RuleMatches(l, filename)
    decreases |ArchLabels| - i
  {
    if i < |ArchLabels| && !RuleMatches(i, filename) {
      FirstMatchFromIsFirst(filename, i + 1);
    }
  }

  /** First match wins: the label is `unknown` exactly when no pattern
      matches, and otherwise belongs to a matching pattern that no earlier one
      precedes. */
  lemma ArchitectureIsFirstMatch(filename: string)
    ensures ArchitectureOf(filename) == "unknown" <==>
            forall j :: 0 <= j < |ArchLabels| ==> !RuleMatches(j, filename)
    ensures ArchitectureOf(filename) != "unknown" ==>
            exists j :: 0 <= j < |ArchLabels| && ArchLabels[j] == ArchitectureOf(filename)
                        && RuleMatches(j, filename)
                        && forall l :: 0 <= l < j ==> !RuleMatches(l, filename)
  {
    FirstMatchFromIsFirst(filename, 0);
  }

  /** A name matching `x86[-_]?64` is never classified `x86`: the amd64 or the
      x86_64 rule, both ahead of it, claims the name first. */
  lemma X8664NeverX86(filename: string)
    requires RuleMatches(1, filename)
    ensures ArchitectureOf(filename) == "amd64" || ArchitectureOf(filename) == "x86_64"
  {
  }

  /** `architecture = 'unknown'; arch_patterns.each { ... break }` */
  method DetectArchitecture(filename: string) returns (arch: string)
    ensures arch == ArchitectureOf(filename)
  {
    arch := "unknown";
    var i := 0;
    while i < |ArchLabels|
      invariant 0 <= i <= |ArchLabels|
      invariant arch == "unknown"
      invariant FirstMatchFrom(filename, i) == ArchitectureOf(filename)
    {
      if RuleMatches(i, filename) {
        arch := ArchLabels[i];
        break;
      }
      i := i + 1;
    }
  }

  // ---------------------------------------------------------------------------
  // The checksum token

  /** `/^[a-f0-9]{64}$/i`: some line of `s` is exactly 64 hex digits. */
  predicate Hex64Line(s: string)
  {
    exists i :: 0 <= i <= |s| - 64 && IsHex64At(s, i)
  }

  predicate IsHex64At(s: string, i: int)
  {
    0 <= i <= |s| - 64 && LineStart(s, i) && LineEnd(s, i + 64) &&
    forall j :: i <= j < i + 64 ==> IsHexDigit(s[j])
  }

  predicate IsHex64(s: string)
  {
    |s| == 64 && forall j :: 0 <= j < 64 ==> IsHexDigit(s[j])
  }

  /** A token read with `gets.chomp` holds no newline, so the line anchors
      mean the whole string. */
  lemma Hex64WholeToken(s: string)
    requires '\n' !in s
    ensures Hex64Line(s) <==> IsHex64(s)
  {
    assert forall k :: 0 <= k < |s| ==> s[k] != '\n';
    if Hex64Line(s) {
      var i :| 0 <= i <= |s| - 64 && IsHex64At(s, i);
      assert i == 0 && i + 64 == |s|;
    }
    if IsHex64(s) {
      assert IsHex64At(s, 0);
    }
  }

  datatype ChecksumSource =
    | FromManifest(manifestUrl: string)   // fetch the manifest and look the file up
    | Inline(checksum: string)            // the checksum to store
    | BadChecksum                         // "Checksum must be 64 hex characters or start with sha256:"

  /** The four mutually exclusive cases of the token, tested in order. */
  function ClassifyChecksum(token: string): ChecksumSource
  {
    if IsHttpUrl(token) then FromManifest(token)
    else if Hex64Line(token) then Inline("sha256:" + token)
    else if StartsWith(token, "sha256:") then Inline(token)
    else BadChecksum
  }

  /** The cases as the `add` prompt sees them; a raw hex token keeps its case. */
  lemma ClassifyToken(token: string)
    requires '\n' !in token
    ensures IsHttpUrl(token) ==> ClassifyChecksum(token) == FromManifest(token)
    ensures !IsHttpUrl(token) && IsHex64(token) ==> ClassifyChecksum(token) == Inline("sha256:" + token)
    ensures !IsHttpUrl(token) && !IsHex64(token) && StartsWith(token, "sha256:") ==>
            ClassifyChecksum(token) == Inline(token)
    ensures ClassifyChecksum(token) == BadChecksum <==>
            !IsHttpUrl(token) && !IsHex64(token) && !StartsWith(token, "sha256:")
  {
    Hex64WholeToken(token);
  }

  // ---------------------------------------------------------------------------
  // The checksum manifest

  /** The `sub` that drops one leading star from the last field; a field holds no newline, so the anchor is its start. */
  function StripStar(f: string): string
  {
    if f != [] && f[0] == '*' then f[1..] else f
  }

  /** `line.strip.split(/\s+/)`: once `strip` has removed whitespace and NUL
      from both ends, splitting on runs of whitespace is the bare `split`. */
  function LineFields(line: string): seq<string>
  {
    Words(Strip(line))
  }

  /** What one manifest line contributes: `sha256:<first field>` when the line
      has at least two fields and its last field names `filename`. */
  function LineChecksum(line: string, filename: string): (r: Option<string>)
  {
    var parts := LineFields(line);
    if |parts| < 2 then None
    else if StripStar(parts[|parts| - 1]) == filename then Some("sha256:" + parts[0])
    else None
  }

  /** The answer of the first line that names `filename`. */
  function ManifestLookup(lines: seq<string>, filename: string): Option<string>
  {
    if lines == [] then None
    else if LineChecksum(lines[0], filename).Some? then LineChecksum(lines[0], filename)
    else ManifestLookup(lines[1..], filename)
  }

  /** `content.each_line`; the newline each line keeps is whitespace to `strip`. */
  function ManifestLines(content: string): seq<string>
  {
    SplitOn(content, '\n')
  }

  lemma {:induction false} ManifestLookupIsFirstMatch(lines: seq<string>, filename: string)
    ensures ManifestLookup(lines, filename).None? <==>
            forall i :: 0 <= i < |lines| ==> LineChecksum(lines[i], filename).None?
    ensures ManifestLookup(lines, filename).Some? ==>
            exists i :: 0 <= i < |lines| && LineChecksum(lines[i], filename) == ManifestLookup(lines, filename)
                        && forall j :: 0 <= j < i ==> LineChecksum(lines[j], filename).None?
    decreases |lines|
  {
    if lines != [] && LineChecksum(lines[0], filename).None? {
      var rest := lines[1..];
      var m := ManifestLookup(lines, filename);
      assert m == ManifestLookup(rest, filename);
      ManifestLookupIsFirstMatch(rest, filename);
      if m.Some? {
        var i :| 0 <= i < |rest| && LineChecksum(rest[i], filename) == m
                 && forall j :: 0 <= j < i ==> LineChecksum(rest[j], filename).None?;
        assert lines[i + 1] == rest[i];
        forall j | 0 <= j < i + 1 ensures LineChecksum(lines[j], filename).None? {
          if j > 0 { assert lines[j] == rest[j - 1]; }
        }
      } else {
        forall i | 0 <= i < |lines| ensures LineChecksum(lines[i], filename).None? {
          if i > 0 { assert lines[i] == rest[i - 1]; }
        }
      }
    }
  }

  /** A line's contribution: one field never matches; otherwise the first
      field is the hash and the last, less one leading `*`, the file name. */
  lemma LineChecksumCases(line: string, filename: string)
    ensures |LineFields(line)| < 2 ==> LineChecksum(line, filename).None?
    ensures LineChecksum(line, filename).Some? ==>
            |LineFields(line)| >= 2 && LineChecksum(line, filename) == Some("sha256:" + LineFields(line)[0])
            && StripStar(LineFields(line)[|LineFields(line)| - 1]) == filename
  {
  }

  /** Whitespace and NUL around a line's text do not change what it
      contributes: `strip` removes them before the split. */
  lemma PaddedLineChecksum(a: string, m: string, b: string, filename: string)
    requires forall i :: 0 <= i < |a| ==> IsStripped(a[i])
    requires forall i :: 0 <= i < |b| ==> IsStripped(b[i])
    requires m == [] || (!IsStripped(m[0]) && !IsStripped(m[|m| - 1]))
    ensures LineChecksum(a + m + b, filename) == LineChecksum(m, filename)
  {
    PaddedLineFields(a, m, b);
  }

  lemma PaddedLineFields(a: string, m: string, b: string)
    requires forall i :: 0 <= i < |a| ==> IsStripped(a[i])
    requires forall i :: 0 <= i < |b| ==> IsStripped(b[i])
    requires m == [] || (!IsStripped(m[0]) && !IsStripped(m[|m| - 1]))
    ensures LineFields(a + m + b) == LineFields(m)
  {
    StripOfPadded(a, m, b);
    StripUnpadded(m);
  }

  /** The loop of `download_checksum_file`, which returns at the first match. */
  method FindInManifest(content: string, filename: string) returns (r: Option<string>)
    ensures r == ManifestLookup(ManifestLines(content), filename)
  {
    var lines := ManifestLines(content);
    var i := 0;
    while i < |lines|
      invariant 0 <= i <= |lines|
      invariant ManifestLookup(lines, filename) == ManifestLookup(lines[i..], filename)
    {
      assert lines[i..][1..] == lines[i + 1..];
      var parts := Words(Strip(lines[i]));
      if |parts| >= 2 {
        var hash := parts[0];
        var file := StripStar(parts[|parts| - 1]);
        if file == filename {
          return Some("sha256:" + hash);
        }
      }
      i := i + 1;
    }
    return None;
  }

  /** The checksum and its provenance URL, or `None` on every failure path:
      a bad token, a manifest that cannot be fetched (`fetch` gives `None` for
      a non-success response) or one that does not list the file. */
  function ResolveChecksum(token: string, filename: string, fetch: string -> Option<string>):
    Option<(string, Option<string>)>
  {
    match ClassifyChecksum(token)
    case FromManifest(u) =>
      (match fetch(u)
       case None => None
       case Some(body) =>
         (match ManifestLookup(ManifestLines(body), filename)
          case None => None
          case Some(c) => Some((c, Some(u)))))
    case Inline(c) => Some((c, None))
    case BadChecksum => None
  }

  datatype Attributes = Attributes(
    name: string,
    url: string,
    checksum: string,
    checksumUrl: Option<string>,
    filename: string,
    architecture: string)

  /** `derive_attributes(url, checksum_input)`; `fetch` stands for the plain
      GET of the manifest. The caller (`add`) has already checked the scheme. */
  method DeriveAttributes(url: string, token: string, fetch: string -> Option<string>) returns (r: Option<Attributes>)
    requires IsHttpUrl(url)
    ensures r.Some? <==> IsoFilename(url).Some? && ResolveChecksum(token, IsoFilename(url).value, fetch).Some?
    ensures r.Some? ==>
      var f := IsoFilename(url).value;
      var (c, cu) := ResolveChecksum(token, f, fetch).value;
      r.value == Attributes(DisplayName(f), url, c, cu, f, ArchitectureOf(f))
  {
    var found := LastSegment(UrlPath(url));
    if !(found.Some? && EndsWith(found.value, ".iso")) {
      return None;
    }
    var filename := found.value;
    var name := DisplayName(filename);
    var architecture := DetectArchitecture(filename);
    var checksum: string;
    var checksumUrl: Option<string> := None;
    match ClassifyChecksum(token) {
      case FromManifest(u) =>
        checksumUrl := Some(u);
        var body := fetch(u);
        if body.None? {
          return None;
        }
        var c := FindInManifest(body.value, filename);
        if c.None? {
          return None;
        }
        checksum := c.value;
      case Inline(c) =>
        checksum := c;
      case BadChecksum =>
        return None;
    }
    r := Some(Attributes(name, url, checksum, checksumUrl, filename, architecture));
  }
}
