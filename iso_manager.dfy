/** `Manager` of pim-iso: the commands that look at the merged catalog and the
    image directory. The image directory is a map from file name to contents,
    the network a function from URL to response (see `Downloader`), and
    SHA-256 a function `sha` from contents to its lower-case hex digest. */
module IsoManager {
  import opened Wrappers
  import opened Yaml
  import opened Text
  import opened StringOrder
  import opened Downloader
  import opened IsoAttributes
  import opened Layers

  type Catalog = map<string, Value>
  type Files = map<string, Bytes>

  /** The catalogs the commands can work on: every entry is a mapping or
      `nil`, and its `filename`, `url` and `checksum` are scalars or `nil`. */
  predicate WellFormedEntry(e: Value)
  {
    e.Null? ||
    (e.Mapping? && forall f :: f in e.fields && (f == "filename" || f == "url" || f == "checksum") ==> !e.fields[f].Mapping?)
  }

  predicate WellFormedCatalog(isos: Catalog)
  {
    forall k :: k in isos ==> WellFormedEntry(isos[k])
  }

  /** `iso[field]` as a string, `None` for `nil`. */
  function TextField(e: Value, field: string): (r: Option<string>)
    requires e.Mapping?
    ensures r.Some? <==> field in e.fields && e.fields[field].Scalar?
  {
    if field in e.fields && e.fields[field].Scalar? then Some(e.fields[field].text) else None
  }

  /** `iso['filename'] || "#{key}.iso"` */
  function EntryFile(key: string, e: Value): (f: string)
    requires e.Mapping?
    ensures TextField(e, "filename").None? ==> f == key + ".iso"
    ensures TextField(e, "filename").Some? ==> f == TextField(e, "filename").value
  {
    match TextField(e, "filename")
    case Some(f) => f
    case None => key + ".iso"
  }

  /** `iso['checksum'].to_s`: `nil` becomes the empty string. */
  function ChecksumText(e: Value): string
    requires e.Mapping?
  {
    match TextField(e, "checksum")
    case Some(c) => c
    case None => ""
  }

  predicate Listed(isos: Catalog, key: string)
  {
    key in isos && isos[key].Mapping?
  }

  // ---------------------------------------------------------------------------
  // verify

  /** `verify(key)`: the image of a catalog entry is present and its digest
      equals the stored checksum with the first `sha256:` removed. */
  predicate Verify(isos: Catalog, files: Files, sha: Bytes -> string, key: string)
  {
    Listed(isos, key) && EntryFile(key, isos[key]) in files &&
    sha(files[EntryFile(key, isos[key])]) == RemoveFirst(ChecksumText(isos[key]), "sha256:")
  }

  /** An entry whose checksum is `sha256:<h>` verifies exactly when its
      image is present and has digest `h`. */
  lemma VerifyIffTagged(isos: Catalog, files: Files, sha: Bytes -> string, key: string, h: string)
    requires Listed(isos, key) && TextField(isos[key], "checksum") == Some("sha256:" + h)
    ensures Verify(isos, files, sha, key) <==>
      EntryFile(key, isos[key]) in files && sha(files[EntryFile(key, isos[key])]) == h
  {
    RemoveFirstOfPrefix("sha256:", h);
  }

  /** Storing `sha256:<digest of the file>` makes the entry verify. */
  lemma VerifyStoredDigest(isos: Catalog, files: Files, sha: Bytes -> string, key: string)
    requires Listed(isos, key) && EntryFile(key, isos[key]) in files
    requires TextField(isos[key], "checksum") == Some("sha256:" + sha(files[EntryFile(key, isos[key])]))
    ensures Verify(isos, files, sha, key)
  {
    RemoveFirstOfPrefix("sha256:", sha(files[EntryFile(key, isos[key])]));
  }

  predicate IsLowerHexDigest(h: string)
  {
    forall i :: 0 <= i < |h| ==> IsDigit(h[i]) || 'a' <= h[i] <= 'f'
  }

  /** A raw hex token is stored with its case as typed, while `hexdigest`
      is lower case: a token with an upper-case digit never verifies. */
  lemma UppercaseTokenNeverVerifies(isos: Catalog, files: Files, sha: Bytes -> string, key: string, token: string, i: nat)
    requires forall d :: IsLowerHexDigest(sha(d))
    requires i < |token| && 'A' <= token[i] <= 'F'
    requires Listed(isos, key) && ClassifyChecksum(token).Inline?
    requires TextField(isos[key], "checksum") == Some(ClassifyChecksum(token).checksum)
    requires !StartsWith(token, "sha256:") && !IsHttpUrl(token)
    ensures !Verify(isos, files, sha, key)
  {
    RemoveFirstOfPrefix("sha256:", token);
    var f := EntryFile(key, isos[key]);
    if f in files {
      var h := sha(files[f]);
      assert IsLowerHexDigest(h);
      assert h != token by {
        if |h| == |token| { assert h[i] != token[i]; }
      }
    }
  }

  // ---------------------------------------------------------------------------
  // list

  function DigitRun(s: string, j: nat): (n: nat)
    ensures j + n <= |s| || n == 0
    ensures forall k :: j <= k < j + n ==> IsDigit(s[k])
    decreases |s| - j
  {
    if j < |s| && IsDigit(s[j]) then 1 + DigitRun(s, j + 1) else 0
  }

  /** `/^sha\d+:/` matches at `i`. */
  predicate ShaTagAt(s: string, i: nat)
  {
    LineStart(s, i) && i + 3 <= |s| && s[i..i + 3] == "sha" &&
    var n := DigitRun(s, i + 3); n >= 1 && i + 3 + n < |s| && s[i + 3 + n] == ':'
  }

  /** `checksum.sub(/^sha\d+:/, '')`: drop the leftmost algorithm tag that
      starts a line. */
  function StripShaTag(s: string): string
  {
    StripShaTagFrom(s, 0)
  }

  function StripShaTagFrom(s: string, i: nat): string
    decreases |s| - i
  {
    if i >= |s| then s
    else if ShaTagAt(s, i) then s[..i] + s[i + 4 + DigitRun(s, i + 3)..]
    else StripShaTagFrom(s, i + 1)
  }

  /** `iso_verified?(key)`, the status `list --long` shows. */
  predicate IsoVerified(isos: Catalog, files: Files, sha: Bytes -> string, key: string)
    requires Listed(isos, key)
  {
    EntryFile(key, isos[key]) in files &&
    sha(files[EntryFile(key, isos[key])]) == StripShaTag(ChecksumText(isos[key]))
  }

  /** The tag is removed whatever its digits: `sha256:` and `sha512:` alike. */
  lemma StripShaTagOfTagged(digits: string, h: string)
    requires digits != [] && forall k :: 0 <= k < |digits| ==> IsDigit(digits[k])
    ensures StripShaTag("sha" + digits + ":" + h) == h
  {
    var s := "sha" + digits + ":" + h;
    DigitRunOfDigits(s, 3, digits);
    assert s[..3] == "sha" && s[3 + |digits|] == ':';
    assert s[4 + |digits|..] == h;
  }

  lemma {:induction false} DigitRunOfDigits(s: string, j: nat, digits: string)
    requires j + |digits| < |s| && s[j..j + |digits|] == digits && !IsDigit(s[j + |digits|])
    requires forall k :: 0 <= k < |digits| ==> IsDigit(digits[k])
    ensures DigitRun(s, j) == |digits|
    decreases |digits|
  {
    if digits != [] {
      assert s[j] == digits[0];
      assert s[j + 1..j + 1 + |digits[1..]|] == digits[1..];
      DigitRunOfDigits(s, j + 1, digits[1..]);
    }
  }

  /** `verify` and `list --long` disagree on a checksum stored under another
      algorithm: `sha1:<digest>` shows as verified, but `verify` fails. */
  lemma VerifyAndListDisagree(isos: Catalog, files: Files, sha: Bytes -> string, key: string)
    requires Listed(isos, key) && EntryFile(key, isos[key]) in files
    requires TextField(isos[key], "checksum") == Some("sha1:" + sha(files[EntryFile(key, isos[key])]))
    requires !Contains(sha(files[EntryFile(key, isos[key])]), "sha256:")
    ensures IsoVerified(isos, files, sha, key)
    ensures !Verify(isos, files, sha, key)
  {
    var h := sha(files[EntryFile(key, isos[key])]);
    StripShaTagOfTagged("1", h);
    assert "sha1:" + h == "sha" + "1" + ":" + h;
    assert !Contains("sha1:" + h, "sha256:") by {
      NoSha256InTagged(h);
    }
  }

  lemma NotContainsCons(c: char, s: string, p: string)
    requires p != [] && !Contains(s, p) && (c != p[0] || !StartsWith([c] + s, p))
    ensures !Contains([c] + s, p)
  {
    assert ([c] + s)[1..] == s;
    if c != p[0] && |p| <= |[c] + s| {
      assert ([c] + s)[..|p|][0] != p[0];
    }
  }

  lemma NoSha256InTagged(h: string)
    requires !Contains(h, "sha256:")
    ensures !Contains("sha1:" + h, "sha256:")
  {
    var p := "sha256:";
    NotContainsCons(':', h, p);
    assert [':'] + h == ":" + h;
    NotContainsCons('1', ":" + h, p);
    assert ['1'] + (":" + h) == "1:" + h;
    NotContainsCons('a', "1:" + h, p);
    assert ['a'] + ("1:" + h) == "a1:" + h;
    NotContainsCons('h', "a1:" + h, p);
    assert ['h'] + ("a1:" + h) == "ha1:" + h;
    var s := "sha1:" + h;
    assert !StartsWith(s, p) by { if |s| >= 7 { assert s[3] != p[3]; } }
    NotContainsCons('s', "ha1:" + h, p);
    assert ['s'] + ("ha1:" + h) == s;
  }

  /** A row of `list --long`. */
  datatype Status = NotDownloaded | Downloaded | Verified
  datatype Row = Row(key: string, size: Option<nat>, status: Status)

  function RowOf(isos: Catalog, files: Files, sha: Bytes -> string, key: string): (r: Row)
    requires Listed(isos, key)
    ensures r.key == key
    ensures r.status == NotDownloaded <==> EntryFile(key, isos[key]) !in files
    ensures r.status == Verified <==> IsoVerified(isos, files, sha, key)
    ensures r.size.Some? <==> EntryFile(key, isos[key]) in files
    ensures r.size.Some? ==> r.size.value == |files[EntryFile(key, isos[key])]|
  {
    var f := EntryFile(key, isos[key]);
    if f !in files then Row(key, None, NotDownloaded)
    else Row(key, Some(|files[f]|), if IsoVerified(isos, files, sha, key) then Verified else Downloaded)
  }

  /** The image of `key` is in the image directory. */
  predicate HasImage(isos: Catalog, files: Files, key: string)
  {
    Listed(isos, key) && EntryFile(key, isos[key]) in files
  }

  /** The bytes of the images of `keys` that are present. */
  function PresentBytes(isos: Catalog, files: Files, keys: seq<string>): nat
  {
    if keys == [] then 0
    else
      var k := keys[|keys| - 1];
      PresentBytes(isos, files, keys[..|keys| - 1]) +
      (if HasImage(isos, files, k) then |files[EntryFile(k, isos[k])]| else 0)
  }

  predicate HasNullEntry(isos: Catalog)
  {
    exists k :: k in isos && isos[k].Null?
  }

  /** `list_long`: one row per key in sorted order and the total size of the
      images present; `None` where a `nil` entry makes it raise. */
  method ListLong(isos: Catalog, files: Files, sha: Bytes -> string) returns (r: Option<(seq<Row>, nat)>)
    requires WellFormedCatalog(isos)
    ensures r.None? <==> HasNullEntry(isos)
    ensures r.Some? ==>
      var keys := SortedKeys(isos);
      var (rows, total) := r.value;
      |rows| == |keys| &&
      (forall i :: 0 <= i < |rows| ==> Listed(isos, keys[i]) && rows[i] == RowOf(isos, files, sha, keys[i])) &&
      total == PresentBytes(isos, files, keys)
  {
    if exists k :: k in isos && isos[k].Null? {
      return None;
    }
    var keys := SortedKeys(isos);
    var rows, total := ListRows(isos, files, sha, keys);
    r := Some((rows, total));
  }

  /** The loop of `list_long` over the sorted keys. */
  method ListRows(isos: Catalog, files: Files, sha: Bytes -> string, keys: seq<string>) returns (rows: seq<Row>, total: nat)
    requires forall k :: k in keys ==> Listed(isos, k)
    ensures |rows| == |keys|
    ensures forall i :: 0 <= i < |rows| ==> Listed(isos, keys[i]) && rows[i] == RowOf(isos, files, sha, keys[i])
    ensures total == PresentBytes(isos, files, keys)
  {
    rows := [];
    total := 0;
    var i := 0;
    while i < |keys|
      invariant 0 <= i <= |keys|
      invariant |rows| == i
      invariant forall j :: 0 <= j < i ==> Listed(isos, keys[j]) && rows[j] == RowOf(isos, files, sha, keys[j])
      invariant total == PresentBytes(isos, files, keys[..i])
    {
      var key := keys[i];
      assert key in keys;
      assert keys[..i + 1][..i] == keys[..i] && keys[..i + 1][i] == key;
      var f := EntryFile(key, isos[key]);
      if f in files {
        total := total + |files[f]|;
      }
      rows := rows + [RowOf(isos, files, sha, key)];
      i := i + 1;
    }
    assert keys[..i] == keys;
  }

  /** `list`: the keys, sorted. */
  function List(isos: Catalog): (keys: seq<string>)
    ensures Sorted(keys) && Distinct(keys)
    ensures forall k :: k in keys <==> k in isos
  {
    SortedKeys(isos)
  }

  // ---------------------------------------------------------------------------
  // download

  const RedirectBudget: nat := 5

  /** `download(key)`. Result `Some(false)` for an unknown key or a declined
      re-download, `Some(verified)` after a download, `None` where Ruby raises
      (no `url`, a failed request). `answer` is the reply to the
      re-download prompt, consulted only when the file exists. */
  method Download(isos: Catalog, files: Files, sha: Bytes -> string, net: string -> Response,
                  key: string, force: bool, answer: string)
    returns (r: Option<bool>, files': Files)
    requires WellFormedCatalog(isos)
    ensures !Listed(isos, key) ==> r == Some(false) && files' == files
    ensures Listed(isos, key) && EntryFile(key, isos[key]) in files && !force && !Confirmed(answer) ==>
      r == Some(false) && files' == files
    ensures Listed(isos, key) && (EntryFile(key, isos[key]) !in files || force || Confirmed(answer)) ==>
      var f := EntryFile(key, isos[key]);
      match TextField(isos[key], "url")
      case None => r.None? && files' == files
      case Some(u) =>
        var o := Follow(net, u, RedirectBudget);
        (o.Fetched? ==> files' == files[f := o.data] && r == Some(Verify(isos, files', sha, key))) &&
        (!o.Fetched? ==> r.None? && files' == files)
  {
    if !Listed(isos, key) {
      return Some(false), files;
    }
    var iso := isos[key];
    var filename := EntryFile(key, iso);
    if filename in files && !force {
      if !Confirmed(answer) {
        return Some(false), files;
      }
    }
    var url := TextField(iso, "url");
    if url.None? {
      return None, files;
    }
    var outcome, received;
    outcome, received, files' := DownloadFile(net, url.value, filename, files, RedirectBudget);
    if !outcome.Fetched? {
      return None, files;
    }
    r := Some(Verify(isos, files', sha, key));
  }

  /** A download that delivers the bytes whose digest the entry records ends
      verified. */
  lemma DownloadedImageVerifies(isos: Catalog, files: Files, sha: Bytes -> string, net: string -> Response, key: string)
    requires Listed(isos, key) && TextField(isos[key], "url").Some?
    requires Follow(net, TextField(isos[key], "url").value, RedirectBudget).Fetched?
    requires TextField(isos[key], "checksum") ==
             Some("sha256:" + sha(Follow(net, TextField(isos[key], "url").value, RedirectBudget).data))
    ensures Verify(isos, files[EntryFile(key, isos[key]) := Follow(net, TextField(isos[key], "url").value, RedirectBudget).data], sha, key)
  {
    var d := Follow(net, TextField(isos[key], "url").value, RedirectBudget).data;
    VerifyStoredDigest(isos, files[EntryFile(key, isos[key]) := d], sha, key);
  }

  // ---------------------------------------------------------------------------
  // download --all and verify --all

  /** The catalog's keys in Ruby's hash order. */
  ghost predicate IsOrder(isos: Catalog, order: seq<string>)
  {
    Distinct(order) && forall k :: k in order <==> k in isos
  }

  /** `r` keeps some of the elements of `xs`, in their order in `xs`. */
  predicate Subsequence(r: seq<string>, xs: seq<string>)
    decreases |xs|
  {
    if xs == [] then r == []
    else Subsequence(r, xs[..|xs| - 1]) ||
         (r != [] && r[|r| - 1] == xs[|xs| - 1] && Subsequence(r[..|r| - 1], xs[..|xs| - 1]))
  }

  /** `isos.select { !file_exists?(filename) }`, keeping hash order. */
  function MissingKeys(isos: Catalog, files: Files, order: seq<string>): (r: seq<string>)
    ensures forall k :: k in r <==> k in order && Listed(isos, k) && !HasImage(isos, files, k)
    ensures |r| <= |order|
    ensures Subsequence(r, order)
    ensures Distinct(order) ==> Distinct(r)
  {
    if order == [] then []
    else
      var rest := MissingKeys(isos, files, order[..|order| - 1]);
      var k := order[|order| - 1];
      assert forall x :: x in order[..|order| - 1] ==> x in order;
      assert Distinct(order) ==> k !in order[..|order| - 1];
      assert (rest + [k])[..|rest|] == rest;
      if Listed(isos, k) && !HasImage(isos, files, k) then rest + [k] else rest
  }

  /** `isos.select { file_exists?(filename) }`, keeping hash order. */
  function PresentKeys(isos: Catalog, files: Files, order: seq<string>): (r: seq<string>)
    ensures forall k :: k in r <==> k in order && HasImage(isos, files, k)
    ensures |r| <= |order|
    ensures Subsequence(r, order)
    ensures Distinct(order) ==> Distinct(r)
  {
    if order == [] then []
    else
      var rest := PresentKeys(isos, files, order[..|order| - 1]);
      var k := order[|order| - 1];
      assert forall x :: x in order[..|order| - 1] ==> x in order;
      assert Distinct(order) ==> k !in order[..|order| - 1];
      assert (rest + [k])[..|rest|] == rest;
      if HasImage(isos, files, k) then rest + [k] else rest
  }

  /** The state of a `download --all` run after some of its keys. */
  datatype Progress = Progress(files: Files, succeeded: nat, aborted: bool)

  /** Download each key in turn, counting those that verify afterwards; the
      first exception (a `nil` entry, no `url`, a failed request) ends the run. */
  function RunDownloads(isos: Catalog, sha: Bytes -> string, net: string -> Response, files: Files, keys: seq<string>): Progress
  {
    if keys == [] then Progress(files, 0, false)
    else
      var p := RunDownloads(isos, sha, net, files, keys[..|keys| - 1]);
      var k := keys[|keys| - 1];
      if p.aborted || !Listed(isos, k) then Progress(p.files, p.succeeded, true)
      else match TextField(isos[k], "url")
        case None => Progress(p.files, p.succeeded, true)
        case Some(u) =>
          match Follow(net, u, RedirectBudget)
          case Fetched(d) =>
            var fs := p.files[EntryFile(k, isos[k]) := d];
            Progress(fs, p.succeeded + (if Verify(isos, fs, sha, k) then 1 else 0), false)
          case _ => Progress(p.files, p.succeeded, true)
  }

  datatype BatchOutcome = AllPresent | Finished(succeeded: nat) | Raised

  /** `download_all`. A `nil` entry raises while the missing images are
      selected, before anything is downloaded. */
  method DownloadAll(isos: Catalog, files: Files, sha: Bytes -> string, net: string -> Response, order: seq<string>)
    returns (outcome: BatchOutcome, files': Files)
    requires WellFormedCatalog(isos) && IsOrder(isos, order)
    ensures HasNullEntry(isos) ==> outcome == Raised && files' == files
    ensures !HasNullEntry(isos) ==>
      var missing := MissingKeys(isos, files, order);
      (missing == [] ==> outcome == AllPresent && files' == files) &&
      (missing != [] ==>
        var p := RunDownloads(isos, sha, net, files, missing);
        files' == p.files && outcome == if p.aborted then Raised else Finished(p.succeeded))
  {
    if exists k :: k in isos && isos[k].Null? {
      return Raised, files;
    }
    var missing := MissingKeys(isos, files, order);
    if missing == [] {
      return AllPresent, files;
    }
    outcome, files' := RunMissing(isos, files, sha, net, missing);
  }

  /** The loop of `download_all` over the missing keys. */
  method RunMissing(isos: Catalog, files: Files, sha: Bytes -> string, net: string -> Response, keys: seq<string>)
    returns (outcome: BatchOutcome, files': Files)
    requires forall k :: k in keys ==> Listed(isos, k)
    ensures var p := RunDownloads(isos, sha, net, files, keys);
      files' == p.files && outcome == if p.aborted then Raised else Finished(p.succeeded)
  {
    var successCount := 0;
    files' := files;
    var i := 0;
    while i < |keys|
      invariant 0 <= i <= |keys|
      invariant RunDownloads(isos, sha, net, files, keys[..i]) == Progress(files', successCount, false)
    {
      var key := keys[i];
      assert key in keys;
      assert keys[..i + 1][..i] == keys[..i] && keys[..i + 1][i] == key;
      var url := TextField(isos[key], "url");
      if url.None? {
        RunStaysAborted(isos, sha, net, files, keys, i + 1);
        return Raised, files';
      }
      var o, received;
      o, received, files' := DownloadFile(net, url.value, EntryFile(key, isos[key]), files', RedirectBudget);
      if !o.Fetched? {
        RunStaysAborted(isos, sha, net, files, keys, i + 1);
        return Raised, files';
      }
      if Verify(isos, files', sha, key) {
        successCount := successCount + 1;
      }
      i := i + 1;
    }
    assert keys[..i] == keys;
    outcome := Finished(successCount);
  }

  /** Once a run is cut short, the later keys change nothing. */
  lemma {:induction false} RunStaysAborted(isos: Catalog, sha: Bytes -> string, net: string -> Response, files: Files, keys: seq<string>, j: nat)
    requires j <= |keys| && RunDownloads(isos, sha, net, files, keys[..j]).aborted
    ensures RunDownloads(isos, sha, net, files, keys) == RunDownloads(isos, sha, net, files, keys[..j])
    decreases |keys|
  {
    if j < |keys| {
      var init := keys[..|keys| - 1];
      assert init[..j] == keys[..j];
      RunStaysAborted(isos, sha, net, files, init, j);
    } else {
      assert keys[..j] == keys;
    }
  }

  /** A run never counts more successes than keys. */
  lemma {:induction false} RunSucceededBound(isos: Catalog, sha: Bytes -> string, net: string -> Response, files: Files, keys: seq<string>)
    ensures RunDownloads(isos, sha, net, files, keys).succeeded <= |keys|
    decreases |keys|
  {
    if keys != [] {
      RunSucceededBound(isos, sha, net, files, keys[..|keys| - 1]);
    }
  }

  /** A run that is not cut short leaves every key's image present. */
  lemma {:induction false} RunDownloadsComplete(isos: Catalog, sha: Bytes -> string, net: string -> Response, files: Files, keys: seq<string>)
    requires !RunDownloads(isos, sha, net, files, keys).aborted
    ensures forall k :: k in keys ==> HasImage(isos, RunDownloads(isos, sha, net, files, keys).files, k)
    decreases |keys|
  {
    if keys != [] {
      var init := keys[..|keys| - 1];
      RunDownloadsComplete(isos, sha, net, files, init);
      assert forall k :: k in keys ==> k in init || k == keys[|keys| - 1];
    }
  }

  /** A run touches no file other than the keys' images. */
  lemma {:induction false} RunDownloadsFrame(isos: Catalog, sha: Bytes -> string, net: string -> Response, files: Files, keys: seq<string>, f: string)
    requires forall k :: k in keys && Listed(isos, k) ==> EntryFile(k, isos[k]) != f
    ensures var p := RunDownloads(isos, sha, net, files, keys);
      (f in p.files <==> f in files) && (f in files ==> p.files[f] == files[f])
    decreases |keys|
  {
    if keys != [] {
      var init := keys[..|keys| - 1];
      assert forall k :: k in init ==> k in keys;
      RunDownloadsFrame(isos, sha, net, files, init, f);
    }
  }

  datatype VerifyReport = NothingDownloaded | Summary(passed: nat, failed: nat) | VerifyRaised

  /** How many of `keys` verify. */
  function CountVerified(isos: Catalog, files: Files, sha: Bytes -> string, keys: seq<string>): (n: nat)
    ensures n <= |keys|
  {
    if keys == [] then 0
    else CountVerified(isos, files, sha, keys[..|keys| - 1]) + (if Verify(isos, files, sha, keys[|keys| - 1]) then 1 else 0)
  }

  /** `verify_all`: every key whose image is present is verified, in hash
      order, and the passes and failures are counted. */
  method VerifyAll(isos: Catalog, files: Files, sha: Bytes -> string, order: seq<string>)
    returns (report: VerifyReport)
    requires WellFormedCatalog(isos) && IsOrder(isos, order)
    ensures HasNullEntry(isos) <==> report == VerifyRaised
    ensures !HasNullEntry(isos) ==>
      var present := PresentKeys(isos, files, order);
      (present == [] <==> report == NothingDownloaded) &&
      (present != [] ==> report == Summary(CountVerified(isos, files, sha, present),
                                           |present| - CountVerified(isos, files, sha, present)))
  {
    if exists k :: k in isos && isos[k].Null? {
      return VerifyRaised;
    }
    var present := PresentKeys(isos, files, order);
    if present == [] {
      return NothingDownloaded;
    }
    var passed, failed := CountResults(isos, files, sha, present);
    report := Summary(passed, failed);
  }

  /** The loop of `verify_all`: `result ? passed += 1 : failed += 1`. */
  method CountResults(isos: Catalog, files: Files, sha: Bytes -> string, keys: seq<string>) returns (passed: nat, failed: nat)
    ensures passed == CountVerified(isos, files, sha, keys)
    ensures passed + failed == |keys|
  {
    passed := 0;
    failed := 0;
    var i := 0;
    while i < |keys|
      invariant 0 <= i <= |keys|
      invariant passed == CountVerified(isos, files, sha, keys[..i])
      invariant passed + failed == i
    {
      assert keys[..i + 1][..i] == keys[..i];
      if Verify(isos, files, sha, keys[i]) {
        passed := passed + 1;
      } else {
        failed := failed + 1;
      }
      i := i + 1;
    }
    assert keys[..i] == keys;
  }

  /** When every present image carries its own digest, all of them pass. */
  lemma {:induction false} AllStoredDigestsPass(isos: Catalog, files: Files, sha: Bytes -> string, keys: seq<string>)
    requires forall k :: k in keys ==>
               (Listed(isos, k) && EntryFile(k, isos[k]) in files &&
                TextField(isos[k], "checksum") == Some("sha256:" + sha(files[EntryFile(k, isos[k])])))
    ensures CountVerified(isos, files, sha, keys) == |keys|
    decreases |keys|
  {
    if keys != [] {
      var init := keys[..|keys| - 1];
      assert forall k :: k in init ==> k in keys;
      AllStoredDigestsPass(isos, files, sha, init);
      VerifyStoredDigest(isos, files, sha, keys[|keys| - 1]);
    }
  }

  // ---------------------------------------------------------------------------
  // add

  /** The hash `add` saves: `checksum_url` only when there is one (`.compact`). */
  function EntryValue(a: Attributes): (v: Value)
    ensures v.Mapping? && WellFormedEntry(v)
    ensures TextField(v, "filename") == Some(a.filename) && TextField(v, "url") == Some(a.url)
    ensures TextField(v, "checksum") == Some(a.checksum)
    ensures TextField(v, "name") == Some(a.name) && TextField(v, "architecture") == Some(a.architecture)
    ensures TextField(v, "checksum_url") == a.checksumUrl
    ensures v.fields.Keys == {"name", "url", "checksum", "filename", "architecture"} +
                             (if a.checksumUrl.Some? then {"checksum_url"} else {})
  {
    var base := map[
      "name" := Scalar(a.name),
      "url" := Scalar(a.url),
      "checksum" := Scalar(a.checksum),
      "filename" := Scalar(a.filename),
      "architecture" := Scalar(a.architecture)];
    match a.checksumUrl
    case Some(c) => Mapping(base["checksum_url" := Scalar(c)])
    case None => Mapping(base)
  }

  /** `add`: the new fragment directory when the answers give a catalog
      entry, or `None` (nothing written) when the URL does not use http(s),
      its file name does not end in `.iso`, or the checksum cannot be had. */
  method Add(dir: Option<map<string, Document>>, url: string, token: string, fetch: string -> Option<string>)
    returns (saved: Option<map<string, Document>>)
    ensures saved.Some? <==> IsHttpUrl(url) && IsoFilename(url).Some? &&
                             ResolveChecksum(token, IsoFilename(url).value, fetch).Some?
    ensures saved.Some? ==>
      var f := IsoFilename(url).value;
      var (c, cu) := ResolveChecksum(token, f, fetch).value;
      saved.value == SaveFragment(dir, CatalogKey(f),
                                  EntryValue(Attributes(DisplayName(f), url, c, cu, f, ArchitectureOf(f))))
  {
    if !IsHttpUrl(url) {
      return None;
    }
    var attributes := DeriveAttributes(url, token, fetch);
    if attributes.None? {
      return None;
    }
    var key := CatalogKey(attributes.value.filename);
    saved := Some(SaveFragment(dir, key, EntryValue(attributes.value)));
  }

  /** The key `add` files an image under is its file name less `.iso`, and
      the entry saved points at that very file. (A URL holds no newline.) */
  lemma AddedEntryNamesItsFile(url: string, a: Attributes)
    requires IsHttpUrl(url) && IsoFilename(url) == Some(a.filename) && '\n' !in a.filename
    ensures CatalogKey(a.filename) + ".iso" == a.filename
    ensures EntryFile(CatalogKey(a.filename), EntryValue(a)) == a.filename
  {
    var f := a.filename;
    StripIsoSuffix(f);
    assert f[..|f| - 4] + ".iso" == f;
  }
}
