# pim-iso and pim-profile, modelled in Dafny

The two Ruby command-line tools of the `pim` package keep YAML catalogs:
- `pim-iso` keeps installer images: their URL, file name, SHA-256 checksum and architecture. It downloads, lists and verifies them.
- `pim-profile` keeps machine profiles: hostname, user, locale and so on. Every named profile inherits from `default`.

Both tools build their catalog the same way. They deep-merge a directory of `<key>.yml` fragments, sorted by name, and then a project file. They add an entry by writing one new fragment.

This project models the decision logic of both tools on values, and proves what each command computes:

| Module | File | What it models |
|---|---|---|
| `Yaml` | `yaml.dfy` | Parsed documents; the `dig` path lookup. |
| `DeepMerge` | `merge.dfy` | `DeepMerge.merge`, which is the same in both tools. |
| `StringOrder` | `order.dfy` | String sort order; `keys.sort`. |
| `Text` | `text.dfy` | The Ruby string operations the tools rely on: `split`, `strip`, `downcase`, `capitalize`, `sub`/`gsub` with plain patterns, and the `^`/`$` line anchors. |
| `Layers` | `layers.dfy` | `load_yaml`, fragment discovery, the layered fold, `load_runtime_config` and `save_iso`/`save_profile`. |
| `IsoConfig` | `iso_config.dfy` | `iso_dir` and its variable substitution. |
| `IsoAttributes` | `iso_attributes.dfy` | `derive_attributes`: file name, display name, architecture rules and checksum token. It also covers the manifest scan of `download_checksum_file`. |
| `Downloader` | `downloader.dfy` | `download_file`: redirect budget and chunked write. |
| `IsoManager` | `iso_manager.dfy` | `list`, `list --long`, `download`, `download --all`, `verify`, `verify --all` and `add` of pim-iso. |
| `Profiles` | `profiles.dfy` | `profile`, `profile_names`, `show`, `find_template`, `list --long` and `add` of pim-profile. |

The outside world enters through parameters:
- The image directory and the fragment directories are maps from file name to contents. A directory that does not exist is `None`.
- A configuration file arrives as a `Document`: missing, malformed, or parsed into a `Value`.
- The network is a function from URL to `Response`, and SHA-256 is a function from bytes to a hex digest.
- Prompt answers are string parameters.
- Ruby's hash order, used by `download --all` and `verify --all`, is a sequence of the catalog's keys.

Every Ruby exception the code does not rescue becomes an explicit result, except those listed under "Left out": `None`, `Raised`, `ShowRaised` or `VerifyRaised`. Examples are merging a scalar document, `nil` entries, a failed request and too many redirects.

Two behaviours of the code are worth knowing. Both follow the code as written:
- A raw 64-digit hex checksum is stored as `sha256:<token>`, keeping the case it was typed in, while `verify` and `iso_verified?` compare against a lower-case `hexdigest`. `IsoManager.UppercaseTokenNeverVerifies` shows the consequence: such an entry never verifies.
- `verify` removes the first `sha256:`, wherever it occurs, but `list --long` removes any `sha<digits>:` tag that starts a line. `IsoManager.VerifyAndListDisagree` proves that an entry stored as `sha1:<digest>` is listed as verified while `verify` fails.

## Model

| member | source | states |
|---|---|---|
| DeepMerge.MergeWithNull | packages/pim/home/.local/lib/ruby/pim-iso.rb:15-17 | A `nil` base gives the overlay; a `nil` overlay gives the base. |
| DeepMerge.MergeMappings | packages/pim/home/.local/lib/ruby/pim-iso.rb:19-27 | Merging two mappings always succeeds. The keys are the union of both sides. A key on one side keeps its value. For a key on both sides: a `nil` overlay keeps the base, two mappings merge recursively, and otherwise the overlay wins. |
| DeepMerge.MergeFails | packages/pim/home/.local/lib/ruby/pim-iso.rb:15-19 | The merge raises exactly when neither side is `nil` and one side is a scalar. |
| DeepMerge.MergeValueIdempotent | packages/pim/home/.local/lib/ruby/pim-iso.rb:19-27 | Merging a value with itself changes nothing, at any depth. |
| DeepMerge.MergeIdempotent | packages/pim/home/.local/lib/ruby/pim-iso.rb:15-28 | `merge(v, v)` is `v`, except for a scalar, where it raises. |
| DeepMerge.OverlayScalarWins | packages/pim/home/.local/lib/ruby/pim-iso.rb:19-27 | A non-`nil` scalar at some path of the overlay is the value at that path of the result, whatever the base holds. |
| DeepMerge.BaseSurvives | packages/pim/home/.local/lib/ruby/pim-iso.rb:19-27 | A base value at a path that the overlay leaves alone (absent or `nil`) survives the merge. |
| StringOrder.SortedSet | packages/pim/home/.local/lib/ruby/pim-iso.rb:138 | The elements of a set in ascending order: the same elements, sorted, with no duplicates. |
| StringOrder.SortedKeys | packages/pim/home/.local/lib/ruby/pim-iso.rb:138 | `keys.sort` holds exactly the keys of the hash, sorted and distinct. |
| Text.Downcase | packages/pim/home/.local/lib/ruby/pim-iso.rb:159 | Same length; every character is mapped to lower case. |
| Text.ConfirmedAnswers | packages/pim/home/.local/lib/ruby/pim-iso.rb:159 | `response.downcase == 'y'` holds exactly for the answers `y` and `Y`. |
| Text.Capitalize | packages/pim/home/.local/lib/ruby/pim-iso.rb:370 | Same length; the first character is upper-cased and the rest lower-cased. |
| Text.RemoveFirst | packages/pim/home/.local/lib/ruby/pim-iso.rb:220 | `sub` with a pattern that does not occur leaves the string unchanged. |
| Text.RemoveFirstLeftmost | packages/pim/home/.local/lib/ruby/pim-iso.rb:220 | When the pattern occurs, `sub` removes its leftmost occurrence, wherever it is, and keeps the text on both sides. |
| Text.RemoveFirstOfPrefix | packages/pim/home/.local/lib/ruby/pim-iso.rb:220 | `sub` removes a leading occurrence of the pattern and nothing else. |
| Text.ReplaceAll | packages/pim/home/.local/lib/ruby/pim-iso.rb:52-53 | `gsub` with a pattern that does not occur leaves the string unchanged. |
| Text.ReplaceAllLeftmost | packages/pim/home/.local/lib/ruby/pim-iso.rb:52-53 | `gsub` keeps the text before the first occurrence, replaces that occurrence, and carries on after it. With `ReplaceAll`'s own contract, this makes every non-overlapping occurrence from left to right replaced. |
| Text.ReplaceChars | packages/pim/home/.local/lib/ruby/pim-iso.rb:370 | `gsub(/[-_]/, ' ')` changes exactly the listed characters, position by position. |
| Text.SplitOn | packages/pim/home/.local/lib/ruby/pim-iso.rb:361 | There is at least one field, and no field contains the separator. |
| Text.SplitOnJoin | packages/pim/home/.local/lib/ruby/pim-iso.rb:361 | Joining the fields with the separator rebuilds the string. |
| Text.SplitOnEmptyFields | packages/pim/home/.local/lib/ruby/pim-iso.rb:361 | Every field is empty exactly when the string consists only of separators. |
| Text.SplitOnFree | packages/pim/home/.local/lib/ruby/pim-iso.rb:361 | A string without the separator is one field, itself. |
| Text.SplitOnAt | packages/pim/home/.local/lib/ruby/pim-iso.rb:361 | A separator closes the last field of the text before it: the fields of `x + sep + y` are those of `x` followed by those of `y`. |
| Text.DropTrailingEmpty | packages/pim/home/.local/lib/ruby/pim-iso.rb:361 | `split` keeps a prefix of the fields that does not end in an empty field; every dropped field is empty. |
| Text.Words | packages/pim/home/.local/lib/ruby/pim-iso.rb:370 | Bare `split` yields non-empty words free of whitespace; a string starting with a non-space starts its first word. |
| Text.WordsNoneIffSpaces | packages/pim/home/.local/lib/ruby/pim-iso.rb:370 | Bare `split` finds no word exactly when the string is all whitespace. |
| Text.WordsFirst | packages/pim/home/.local/lib/ruby/pim-iso.rb:370 | Leading whitespace is skipped and the longest following run of non-whitespace is the first word; the remaining words are those of the rest. With `WordsNoneIffSpaces`, this determines the words of every string: all its maximal non-space runs, in order. |
| Text.StripLeft | packages/pim/home/.local/lib/ruby/pim-iso.rb:485 | `lstrip` removes the longest prefix of whitespace and NUL characters: what remains is a suffix that does not start with one. |
| Text.StripRight | packages/pim/home/.local/lib/ruby/pim-iso.rb:485 | `rstrip` removes the longest suffix of whitespace and NUL characters: what remains is a prefix that does not end with one. |
| Text.Strip | packages/pim/home/.local/lib/ruby/pim-iso.rb:485 | The result of `strip` neither starts nor ends with whitespace or NUL. |
| Text.StripOfPadded | packages/pim/home/.local/lib/ruby/pim-iso.rb:485 | `strip` gives back exactly the text between a run of whitespace and NUL at the start and one at the end. |
| Text.StripUnpadded | packages/pim/home/.local/lib/ruby/pim-iso.rb:485 | Text that neither starts nor ends with whitespace or NUL is unchanged by `strip`. |
| Text.WordsKeepCharacters | packages/pim/home/.local/lib/ruby/pim-iso.rb:370 | Every character of every word occurs in the string that was split, and the proof names its position. |
| Layers.LoadYaml | packages/pim/home/.local/lib/ruby/pim-iso.rb:93-99 | Never `nil`. A missing, malformed or `nil` document gives `{}`; any other parsed document is kept as it is. The result is a scalar exactly when the document parsed to one. |
| Layers.YmlNames | packages/pim/home/.local/lib/ruby/pim-iso.rb:104 | Keeps exactly the names the glob matches (ending in `.yml`, not hidden, no `/`), with the order and distinctness of the input. |
| Layers.FragmentNames | packages/pim/home/.local/lib/ruby/pim-iso.rb:101-104 | The fragment names are sorted and distinct, and are exactly the glob matches of the directory. There are none when the directory is missing. |
| Layers.FragmentDocuments | packages/pim/home/.local/lib/ruby/pim-iso.rb:101-107 | One document per fragment name, in the same order. |
| Layers.MergeLayer | packages/pim/home/.local/lib/ruby/pim-iso.rb:83 | Merging a layer onto the accumulated mapping raises exactly when the layer is a scalar. Otherwise the result is a mapping. |
| Layers.FoldFailsIffUnmergeable | packages/pim/home/.local/lib/ruby/pim-iso.rb:78-91 | The layered load raises exactly when some layer is a scalar document. |
| Layers.SurvivesLaterLayers | packages/pim/home/.local/lib/ruby/pim-iso.rb:78-91 | A value that no later layer touches is still there after the fold. |
| Layers.LaterScalarOverrides | packages/pim/home/.local/lib/ruby/pim-iso.rb:78-91 | A scalar set by layer `i` is the loaded value at its path, as long as no later layer sets that path. |
| Layers.LoadCatalog | packages/pim/home/.local/lib/ruby/pim-iso.rb:78-91 | `load_isos` is the fold of the sorted fragments and then the project file, onto `{}`. It raises exactly when the project file or some fragment is a scalar. |
| Layers.MergeLayers | packages/pim/home/.local/lib/ruby/pim-iso.rb:82-88 | The merge loop computes the fold, stopping at the first merge that raises. |
| Layers.LoadFailure | packages/pim/home/.local/lib/ruby/pim-iso.rb:78-91 | The load fails exactly when the project file or a named fragment is a scalar document. |
| Layers.LoadRuntimeConfig | packages/pim/home/.local/lib/ruby/pim-iso.rb:64-76 | The runtime configuration is the two-layer fold: the global `pim.yml`, then the project one. |
| Layers.SaveFragment | packages/pim/home/.local/lib/ruby/pim-iso.rb:57-60 | The directory afterwards holds `<key>.yml` with the single binding `{key => data}`. Every other file of the directory is still there with the same content, and no other file appears. |
| Layers.SavedFragmentVisible | packages/pim/home/.local/lib/ruby/pim-iso.rb:59 | The saved file is seen by the glob exactly when the key is non-empty, does not start with a dot and holds no `/`. |
| Layers.StaysUnset | packages/pim/home/.local/lib/ruby/pim-iso.rb:78-91 | Layers that leave a key unset keep it unset. |
| Layers.OnlyLayerSets | packages/pim/home/.local/lib/ruby/pim-iso.rb:78-91 | A key set by exactly one layer loads as that layer's value. |
| Layers.SaveThenLoad | packages/pim/home/.local/lib/ruby/pim-iso.rb:57-91 | After saving `key`, the next load returns the saved data for that key, provided no other file sets it and the key is one the glob sees. |
| IsoConfig.JoinPath | packages/pim/home/.local/lib/ruby/pim-iso.rb:110 | A joined path starts with the directory and ends with the name. |
| IsoConfig.IsoDir | packages/pim/home/.local/lib/ruby/pim-iso.rb:48-55 | `iso_dir` raises exactly when the `iso` section is a scalar or `iso.iso_dir` is a mapping. |
| IsoConfig.IsoDirDefault | packages/pim/home/.local/lib/ruby/pim-iso.rb:48-50 | With no `iso.iso_dir` setting the directory is `<cache>/pim/isos`. |
| IsoConfig.IsoDirVerbatim | packages/pim/home/.local/lib/ruby/pim-iso.rb:52-53 | A setting without `$` is used as written. |
| IsoConfig.IsoDirUnderHome | packages/pim/home/.local/lib/ruby/pim-iso.rb:52-53 | `$HOME/rest` becomes `<home>/rest`. |
| IsoConfig.IsoDirUnderCache | packages/pim/home/.local/lib/ruby/pim-iso.rb:52-53 | `$XDG_CACHE_HOME/rest` becomes `<cache>/rest`; the earlier `$HOME` substitution does not touch it. |
| IsoAttributes.SkipAuthorityStops | packages/pim/home/.local/lib/ruby/pim-iso.rb:360 | The path part of the URL is a suffix that starts at the first `/`, `?` or `#`; the skipped host and port contain none of them. |
| IsoAttributes.LastSegment | packages/pim/home/.local/lib/ruby/pim-iso.rb:361 | `path.split('/').last` is absent exactly when the path is only slashes (or empty); when present it is non-empty and contains no `/`. |
| IsoAttributes.LastSegmentIsLastField | packages/pim/home/.local/lib/ruby/pim-iso.rb:361 | The path is a prefix that is empty or ends in `/`, then the segment, then only slashes. |
| IsoAttributes.SegmentIsLastSegment | packages/pim/home/.local/lib/ruby/pim-iso.rb:361 | Conversely, a segment after an empty or `/`-ending prefix and followed only by slashes is the last segment. |
| IsoAttributes.IsoFilename | packages/pim/home/.local/lib/ruby/pim-iso.rb:360-366 | A file name is accepted exactly when the last path segment exists and ends in `.iso`; the accepted name is that segment. |
| IsoAttributes.StripIsoSuffix | packages/pim/home/.local/lib/ruby/pim-iso.rb:281 | On a one-line name ending in `.iso`, `sub(/\.iso$/, '')` removes exactly that suffix. |
| IsoAttributes.DisplayNameShape | packages/pim/home/.local/lib/ruby/pim-iso.rb:370 | The display name is capitalized words joined by single spaces. No word contains whitespace, `-` or `_`, and neither does the name. |
| IsoAttributes.ArchitectureIsFirstMatch | packages/pim/home/.local/lib/ruby/pim-iso.rb:372-388 | The label is `unknown` exactly when no pattern matches. Otherwise it is the label of a matching pattern with no earlier pattern matching. |
| IsoAttributes.X8664NeverX86 | packages/pim/home/.local/lib/ruby/pim-iso.rb:372-388 | A name matching `x86[-_]?64` is classified `amd64` or `x86_64`, never `x86`. |
| IsoAttributes.DetectArchitecture | packages/pim/home/.local/lib/ruby/pim-iso.rb:382-388 | The loop with `break` returns the first-match label. |
| IsoAttributes.Hex64WholeToken | packages/pim/home/.local/lib/ruby/pim-iso.rb:401 | For a token without a newline, `/^[a-f0-9]{64}$/i` matches exactly when the token is 64 hex digits. |
| IsoAttributes.ClassifyToken | packages/pim/home/.local/lib/ruby/pim-iso.rb:395-408 | An http(s) token is a manifest URL; 64 hex digits become `sha256:<token>`; a `sha256:` token is kept; anything else is rejected. The cases are tested in that order. |
| IsoAttributes.LineChecksumCases | packages/pim/home/.local/lib/ruby/pim-iso.rb:485-491 | The fields are the words of the stripped line. A line with fewer than two fields never matches. A matching line yields `sha256:<first field>`, and its last field, less one leading `*`, is the file name. |
| IsoAttributes.PaddedLineChecksum | packages/pim/home/.local/lib/ruby/pim-iso.rb:485-491 | Whitespace and NUL at either end of a manifest line do not change what the line contributes. |
| IsoAttributes.ManifestLookupIsFirstMatch | packages/pim/home/.local/lib/ruby/pim-iso.rb:484-495 | The lookup fails exactly when no line matches; otherwise it is the answer of the first matching line. |
| IsoAttributes.FindInManifest | packages/pim/home/.local/lib/ruby/pim-iso.rb:484-495 | The `each_line` loop with early return computes the manifest lookup. |
| IsoAttributes.DeriveAttributes | packages/pim/home/.local/lib/ruby/pim-iso.rb:359-418 | Succeeds exactly when the file name is acceptable and the checksum can be resolved. The attributes are the display name, URL, checksum, manifest URL, file name and first-match architecture. |
| Downloader.ConcatSize | packages/pim/home/.local/lib/ruby/pim-iso.rb:443-445 | The bytes written are as many as the `downloaded` counter adds up. |
| Downloader.DownloadFile | packages/pim/home/.local/lib/ruby/pim-iso.rb:420-460 | The outcome follows redirects within the budget. On success the destination holds the body, and `received`, the sum of the chunk sizes, is its length. Otherwise no file changes. |
| Downloader.FollowChain | packages/pim/home/.local/lib/ruby/pim-iso.rb:436-437 | Following a redirect chain shorter than the budget reaches its last URL, with one unit of budget used per hop. |
| Downloader.LongChainFails | packages/pim/home/.local/lib/ruby/pim-iso.rb:420-437 | A chain of at least `budget` redirects ends in "Too many redirects". |
| Downloader.FetchedHasShortChain | packages/pim/home/.local/lib/ruby/pim-iso.rb:420-460 | Every successful download comes through fewer redirects than the budget, from a URL that answered with the body. |
| IsoManager.TextField | packages/pim/home/.local/lib/ruby/pim-iso.rb:153 | A field is present exactly when the entry holds a scalar under it. |
| IsoManager.EntryFile | packages/pim/home/.local/lib/ruby/pim-iso.rb:153 | The image file is the entry's `filename` when it has one, and `<key>.iso` otherwise. |
| IsoManager.VerifyIffTagged | packages/pim/home/.local/lib/ruby/pim-iso.rb:202-231 | An entry whose checksum is `sha256:<h>` verifies exactly when its image is present and has digest `h`. |
| IsoManager.VerifyStoredDigest | packages/pim/home/.local/lib/ruby/pim-iso.rb:219-222 | An entry storing `sha256:<digest of its file>` verifies. |
| IsoManager.UppercaseTokenNeverVerifies | packages/pim/home/.local/lib/ruby/pim-iso.rb:401-402 | A raw hex token with an upper-case digit, stored as typed, never verifies against a lower-case digest. |
| IsoManager.StripShaTagOfTagged | packages/pim/home/.local/lib/ruby/pim-iso.rb:342 | `sub(/^sha\d+:/, '')` removes any algorithm tag, whatever its digits. |
| IsoManager.VerifyAndListDisagree | packages/pim/home/.local/lib/ruby/pim-iso.rb:334-344 | An entry stored as `sha1:<digest>` shows as verified in `list --long`, yet `verify` fails on it. |
| IsoManager.RowOf | packages/pim/home/.local/lib/ruby/pim-iso.rb:312-325 | A row is missing exactly when the image is absent, and verified exactly when `iso_verified?` holds. It has a size exactly when the image exists, and the size is the image's length. |
| IsoManager.ListLong | packages/pim/home/.local/lib/ruby/pim-iso.rb:308-332 | Raises exactly when some entry is `nil`. Otherwise there is one row per sorted key, and the total is the size of the present images. |
| IsoManager.ListRows | packages/pim/home/.local/lib/ruby/pim-iso.rb:312-328 | The loop gives the row of each key in order, and the summed size of the present images. |
| IsoManager.List | packages/pim/home/.local/lib/ruby/pim-iso.rb:129-140 | `list` prints exactly the catalog keys, sorted, each once. |
| IsoManager.Download | packages/pim/home/.local/lib/ruby/pim-iso.rb:146-168 | Returns `false` with nothing written for an unknown key or a declined re-download. Otherwise it fetches the entry's URL: on success it writes the image and returns `verify`; without a URL or on a failed request it raises. |
| IsoManager.DownloadedImageVerifies | packages/pim/home/.local/lib/ruby/pim-iso.rb:163-167 | Downloading bytes whose digest the entry records ends verified. |
| IsoManager.MissingKeys | packages/pim/home/.local/lib/ruby/pim-iso.rb:171-174 | Exactly the listed keys without an image, as a subsequence of the hash order. There are no repeats when the order has none. |
| IsoManager.PresentKeys | packages/pim/home/.local/lib/ruby/pim-iso.rb:234-237 | Exactly the keys with an image present, as a subsequence of the hash order. There are no repeats when the order has none. |
| IsoManager.DownloadAll | packages/pim/home/.local/lib/ruby/pim-iso.rb:170-200 | Raises before downloading when an entry is `nil`. Does nothing when all images are present. Otherwise it runs the missing downloads in hash order and yields their files and success count, or raises. |
| IsoManager.RunMissing | packages/pim/home/.local/lib/ruby/pim-iso.rb:183-197 | The download loop computes the run over the missing keys, stopping at the first exception. |
| IsoManager.RunStaysAborted | packages/pim/home/.local/lib/ruby/pim-iso.rb:184-197 | Once an exception ends the run, the remaining keys change nothing. |
| IsoManager.RunSucceededBound | packages/pim/home/.local/lib/ruby/pim-iso.rb:183-199 | The success count never exceeds the number of missing images. |
| IsoManager.RunDownloadsComplete | packages/pim/home/.local/lib/ruby/pim-iso.rb:184-197 | A run that is not cut short leaves every missing image present. |
| IsoManager.RunDownloadsFrame | packages/pim/home/.local/lib/ruby/pim-iso.rb:184-197 | A run touches no file other than the images of its keys. |
| IsoManager.CountVerified | packages/pim/home/.local/lib/ruby/pim-iso.rb:246-256 | The passes never outnumber the keys. |
| IsoManager.VerifyAll | packages/pim/home/.local/lib/ruby/pim-iso.rb:233-260 | Raises exactly when an entry is `nil`. Reports "nothing downloaded" exactly when no image is present. Otherwise, over the present keys in hash order, each once, `passed` counts those that verify and `failed` counts the rest. |
| IsoManager.CountResults | packages/pim/home/.local/lib/ruby/pim-iso.rb:246-256 | `passed` counts the keys that verify; `passed + failed` is the number of keys. |
| IsoManager.AllStoredDigestsPass | packages/pim/home/.local/lib/ruby/pim-iso.rb:246-259 | When every present image carries its own digest, all of them pass. |
| IsoManager.EntryValue | packages/pim/home/.local/lib/ruby/pim-iso.rb:291-298 | The saved hash holds the name, URL, checksum, file name and architecture. It holds the manifest URL as `checksum_url` exactly when there is one (`compact`), and no other key. |
| IsoManager.Add | packages/pim/home/.local/lib/ruby/pim-iso.rb:262-305 | Saves exactly when the URL is http(s), its file name ends in `.iso` and the checksum resolves. The directory then gains `<name less .iso>.yml` holding the derived entry. |
| IsoManager.AddedEntryNamesItsFile | packages/pim/home/.local/lib/ruby/pim-iso.rb:281 | The key `add` files an image under plus `.iso` is its file name, and the saved entry points at that file. |
| Profiles.DefaultProfile | packages/pim/home/.local/lib/ruby/pim-profile.rb:44 | The default profile is `{}` when `@profiles['default']` is absent or `nil`, and the stored default otherwise. |
| Profiles.NamedProfile | packages/pim/home/.local/lib/ruby/pim-profile.rb:49 | The named profile is `{}` when `@profiles[name]` is absent or `nil`, and the stored value otherwise. |
| Profiles.DefaultAliases | packages/pim/home/.local/lib/ruby/pim-profile.rb:42-47 | The empty name and `default` both give the default profile, which is `{}` when none is set. |
| Profiles.ProfileFails | packages/pim/home/.local/lib/ruby/pim-profile.rb:49 | Resolving a named profile raises exactly when it or the default is a scalar. |
| Profiles.UnknownNameIsDefault | packages/pim/home/.local/lib/ruby/pim-profile.rb:42-51 | An unknown name resolves to the default profile. |
| Profiles.Inheritance | packages/pim/home/.local/lib/ruby/pim-profile.rb:42-51 | A field the named profile leaves unset is inherited from the default; a scalar it sets overrides the default. |
| Profiles.ProfileNames | packages/pim/home/.local/lib/ruby/pim-profile.rb:53-55 | The profile names are exactly the keys, sorted and distinct. |
| Profiles.FindTemplate | packages/pim/home/.local/lib/ruby/pim-profile.rb:219-232 | The project template wins. The global one is used only when there is no project template. The result is `None` exactly when neither exists. |
| Profiles.TemplateFallback | packages/pim/home/.local/lib/ruby/pim-profile.rb:167-170 | The profile's own template wins. Otherwise the `default` template is used, except for `default` itself. |
| Profiles.ShowNotFound | packages/pim/home/.local/lib/ruby/pim-profile.rb:145-151 | "Not found" exactly for an empty resolved profile under a name other than `default`. An unset name with an empty default is always not found. |
| Profiles.ShowDefault | packages/pim/home/.local/lib/ruby/pim-profile.rb:145-174 | `show default` always shows the default profile, even an empty one, with the `default` templates. |
| Profiles.ShownField | packages/pim/home/.local/lib/ruby/pim-profile.rb:136-137 | A field of a mapping profile is shown as its value, or `-` when it is unset or `nil`. |
| Profiles.LongListing | packages/pim/home/.local/lib/ruby/pim-profile.rb:132-139 | Raises exactly when some profile cannot be resolved. Otherwise there is one row per sorted name, with the resolved hostname and username. |
| Profiles.MissingHostnameShowsDash | packages/pim/home/.local/lib/ruby/pim-profile.rb:136 | A profile whose hostname neither it nor the default sets lists `-`. |
| Profiles.ProfileFieldsDistinct | packages/pim/home/.local/lib/ruby/pim-profile.rb:98-108 | The nine prompted fields are distinct. |
| Profiles.CollectedFields | packages/pim/home/.local/lib/ruby/pim-profile.rb:193-199 | The collected data holds exactly the fields with a non-empty answer, each with its answer. |
| Profiles.NothingCollected | packages/pim/home/.local/lib/ruby/pim-profile.rb:193-204 | The data is empty exactly when every answer is empty. |
| Profiles.Add | packages/pim/home/.local/lib/ruby/pim-profile.rb:176-215 | Saves nothing for an empty name, a declined overwrite or no answers. Otherwise the directory gains `<name>.yml` holding `{name => the collected fields}`. |

## Left out

- The network, TLS and `Net::HTTP` are left out. Each request is a function from URL to `Response`, or to `Option` for the manifest GET. A redirect `Location` is taken as an absolute URL.
- YAML parsing and `YAML.dump` are left out. Documents arrive parsed, and a saved fragment is stored as the document it would parse back to. The key order of the dumped YAML is not modelled.
- The file system is two maps from name to content: one for the image directory, one for `isos.d`/`profiles.d`. `mkdir_p`, `ensure_iso_dir_exists` and `Pathname` are implicit. `File.expand_path` is not modelled: the `iso_dir` result is the substituted string.
- `File.join` is modelled as a join with a single `/`. Collapsing several slashes is not modelled.
- SHA-256 (`Digest::SHA256.file`) is the parameter `sha`.
- Floating point is left out: the progress percentage and `format_bytes`. So is everything printed: colours, `ljust`/`rjust` padding, messages.
- Thor, the CLI class and the `config` command are left out (`config` only prints `iso_dir`).
- Prompts (`$stdin.gets.chomp`) are parameters, always a line. At end of input `gets` is `nil` and `chomp` raises `NoMethodError`; the model has no such case.
- A socket or TLS error during the manifest GET of `download_checksum_file` (pim-iso.rb:474) propagates in Ruby. Here the manifest GET is an `Option`, so such an error is the same `None` as a non-success response, and `add` returns `false` instead of raising.
- An exception in the middle of a body can leave a partial file. This is not modelled: a failed request leaves the files unchanged.
- Case mapping (`downcase`, `capitalize`, `/i`) and `\s` are ASCII only here. Ruby also folds non-ASCII letters in `capitalize`/`downcase`.
- URI validation is left out. `URI.parse` raises `URI::InvalidURIError` for malformed URLs (pim-iso.rb:360, 466), and the model has no such case; here the path is the text after the authority, up to `?` or `#`.
- Ruby's hash iteration order is the parameter `order`, a distinct enumeration of the keys.
- Non-string YAML scalars (numbers, booleans) are treated as their text, and `to_s` is the identity on them here. Ruby's `||` treats a YAML `false` like `nil`, and the model does not. So a fragment or project file holding just `false` loads as `{}` in Ruby, but is a scalar here, and the load raises. An entry with `filename: false` falls back to `<key>.iso` in Ruby, but names the file `false` here. A profile with `hostname: false` lists `-` in Ruby, but `false` here. An `iso_dir: false` setting falls back to the default directory in Ruby (`unless dir_path`, pim-iso.rb:50), but is the directory `false` here.
- YAML sequences are not a separate kind of value: a sequence is treated like a scalar, kept as its text. As in Ruby, a document that is a sequence makes the merge raise, and inside a mapping a later sequence replaces the earlier value. Element access into a sequence is not modelled.
- IsoManager.ListLong: requires a well-formed catalog. Ruby `String#[]` on a scalar entry, or a mapping-valued `filename`, `url` or `checksum`, behaves in ways not modelled.
- IsoManager.Download: requires a well-formed catalog, for the same reason.
- IsoManager.DownloadAll: requires a well-formed catalog, for the same reason.
- IsoManager.VerifyAll: requires a well-formed catalog, for the same reason.
- IsoAttributes.DeriveAttributes: requires an http(s) URL. Its only caller, `add`, checks the scheme first, and `IsoManager.Add` models that check.
- Profiles.Add: takes exactly one answer per prompted field, since the command reads one line per field.
- Profiles.Add: a name containing `/` is saved under `<name>.yml` in the directory map as though its subdirectory existed. In Ruby, `File.write` raises `Errno::ENOENT` when that subdirectory of `profiles.d` is missing. Either way the glob does not list the file (`Layers.SavedFragmentVisible`), so the next load does not see the profile. The raise is not modelled.
- Profiles.ShownField: says nothing about a string profile beyond never giving `nil`. In that case Ruby's `String#[]` gives the field name when the string contains it, and the function computes this.
