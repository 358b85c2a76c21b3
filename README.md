# nixup store model

nixup reports which packages of a NixOS system changed between two
snapshots. Its core turns Nix store paths
(`/nix/store/<hash>-<name>-<version>[-<suffix>]`) into name/version records,
removes ambiguous duplicates, sets apart the "global" dependencies (those
with one version across every package) and diffs two snapshots.

The repository holds two generations of its `store` module, which disagree
on edge cases, so they are modelled as separate Dafny modules.

The newer generation:
- `Stores` (src/store/mod.rs) is a byte-based parser. Its version test
  demands a digit after a leading `v`. The suffix is a field of its own.
  Duplicates are removed by registration time.
- `Diffs` (src/store/diff.rs) diffs two snapshots. It refuses to compare
  records whose suffixes differ.
- `StoresTests` and `DiffsTests` hold the repository's fixtures for these
  two modules.

The older generation:
- `StorePaths` (src/store.rs) is a char-based parser. It folds the suffix
  into the name as `name|suffix`. Its version test accepts a bare `v`.
- `SystemPackages` (src/store.rs) models `isolate_global_dependencies`.
- `PathDiffs` (src/store.rs) holds the older diffs.
- `Display` (src/display.rs) holds the order of the report and the
  per-character emphasis of a new version.
- `StorePathsTests` holds the parser fixtures of src/store.rs.

`Generations` relates the two version tests. `Common` holds the shared
vocabulary.

Sets hashed by name (`HashSet<Store>`, `StorePathMap`, `HashSet<Derivation>`)
are maps keyed by name. The predicates `WellKeyed`, `PathsWellKeyed` and
`PackagesWellKeyed` state that every entry is filed under its own name,
which the Rust types guarantee by construction. Loops over such sets pick
an arbitrary unvisited key. Their output sequences are therefore specified
up to order: the set of elements, plus distinct names.

The imperative parts are methods proved against specification functions:
- `Parse`;
- `GetUnique`;
- `FromStoreList` and `GetStoreDiffs`;
- both `GetPackageDiffs`;
- `IsolateGlobalDependencies`, whose two passes are `ScanVersions` and
  `TakeGlobals`;
- `BoldenStrDiff`;
- `PackageDiffs`.

The properties the source promises are proved as lemmas about those
functions.

## Model

| member | source | states |
|---|---|---|
| Common.I32AsU32 | src/store/mod.rs:184 | `as u32` on an `i32` keeps the value modulo 2^32 and keeps non-negative values unchanged |
| Common.IndexOf | src/store/mod.rs:162 | the result is the first position holding the element, and None exactly when the element is absent |
| Stores.IsVersionStrMeans | src/store/mod.rs:126-148 | a version is non-empty, starts with a digit or with `v` followed by a digit, and holds only digits, `.`, `_` and `a`-`z`; every version holds a digit |
| Stores.StripPrefix | src/store/mod.rs:150-169 | longer than 44 bytes with `-` at index 43: the bytes from 44 on; otherwise what follows the first `-`; None when there is no `-` or the only `-` ends the input |
| Stores.StripAtFirstDash | src/store/mod.rs:160-168 | off the fast path, the result is what follows the first dash, or None when nothing follows it |
| Stores.DashIndices | src/store/mod.rs:37-41 | the result lists exactly the positions of `-`, increasing |
| Stores.DashIndexListUnique | src/store/mod.rs:37-41 | there is only one increasing list of the dash positions |
| Stores.DashPositions | src/store/mod.rs:37-41 | the loop collects exactly the dash positions, in order |
| Stores.FirstVersionDash | src/store/mod.rs:86-109 | the found dash is the first one whose following fragment is a version; None when no fragment is one |
| Stores.FindVersionDash | src/store/mod.rs:86-109 | the peekable loop finds the first dash that `FirstVersionDash` specifies |
| Stores.Parse | src/store/mod.rs:28-124 | the method returns what `ParseSpec` specifies for every path |
| Stores.ParseAfterPrefix | src/store/mod.rs:37-71 | the zero- and one-dash paths and the collection of dash positions give what `ParseStripped` specifies |
| Stores.ParseMultiDash | src/store/mod.rs:73-123 | the suffix choice and the version loop give what `ParseFragments` specifies |
| Stores.ParseNoDash | src/store/mod.rs:43-44 | zero dashes after the prefix: rejected |
| Stores.ParseOneDash | src/store/mod.rs:47-69 | exactly one dash: accepted iff the part after it holds a digit; name before it, version after it, no suffix |
| Stores.ParseStrippedOneDash | src/store/mod.rs:47-69 | the one-dash case in terms of the dash position |
| Stores.ParseSeveralDashesSuffix | src/store/mod.rs:74-83 | with two or more dashes, the last fragment is the suffix iff it holds no digit, even when empty |
| Stores.FragmentsSuffix | src/store/mod.rs:74-83 | the suffix rule, stated for the dash list |
| Stores.ParseSeveralDashesAccepts | src/store/mod.rs:86-109 | with two or more dashes, the parse succeeds iff some dash is followed by a version-like fragment |
| Stores.VersionDashIffRun | src/store/mod.rs:91-106 | the version search finds a dash iff some dash is followed by a version-like run |
| Stores.ParseSeveralDashesName | src/store/mod.rs:86-117 | the name ends at the first dash whose following run is a version; no earlier dash qualifies |
| Stores.FirstDashBeforeVersion | src/store/mod.rs:91-105 | the found dash is followed by a version and no earlier dash is |
| Stores.ParseFragmentsFound | src/store/mod.rs:73-123 | the record is cut at the found dash and ends at the suffix's dash or at the end |
| Stores.VersionBeforeSuffix | src/store/mod.rs:74-105 | a version fragment is never the digit-free suffix fragment |
| Stores.ParseStrippedWithoutSuffix | src/store/mod.rs:103-118 | without a suffix the version runs from the found dash to the end |
| Stores.ParseStrippedWithSuffix | src/store/mod.rs:103-119 | with a suffix the version runs from the found dash to the suffix's dash |
| Stores.ParseStrippedNoVersion | src/store/mod.rs:108 | no version-like fragment: None |
| Stores.ParseStrippedReconstructs | src/store/mod.rs:48-54 | name, `-`, version (and `-` suffix) rebuild the stripped text exactly |
| Stores.ParseFragmentsReconstructs | src/store/mod.rs:103-119 | the two-or-more-dash cut rebuilds the stripped text exactly |
| Stores.ParseReconstructs | src/store/mod.rs:34-124 | on success the record rebuilds what `strip_prefix` returned, and the prefix plus it is the whole path |
| Stores.GetUnique | src/store/mod.rs:201-226 | the loop over `unique` and `duplicates` leaves exactly what the `Dedupe` fold specifies |
| Stores.DedupeByName | src/store/mod.rs:205-223 | a name is dropped iff a later record conflicts with its first one; otherwise it keeps its first record, whatever follows |
| Stores.DedupeWellFormed | src/store/mod.rs:201-226 | each kept record is filed under its name, comes from the input, and no kept name is a duplicate |
| Stores.DuplicatesPersist | src/store/mod.rs:206-208 | a removed name stays removed and never re-enters, whatever comes later |
| Stores.ParseRows | src/store/mod.rs:183-185 | the parsed records are exactly those of the rows that parse |
| Stores.UniqueFromRowsSound | src/store/mod.rs:171-190 | every kept record is filed under its name and is what some row parses to |
| Stores.DerivationFromRows | src/store/mod.rs:241-245 | a derivation keeps its record; its dependencies are the deduplicated parse of its dependency rows, filed by name |
| Stores.ParseRowsAppend | src/store/mod.rs:183-185 | the parse keeps row order: two runs of rows parse to their two runs of records, one after the other |
| Stores.ParsedNames | src/store/mod.rs:183-185 | a name is among the parsed records iff some row parses to a record under it |
| Stores.RowsByName | src/store/mod.rs:183-190 | the first parsed record under a name is the record of the first row parsing to it, and the records conflict under that name iff the rows do |
| Stores.UniqueFromRowsByName | src/store/mod.rs:171-226 | a name is kept iff some row parses to it and no later row's record conflicts with the first row's; a kept name holds the first such row's record |
| StoresTests.StripFastPath | src/store/mod.rs:150-158 | any input longer than 44 bytes with `-` at index 43 strips to the bytes from 44 on |
| StoresTests.StripStorePath | src/store/mod.rs:366-371 | the fixture's `03lp4…-glxinfo-8.4.0` path strips to `glxinfo-8.4.0` |
| StoresTests.StripBareHashed | src/store/mod.rs:373-374 | the bare hashed prefix strips to None |
| StoresTests.StripShortHashed | src/store/mod.rs:330 | a short prefix falls back to the first dash |
| StoresTests.ParseVpnc | src/store/mod.rs:342 | `vpnc-0.5.3-post-r550` gives ("vpnc", "0.5.3-post-r550", no suffix) |
| StoresTests.ParseShortPrefix | src/store/mod.rs:330 | `short-prefix-1.0` gives ("short-prefix", "1.0") |
| StoresTests.ParseWine | src/store/mod.rs:339 | `wine-wow-4.0-rc5-staging` gives ("wine-wow", "4.0-rc5", "staging") |
| StoresTests.ParseFfmpeg | src/store/mod.rs:340 | `ffmpeg-3.4.5-bin` gives ("ffmpeg", "3.4.5", "bin") |
| StoresTests.ParseRpcs3 | src/store/mod.rs:335 | `rpcs3-9165-8ca53f9` gives ("rpcs3", "9165-8ca53f9") |
| StoresTests.ParseDashEdge | src/store/mod.rs:327 | `dash-edge-case-` is rejected |
| StoresTests.ParseFixStatic | src/store/mod.rs:325 | `fix-static.patch` is rejected |
| StoresTests.ParseGlxinfo | src/store/mod.rs:331 | `glxinfo-8.4.0` gives ("glxinfo", "8.4.0") |
| StoresTests.ParseDxvk | src/store/mod.rs:333 | `dxvk-v1.4.6` gives ("dxvk", "v1.4.6") |
| StoresTests.ParseSomeDeriv | src/store/mod.rs:326 | `some-deriv.drv` is rejected |
| StoresTests.ParseDashShort | src/store/mod.rs:328 | `dash-short-` is rejected |
| StoresTests.ParseBareHashed | src/store/mod.rs:329 | the bare hashed prefix is rejected |
| StoresTests.ParsePcre | src/store/mod.rs:332 | `pcre-8.42` gives ("pcre", "8.42") |
| StoresTests.ParseDxvkCommit | src/store/mod.rs:334 | `dxvk-` followed by a 40-character commit gives ("dxvk", the commit) |
| StoresTests.ParseSingleVersion | src/store/mod.rs:336 | `single-version-8` gives ("single-version", "8") |
| StoresTests.ParseSingle | src/store/mod.rs:337 | `single-4` gives ("single", "4") |
| StoresTests.ParseWine421 | src/store/mod.rs:338 | `wine-wow-4.21-staging` gives ("wine-wow", "4.21", "staging") |
| StoresTests.ParseVulkan | src/store/mod.rs:341 | `vulkan-loader-1.1.85` gives ("vulkan-loader", "1.1.85") |
| Diffs.FromStore | src/store/diff.rs:13-37 | None iff the versions are equal or the suffixes differ in presence or value; otherwise (new name, new suffix, old version, new version) |
| Diffs.FromStoreList | src/store/diff.rs:39-60 | the diffs are exactly those of the names in both sets whose records give one, with distinct names and at most one per new record |
| Diffs.DistinctNamesCount | src/store/diff.rs:39-60 | diffs with distinct names are as many as their set |
| Diffs.GetPackageDiffs | src/store/diff.rs:76-102 | a derivation is listed iff it is in both sets with a primary or dependency diff, with that diff and its dependency diffs |
| DiffsTests.FixtureChanged | src/store/diff.rs:159-164 | glxinfo, wine-wow, steam-runtime and same-suffix give the expected diffs |
| DiffsTests.FixtureUnchanged | src/store/diff.rs:134-154 | ffmpeg and dxvk (unchanged), diff-suffix (`bin` against `out`) and partial-suffix (None against `bin`) give nothing |
| DiffsTests.FixtureDiffs | src/store/diff.rs:132-166 | the fixture's diffs are exactly the four expected ones |
| DiffsTests.DetectStoreDiffs | src/store/diff.rs:166-185 | any list `from_store_list` may return has four entries, each expected |
| StorePaths.IsVersionStrMeans | src/store.rs:116-124 | a version starts with a digit or `v` and holds only digits, `.`, `a`-`z` and `_`; a bare `v` passes |
| StorePaths.Strip | src/store.rs:126-139 | None iff there is no `-` or only the last char is one; otherwise the text after the first `-` |
| StorePaths.StripAfterFirstDash | src/store.rs:126-139 | a dash-free head, a dash and a non-empty rest strip to the rest |
| StorePaths.StripRejects | src/store.rs:132-135 | no dash, or nothing after the first one: None |
| StorePaths.Split | src/store.rs:52 | at least one segment, none holding `-` |
| StorePaths.JoinSplit | src/store.rs:52 | joining the segments with `-` gives back the text |
| StorePaths.SplitAtDash | src/store.rs:52 | a dash-free head and a dash split off as the first segment |
| StorePaths.SplitJoin | src/store.rs:90 | splitting dash-free segments joined by `-` gives them back |
| StorePaths.FindVersion | src/store.rs:86-88 | the first version-like segment from the given one on; None iff there is none |
| StorePaths.Parse | src/store.rs:45-114 | the method returns what `ParseSpec`, the parse as written, specifies |
| StorePaths.ParseSegments | src/store.rs:73-113 | with three or more segments the method returns the cut `SplitSegments` specifies from segment 0, assembled into a record |
| StorePaths.ParseTwoSegments | src/store.rs:54-71 | two segments: accepted iff the second is a version; name and version are the two segments |
| StorePaths.CutMeaning | src/store.rs:75-99 | three or more segments: an all-alphabetic last segment is the suffix; the version is the join from the first version-like segment; the name is the join before it |
| StorePaths.CutReconstructs | src/store.rs:85-105 | a cut that searches from segment 1 rebuilds the joined segments |
| StorePaths.CorrectedReconstructs | src/store.rs:85-105 | the corrected parse always rebuilds the stripped text |
| StorePaths.AgreeUnlessLeadingVersion | src/store.rs:85-88 | the parse as written and the corrected parse agree unless the first segment is version-like |
| StorePaths.SegmentsAgree | src/store.rs:85-88 | a search from segment 0 and one from segment 1 cut the same way when segment 0 is not version-like |
| StorePaths.ParseReconstructs | src/store.rs:45-114 | the parse as written rebuilds the stripped text when the first segment is not version-like |
| StorePaths.CutAt | src/store.rs:75-113 | with no suffix, the name is the segments before the first version-like one and the version is the rest |
| StorePaths.CutAtWithSuffix | src/store.rs:75-113 | an alphabetic last segment is appended to the name after `|` |
| StorePaths.NoVersionSegment | src/store.rs:86-88 | no version-like segment: None |
| StorePaths.LeadingVersion | src/store.rs:85-88 | a version-like first segment gives an empty name and does not rebuild the text; the corrected parse cuts at the next version |
| StorePathsTests.StripStorePath | src/store.rs:479-483 | the `strip_store_path` fixture |
| StorePathsTests.ParseGlxinfo | src/store.rs:431-432 | ("glxinfo", "8.4.0") |
| StorePathsTests.ParseFixStatic | src/store.rs:434 | `fix-static.patch` is rejected |
| StorePathsTests.ParseWallpaper | src/store.rs:435-438 | the wallpaper derivation is rejected |
| StorePathsTests.ParsePcre | src/store.rs:439 | ("pcre", "8.42") |
| StorePathsTests.ParseDxvkTag | src/store.rs:440 | ("dxvk", "v0.96") |
| StorePathsTests.ParseDxvkCommit | src/store.rs:441-444 | a commit hash is a version |
| StorePathsTests.ParseRpcs3 | src/store.rs:445-448 | ("rpcs3", "7788-4c59395") |
| StorePathsTests.ParseGcc | src/store.rs:449 | ("gcc", "7.4.0") |
| StorePathsTests.ParseSteamRuntime | src/store.rs:450-453 | ("steam-runtime", "2016-08-26") |
| StorePathsTests.ParseWineWow | src/store.rs:454-457 | ("wine-wow\|staging", "4.0-rc5") |
| StorePathsTests.ParseFfmpeg | src/store.rs:458-461 | ("ffmpeg\|bin", "3.4.5") |
| StorePathsTests.LeadingVersionSegment | src/store.rs:85-88 | `0ad-data-0.0.23` parses to an empty name as written, and to ("0ad-data", "0.0.23") when corrected |
| Generations.NewerIsStricter | src/store/mod.rs:126-148 | on ASCII, the newer test accepts exactly what the older one accepts, minus a leading `v` not followed by a digit |
| Generations.BareVersionPrefix | src/store.rs:116-124 | a lone `v` is a version to the older test and not to the newer |
| SystemPackages.TwoVersionsNotGlobal | src/store.rs:371-373 | a name two packages carry at different versions is never global |
| SystemPackages.AgreedIsGlobal | src/store.rs:382-391 | a name every carrier has at one version is global |
| SystemPackages.TrackKeys | src/store.rs:365-380 | the tracker holds exactly the names met |
| SystemPackages.TrackEntry | src/store.rs:367-378 | the recorded version was met, and the flag is set iff another version was met |
| SystemPackages.TrackKeepsVersion | src/store.rs:368-374 | the recorded version is never updated |
| SystemPackages.FirstSeen | src/store.rs:375-377 | the recorded version is the first one seen |
| SystemPackages.UnflaggedIffOneVersion | src/store.rs:371-373 | a name is unflagged iff all its occurrences share one version |
| SystemPackages.UnflaggedNames | src/store.rs:382-391 | the selected names are exactly the tracked ones without the flag |
| SystemPackages.UnflaggedAreGlobal | src/store.rs:363-391 | the selected names are exactly the global ones |
| SystemPackages.ScanPackage | src/store.rs:366-379 | one package's scan extends the tracker by its dependencies: the trace met so far stays a prefix of the new trace, which meets exactly the package's dependencies besides |
| SystemPackages.ScanVersions | src/store.rs:363-391 | the tracker is the fold over every dependency of every package in the order met; it holds exactly the dependency names, and its unflagged names are exactly the global ones |
| SystemPackages.TrackedNames | src/store.rs:365-380 | once every dependency has been met, the tracker holds exactly the dependency names |
| SystemPackages.TakeFromPackage | src/store.rs:396-400 | a package loses exactly the selected names; each taken dependency is inserted unless its name is present, and every entry already gathered keeps its value |
| SystemPackages.TakeGlobals | src/store.rs:393-407 | every package loses the selected names, and the gathered set holds exactly the selected names carried, at the carriers' version |
| SystemPackages.IsolateGlobalDependencies | src/store.rs:360-410 | keys and primary paths are unchanged; each package loses exactly the global names; the returned set holds exactly the global names, at every carrier's version |
| SystemPackages.IsolatedRestores | src/store.rs:393-409 | no package keeps a returned name, and the returned entries together with the remaining deps are the original deps |
| SystemPackages.RestoreDeps | src/store.rs:396-400 | removing names from a dependency map and adding back agreeing entries for them restores the map |
| SystemPackages.IsolatedUnique | src/store.rs:393-407 | the result does not depend on the order of the traversal or of the merge |
| PathDiffs.GetStoreDiff | src/store.rs:277-289 | None iff the versions are equal; otherwise (new name, old version, new version) |
| PathDiffs.GetStoreDiffs | src/store.rs:291-309 | one diff per new record whose name is in the old set with another version, names absent from the old set skipped; distinct names, at most one per record |
| PathDiffs.DiffsOverMeaning | src/store.rs:291-309 | a diff is reported iff its name is in both sets with different versions and it carries them |
| PathDiffs.GetPackageDiffs | src/store.rs:318-344 | a package is listed iff its name is in both maps and it has a primary or dependency change, with exactly those changes |
| Display.CmpNat | src/display.rs:64-67 | `usize::cmp`: Less iff smaller, Greater iff larger |
| Display.CmpStr | src/display.rs:68 | `str::cmp` is Equal iff the strings are equal |
| Display.PrefixFirst | src/display.rs:68 | a proper prefix sorts first |
| Display.CmpStrFlip | src/display.rs:68 | swapping the strings reverses the comparison |
| Display.CmpStrTrans | src/display.rs:68 | the string order is transitive |
| Display.PrimaryFirst | src/display.rs:69-70 | a diff with a primary change sorts before one without |
| Display.MoreDependenciesFirst | src/display.rs:64-67 | with the same primary status, more dependency diffs sort first |
| Display.NamesBreakTies | src/display.rs:68 | remaining ties are broken by ascending name, and only equal names tie |
| Display.SorterIsKeyOrder | src/display.rs:62-72 | the comparator is the lexicographic order on (no primary change, fewest dependency diffs, name) |
| Display.SorterFlip | src/display.rs:62-72 | swapping the arguments reverses the Ordering |
| Display.SorterTrans | src/display.rs:62-72 | the comparator is transitive |
| Display.SorterIsOrder | src/display.rs:62-72 | the comparator is a total preorder |
| Display.ByNameIsOrder | src/display.rs:50 | the name order is a total preorder |
| Display.SortBy | src/display.rs:14 | the sorted vector is a permutation of the input |
| Display.SortSorted | src/display.rs:14 | under a total preorder, the sorted vector is sorted |
| Display.SortedUnique | src/display.rs:14 | without ties, only one sorted permutation exists, so the unstable sort is determined |
| Display.SortKeepsDistinct | src/display.rs:14 | sorting keeps distinct names distinct |
| Display.SortKeepsElements | src/display.rs:14 | sorting keeps the elements |
| Display.DistinctNamesNoTies | src/display.rs:62-72 | package diffs with distinct names never tie under the comparator |
| Display.DistinctNamesNoNameTies | src/display.rs:23 | dependency diffs with distinct names never tie under the name order |
| Display.DisplayOrder | src/display.rs:50 | a package's dependency diffs are a sorted-by-name permutation of its own, with name and primary diff kept |
| Display.DisplayOrderKeeps | src/display.rs:37-59 | sorting the dependency diffs keeps the package's report and its place in the order |
| Display.RemainingWellKeyed | src/display.rs:10-11 | the isolated packages are still filed under their paths' names |
| Display.GlobalsWellKeyed | src/display.rs:22 | the global dependencies are filed under their names |
| Display.SortedPackageDiffs | src/display.rs:13-14 | the sorted package diffs keep every report and name of `get_package_diffs` |
| Display.DisplayedPackageDiffs | src/display.rs:18-20 | the listed packages stay in comparator order with their dependencies sorted by name |
| Display.DisplayAll | src/display.rs:18-20 | each package update is replaced by its display order, position by position |
| Display.GlobalDiffs | src/display.rs:22-23 | the global updates are exactly the diffs of the two global sets, with distinct names, sorted by name |
| Display.PackageDiffs | src/display.rs:6-35 | the package updates of the isolated snapshots in comparator order, each with its dependency updates sorted by name; then the global dependency updates, sorted by name |
| Display.BoldenStrDiff | src/display.rs:84-110 | one segment per char of the new version, in order; char i is emphasised iff i is past the old version's end or the chars differ |
| Display.BoldenMeaning | src/display.rs:91-107 | the segments spell the new version, and nothing is emphasised iff the new version is a prefix of the old |

## Left out

- src/main.rs is not part of this model: argument parsing, the root check through `libc::getuid`, and the MessagePack state files are I/O and foreign calls.
- The store database and its queries are not modelled: src/store/database.rs and the diesel queries of `all_from_system` and `Derivation::all_from_stores`. Their results are input rows of (id, path, registration time), newest first; `ParseRows`, `UniqueFromRows` and `DerivationFromRows` take them from there. The SQL filters on content-addressed paths, `-completions` and `.tar.`, and the exclusion of a derivation from its own dependencies in `all_from_stores`, are not modelled.
- `parse_deps`, `parse_system_stores` and `parse_system_packages` in src/store.rs run `nix-store` and `nixos-option` and use rayon; they are external commands.
- SystemPackages.IsolateGlobalDependencies runs sequentially. The rayon `par_iter_mut().fold().reduce()` becomes a sequential loop with set union. `IsolatedUnique` shows that the result does not depend on the order.
- SystemPackages.IsolateGlobalDependencies returns the updated map instead of editing it through `&mut`. The source's `Result` is always `Ok`, so it is a plain return.
- Display.PackageDiffs leaves out printing, colouring and counting output (`println!`, `colored`, `format_ver_change`). The `no_colors` configuration is not modelled either.
- Display.BoldenStrDiff returns the characters with an emphasis flag rather than ANSI-coloured strings.
- Display.SortBy does not model the algorithm of `sort_unstable_by`, only its result: a sorted permutation. `SortedUnique` shows that this result is unique when names are distinct.
- `char::is_numeric` and `char::is_alphabetic` are modelled as ASCII predicates.
- The older generation works on `seq<char>`, the newer on bytes. The `from_utf8_unchecked`, `swap_remove` and `set_len` tricks become sequence slices.
- StorePaths.StorePath leaves out the serde-skipped `path` field. Only `parse_deps` reads it.
- Diffs.FromStoreList, Diffs.GetPackageDiffs, PathDiffs.GetStoreDiffs and PathDiffs.GetPackageDiffs specify their output up to order, because hash-set iteration order is unspecified.
- Stores.Conflicting takes the registration-time difference as an unbounded integer. The `u32` subtraction of the newer minus the older time cannot wrap.
- Well-keyedness is required of the inputs: `WellKeyed`, `PathsWellKeyed`, `PackagesWellKeyed` and `DepsWellKeyed`. The name-hashed Rust sets and maps guarantee it by construction.

## Findings

| source | as written | input that shows it | evidently intended | confidence | as-written member | corrected member |
|---|---|---|---|---|---|---|
| src/store.rs:85-88 | with three or more segments the search for a version-like segment starts at segment 0, so a version-like first segment becomes part of the version and the name is empty | `/nix/store/123abc-0ad-data-0.0.23` parses to name "" and version "0ad-data-0.0.23" | search from segment 1, as the two-segment case and the newer generation (which tests only fragments after a dash) do, giving ("0ad-data", "0.0.23") | medium, not executed | StorePathsTests.LeadingVersionSegment | StorePaths.CorrectedReconstructs |
