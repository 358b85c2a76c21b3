/** The older generation's diff of two snapshots (src/store.rs): a store
    path whose version changed between the snapshots gives a `StoreDiff`; a
    package whose own path or dependencies changed gives a `PackageDiff`.
    Unlike the newer generation, suffixes play no part: they are folded
    into the name. */
module PathDiffs {
  import opened Common
  import opened StorePaths
  import opened SystemPackages

  datatype StoreDiff = StoreDiff(name: Name, verFrom: string, verTo: string)

  datatype PackageDiff = PackageDiff(name: Name, pkg: Option<StoreDiff>, deps: seq<StoreDiff>)

  /** `get_store_diff`: nothing when the versions agree, otherwise the
      change from the older version to the newer one. */
  function GetStoreDiff(newer: StorePath, older: StorePath): (r: Option<StoreDiff>)
    ensures r.None? <==> newer.version == older.version
    ensures r.Some? ==> r.value == StoreDiff(newer.name, older.version, newer.version)
  {
    if newer.version == older.version then None
    else Some(StoreDiff(newer.name, older.version, newer.version))
  }

  /** The diffs `get_store_diffs` emits for the names in `names`: one per
      name present in both snapshots whose versions differ. */
  ghost function DiffsOver(newer: map<Name, StorePath>, older: map<Name, StorePath>, names: set<Name>): set<StoreDiff> {
    set n | n in names && n in newer && n in older && newer[n].version != older[n].version ::
      StoreDiff(newer[n].name, older[n].version, newer[n].version)
  }

  /** No two diffs in `diffs` share a name. */
  predicate DistinctNames(diffs: seq<StoreDiff>) {
    forall i, j | 0 <= i < j < |diffs| :: diffs[i].name != diffs[j].name
  }

  /** Taking one more name into account adds at most that name's diff. */
  lemma DiffsOverAdd(newer: map<Name, StorePath>, older: map<Name, StorePath>, done: set<Name>, n: Name)
    ensures DiffsOver(newer, older, done + {n}) ==
      if n in newer && n in older && newer[n].version != older[n].version
      then DiffsOver(newer, older, done) + {StoreDiff(newer[n].name, older[n].version, newer[n].version)}
      else DiffsOver(newer, older, done)
  {
  }

  /** What `get_store_diffs` has produced once it has visited the names in
      `done`. */
  ghost predicate ListedSoFar(newer: map<Name, StorePath>, older: map<Name, StorePath>, done: set<Name>, diffs: seq<StoreDiff>) {
    && done <= newer.Keys
    && ElementSet(diffs) == DiffsOver(newer, older, done)
    && (forall i | 0 <= i < |diffs| :: diffs[i].name in done)
    && DistinctNames(diffs)
    && |diffs| <= |done|
  }

  /** Visiting one more name keeps `ListedSoFar`, whether or not it adds a
      diff. */
  lemma VisitName(newer: map<Name, StorePath>, older: map<Name, StorePath>, done: set<Name>, diffs: seq<StoreDiff>, n: Name)
    requires PathsWellKeyed(newer)
    requires ListedSoFar(newer, older, done, diffs)
    requires n in newer.Keys - done
    ensures n in older && GetStoreDiff(newer[n], older[n]).Some? ==>
      ListedSoFar(newer, older, done + {n}, diffs + [GetStoreDiff(newer[n], older[n]).value])
    ensures !(n in older && GetStoreDiff(newer[n], older[n]).Some?) ==>
      ListedSoFar(newer, older, done + {n}, diffs)
  {
    DiffsOverAdd(newer, older, done, n);
    assert |done + {n}| == |done| + 1;
    if n in older && GetStoreDiff(newer[n], older[n]).Some? {
      var d := GetStoreDiff(newer[n], older[n]).value;
      ElementSetAppend(diffs, d);
      var more := diffs + [d];
      assert forall i | 0 <= i < |diffs| :: more[i] == diffs[i];
    }
  }

  /** `get_store_diffs`: walks the newer set in some order, looks each path
      up by name in the older one, and keeps the diffs. The order of the
      result is the iteration order of the set, which the model leaves
      open. */
  method GetStoreDiffs(newer: map<Name, StorePath>, older: map<Name, StorePath>) returns (diffs: seq<StoreDiff>)
    requires PathsWellKeyed(newer)
    ensures ElementSet(diffs) == DiffsOver(newer, older, newer.Keys)
    ensures DistinctNames(diffs)
    ensures |diffs| <= |newer|
  {
    diffs := [];
    var done: set<Name> := {};
    while done != newer.Keys
      invariant ListedSoFar(newer, older, done, diffs)
      decreases |newer.Keys - done|
    {
      var n :| n in newer.Keys - done;
      var path := newer[n];
      VisitName(newer, older, done, diffs, n);
      done := done + {n};
      if path.name !in older {
        continue;
      }
      var diff := GetStoreDiff(path, older[path.name]);
      if diff.None? {
        continue;
      }
      diffs := diffs + [diff.value];
    }
    assert |newer.Keys| == |newer|;
  }

  /** Every diff of `DiffsOver` names a path of both snapshots whose
      version changed, and every such path has its diff there. */
  lemma DiffsOverMeaning(newer: map<Name, StorePath>, older: map<Name, StorePath>, d: StoreDiff)
    requires PathsWellKeyed(newer)
    ensures d in DiffsOver(newer, older, newer.Keys) <==>
      d.name in newer && d.name in older && newer[d.name].version != older[d.name].version &&
      d == StoreDiff(d.name, older[d.name].version, newer[d.name].version)
  {
    if d.name in newer && d.name in older && newer[d.name].version != older[d.name].version &&
       d == StoreDiff(d.name, older[d.name].version, newer[d.name].version) {
      assert newer[d.name].name == d.name;
    }
  }

  /** The dependency diffs of the package named `n`. */
  ghost function DepDiffs(newer: map<Name, SystemPackage>, older: map<Name, SystemPackage>, n: Name): set<StoreDiff>
    requires n in newer && n in older
  {
    DiffsOver(newer[n].deps, older[n].deps, newer[n].deps.Keys)
  }

  /** A package present in both snapshots is reported when its own path or
      one of its dependencies gives a diff. */
  ghost predicate Changed(newer: map<Name, SystemPackage>, older: map<Name, SystemPackage>, n: Name) {
    n in newer && n in older &&
    (GetStoreDiff(newer[n].path, older[n].path).Some? || DepDiffs(newer, older, n) != {})
  }

  /** `p` is the report `get_package_diffs` gives for the package it names. */
  ghost predicate ReportsPackage(newer: map<Name, SystemPackage>, older: map<Name, SystemPackage>, p: PackageDiff) {
    && Changed(newer, older, p.name)
    && p.pkg == GetStoreDiff(newer[p.name].path, older[p.name].path)
    && ElementSet(p.deps) == DepDiffs(newer, older, p.name)
    && DistinctNames(p.deps)
  }

  ghost function ReportedNames(diffs: seq<PackageDiff>): set<Name> {
    set p | p in diffs :: p.name
  }

  ghost function ChangedNames(newer: map<Name, SystemPackage>, older: map<Name, SystemPackage>, names: set<Name>): set<Name> {
    set n | n in names && Changed(newer, older, n)
  }

  /** What `get_package_diffs` has produced once it has visited the
      packages named in `done`. */
  ghost predicate ReportedSoFar(newer: map<Name, SystemPackage>, older: map<Name, SystemPackage>, done: set<Name>, diffs: seq<PackageDiff>) {
    && done <= newer.Keys
    && (forall i | 0 <= i < |diffs| :: ReportsPackage(newer, older, diffs[i]))
    && (forall i, j | 0 <= i < j < |diffs| :: diffs[i].name != diffs[j].name)
    && ReportedNames(diffs) == ChangedNames(newer, older, done)
  }

  lemma VisitPackage(newer: map<Name, SystemPackage>, older: map<Name, SystemPackage>, done: set<Name>, diffs: seq<PackageDiff>, p: PackageDiff)
    requires ReportedSoFar(newer, older, done, diffs)
    requires p.name in newer.Keys - done
    requires ReportsPackage(newer, older, p)
    ensures ReportedSoFar(newer, older, done + {p.name}, diffs + [p])
  {
    var more := diffs + [p];
    assert forall i | 0 <= i < |diffs| :: more[i] == diffs[i];
    assert ReportedNames(more) == ReportedNames(diffs) + {p.name} by {
      assert forall q | q in more :: q in diffs || q == p;
      assert p in more;
    }
    assert forall i | 0 <= i < |diffs| :: diffs[i].name in ReportedNames(diffs);
  }

  lemma SkipPackage(newer: map<Name, SystemPackage>, older: map<Name, SystemPackage>, done: set<Name>, diffs: seq<PackageDiff>, n: Name)
    requires ReportedSoFar(newer, older, done, diffs)
    requires n in newer.Keys - done
    requires !Changed(newer, older, n)
    ensures ReportedSoFar(newer, older, done + {n}, diffs)
  {
    assert ChangedNames(newer, older, done + {n}) == ChangedNames(newer, older, done);
  }

  /** One visit of `get_package_diffs`: a package the older snapshot lacks,
      or one with nothing to report, is skipped; any other is reported. */
  lemma StepPackage(newer: map<Name, SystemPackage>, older: map<Name, SystemPackage>, done: set<Name>, diffs: seq<PackageDiff>, n: Name, depDiffs: seq<StoreDiff>)
    requires ReportedSoFar(newer, older, done, diffs)
    requires n in newer.Keys - done
    requires n in older ==> ElementSet(depDiffs) == DepDiffs(newer, older, n) && DistinctNames(depDiffs)
    ensures n !in older ==> ReportedSoFar(newer, older, done + {n}, diffs)
    ensures n in older && GetStoreDiff(newer[n].path, older[n].path).None? && depDiffs == [] ==>
      ReportedSoFar(newer, older, done + {n}, diffs)
    ensures n in older && !(GetStoreDiff(newer[n].path, older[n].path).None? && depDiffs == []) ==>
      ReportedSoFar(newer, older, done + {n}, diffs + [PackageDiff(n, GetStoreDiff(newer[n].path, older[n].path), depDiffs)])
  {
    ElementSetEmpty(depDiffs);
    if n in older && !(GetStoreDiff(newer[n].path, older[n].path).None? && depDiffs == []) {
      VisitPackage(newer, older, done, diffs, PackageDiff(n, GetStoreDiff(newer[n].path, older[n].path), depDiffs));
    } else {
      SkipPackage(newer, older, done, diffs, n);
    }
  }

  /** `get_package_diffs`: for each package of the newer snapshot that the
      older one also has, under the name of its path, the diff of its path
      and of its dependencies, reported only when either is non-empty. */
  method GetPackageDiffs(newer: map<Name, SystemPackage>, older: map<Name, SystemPackage>) returns (diffs: seq<PackageDiff>)
    requires PackagesWellKeyed(newer)
    ensures forall i | 0 <= i < |diffs| :: ReportsPackage(newer, older, diffs[i])
    ensures forall i, j | 0 <= i < j < |diffs| :: diffs[i].name != diffs[j].name
    ensures ReportedNames(diffs) == ChangedNames(newer, older, newer.Keys)
  {
    diffs := [];
    var done: set<Name> := {};
    while done != newer.Keys
      invariant ReportedSoFar(newer, older, done, diffs)
      decreases |newer.Keys - done|
    {
      var n :| n in newer.Keys - done;
      var newPkg := newer[n];
      assert newPkg.path.name == n;
      if newPkg.path.name !in older {
        StepPackage(newer, older, done, diffs, n, []);
        done := done + {n};
        continue;
      }
      var oldPkg := older[newPkg.path.name];
      var pkgDiff := GetStoreDiff(newPkg.path, oldPkg.path);
      var depDiffs := GetStoreDiffs(newPkg.deps, oldPkg.deps);
      StepPackage(newer, older, done, diffs, n, depDiffs);
      done := done + {n};
      if pkgDiff.None? && depDiffs == [] {
        continue;
      }
      diffs := diffs + [PackageDiff(newPkg.path.name, pkgDiff, depDiffs)];
    }
  }
}
