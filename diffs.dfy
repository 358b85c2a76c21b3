/** The newer generation's diff of two snapshots (src/store/diff.rs): a
    record whose version changed between the snapshots, with an unchanged
    suffix, gives a `StoreDiff`; a package whose record or dependencies
    changed gives a `PackageDiff`. */
module Diffs {
  import opened Common
  import opened Stores

  datatype StoreDiff = StoreDiff(
    name: Name,
    suffix: Option<seq<byte>>,
    verFrom: seq<byte>,
    verTo: seq<byte>)

  datatype PackageDiff = PackageDiff(name: Name, pkg: Option<StoreDiff>, deps: seq<StoreDiff>)

  /** `StoreDiff::from_store`: nothing when the versions agree or when the
      suffixes differ, in presence or in value; otherwise the change from
      the older version to the newer one. */
  function FromStore(newer: Store, older: Store): (r: Option<StoreDiff>)
    ensures r.None? <==> newer.version == older.version || newer.suffix != older.suffix
    ensures r.Some? ==> r.value == StoreDiff(newer.name, newer.suffix, older.version, newer.version)
  {
    if newer.version == older.version then None
    else
      match (newer.suffix, older.suffix)
      case (Some(newSuffix), Some(oldSuffix)) =>
        if newSuffix != oldSuffix then None
        else Some(StoreDiff(newer.name, newer.suffix, older.version, newer.version))
      case (Some(_), None) => None
      case (None, Some(_)) => None
      case (None, None) => Some(StoreDiff(newer.name, newer.suffix, older.version, newer.version))
  }

  /** The diffs `from_store_list` emits for the names in `names`: one per
      name present in both snapshots whose records give a diff. */
  ghost function DiffsOver(newer: map<Name, Store>, older: map<Name, Store>, names: set<Name>): set<StoreDiff> {
    set n | n in names && n in newer && n in older && FromStore(newer[n], older[n]).Some? :: FromStore(newer[n], older[n]).value
  }

  /** No two diffs in `diffs` share a name. */
  predicate DistinctNames(diffs: seq<StoreDiff>) {
    forall i, j | 0 <= i < j < |diffs| :: diffs[i].name != diffs[j].name
  }

  /** Diffs with distinct names are distinct, so the list is as long as
      the set it holds. */
  lemma {:induction false} DistinctNamesCount(diffs: seq<StoreDiff>)
    requires DistinctNames(diffs)
    ensures |ElementSet(diffs)| == |diffs|
  {
    if diffs != [] {
      var init := diffs[..|diffs| - 1];
      var last := diffs[|diffs| - 1];
      assert DistinctNames(init);
      DistinctNamesCount(init);
      assert diffs == init + [last];
      ElementSetAppend(init, last);
      assert last !in ElementSet(init);
    }
  }

  /** Taking one more name into account adds at most that name's diff. */
  lemma DiffsOverAdd(newer: map<Name, Store>, older: map<Name, Store>, done: set<Name>, n: Name)
    ensures DiffsOver(newer, older, done + {n}) ==
      if n in newer && n in older && FromStore(newer[n], older[n]).Some?
      then DiffsOver(newer, older, done) + {FromStore(newer[n], older[n]).value}
      else DiffsOver(newer, older, done)
  {
  }

  /** What `from_store_list` has produced once it has visited the names in
      `done`. */
  ghost predicate ListedSoFar(newer: map<Name, Store>, older: map<Name, Store>, done: set<Name>, diffs: seq<StoreDiff>) {
    && done <= newer.Keys
    && ElementSet(diffs) == DiffsOver(newer, older, done)
    && (forall i | 0 <= i < |diffs| :: diffs[i].name in done)
    && DistinctNames(diffs)
    && |diffs| <= |done|
  }

  /** Visiting one more name keeps `ListedSoFar`, whether or not it adds a
      diff. */
  lemma VisitName(newer: map<Name, Store>, older: map<Name, Store>, done: set<Name>, diffs: seq<StoreDiff>, n: Name)
    requires WellKeyed(newer)
    requires ListedSoFar(newer, older, done, diffs)
    requires n in newer.Keys - done
    ensures newer[n].name in older && FromStore(newer[n], older[newer[n].name]).Some? ==>
      ListedSoFar(newer, older, done + {n}, diffs + [FromStore(newer[n], older[newer[n].name]).value])
    ensures !(newer[n].name in older && FromStore(newer[n], older[newer[n].name]).Some?) ==>
      ListedSoFar(newer, older, done + {n}, diffs)
  {
    DiffsOverAdd(newer, older, done, n);
    assert |done + {n}| == |done| + 1;
    if newer[n].name in older && FromStore(newer[n], older[newer[n].name]).Some? {
      var d := FromStore(newer[n], older[n]).value;
      ElementSetAppend(diffs, d);
      var more := diffs + [d];
      assert forall i | 0 <= i < |diffs| :: more[i] == diffs[i];
    }
  }

  /** `StoreDiff::from_store_list`: walks the newer snapshot in some order,
      looks each record up by name in the older one, and keeps the diffs.
      The order of the result is the iteration order of the set, which the
      model leaves open. */
  method FromStoreList(newer: map<Name, Store>, older: map<Name, Store>) returns (diffs: seq<StoreDiff>)
    requires WellKeyed(newer)
    ensures ElementSet(diffs) == DiffsOver(newer, older, newer.Keys)
    ensures DistinctNames(diffs)
    ensures |diffs| <= |newer|
  {
    diffs := [];
    var done: set<Name> := {};
    while done != newer.Keys
      invariant ListedSoFar(newer, older, done, diffs)
      decreases |newer.Keys - done|
    {
      var n :| n in newer.Keys - done;
      var record := newer[n];
      VisitName(newer, older, done, diffs, n);
      done := done + {n};
      if record.name !in older {
        continue;
      }
      var diff := FromStore(record, older[record.name]);
      if diff.None? {
        continue;
      }
      diffs := diffs + [diff.value];
    }
    assert |newer.Keys| == |newer|;
  }

  /** A map of packages behaves like the source's set of derivations, hashed
      by the name of their record; each package's dependencies are a
      name-keyed set of records too. */
  predicate PackagesWellKeyed(m: map<Name, Derivation>) {
    forall k | k in m :: m[k].store.name == k && WellKeyed(m[k].deps)
  }

  /** The dependency diffs of the package named `n`. */
  ghost function DepDiffs(newer: map<Name, Derivation>, older: map<Name, Derivation>, n: Name): set<StoreDiff>
    requires n in newer && n in older
  {
    DiffsOver(newer[n].deps, older[n].deps, newer[n].deps.Keys)
  }

  /** A package present in both snapshots is reported when its own record
      or one of its dependencies gives a diff. */
  ghost predicate Changed(newer: map<Name, Derivation>, older: map<Name, Derivation>, n: Name) {
    n in newer && n in older &&
    (FromStore(newer[n].store, older[n].store).Some? || DepDiffs(newer, older, n) != {})
  }

  /** `p` is the report `get_package_diffs` gives for the package it names. */
  ghost predicate ReportsPackage(newer: map<Name, Derivation>, older: map<Name, Derivation>, p: PackageDiff) {
    && Changed(newer, older, p.name)
    && p.pkg == FromStore(newer[p.name].store, older[p.name].store)
    && ElementSet(p.deps) == DepDiffs(newer, older, p.name)
    && DistinctNames(p.deps)
  }

  ghost function ReportedNames(diffs: seq<PackageDiff>): set<Name> {
    set p | p in diffs :: p.name
  }

  ghost function ChangedNames(newer: map<Name, Derivation>, older: map<Name, Derivation>, names: set<Name>): set<Name> {
    set n | n in names && Changed(newer, older, n)
  }

  /** What `get_package_diffs` has produced once it has visited the
      packages named in `done`. */
  ghost predicate ReportedSoFar(newer: map<Name, Derivation>, older: map<Name, Derivation>, done: set<Name>, diffs: seq<PackageDiff>) {
    && done <= newer.Keys
    && (forall i | 0 <= i < |diffs| :: ReportsPackage(newer, older, diffs[i]))
    && (forall i, j | 0 <= i < j < |diffs| :: diffs[i].name != diffs[j].name)
    && ReportedNames(diffs) == ChangedNames(newer, older, done)
  }

  lemma VisitPackage(newer: map<Name, Derivation>, older: map<Name, Derivation>, done: set<Name>, diffs: seq<PackageDiff>, p: PackageDiff)
    requires ReportedSoFar(newer, older, done, diffs)
    requires p.name in newer.Keys - done
    requires ReportsPackage(newer, older, p)
    ensures ReportedSoFar(newer, older, done + {p.name}, diffs + [p])
  {
    var more := diffs + [p];
    assert forall i | 0 <= i < |diffs| :: more[i] == diffs[i];
    assert ReportedNames(more) == ReportedNames(diffs) + {p.name} by {
      assert forall q | q in more :: q in diffs || q == p;
      assert p in more;
    }
    assert forall i | 0 <= i < |diffs| :: diffs[i].name in ReportedNames(diffs);
  }

  lemma SkipPackage(newer: map<Name, Derivation>, older: map<Name, Derivation>, done: set<Name>, diffs: seq<PackageDiff>, n: Name)
    requires ReportedSoFar(newer, older, done, diffs)
    requires n in newer.Keys - done
    requires !Changed(newer, older, n)
    ensures ReportedSoFar(newer, older, done + {n}, diffs)
  {
    assert ChangedNames(newer, older, done + {n}) == ChangedNames(newer, older, done);
  }

  /** One visit of `get_package_diffs`: a package the older snapshot lacks,
      or one with nothing to report, is skipped; any other is reported. */
  lemma StepPackage(newer: map<Name, Derivation>, older: map<Name, Derivation>, done: set<Name>, diffs: seq<PackageDiff>, n: Name, depDiffs: seq<StoreDiff>)
    requires ReportedSoFar(newer, older, done, diffs)
    requires n in newer.Keys - done
    requires n in older ==> ElementSet(depDiffs) == DepDiffs(newer, older, n) && DistinctNames(depDiffs)
    ensures n !in older ==> ReportedSoFar(newer, older, done + {n}, diffs)
    ensures n in older && FromStore(newer[n].store, older[n].store).None? && depDiffs == [] ==>
      ReportedSoFar(newer, older, done + {n}, diffs)
    ensures n in older && !(FromStore(newer[n].store, older[n].store).None? && depDiffs == []) ==>
      ReportedSoFar(newer, older, done + {n}, diffs + [PackageDiff(n, FromStore(newer[n].store, older[n].store), depDiffs)])
  {
    ElementSetEmpty(depDiffs);
    if n in older && !(FromStore(newer[n].store, older[n].store).None? && depDiffs == []) {
      VisitPackage(newer, older, done, diffs, PackageDiff(n, FromStore(newer[n].store, older[n].store), depDiffs));
    } else {
      SkipPackage(newer, older, done, diffs, n);
    }
  }

  /** `get_package_diffs`: for each package of the newer snapshot that the
      older one also has, the diff of its own record and of its
      dependencies, reported only when either is non-empty. */
  method GetPackageDiffs(newer: map<Name, Derivation>, older: map<Name, Derivation>) returns (diffs: seq<PackageDiff>)
    requires PackagesWellKeyed(newer)
    ensures forall i | 0 <= i < |diffs| :: ReportsPackage(newer, older, diffs[i])
    ensures forall i, j | 0 <= i < j < |diffs| :: diffs[i].name != diffs[j].name
    ensures ReportedNames(diffs) == ChangedNames(newer, older, newer.Keys)
  {
    diffs := [];
    var done: set<Name> := {};
    while done != newer.Keys
      invariant ReportedSoFar(newer, older, done, diffs)
      decreases |newer.Keys - done|
    {
      var n :| n in newer.Keys - done;
      var newPkg := newer[n];
      assert newPkg.store.name == n;
      if newPkg.store.name !in older {
        StepPackage(newer, older, done, diffs, n, []);
        done := done + {n};
        continue;
      }
      var oldPkg := older[newPkg.store.name];
      var pkgDiff := FromStore(newPkg.store, oldPkg.store);
      var depDiffs := FromStoreList(newPkg.deps, oldPkg.deps);
      StepPackage(newer, older, done, diffs, n, depDiffs);
      done := done + {n};
      if pkgDiff.None? && depDiffs == [] {
        continue;
      }
      diffs := diffs + [PackageDiff(newPkg.store.name, pkgDiff, depDiffs)];
    }
  }
}
