/** The older generation's report (src/display.rs): the order in which
    package updates and dependency updates are listed, and the per-character
    emphasis of a new version against the old one. Printing and colouring
    are not modelled; the order and the emphasis are. */
module Display {
  import opened Common
  import opened StorePaths
  import opened SystemPackages
  import opened PathDiffs

  datatype Ordering = Less | Equal | Greater

  function Flip(o: Ordering): Ordering {
    match o
    case Less => Greater
    case Equal => Equal
    case Greater => Less
  }

  /** `Ordering::then_with`: the second comparison only breaks a tie. */
  function Then(o: Ordering, tie: Ordering): Ordering {
    if o == Equal then tie else o
  }

  /** `usize::cmp`. */
  function CmpNat(a: nat, b: nat): (r: Ordering)
    ensures r == Less <==> a < b
    ensures r == Greater <==> a > b
  {
    if a < b then Less else if a > b then Greater else Equal
  }

  /** `str::cmp`: lexicographic, a proper prefix first. Comparing chars by
      code point gives the same order as the byte-wise comparison of their
      UTF-8 encodings. */
  function CmpStr(a: string, b: string): (r: Ordering)
    ensures r == Equal <==> a == b
  {
    if a == [] && b == [] then Equal
    else if a == [] then Less
    else if b == [] then Greater
    else if a[0] < b[0] then Less
    else if a[0] > b[0] then Greater
    else
      assert a == [a[0]] + a[1..] && b == [b[0]] + b[1..];
      CmpStr(a[1..], b[1..])
  }

  /** A proper prefix comes first. */
  lemma {:induction false} PrefixFirst(a: string, b: string)
    requires |a| < |b| && a == b[..|a|]
    ensures CmpStr(a, b) == Less
  {
    if a != [] {
      assert a[1..] == b[1..][..|a[1..]|];
      PrefixFirst(a[1..], b[1..]);
    }
  }

  lemma {:induction false} CmpStrFlip(a: string, b: string)
    ensures CmpStr(b, a) == Flip(CmpStr(a, b))
  {
    if a != [] && b != [] && a[0] == b[0] {
      CmpStrFlip(a[1..], b[1..]);
    }
  }

  lemma {:induction false} CmpStrTrans(a: string, b: string, c: string)
    requires CmpStr(a, b) != Greater && CmpStr(b, c) != Greater
    ensures CmpStr(a, c) != Greater
  {
    if a != [] && b != [] && c != [] && a[0] == b[0] && b[0] == c[0] {
      CmpStrTrans(a[1..], b[1..], c[1..]);
    }
  }

  /** `sys_pkg_sorter`: a package whose own version changed comes before
      one whose did not; otherwise more dependency updates come first, and
      names break the remaining ties. */
  function SysPkgSorter(newer: PackageDiff, older: PackageDiff): Ordering {
    match (newer.pkg, older.pkg)
    case (Some(_), None) => Less
    case (None, Some(_)) => Greater
    case _ => Then(CmpNat(|older.deps|, |newer.deps|), CmpStr(newer.name, older.name))
  }

  lemma PrimaryFirst(a: PackageDiff, b: PackageDiff)
    ensures a.pkg.Some? && b.pkg.None? ==> SysPkgSorter(a, b) == Less
    ensures a.pkg.None? && b.pkg.Some? ==> SysPkgSorter(a, b) == Greater
  {
  }

  lemma MoreDependenciesFirst(a: PackageDiff, b: PackageDiff)
    requires a.pkg.Some? == b.pkg.Some?
    ensures |a.deps| > |b.deps| ==> SysPkgSorter(a, b) == Less
    ensures |a.deps| < |b.deps| ==> SysPkgSorter(a, b) == Greater
  {
  }

  lemma NamesBreakTies(a: PackageDiff, b: PackageDiff)
    requires a.pkg.Some? == b.pkg.Some? && |a.deps| == |b.deps|
    ensures SysPkgSorter(a, b) == CmpStr(a.name, b.name)
    ensures SysPkgSorter(a, b) == Equal <==> a.name == b.name
  {
  }

  /** An independent statement of the same order: the lexicographic order
      on (no own change, fewest dependency updates, name). */
  function CmpBool(a: bool, b: bool): Ordering {
    if a == b then Equal else if b then Less else Greater
  }

  function CmpInt(a: int, b: int): Ordering {
    if a < b then Less else if a > b then Greater else Equal
  }

  function SortKey(d: PackageDiff): (bool, int, string) {
    (d.pkg.None?, -|d.deps|, d.name)
  }

  function CmpKey(k: (bool, int, string), l: (bool, int, string)): Ordering {
    Then(CmpBool(k.0, l.0), Then(CmpInt(k.1, l.1), CmpStr(k.2, l.2)))
  }

  lemma SorterIsKeyOrder(a: PackageDiff, b: PackageDiff)
    ensures SysPkgSorter(a, b) == CmpKey(SortKey(a), SortKey(b))
  {
  }

  /** Swapping the arguments reverses the answer. */
  lemma SorterFlip(a: PackageDiff, b: PackageDiff)
    ensures SysPkgSorter(b, a) == Flip(SysPkgSorter(a, b))
  {
    CmpStrFlip(a.name, b.name);
  }

  lemma SorterTrans(a: PackageDiff, b: PackageDiff, c: PackageDiff)
    requires SysPkgSorter(a, b) != Greater && SysPkgSorter(b, c) != Greater
    ensures SysPkgSorter(a, c) != Greater
  {
    if a.pkg.Some? == b.pkg.Some? && b.pkg.Some? == c.pkg.Some? && |a.deps| == |b.deps| == |c.deps| {
      CmpStrTrans(a.name, b.name, c.name);
    }
  }

  /** The name order of `sort_unstable_by(|x, y| x.name.cmp(&y.name))`. */
  function ByName(x: StoreDiff, y: StoreDiff): Ordering {
    CmpStr(x.name, y.name)
  }

  /** `cmp` orders its type totally, up to ties. */
  ghost predicate IsOrder<T(!new)>(cmp: (T, T) -> Ordering) {
    && (forall a, b :: cmp(b, a) == Flip(cmp(a, b)))
    && (forall a, b, c :: cmp(a, b) != Greater && cmp(b, c) != Greater ==> cmp(a, c) != Greater)
  }

  lemma SorterIsOrder()
    ensures IsOrder(SysPkgSorter)
  {
    forall a, b {
      SorterFlip(a, b);
    }
    forall a, b, c | SysPkgSorter(a, b) != Greater && SysPkgSorter(b, c) != Greater {
      SorterTrans(a, b, c);
    }
  }

  lemma ByNameIsOrder()
    ensures IsOrder(ByName)
  {
    forall a: StoreDiff, b: StoreDiff {
      CmpStrFlip(a.name, b.name);
    }
    forall a: StoreDiff, b: StoreDiff, c: StoreDiff | ByName(a, b) != Greater && ByName(b, c) != Greater {
      CmpStrTrans(a.name, b.name, c.name);
    }
  }

  predicate SortedBy<T>(s: seq<T>, cmp: (T, T) -> Ordering) {
    forall i, j | 0 <= i < j < |s| :: cmp(s[i], s[j]) != Greater
  }

  /** No two positions of `s` tie under `cmp`. */
  predicate NoTies<T>(s: seq<T>, cmp: (T, T) -> Ordering) {
    forall i, j | 0 <= i < |s| && 0 <= j < |s| && i != j :: cmp(s[i], s[j]) != Equal
  }

  /** Inserts `x` before the first element that does not come before it. */
  function InsertBy<T>(x: T, s: seq<T>, cmp: (T, T) -> Ordering): (r: seq<T>)
    ensures multiset(r) == multiset(s) + multiset{x}
    ensures |r| == |s| + 1
  {
    if s == [] || cmp(x, s[0]) != Greater then [x] + s
    else
      assert s == [s[0]] + s[1..];
      [s[0]] + InsertBy(x, s[1..], cmp)
  }

  /** The sorted permutation that `sort_unstable_by` leaves in the vector;
      its own algorithm is not modelled, only its result. */
  function SortBy<T>(s: seq<T>, cmp: (T, T) -> Ordering): (r: seq<T>)
    ensures multiset(r) == multiset(s)
    ensures |r| == |s|
  {
    if s == [] then []
    else
      assert s == [s[0]] + s[1..];
      InsertBy(s[0], SortBy(s[1..], cmp), cmp)
  }

  lemma {:induction false} InsertSorted<T(!new)>(x: T, s: seq<T>, cmp: (T, T) -> Ordering)
    requires IsOrder(cmp) && SortedBy(s, cmp)
    ensures SortedBy(InsertBy(x, s, cmp), cmp)
  {
    if s != [] && cmp(x, s[0]) == Greater {
      var rest := InsertBy(x, s[1..], cmp);
      InsertSorted(x, s[1..], cmp);
      assert multiset(rest) == multiset(s[1..]) + multiset{x};
      forall j | 0 <= j < |rest|
        ensures cmp(s[0], rest[j]) != Greater
      {
        assert rest[j] in multiset(rest);
        assert rest[j] == x || rest[j] in multiset(s[1..]);
        if rest[j] in multiset(s[1..]) {
          var k :| 0 <= k < |s[1..]| && s[1..][k] == rest[j];
          assert s[1 + k] == rest[j];
        }
      }
      var r := [s[0]] + rest;
      forall i, j | 0 <= i < j < |r|
        ensures cmp(r[i], r[j]) != Greater
      {
        if i > 0 {
          assert r[i] == rest[i - 1] && r[j] == rest[j - 1];
        } else {
          assert r[j] == rest[j - 1];
        }
      }
    }
  }

  lemma {:induction false} SortSorted<T(!new)>(s: seq<T>, cmp: (T, T) -> Ordering)
    requires IsOrder(cmp)
    ensures SortedBy(SortBy(s, cmp), cmp)
  {
    if s != [] {
      SortSorted(s[1..], cmp);
      InsertSorted(s[0], SortBy(s[1..], cmp), cmp);
    }
  }

  /** Two sorted arrangements of the same elements start alike when the
      first has no ties. */
  lemma HeadsAgree<T(!new)>(s: seq<T>, t: seq<T>, cmp: (T, T) -> Ordering)
    requires IsOrder(cmp) && SortedBy(s, cmp) && SortedBy(t, cmp)
    requires multiset(s) == multiset(t) && NoTies(s, cmp) && s != []
    ensures t != [] && s[0] == t[0]
  {
    assert |t| == |s| by { assert |multiset(t)| == |multiset(s)|; }
    assert t[0] in multiset(s) by { assert t[0] in multiset(t); }
    assert s[0] in multiset(t) by { assert s[0] in multiset(s); }
    var k :| 0 <= k < |s| && s[k] == t[0];
    var m :| 0 <= m < |t| && t[m] == s[0];
    assert cmp(s[0], s[k]) != Greater;
    assert cmp(t[0], t[m]) != Greater;
    assert cmp(s[0], s[k]) == Equal;
  }

  /** Dropping the first element keeps a sequence sorted and tie-free. */
  lemma DropFirst<T>(s: seq<T>, cmp: (T, T) -> Ordering)
    requires SortedBy(s, cmp) && NoTies(s, cmp) && s != []
    ensures SortedBy(s[1..], cmp) && NoTies(s[1..], cmp)
    ensures multiset(s[1..]) == multiset(s) - multiset{s[0]}
  {
    assert forall i | 0 <= i < |s[1..]| :: s[1..][i] == s[i + 1];
    assert s == [s[0]] + s[1..];
  }

  /** Without ties there is only one sorted order: whatever the unstable
      sort does, its result is determined. */
  lemma {:induction false} SortedUnique<T(!new)>(s: seq<T>, t: seq<T>, cmp: (T, T) -> Ordering)
    requires IsOrder(cmp) && SortedBy(s, cmp) && SortedBy(t, cmp)
    requires multiset(s) == multiset(t) && NoTies(s, cmp)
    ensures s == t
  {
    if s != [] {
      HeadsAgree(s, t, cmp);
      DropFirst(s, cmp);
      assert SortedBy(t[1..], cmp) && multiset(t[1..]) == multiset(t) - multiset{t[0]} by {
        assert forall i | 0 <= i < |t[1..]| :: t[1..][i] == t[i + 1];
        assert t == [t[0]] + t[1..];
      }
      SortedUnique(s[1..], t[1..], cmp);
      assert s == [s[0]] + s[1..] && t == [t[0]] + t[1..];
    }
  }

  /** No two elements of `s` share a key. */
  ghost predicate DistinctKeys<T, K>(s: seq<T>, key: T -> K) {
    forall i, j | 0 <= i < j < |s| :: key(s[i]) != key(s[j])
  }

  lemma {:induction false} InsertKeepsDistinct<T, K>(x: T, s: seq<T>, cmp: (T, T) -> Ordering, key: T -> K)
    requires DistinctKeys(s, key)
    requires forall i | 0 <= i < |s| :: key(s[i]) != key(x)
    ensures DistinctKeys(InsertBy(x, s, cmp), key)
  {
    if s != [] && cmp(x, s[0]) == Greater {
      var rest := InsertBy(x, s[1..], cmp);
      InsertKeepsDistinct(x, s[1..], cmp, key);
      forall j | 0 <= j < |rest|
        ensures key(s[0]) != key(rest[j])
      {
        assert rest[j] in multiset(rest);
        if rest[j] in multiset(s[1..]) {
          var k :| 0 <= k < |s[1..]| && s[1..][k] == rest[j];
          assert s[1 + k] == rest[j];
        }
      }
      var r := [s[0]] + rest;
      forall i, j | 0 <= i < j < |r|
        ensures key(r[i]) != key(r[j])
      {
        assert r[j] == rest[j - 1];
        if i > 0 {
          assert r[i] == rest[i - 1];
        }
      }
    }
  }

  /** Sorting keeps distinct keys distinct. */
  lemma {:induction false} SortKeepsDistinct<T, K>(s: seq<T>, cmp: (T, T) -> Ordering, key: T -> K)
    requires DistinctKeys(s, key)
    ensures DistinctKeys(SortBy(s, cmp), key)
  {
    if s != [] {
      var rest := SortBy(s[1..], cmp);
      assert DistinctKeys(s[1..], key) by {
        assert forall i | 0 <= i < |s[1..]| :: s[1..][i] == s[i + 1];
      }
      SortKeepsDistinct(s[1..], cmp, key);
      forall j | 0 <= j < |rest|
        ensures key(rest[j]) != key(s[0])
      {
        assert rest[j] in multiset(s[1..]) by { assert rest[j] in multiset(rest); }
        var k :| 0 <= k < |s[1..]| && s[1..][k] == rest[j];
        assert s[1 + k] == rest[j];
      }
      InsertKeepsDistinct(s[0], rest, cmp, key);
    }
  }

  /** Sorting keeps the elements. */
  lemma SortKeepsElements<T>(s: seq<T>, cmp: (T, T) -> Ordering)
    ensures ElementSet(SortBy(s, cmp)) == ElementSet(s)
  {
    var r := SortBy(s, cmp);
    assert forall x :: x in r <==> x in multiset(r);
    assert forall x :: x in s <==> x in multiset(s);
  }

  /** Distinct names leave `sys_pkg_sorter` no ties. */
  lemma DistinctNamesNoTies(s: seq<PackageDiff>)
    requires forall i, j | 0 <= i < j < |s| :: s[i].name != s[j].name
    ensures NoTies(s, SysPkgSorter)
  {
    forall i, j | 0 <= i < |s| && 0 <= j < |s| && i != j
      ensures SysPkgSorter(s[i], s[j]) != Equal
    {
      if i > j {
        assert s[j].name != s[i].name;
      }
    }
  }

  /** Distinct names leave the name order no ties. */
  lemma DistinctNamesNoNameTies(s: seq<StoreDiff>)
    requires DistinctNames(s)
    ensures NoTies(s, ByName)
  {
    forall i, j | 0 <= i < |s| && 0 <= j < |s| && i != j
      ensures ByName(s[i], s[j]) != Equal
    {
      if i > j {
        assert s[j].name != s[i].name;
      }
    }
  }

  /** One character of the new version as `bolden_str_diff` emits it. */
  datatype Segment = Segment(ch: char, emphasised: bool)

  /** Character `i` of `to` is emphasised when `from` has no character
      there or a different one. */
  predicate Emphasised(from: string, to: string, i: nat)
    requires i < |to|
  {
    i >= |from| || from[i] != to[i]
  }

  /** `bolden_str_diff`: walks the new version, advancing over the old one
      in step, and marks each character that differs or has no
      counterpart. */
  method BoldenStrDiff(from: string, to: string) returns (result: seq<Segment>)
    ensures |result| == |to|
    ensures forall i | 0 <= i < |to| :: result[i] == Segment(to[i], Emphasised(from, to, i))
  {
    result := [];
    var fromChars := from;
    for i := 0 to |to|
      invariant |result| == i
      invariant fromChars == if i <= |from| then from[i..] else []
      invariant forall j | 0 <= j < i :: result[j] == Segment(to[j], Emphasised(from, to, j))
    {
      var toCh := to[i];
      var fromCh: Option<char> := None;
      if fromChars != [] {
        fromCh := Some(fromChars[0]);
        fromChars := fromChars[1..];
      }
      if fromCh.Some? && fromCh.value == toCh {
        result := result + [Segment(toCh, false)];
        continue;
      }
      result := result + [Segment(toCh, true)];
    }
  }

  function Chars(segments: seq<Segment>): (r: string)
    ensures |r| == |segments|
    ensures forall i | 0 <= i < |r| :: r[i] == segments[i].ch
  {
    if segments == [] then [] else [segments[0].ch] + Chars(segments[1..])
  }

  /** The segments spell the new version, and nothing is emphasised
      exactly when the new version is a prefix of the old one. */
  lemma BoldenMeaning(from: string, to: string, result: seq<Segment>)
    requires |result| == |to|
    requires forall i | 0 <= i < |to| :: result[i] == Segment(to[i], Emphasised(from, to, i))
    ensures Chars(result) == to
    ensures (forall i | 0 <= i < |result| :: !result[i].emphasised) <==> |to| <= |from| && to == from[..|to|]
  {
    if |to| > |from| {
      assert result[|from|].emphasised;
    } else if to != from[..|to|] {
      var i :| 0 <= i < |to| && to[i] != from[i];
      assert result[i].emphasised;
    }
  }

  /** What `display_diff` lists for one package: its dependency updates
      sorted by name. */
  function DisplayOrder(d: PackageDiff): (r: PackageDiff)
    ensures r.name == d.name && r.pkg == d.pkg
    ensures multiset(r.deps) == multiset(d.deps)
    ensures ByNameIsSorted(r.deps)
  {
    ByNameIsOrder();
    SortSorted(d.deps, ByName);
    d.(deps := SortBy(d.deps, ByName))
  }

  predicate ByNameIsSorted(deps: seq<StoreDiff>) {
    SortedBy(deps, ByName)
  }

  /** Sorting a package's dependency updates changes neither what it
      reports nor its place among the others. */
  lemma DisplayOrderKeeps(newer: map<Name, SystemPackage>, older: map<Name, SystemPackage>, d: PackageDiff, e: PackageDiff)
    requires ReportsPackage(newer, older, d)
    ensures ReportsPackage(newer, older, DisplayOrder(d))
    ensures SysPkgSorter(DisplayOrder(d), DisplayOrder(e)) == SysPkgSorter(d, e)
  {
    SortKeepsElements(d.deps, ByName);
    SortKeepsDistinct(d.deps, ByName, (x: StoreDiff) => x.name);
    assert |DisplayOrder(d).deps| == |d.deps| by { assert |multiset(DisplayOrder(d).deps)| == |multiset(d.deps)|; }
    assert |DisplayOrder(e).deps| == |e.deps| by { assert |multiset(DisplayOrder(e).deps)| == |multiset(e.deps)|; }
  }

  /** The packages left by `isolate_global_dependencies` are still keyed by
      the names of their paths. */
  lemma RemainingWellKeyed(pkgs: map<Name, SystemPackage>, remaining: map<Name, SystemPackage>, globals: map<Name, StorePath>)
    requires PackagesWellKeyed(pkgs) && Isolated(pkgs, remaining, globals)
    ensures PackagesWellKeyed(remaining)
  {
  }

  /** The global dependencies are keyed by their names. */
  lemma GlobalsWellKeyed(pkgs: map<Name, SystemPackage>, remaining: map<Name, SystemPackage>, globals: map<Name, StorePath>)
    requires DepsWellKeyed(pkgs) && Isolated(pkgs, remaining, globals)
    ensures PathsWellKeyed(globals)
  {
    forall n | n in globals
      ensures globals[n].name == n
    {
      assert n in DepNames(pkgs);
      var k :| k in pkgs && n in pkgs[k].deps;
      assert globals[n] == pkgs[k].deps[n];
    }
  }

  /** `package_diffs` without its printing: the global dependencies of both
      snapshots are set apart, the package updates are listed in
      `sys_pkg_sorter` order with each one's dependency updates sorted by
      name, and the global dependency updates follow, sorted by name. The
      source edits both snapshots in place; here the isolated snapshots and
      their global dependencies are returned alongside the reports. */
  method PackageDiffs(newPkgs: map<Name, SystemPackage>, oldPkgs: map<Name, SystemPackage>)
    returns (updates: seq<PackageDiff>, globalUpdates: seq<StoreDiff>,
             newRest: map<Name, SystemPackage>, newGlobals: map<Name, StorePath>,
             oldRest: map<Name, SystemPackage>, oldGlobals: map<Name, StorePath>)
    requires PackagesWellKeyed(newPkgs) && DepsWellKeyed(oldPkgs)
    ensures Isolated(newPkgs, newRest, newGlobals) && Isolated(oldPkgs, oldRest, oldGlobals)
    ensures SortedBy(updates, SysPkgSorter)
    ensures forall i | 0 <= i < |updates| :: ReportsPackage(newRest, oldRest, updates[i]) && ByNameIsSorted(updates[i].deps)
    ensures forall i, j | 0 <= i < j < |updates| :: updates[i].name != updates[j].name
    ensures ReportedNames(updates) == ChangedNames(newRest, oldRest, newRest.Keys)
    ensures ElementSet(globalUpdates) == DiffsOver(newGlobals, oldGlobals, newGlobals.Keys)
    ensures DistinctNames(globalUpdates) && ByNameIsSorted(globalUpdates)
  {
    newRest, newGlobals := IsolateGlobalDependencies(newPkgs);
    oldRest, oldGlobals := IsolateGlobalDependencies(oldPkgs);
    RemainingWellKeyed(newPkgs, newRest, newGlobals);

    var pkgDiffs := GetPackageDiffs(newRest, oldRest);
    var sorted := SortBy(pkgDiffs, SysPkgSorter);
    SortedPackageDiffs(newRest, oldRest, pkgDiffs);

    updates := DisplayAll(sorted);
    DisplayedPackageDiffs(newRest, oldRest, sorted, updates);

    GlobalsWellKeyed(newPkgs, newRest, newGlobals);
    globalUpdates := GlobalDiffs(newGlobals, oldGlobals);
  }

  /** The loop of `package_diffs` that puts each package's dependency
      updates in display order. */
  method DisplayAll(sorted: seq<PackageDiff>) returns (updates: seq<PackageDiff>)
    ensures |updates| == |sorted|
    ensures forall j | 0 <= j < |sorted| :: updates[j] == DisplayOrder(sorted[j])
  {
    updates := [];
    for i := 0 to |sorted|
      invariant |updates| == i
      invariant forall j | 0 <= j < i :: updates[j] == DisplayOrder(sorted[j])
    {
      updates := updates + [DisplayOrder(sorted[i])];
    }
  }

  /** The global dependency updates of `package_diffs`: the diffs of the two
      global sets, sorted by name. */
  method GlobalDiffs(newGlobals: map<Name, StorePath>, oldGlobals: map<Name, StorePath>)
    returns (globalUpdates: seq<StoreDiff>)
    requires PathsWellKeyed(newGlobals)
    ensures ElementSet(globalUpdates) == DiffsOver(newGlobals, oldGlobals, newGlobals.Keys)
    ensures DistinctNames(globalUpdates) && ByNameIsSorted(globalUpdates)
  {
    var gdepDiffs := GetStoreDiffs(newGlobals, oldGlobals);
    globalUpdates := SortBy(gdepDiffs, ByName);
    ByNameIsOrder();
    SortSorted(gdepDiffs, ByName);
    SortKeepsElements(gdepDiffs, ByName);
    SortKeepsDistinct(gdepDiffs, ByName, (x: StoreDiff) => x.name);
  }

  /** Sorting the package updates keeps what `get_package_diffs` promised. */
  lemma SortedPackageDiffs(newer: map<Name, SystemPackage>, older: map<Name, SystemPackage>, diffs: seq<PackageDiff>)
    requires forall i | 0 <= i < |diffs| :: ReportsPackage(newer, older, diffs[i])
    requires forall i, j | 0 <= i < j < |diffs| :: diffs[i].name != diffs[j].name
    requires ReportedNames(diffs) == ChangedNames(newer, older, newer.Keys)
    ensures SortedBy(SortBy(diffs, SysPkgSorter), SysPkgSorter)
    ensures forall i | 0 <= i < |SortBy(diffs, SysPkgSorter)| :: ReportsPackage(newer, older, SortBy(diffs, SysPkgSorter)[i])
    ensures forall i, j | 0 <= i < j < |SortBy(diffs, SysPkgSorter)| :: SortBy(diffs, SysPkgSorter)[i].name != SortBy(diffs, SysPkgSorter)[j].name
    ensures ReportedNames(SortBy(diffs, SysPkgSorter)) == ChangedNames(newer, older, newer.Keys)
  {
    var r := SortBy(diffs, SysPkgSorter);
    SorterIsOrder();
    SortSorted(diffs, SysPkgSorter);
    SortKeepsElements(diffs, SysPkgSorter);
    SortKeepsDistinct(diffs, SysPkgSorter, (p: PackageDiff) => p.name);
    forall i | 0 <= i < |r|
      ensures ReportsPackage(newer, older, r[i])
    {
      assert r[i] in ElementSet(r);
    }
    assert ReportedNames(r) == ReportedNames(diffs) by {
      assert forall p :: p in r <==> p in ElementSet(r);
      assert forall p :: p in diffs <==> p in ElementSet(diffs);
    }
  }

  /** Sorting every package's dependency updates keeps the package order
      and the reports. */
  lemma DisplayedPackageDiffs(newer: map<Name, SystemPackage>, older: map<Name, SystemPackage>, sorted: seq<PackageDiff>, updates: seq<PackageDiff>)
    requires |updates| == |sorted|
    requires forall j | 0 <= j < |sorted| :: updates[j] == DisplayOrder(sorted[j])
    requires SortedBy(sorted, SysPkgSorter)
    requires forall i | 0 <= i < |sorted| :: ReportsPackage(newer, older, sorted[i])
    requires forall i, j | 0 <= i < j < |sorted| :: sorted[i].name != sorted[j].name
    requires ReportedNames(sorted) == ChangedNames(newer, older, newer.Keys)
    ensures SortedBy(updates, SysPkgSorter)
    ensures forall i | 0 <= i < |updates| :: ReportsPackage(newer, older, updates[i]) && ByNameIsSorted(updates[i].deps)
    ensures forall i, j | 0 <= i < j < |updates| :: updates[i].name != updates[j].name
    ensures ReportedNames(updates) == ChangedNames(newer, older, newer.Keys)
  {
    forall i, j | 0 <= i < |sorted| && 0 <= j < |sorted|
      ensures SysPkgSorter(updates[i], updates[j]) == SysPkgSorter(sorted[i], sorted[j])
      ensures ReportsPackage(newer, older, updates[i])
    {
      DisplayOrderKeeps(newer, older, sorted[i], sorted[j]);
    }
    assert ReportedNames(updates) == ReportedNames(sorted) by {
      forall p | p in updates
        ensures p.name in ReportedNames(sorted)
      {
        var i :| 0 <= i < |updates| && updates[i] == p;
        assert sorted[i] in sorted;
      }
      forall p | p in sorted
        ensures p.name in ReportedNames(updates)
      {
        var i :| 0 <= i < |sorted| && sorted[i] == p;
        assert updates[i] in updates;
      }
    }
  }
}
