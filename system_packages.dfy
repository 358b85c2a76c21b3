/** The older generation's installed packages (src/store.rs): each package
    is its own store path and the name-keyed set of store paths it depends
    on. `isolate_global_dependencies` moves out of every package the
    dependencies that all packages carrying them agree on. */
module SystemPackages {
  import opened Common
  import opened StorePaths

  /** `SystemPackage`: the package's path and its dependencies, hashed by
      name. */
  datatype SystemPackage = SystemPackage(path: StorePath, deps: map<Name, StorePath>)

  /** A map of store paths behaves like the source's `StorePathMap`, a
      `HashSet` hashed and compared by name. */
  predicate PathsWellKeyed(m: map<Name, StorePath>) {
    forall n | n in m :: m[n].name == n
  }

  /** Every package's dependencies form a name-keyed set. */
  predicate DepsWellKeyed(pkgs: map<Name, SystemPackage>) {
    forall k | k in pkgs :: PathsWellKeyed(pkgs[k].deps)
  }

  /** A `SystemPackageMap` as `parse_system_packages` builds it: keyed by
      the name of each package's own path. */
  predicate PackagesWellKeyed(pkgs: map<Name, SystemPackage>) {
    forall k | k in pkgs :: pkgs[k].path.name == k && PathsWellKeyed(pkgs[k].deps)
  }

  /** The dependencies of the packages named in `keys`. */
  ghost function DepsIn(pkgs: map<Name, SystemPackage>, keys: set<Name>): set<StorePath> {
    set k, n | k in keys && k in pkgs && n in pkgs[k].deps :: pkgs[k].deps[n]
  }

  /** The names of all dependencies of all packages. */
  ghost function DepNames(pkgs: map<Name, SystemPackage>): set<Name> {
    set k, n | k in pkgs && n in pkgs[k].deps :: n
  }

  /** Every package that depends on something named `n` depends on the
      same version of it. */
  ghost predicate Uniform(pkgs: map<Name, SystemPackage>, n: Name) {
    forall k1, k2 | k1 in pkgs && k2 in pkgs && n in pkgs[k1].deps && n in pkgs[k2].deps ::
      pkgs[k1].deps[n].version == pkgs[k2].deps[n].version
  }

  /** The global dependencies: the dependency names whose version is the
      same in every package that carries them. */
  ghost function GlobalNames(pkgs: map<Name, SystemPackage>): set<Name> {
    set n | n in DepNames(pkgs) && Uniform(pkgs, n)
  }

  /** A name two packages carry at different versions is not global. */
  lemma TwoVersionsNotGlobal(pkgs: map<Name, SystemPackage>, k1: Name, k2: Name, n: Name)
    requires k1 in pkgs && k2 in pkgs && n in pkgs[k1].deps && n in pkgs[k2].deps
    requires pkgs[k1].deps[n].version != pkgs[k2].deps[n].version
    ensures n !in GlobalNames(pkgs)
  {
  }

  /** A name every carrier agrees on is global. */
  lemma AgreedIsGlobal(pkgs: map<Name, SystemPackage>, k: Name, n: Name)
    requires k in pkgs && n in pkgs[k].deps
    requires forall k2 | k2 in pkgs && n in pkgs[k2].deps :: pkgs[k2].deps[n].version == pkgs[k].deps[n].version
    ensures n in GlobalNames(pkgs)
  {
    assert n in DepNames(pkgs);
  }

  /** `DependencyScan`: the first version met under a name, and whether
      another version has been met since. */
  datatype DependencyScan = DependencyScan(lastVersion: string, hasMultipleVersions: bool)

  /** One step of the version tracker: a new name records the version met;
      a known name keeps its version and is flagged on any other one. */
  function Track(tracker: map<Name, DependencyScan>, dep: StorePath): map<Name, DependencyScan> {
    if dep.name in tracker then
      var entry := tracker[dep.name];
      if dep.version != entry.lastVersion then tracker[dep.name := entry.(hasMultipleVersions := true)]
      else tracker
    else tracker[dep.name := DependencyScan(dep.version, false)]
  }

  /** The tracker after meeting the dependencies of `deps` in order. */
  function TrackAll(deps: seq<StorePath>): map<Name, DependencyScan> {
    if deps == [] then map[] else Track(TrackAll(deps[..|deps| - 1]), deps[|deps| - 1])
  }

  /** Some dependency of `deps` is named `n`. */
  ghost predicate Met(deps: seq<StorePath>, n: Name) {
    exists i | 0 <= i < |deps| :: deps[i].name == n
  }

  /** Some dependency of `deps` is named `n` and has version `v`. */
  ghost predicate MetWith(deps: seq<StorePath>, n: Name, v: string) {
    exists i | 0 <= i < |deps| :: deps[i].name == n && deps[i].version == v
  }

  /** Some dependency of `deps` is named `n` and has a version other than `v`. */
  ghost predicate MetOther(deps: seq<StorePath>, n: Name, v: string) {
    exists i | 0 <= i < |deps| :: deps[i].name == n && deps[i].version != v
  }

  lemma MetAppend(deps: seq<StorePath>, dep: StorePath, n: Name, v: string)
    ensures Met(deps + [dep], n) <==> Met(deps, n) || dep.name == n
    ensures MetWith(deps + [dep], n, v) <==> MetWith(deps, n, v) || (dep.name == n && dep.version == v)
    ensures MetOther(deps + [dep], n, v) <==> MetOther(deps, n, v) || (dep.name == n && dep.version != v)
  {
    var all := deps + [dep];
    assert all[|deps|] == dep;
    assert forall i | 0 <= i < |deps| :: all[i] == deps[i];
    if Met(all, n) {
      var i :| 0 <= i < |all| && all[i].name == n;
      if i < |deps| { assert deps[i].name == n; }
    }
    if MetWith(all, n, v) {
      var i :| 0 <= i < |all| && all[i].name == n && all[i].version == v;
      if i < |deps| { assert deps[i].name == n && deps[i].version == v; }
    }
    if MetOther(all, n, v) {
      var i :| 0 <= i < |all| && all[i].name == n && all[i].version != v;
      if i < |deps| { assert deps[i].name == n && deps[i].version != v; }
    }
  }

  /** The tracker holds exactly the names met. */
  lemma {:induction false} TrackKeys(deps: seq<StorePath>, n: Name)
    ensures n in TrackAll(deps) <==> Met(deps, n)
  {
    if deps != [] {
      var init := deps[..|deps| - 1];
      var dep := deps[|deps| - 1];
      assert init + [dep] == deps;
      TrackKeys(init, n);
      MetAppend(init, dep, n, "");
    }
  }

  /** Each entry's version is one that was met under its name, and the
      entry is flagged exactly when another version was met under it. */
  lemma {:induction false} TrackEntry(deps: seq<StorePath>, n: Name)
    requires n in TrackAll(deps)
    ensures MetWith(deps, n, TrackAll(deps)[n].lastVersion)
    ensures TrackAll(deps)[n].hasMultipleVersions <==> MetOther(deps, n, TrackAll(deps)[n].lastVersion)
  {
    var init := deps[..|deps| - 1];
    var dep := deps[|deps| - 1];
    assert init + [dep] == deps;
    var v := TrackAll(deps)[n].lastVersion;
    MetAppend(init, dep, n, v);
    if n in TrackAll(init) {
      TrackEntry(init, n);
    } else {
      TrackKeys(init, n);
      assert forall i | 0 <= i < |init| :: init[i].name != n;
    }
  }

  /** Meeting more dependencies never changes the version a name was first
      met with. */
  lemma {:induction false} TrackKeepsVersion(deps: seq<StorePath>, more: seq<StorePath>, n: Name)
    requires n in TrackAll(deps)
    ensures n in TrackAll(deps + more)
    ensures TrackAll(deps + more)[n].lastVersion == TrackAll(deps)[n].lastVersion
  {
    if more == [] {
      assert deps + more == deps;
    } else {
      var init := more[..|more| - 1];
      TrackKeepsVersion(deps, init, n);
      assert (deps + more)[..|deps + more| - 1] == deps + init;
      assert TrackAll(deps + more) == Track(TrackAll(deps + init), more[|more| - 1]);
    }
  }

  /** The version recorded under a name is the first one met under it. */
  lemma FirstSeen(deps: seq<StorePath>, i: nat)
    requires i < |deps|
    requires forall j | 0 <= j < i :: deps[j].name != deps[i].name
    ensures deps[i].name in TrackAll(deps)
    ensures TrackAll(deps)[deps[i].name].lastVersion == deps[i].version
  {
    var upto := deps[..i + 1];
    var before := deps[..i];
    var n := deps[i].name;
    assert upto[..i] == before && upto[i] == deps[i];
    assert forall j | 0 <= j < i :: before[j].name != n;
    TrackKeys(before, n);
    assert n !in TrackAll(before);
    assert TrackAll(upto) == Track(TrackAll(before), deps[i]);
    TrackKeepsVersion(upto, deps[i + 1..], deps[i].name);
    CutAppend(deps, i + 1);
  }

  /** A name is unflagged exactly when every dependency met under it has
      the same version. */
  lemma UnflaggedIffOneVersion(deps: seq<StorePath>, n: Name)
    requires n in TrackAll(deps)
    ensures !TrackAll(deps)[n].hasMultipleVersions <==>
      forall i, j | 0 <= i < |deps| && 0 <= j < |deps| && deps[i].name == n && deps[j].name == n ::
        deps[i].version == deps[j].version
  {
    TrackEntry(deps, n);
    var v := TrackAll(deps)[n].lastVersion;
    var w :| 0 <= w < |deps| && deps[w].name == n && deps[w].version == v;
    if TrackAll(deps)[n].hasMultipleVersions {
      var i :| 0 <= i < |deps| && deps[i].name == n && deps[i].version != v;
      assert deps[i].version != deps[w].version;
    }
  }

  /** The names the tracker leaves unflagged. */
  function UnflaggedNames(tracker: map<Name, DependencyScan>): (r: set<Name>)
    ensures r <= tracker.Keys
    ensures forall n | n in tracker :: n in r <==> !tracker[n].hasMultipleVersions
  {
    set n | n in tracker && !tracker[n].hasMultipleVersions
  }

  /** Once every dependency of every package has been met, in any order,
      the unflagged names are the global ones. */
  lemma UnflaggedAreGlobal(pkgs: map<Name, SystemPackage>, deps: seq<StorePath>)
    requires DepsWellKeyed(pkgs)
    requires ElementSet(deps) == DepsIn(pkgs, pkgs.Keys)
    ensures UnflaggedNames(TrackAll(deps)) == GlobalNames(pkgs)
  {
    var tracker := TrackAll(deps);
    forall n | n in GlobalNames(pkgs) ensures n in UnflaggedNames(tracker) {
      var k :| k in pkgs && n in pkgs[k].deps;
      assert pkgs[k].deps[n] in DepsIn(pkgs, pkgs.Keys);
      var i :| 0 <= i < |deps| && deps[i] == pkgs[k].deps[n];
      TrackKeys(deps, n);
      assert n in tracker;
      forall i1, j1 | 0 <= i1 < |deps| && 0 <= j1 < |deps| && deps[i1].name == n && deps[j1].name == n
        ensures deps[i1].version == deps[j1].version
      {
        assert deps[i1] in DepsIn(pkgs, pkgs.Keys);
        assert deps[j1] in DepsIn(pkgs, pkgs.Keys);
        var a, an :| a in pkgs && an in pkgs[a].deps && pkgs[a].deps[an] == deps[i1];
        var b, bn :| b in pkgs && bn in pkgs[b].deps && pkgs[b].deps[bn] == deps[j1];
      }
      UnflaggedIffOneVersion(deps, n);
    }
    forall n | n in UnflaggedNames(tracker) ensures n in GlobalNames(pkgs) {
      TrackKeys(deps, n);
      var i :| 0 <= i < |deps| && deps[i].name == n;
      assert deps[i] in DepsIn(pkgs, pkgs.Keys);
      var k, kn :| k in pkgs && kn in pkgs[k].deps && pkgs[k].deps[kn] == deps[i];
      assert n in DepNames(pkgs);
      UnflaggedIffOneVersion(deps, n);
      forall k1, k2 | k1 in pkgs && k2 in pkgs && n in pkgs[k1].deps && n in pkgs[k2].deps
        ensures pkgs[k1].deps[n].version == pkgs[k2].deps[n].version
      {
        assert pkgs[k1].deps[n] in ElementSet(deps);
        assert pkgs[k2].deps[n] in ElementSet(deps);
        var i1 :| 0 <= i1 < |deps| && deps[i1] == pkgs[k1].deps[n];
        var j1 :| 0 <= j1 < |deps| && deps[j1] == pkgs[k2].deps[n];
      }
    }
  }

  /** The dependencies of `deps` named in `seen`. */
  ghost function DepsAmong(deps: map<Name, StorePath>, seen: set<Name>): set<StorePath> {
    set n | n in seen && n in deps :: deps[n]
  }

  lemma DepsInAdd(pkgs: map<Name, SystemPackage>, done: set<Name>, k: Name)
    requires k in pkgs
    ensures DepsIn(pkgs, done + {k}) == DepsIn(pkgs, done) + pkgs[k].deps.Values
  {
  }

  lemma ScanStep(deps: map<Name, StorePath>, before: set<StorePath>, seen: set<Name>,
                 tracker: map<Name, DependencyScan>, visited: seq<StorePath>, n: Name)
    requires seen <= deps.Keys && n in deps.Keys - seen
    requires tracker == TrackAll(visited) && ElementSet(visited) == before + DepsAmong(deps, seen)
    ensures TrackAll(visited + [deps[n]]) == Track(tracker, deps[n])
    ensures ElementSet(visited + [deps[n]]) == before + DepsAmong(deps, seen + {n})
  {
    var dep := deps[n];
    assert (visited + [dep])[..|visited|] == visited;
    ElementSetAppend(visited, dep);
    assert DepsAmong(deps, seen + {n}) == DepsAmong(deps, seen) + {dep};
  }

  /** The body of the version pass for one package: meets each of its
      dependencies, in the set's iteration order. */
  method ScanPackage(deps: map<Name, StorePath>, tracker: map<Name, DependencyScan>, ghost visited: seq<StorePath>)
    returns (scan: map<Name, DependencyScan>, ghost met: seq<StorePath>)
    requires tracker == TrackAll(visited)
    ensures scan == TrackAll(met)
    ensures |met| >= |visited| && met[..|visited|] == visited
    ensures ElementSet(met) == ElementSet(visited) + deps.Values
  {
    scan := tracker;
    met := visited;
    var seen: set<Name> := {};
    assert DepsAmong(deps, seen) == {};
    while seen != deps.Keys
      invariant seen <= deps.Keys
      invariant scan == TrackAll(met)
      invariant |met| >= |visited| && met[..|visited|] == visited
      invariant ElementSet(met) == ElementSet(visited) + DepsAmong(deps, seen)
      decreases |deps.Keys - seen|
    {
      var n :| n in deps.Keys - seen;
      var dep := deps[n];
      ScanStep(deps, ElementSet(visited), seen, scan, met, n);
      ghost var before := scan;
      if dep.name in scan {
        var entry := scan[dep.name];
        if dep.version != entry.lastVersion {
          scan := scan[dep.name := entry.(hasMultipleVersions := true)];
        }
      } else {
        scan := scan[dep.name := DependencyScan(dep.version, false)];
      }
      assert scan == Track(before, dep);
      met := met + [dep];
      seen := seen + {n};
    }
    assert DepsAmong(deps, deps.Keys) == deps.Values;
  }

  /** The first pass of `isolate_global_dependencies`: meets every
      dependency of every package, in the maps' iteration order, and
      records under its name the first version met and whether another
      one followed. `visited` is the order the dependencies were met in. */
  method ScanVersions(pkgs: map<Name, SystemPackage>) returns (tracker: map<Name, DependencyScan>, ghost visited: seq<StorePath>)
    requires DepsWellKeyed(pkgs)
    ensures tracker == TrackAll(visited)
    ensures ElementSet(visited) == DepsIn(pkgs, pkgs.Keys)
    ensures tracker.Keys == DepNames(pkgs)
    ensures UnflaggedNames(tracker) == GlobalNames(pkgs)
  {
    tracker := map[];
    visited := [];
    var done: set<Name> := {};
    while done != pkgs.Keys
      invariant done <= pkgs.Keys
      invariant tracker == TrackAll(visited)
      invariant ElementSet(visited) == DepsIn(pkgs, done)
      decreases |pkgs.Keys - done|
    {
      var k :| k in pkgs.Keys - done;
      tracker, visited := ScanPackage(pkgs[k].deps, tracker, visited);
      DepsInAdd(pkgs, done, k);
      done := done + {k};
    }
    TrackedNames(pkgs, visited);
    UnflaggedAreGlobal(pkgs, visited);
  }

  /** Once every dependency of every package has been met, the tracker
      holds exactly the dependency names. */
  lemma TrackedNames(pkgs: map<Name, SystemPackage>, deps: seq<StorePath>)
    requires DepsWellKeyed(pkgs)
    requires ElementSet(deps) == DepsIn(pkgs, pkgs.Keys)
    ensures TrackAll(deps).Keys == DepNames(pkgs)
  {
    forall n | n in DepNames(pkgs) ensures n in TrackAll(deps) {
      var k :| k in pkgs && n in pkgs[k].deps;
      assert pkgs[k].deps[n] in DepsIn(pkgs, pkgs.Keys);
      var i :| 0 <= i < |deps| && deps[i] == pkgs[k].deps[n];
      TrackKeys(deps, n);
    }
    forall n | n in TrackAll(deps) ensures n in DepNames(pkgs) {
      TrackKeys(deps, n);
      var i :| 0 <= i < |deps| && deps[i].name == n;
      assert deps[i] in DepsIn(pkgs, pkgs.Keys);
      var k, kn :| k in pkgs && kn in pkgs[k].deps && pkgs[k].deps[kn] == deps[i];
    }
  }

  /** The names of `names` that some package of `done` depends on. */
  ghost function Taken(pkgs: map<Name, SystemPackage>, names: set<Name>, done: set<Name>): set<Name> {
    set k, n | k in done && k in pkgs && n in names && n in pkgs[k].deps :: n
  }

  /** Every name of `names` has one version across the packages. */
  ghost predicate AllUniform(pkgs: map<Name, SystemPackage>, names: set<Name>) {
    forall m | m in names :: Uniform(pkgs, m)
  }

  /** Every global entry is the dependency every carrier of its name has. */
  ghost predicate Agrees(pkgs: map<Name, SystemPackage>, globals: map<Name, StorePath>) {
    forall n, k | n in globals && k in pkgs && n in pkgs[k].deps :: globals[n] == pkgs[k].deps[n]
  }

  /** The packages once the removal pass has gone through those named in
      `done`. */
  ghost predicate RemainingSoFar(pkgs: map<Name, SystemPackage>, names: set<Name>, done: set<Name>,
                                 remaining: map<Name, SystemPackage>) {
    && done <= pkgs.Keys
    && remaining.Keys == pkgs.Keys
    && (forall k | k in pkgs :: remaining[k] == if k in done then pkgs[k].(deps := pkgs[k].deps - names) else pkgs[k])
  }

  /** What the removal pass has done once it has gone through the packages
      named in `done`. */
  ghost predicate TakenSoFar(pkgs: map<Name, SystemPackage>, names: set<Name>, done: set<Name>,
                             remaining: map<Name, SystemPackage>, globals: map<Name, StorePath>) {
    && RemainingSoFar(pkgs, names, done, remaining)
    && globals.Keys == Taken(pkgs, names, done)
    && Agrees(pkgs, globals)
  }

  /** Taking one name out of one package: the dependency, if the package
      has one under that name, joins the global ones unless one of that
      name is already there. */
  lemma TakeStep(pkgs: map<Name, SystemPackage>, names: set<Name>, k: Name, before: set<Name>,
                 seen: set<Name>, cur: map<Name, StorePath>, globals: map<Name, StorePath>, n: Name)
    requires DepsWellKeyed(pkgs) && AllUniform(pkgs, names)
    requires k in pkgs && n in names - seen && seen <= names
    requires cur == pkgs[k].deps - seen
    requires globals.Keys == before + (seen * pkgs[k].deps.Keys) && Agrees(pkgs, globals)
    ensures n in cur ==> cur[n].name == n
    ensures n in cur ==>
      var g := if cur[n].name in globals then globals else globals[cur[n].name := cur[n]];
      && cur - {n} == pkgs[k].deps - (seen + {n})
      && g.Keys == before + ((seen + {n}) * pkgs[k].deps.Keys) && Agrees(pkgs, g)
      && (forall m | m in globals :: g[m] == globals[m])
    ensures n !in cur ==>
      && cur == pkgs[k].deps - (seen + {n})
      && globals.Keys == before + ((seen + {n}) * pkgs[k].deps.Keys)
  {
    if n in cur {
      var dep := cur[n];
      assert dep == pkgs[k].deps[n] && dep.name == n;
      var g := if dep.name in globals then globals else globals[dep.name := dep];
      forall m, k2 | m in g && k2 in pkgs && m in pkgs[k2].deps
        ensures g[m] == pkgs[k2].deps[m]
      {
        if m == n && n !in globals {
          assert Uniform(pkgs, n);
          assert pkgs[k2].deps[m].name == m;
        }
      }
    }
  }

  /** The body of the removal pass for one package: takes each name of
      `names` out of its dependencies and adds what it took to `globals`,
      which, as a `HashSet`, keeps an entry already there. */
  method TakeFromPackage(pkgs: map<Name, SystemPackage>, names: set<Name>, k: Name, globals: map<Name, StorePath>)
    returns (deps: map<Name, StorePath>, acc: map<Name, StorePath>)
    requires DepsWellKeyed(pkgs) && AllUniform(pkgs, names)
    requires k in pkgs && Agrees(pkgs, globals)
    ensures deps == pkgs[k].deps - names
    ensures acc.Keys == globals.Keys + (names * pkgs[k].deps.Keys)
    ensures Agrees(pkgs, acc)
    ensures forall n | n in globals :: acc[n] == globals[n]
  {
    deps := pkgs[k].deps;
    acc := globals;
    var seen: set<Name> := {};
    assert deps == pkgs[k].deps - seen;
    while seen != names
      invariant seen <= names
      invariant deps == pkgs[k].deps - seen
      invariant acc.Keys == globals.Keys + (seen * pkgs[k].deps.Keys)
      invariant Agrees(pkgs, acc)
      invariant forall m | m in globals :: acc[m] == globals[m]
      decreases |names - seen|
    {
      var n :| n in names - seen;
      TakeStep(pkgs, names, k, globals.Keys, seen, deps, acc, n);
      if n in deps {
        var dep := deps[n];
        deps := deps - {n};
        if dep.name !in acc {
          acc := acc[dep.name := dep];
        }
      }
      seen := seen + {n};
    }
  }

  lemma TakeFinish(pkgs: map<Name, SystemPackage>, names: set<Name>, done: set<Name>, k: Name,
                   remaining: map<Name, SystemPackage>, globals: map<Name, StorePath>, cur: map<Name, StorePath>)
    requires RemainingSoFar(pkgs, names, done, remaining) && k in pkgs.Keys - done
    requires cur == pkgs[k].deps - names
    requires globals.Keys == Taken(pkgs, names, done) + (names * pkgs[k].deps.Keys) && Agrees(pkgs, globals)
    ensures TakenSoFar(pkgs, names, done + {k}, remaining[k := remaining[k].(deps := cur)], globals)
  {
    TakenAdd(pkgs, names, done, k);
  }

  lemma TakenAdd(pkgs: map<Name, SystemPackage>, names: set<Name>, done: set<Name>, k: Name)
    requires k in pkgs
    ensures Taken(pkgs, names, done + {k}) == Taken(pkgs, names, done) + (names * pkgs[k].deps.Keys)
  {
  }

  lemma TakenNone(pkgs: map<Name, SystemPackage>, names: set<Name>)
    ensures TakenSoFar(pkgs, names, {}, pkgs, map[])
  {
    assert Taken(pkgs, names, {}) == {};
  }

  lemma TakenAll(pkgs: map<Name, SystemPackage>, names: set<Name>, remaining: map<Name, SystemPackage>, globals: map<Name, StorePath>)
    requires TakenSoFar(pkgs, names, pkgs.Keys, remaining, globals)
    ensures remaining.Keys == pkgs.Keys
    ensures forall k | k in pkgs :: remaining[k] == pkgs[k].(deps := pkgs[k].deps - names)
    ensures globals.Keys == names * DepNames(pkgs)
    ensures Agrees(pkgs, globals)
  {
    assert Taken(pkgs, names, pkgs.Keys) == names * DepNames(pkgs);
  }

  /** The second pass of `isolate_global_dependencies`: takes every name of
      `names` out of every package's dependencies and collects what it
      took. The names all have one version across packages, so which
      package a global entry was taken from does not matter. */
  method TakeGlobals(pkgs: map<Name, SystemPackage>, names: set<Name>)
    returns (remaining: map<Name, SystemPackage>, globals: map<Name, StorePath>)
    requires DepsWellKeyed(pkgs)
    requires AllUniform(pkgs, names)
    ensures remaining.Keys == pkgs.Keys
    ensures forall k | k in pkgs :: remaining[k] == pkgs[k].(deps := pkgs[k].deps - names)
    ensures globals.Keys == names * DepNames(pkgs)
    ensures Agrees(pkgs, globals)
  {
    remaining := pkgs;
    globals := map[];
    var done: set<Name> := {};
    TakenNone(pkgs, names);
    while done != pkgs.Keys
      invariant TakenSoFar(pkgs, names, done, remaining, globals)
      decreases |pkgs.Keys - done|
    {
      var k :| k in pkgs.Keys - done;
      var cur;
      cur, globals := TakeFromPackage(pkgs, names, k, globals);
      TakeFinish(pkgs, names, done, k, remaining, globals, cur);
      remaining := remaining[k := remaining[k].(deps := cur)];
      done := done + {k};
    }
    TakenAll(pkgs, names, remaining, globals);
  }

  /** The outcome `isolate_global_dependencies` promises: every package
      keeps its key and path and loses exactly its global dependencies, and
      the global dependencies are returned, each as every package that
      carried it had it. */
  ghost predicate Isolated(pkgs: map<Name, SystemPackage>, remaining: map<Name, SystemPackage>, globals: map<Name, StorePath>) {
    && remaining.Keys == pkgs.Keys
    && (forall k | k in pkgs :: remaining[k].path == pkgs[k].path && remaining[k].deps == pkgs[k].deps - GlobalNames(pkgs))
    && globals.Keys == GlobalNames(pkgs)
    && Agrees(pkgs, globals)
  }

  /** `isolate_global_dependencies`: the version pass, the selection of the
      names met with a single version, and the removal pass. The source
      updates the package map in place and always returns `Ok`; here the
      updated map and the global dependencies are the two results. */
  method IsolateGlobalDependencies(pkgs: map<Name, SystemPackage>)
    returns (remaining: map<Name, SystemPackage>, globals: map<Name, StorePath>)
    requires DepsWellKeyed(pkgs)
    ensures remaining.Keys == pkgs.Keys
    ensures forall k | k in pkgs :: remaining[k].path == pkgs[k].path && remaining[k].deps == pkgs[k].deps - GlobalNames(pkgs)
    ensures globals.Keys == GlobalNames(pkgs)
    ensures forall n, k | n in globals && k in pkgs && n in pkgs[k].deps :: globals[n] == pkgs[k].deps[n]
  {
    ghost var visited;
    var tracker;
    tracker, visited := ScanVersions(pkgs);
    var depNames := UnflaggedNames(tracker);
    assert depNames * DepNames(pkgs) == GlobalNames(pkgs);
    remaining, globals := TakeGlobals(pkgs, depNames);
  }

  /** The remaining dependencies and the global ones together give back
      every package's original dependencies, and no package keeps a global
      one. */
  lemma IsolatedRestores(pkgs: map<Name, SystemPackage>, remaining: map<Name, SystemPackage>, globals: map<Name, StorePath>, k: Name)
    requires Isolated(pkgs, remaining, globals) && k in pkgs
    ensures forall n | n in globals :: n !in remaining[k].deps
    ensures pkgs[k].deps == remaining[k].deps + (map n | n in globals && n in pkgs[k].deps :: globals[n])
  {
    var deps := pkgs[k].deps;
    forall n | n in globals && n in deps ensures globals[n] == deps[n] {
      assert k in pkgs && n in pkgs[k].deps;
    }
    RestoreDeps(deps, remaining[k].deps, globals, GlobalNames(pkgs));
  }

  /** Removing the names of `g` from `deps` and adding back the entries of
      `globals`, which agree with `deps`, gives `deps` again. */
  lemma RestoreDeps(deps: map<Name, StorePath>, rest: map<Name, StorePath>, globals: map<Name, StorePath>, g: set<Name>)
    requires rest == deps - g && globals.Keys == g
    requires forall n | n in globals && n in deps :: globals[n] == deps[n]
    ensures forall n | n in globals :: n !in rest
    ensures deps == rest + (map n | n in globals && n in deps :: globals[n])
  {
    var taken := map n | n in globals && n in deps :: globals[n];
    var back := rest + taken;
    forall n | n in deps ensures n in back && back[n] == deps[n] {
      if n in globals {
        assert n in taken;
      } else {
        assert n in rest;
      }
    }
    assert back.Keys == deps.Keys;
  }

  /** The outcome is fully determined by the packages: the order in which
      the passes meet packages and dependencies does not matter. */
  lemma IsolatedUnique(pkgs: map<Name, SystemPackage>, r1: map<Name, SystemPackage>, g1: map<Name, StorePath>,
                       r2: map<Name, SystemPackage>, g2: map<Name, StorePath>)
    requires Isolated(pkgs, r1, g1) && Isolated(pkgs, r2, g2)
    ensures r1 == r2 && g1 == g2
  {
    GlobalsUnique(pkgs, g1, g2);
    RemainingUnique(pkgs, r1, r2);
  }

  lemma GlobalsUnique(pkgs: map<Name, SystemPackage>, g1: map<Name, StorePath>, g2: map<Name, StorePath>)
    requires g1.Keys == GlobalNames(pkgs) && Agrees(pkgs, g1)
    requires g2.Keys == GlobalNames(pkgs) && Agrees(pkgs, g2)
    ensures g1 == g2
  {
    forall n | n in g1 ensures g1[n] == g2[n] {
      var k :| k in pkgs && n in pkgs[k].deps;
    }
  }

  lemma RemainingUnique(pkgs: map<Name, SystemPackage>, r1: map<Name, SystemPackage>, r2: map<Name, SystemPackage>)
    requires r1.Keys == pkgs.Keys && r2.Keys == pkgs.Keys
    requires forall k | k in pkgs :: r1[k].path == pkgs[k].path && r1[k].deps == pkgs[k].deps - GlobalNames(pkgs)
    requires forall k | k in pkgs :: r2[k].path == pkgs[k].path && r2[k].deps == pkgs[k].deps - GlobalNames(pkgs)
    ensures r1 == r2
  {
    forall k | k in pkgs ensures r1[k] == r2[k] {
      assert r1[k].path == r2[k].path && r1[k].deps == r2[k].deps;
    }
  }
}
