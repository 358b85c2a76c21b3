/** The newer generation of the store module (src/store/mod.rs): a store path
    is parsed from its bytes, by the positions of its dashes, into a `Store`
    whose suffix is a field of its own; records that share a name are
    deduplicated by registration time. A record's identity is its name only,
    so every collection of records is a map keyed by name. */
module Stores {
  import opened Common

  type Name = seq<byte>

  datatype Store = Store(
    id: u32,
    name: seq<byte>,
    version: seq<byte>,
    suffix: Option<seq<byte>>,
    registerTime: u32)

  /** A package with its deduplicated dependency closure. */
  datatype Derivation = Derivation(store: Store, deps: map<Name, Store>)

  /** A map of records behaves like the source's name-hashed set: every
      record is filed under its own name. */
  predicate WellKeyed(m: map<Name, Store>) {
    forall k | k in m :: m[k].name == k
  }

  /** Length of "/nix/store/" followed by a 32-character hash and a dash. */
  const PREFIX_LEN: nat := 44
  const DASH_POS: nat := PREFIX_LEN - 1

  /** Two same-named records registered less than this many seconds apart
      come from the same system update. */
  const DUPLICATE_WINDOW: int := 3600

  // ---------------------------------------------------------------------
  // Byte classes

  predicate HasAsciiDigit(s: seq<byte>) {
    exists i | 0 <= i < |s| :: IsAsciiDigit(s[i])
  }

  predicate IsVersionByte(b: byte) {
    IsAsciiDigit(b) || b == DOT || IsAsciiLower(b) || b == UNDERSCORE
  }

  predicate AllVersionBytes(s: seq<byte>) {
    forall i | 0 <= i < |s| :: IsVersionByte(s[i])
  }

  /** `Store::is_version_str`: a leading `v` must be followed by a digit
      and is then skipped; otherwise the first byte must be a digit; every
      remaining byte must be a digit, `.`, `_` or a lower-case letter. */
  predicate IsVersionStr(bytes: seq<byte>) {
    if |bytes| == 0 then false
    else if bytes[0] == LOWER_V then
      if |bytes| < 2 || !IsAsciiDigit(bytes[1]) then false
      else AllVersionBytes(bytes[1..])
    else if !IsAsciiDigit(bytes[0]) then false
    else AllVersionBytes(bytes)
  }

  /** A fragment looks like a version exactly when it starts with a digit,
      or with `v` and then a digit, and holds only digits, `.`, `_` and
      lower-case letters; so a bare `v` is not a version, and a version
      always holds a digit. */
  lemma IsVersionStrMeans(bytes: seq<byte>)
    ensures IsVersionStr(bytes) <==>
      && |bytes| > 0
      && (IsAsciiDigit(bytes[0]) || (bytes[0] == LOWER_V && |bytes| >= 2 && IsAsciiDigit(bytes[1])))
      && AllVersionBytes(bytes)
    ensures IsVersionStr(bytes) ==> HasAsciiDigit(bytes)
  {
    if |bytes| >= 2 && bytes[0] == LOWER_V {
      assert forall i | 1 <= i < |bytes| :: bytes[1..][i - 1] == bytes[i];
      assert IsVersionByte(bytes[0]);
    }
  }

  // ---------------------------------------------------------------------
  // Prefix stripping

  /** Drops "/nix/store/<hash>-". Paths with the usual 32-character hash are
      cut at the fixed position; any other path after its first dash. The
      result, when there is one, is never empty. */
  function StripPrefix(bytes: seq<byte>): (r: Option<seq<byte>>)
    ensures r.Some? ==>
      && 0 < |r.value| < |bytes|
      && bytes[|bytes| - |r.value| - 1] == DASH
      && r.value == bytes[|bytes| - |r.value|..]
    ensures |bytes| > PREFIX_LEN && bytes[DASH_POS] == DASH ==> r == Some(bytes[PREFIX_LEN..])
    ensures !(|bytes| > PREFIX_LEN && bytes[DASH_POS] == DASH) ==>
      && (r.None? <==> DASH !in bytes || (bytes[|bytes| - 1] == DASH && DASH !in bytes[..|bytes| - 1]))
      && (r.Some? ==> DASH !in bytes[..|bytes| - |r.value| - 1])
  {
    if |bytes| > PREFIX_LEN && bytes[DASH_POS] == DASH then Some(bytes[PREFIX_LEN..])
    else match IndexOf(bytes, DASH)
      case None => None
      case Some(pos) =>
        if |bytes| <= pos + 1 then
          assert bytes[..|bytes| - 1] == bytes[..pos];
          None
        else
          assert DASH in bytes[..pos + 1];
          Some(bytes[pos + 1..])
  }

  /** A path without the usual hash is cut after its first dash, and has
      nothing left when that dash ends it. */
  lemma StripAtFirstDash(bytes: seq<byte>, pos: nat)
    requires !(|bytes| > PREFIX_LEN && bytes[DASH_POS] == DASH)
    requires pos < |bytes| && bytes[pos] == DASH
    requires forall i | 0 <= i < pos :: bytes[i] != DASH
    ensures StripPrefix(bytes) == if pos + 1 < |bytes| then Some(bytes[pos + 1..]) else None
  {
    IndexOfIsFirst(bytes, DASH, pos);
  }

  // ---------------------------------------------------------------------
  // Dash positions and the fragments between them

  /** `ds` lists positions of `p` in increasing order. */
  ghost predicate IncreasingPositions(p: seq<byte>, ds: seq<nat>) {
    && (forall k | 0 <= k < |ds| :: ds[k] < |p|)
    && (forall k, m | 0 <= k < m < |ds| :: ds[k] < ds[m])
  }

  /** `ds` lists, in increasing order, positions of `p` that hold a dash. */
  ghost predicate DashesAt(p: seq<byte>, ds: seq<nat>) {
    && IncreasingPositions(p, ds)
    && (forall k | 0 <= k < |ds| :: p[ds[k]] == DASH)
  }

  /** Position `i` is one of `ds`; a name of its own, so that the
      completeness half of `IsDashIndexList` is used only where a proof
      asks for it. */
  ghost predicate Listed(ds: seq<nat>, i: nat) {
    i in ds
  }

  /** `ds` lists, in increasing order, exactly the positions of `p` that
      hold a dash. */
  ghost predicate IsDashIndexList(p: seq<byte>, ds: seq<nat>) {
    && DashesAt(p, ds)
    && (forall i {:trigger Listed(ds, i)} | 0 <= i < |p| && p[i] == DASH :: Listed(ds, i))
  }

  /** The positions of every dash in `p`, in increasing order. */
  function DashIndices(p: seq<byte>): (ds: seq<nat>)
    ensures IsDashIndexList(p, ds)
  {
    if |p| == 0 then []
    else
      var init := DashIndices(p[..|p| - 1]);
      assert forall i | 0 <= i < |p| - 1 :: p[..|p| - 1][i] == p[i];
      assert forall i | 0 <= i < |p| - 1 && p[i] == DASH :: Listed(init, i);
      init + (if p[|p| - 1] == DASH then [|p| - 1] else [])
  }

  /** A list of dash positions is determined by the path. */
  lemma {:induction false} DashIndexListUnique(p: seq<byte>, ds: seq<nat>, es: seq<nat>)
    requires IsDashIndexList(p, ds) && IsDashIndexList(p, es)
    ensures ds == es
  {
    forall x
      ensures x in ds <==> x in es
    {
      if x in ds {
        assert Listed(es, x);
      }
      if x in es {
        assert Listed(ds, x);
      }
    }
    IncreasingSameElements(ds, es);
  }

  /** The dash positions of `p` are `ds` once `ds` is shown to list them. */
  lemma DashIndicesAre(p: seq<byte>, ds: seq<nat>)
    requires IsDashIndexList(p, ds)
    ensures DashIndices(p) == ds
  {
    DashIndexListUnique(p, DashIndices(p), ds);
  }

  lemma {:induction false} IncreasingSameElements(ds: seq<nat>, es: seq<nat>)
    requires forall k, m | 0 <= k < m < |ds| :: ds[k] < ds[m]
    requires forall k, m | 0 <= k < m < |es| :: es[k] < es[m]
    requires forall x :: x in ds <==> x in es
    ensures ds == es
  {
    if ds != [] {
      assert ds[0] in es;
    }
    if es != [] {
      assert es[0] in ds;
    }
    if ds != [] && es != [] {
      assert ds[0] == es[0];
      forall x
        ensures x in ds[1..] <==> x in es[1..]
      {
        if x in ds[1..] {
          var k :| 0 <= k < |ds[1..]| && ds[1..][k] == x;
          assert x in es;
          assert x != es[0];
        }
        if x in es[1..] {
          var k :| 0 <= k < |es[1..]| && es[1..][k] == x;
          assert x in ds;
          assert x != ds[0];
        }
      }
      IncreasingSameElements(ds[1..], es[1..]);
      assert ds == [ds[0]] + ds[1..];
      assert es == [es[0]] + es[1..];
    }
  }

  /** The fragment after the `j`-th dash, up to the next dash or the end. */
  function Fragment(p: seq<byte>, ds: seq<nat>, j: nat): seq<byte>
    requires IncreasingPositions(p, ds) && j < |ds|
  {
    if j + 1 < |ds| then p[ds[j] + 1..ds[j + 1]] else p[ds[j] + 1..]
  }

  /** The first dash, from the `from`-th on, whose following fragment looks
      like a version. */
  function FirstVersionDash(p: seq<byte>, ds: seq<nat>, from: nat): (r: Option<nat>)
    requires IncreasingPositions(p, ds) && from <= |ds|
    decreases |ds| - from
    ensures r.Some? ==>
      && from <= r.value < |ds|
      && IsVersionStr(Fragment(p, ds, r.value))
      && forall m | from <= m < r.value :: !IsVersionStr(Fragment(p, ds, m))
    ensures r.None? ==> forall m | from <= m < |ds| :: !IsVersionStr(Fragment(p, ds, m))
  {
    if from == |ds| then None
    else if IsVersionStr(Fragment(p, ds, from)) then Some(from)
    else FirstVersionDash(p, ds, from + 1)
  }

  // ---------------------------------------------------------------------
  // Parsing

  /** What `Store::parse` yields for a path whose prefix is already
      stripped. */
  function ParseStripped(id: u32, registerTime: u32, p: seq<byte>): Option<Store> {
    var ds := DashIndices(p);
    if |ds| == 0 then None
    else if |ds| == 1 then
      if HasAsciiDigit(p[ds[0] + 1..]) then
        Some(Store(id, p[..ds[0]], p[ds[0] + 1..], None, registerTime))
      else None
    else ParseFragments(id, registerTime, p, ds)
  }

  /** `Store::parse` on a stripped path with two dashes or more: the last
      fragment is a suffix when it has no digit, and the version starts after
      the first dash whose fragment looks like a version. */
  function ParseFragments(id: u32, registerTime: u32, p: seq<byte>, ds: seq<nat>): Option<Store>
    requires IncreasingPositions(p, ds) && |ds| >= 2
  {
    var last := ds[|ds| - 1];
    var hasSuffix := !HasAsciiDigit(p[last + 1..]);
    var suffixStart := if hasSuffix then last else |p|;
    match FirstVersionDash(p, ds, 0)
    case None => None
    case Some(k) =>
      VersionBeforeSuffix(p, ds, k);
      Some(Store(id, p[..ds[k]], p[ds[k] + 1..suffixStart],
                 if hasSuffix then Some(p[last + 1..]) else None, registerTime))
  }

  function ParseSpec(id: u32, registerTime: u32, path: seq<byte>): Option<Store> {
    match StripPrefix(path)
    case None => None
    case Some(p) => ParseStripped(id, registerTime, p)
  }

  /** The dash positions `Store::parse` collects from the stripped path. */
  method DashPositions(p: seq<byte>) returns (fragments: seq<nat>)
    ensures fragments == DashIndices(p)
  {
    fragments := [];
    var i := 0;
    while i < |p|
      invariant 0 <= i <= |p|
      invariant fragments == DashIndices(p[..i])
    {
      assert p[..i + 1][..i] == p[..i];
      if p[i] == DASH {
        fragments := fragments + [i];
      }
      i := i + 1;
    }
    assert p[..|p|] == p;
  }

  /** The `while let` walk of `Store::parse` over the dash positions: the
      first dash whose following fragment looks like a version. */
  method FindVersionDash(p: seq<byte>, fragments: seq<nat>) returns (found: Option<nat>)
    requires IncreasingPositions(p, fragments)
    ensures found == FirstVersionDash(p, fragments, 0)
  {
    var j := 0;
    while j < |fragments|
      invariant 0 <= j <= |fragments|
      invariant FirstVersionDash(p, fragments, j) == FirstVersionDash(p, fragments, 0)
    {
      var slice := if j + 1 < |fragments| then p[fragments[j] + 1..fragments[j + 1]]
                   else p[fragments[j] + 1..];
      if IsVersionStr(slice) {
        return Some(j);
      }
      j := j + 1;
    }
    return None;
  }

  /** `Store::parse`: strip the prefix, collect the dash positions, then walk
      them until a fragment looks like a version. */
  method Parse(id: u32, registerTime: u32, path: seq<byte>) returns (r: Option<Store>)
    ensures r == ParseSpec(id, registerTime, path)
  {
    var stripped := StripPrefix(path);
    if stripped.None? {
      return None;
    }
    var p := stripped.value;
    assert ParseSpec(id, registerTime, path) == ParseStripped(id, registerTime, p);
    r := ParseAfterPrefix(id, registerTime, p);
  }

  /** `Store::parse` once the prefix is stripped: no dash rejects, one dash
      takes the fast path. */
  method ParseAfterPrefix(id: u32, registerTime: u32, p: seq<byte>) returns (r: Option<Store>)
    ensures r == ParseStripped(id, registerTime, p)
  {
    var fragments := DashPositions(p);
    if |fragments| == 0 {
      return None;
    }
    if |fragments| == 1 {
      var version := p[fragments[0] + 1..];
      if !HasAsciiDigit(version) {
        return None;
      }
      return Some(Store(id, p[..fragments[0]], version, None, registerTime));
    }

    r := ParseMultiDash(id, registerTime, p, fragments);
  }

  /** The part of `Store::parse` after the single-dash fast path. */
  method ParseMultiDash(id: u32, registerTime: u32, p: seq<byte>, fragments: seq<nat>)
    returns (r: Option<Store>)
    requires IsDashIndexList(p, fragments) && |fragments| >= 2
    ensures r == ParseFragments(id, registerTime, p, fragments)
  {
    var lastFrag := fragments[|fragments| - 1];
    var suffix: Option<seq<byte>>, suffixStart: nat;
    if !HasAsciiDigit(p[lastFrag + 1..]) {
      suffix, suffixStart := Some(p[lastFrag + 1..]), lastFrag;
    } else {
      suffix, suffixStart := None, |p|;
    }

    var found := FindVersionDash(p, fragments);
    if found.None? {
      return None;
    }
    var k := found.value;
    ParseFragmentsFound(id, registerTime, p, fragments, k, suffix, suffixStart);
    return Some(Store(id, p[..fragments[k]], p[fragments[k] + 1..suffixStart], suffix, registerTime));
  }

  /** The record `ParseMultiDash` assembles from the suffix it settled on
      and the version dash it found is the one `ParseFragments` gives. */
  lemma ParseFragmentsFound(id: u32, registerTime: u32, p: seq<byte>, ds: seq<nat>, k: nat,
                            suffix: Option<seq<byte>>, suffixStart: nat)
    requires IncreasingPositions(p, ds) && |ds| >= 2 && FirstVersionDash(p, ds, 0) == Some(k)
    requires var last := ds[|ds| - 1];
      if HasAsciiDigit(p[last + 1..]) then suffix == None && suffixStart == |p|
      else suffix == Some(p[last + 1..]) && suffixStart == last
    ensures k < |ds| && ds[k] + 1 <= suffixStart <= |p|
    ensures ParseFragments(id, registerTime, p, ds)
         == Some(Store(id, p[..ds[k]], p[ds[k] + 1..suffixStart], suffix, registerTime))
  {
    VersionBeforeSuffix(p, ds, k);
    var last := ds[|ds| - 1];
    if HasAsciiDigit(p[last + 1..]) {
      assert ParseFragments(id, registerTime, p, ds)
          == Some(Store(id, p[..ds[k]], p[ds[k] + 1..|p|], None, registerTime));
    } else {
      assert ParseFragments(id, registerTime, p, ds)
          == Some(Store(id, p[..ds[k]], p[ds[k] + 1..last], Some(p[last + 1..]), registerTime));
    }
  }

  /** A last fragment without a digit cannot be the version, so the version
      dash comes before the last dash. */
  lemma VersionBeforeSuffix(p: seq<byte>, ds: seq<nat>, k: nat)
    requires IncreasingPositions(p, ds) && |ds| >= 2 && k < |ds| && IsVersionStr(Fragment(p, ds, k))
    ensures !HasAsciiDigit(p[ds[|ds| - 1] + 1..]) ==> k < |ds| - 1 && ds[k] < ds[|ds| - 1]
  {
    IsVersionStrMeans(Fragment(p, ds, k));
    assert Fragment(p, ds, |ds| - 1) == p[ds[|ds| - 1] + 1..];
  }

  /** Evaluation rules of `ParseStripped` for a path with two dashes or
      more whose dash positions and version dash are known: one without a
      suffix, one with, and one with no version. */
  lemma ParseStrippedWithoutSuffix(id: u32, registerTime: u32, p: seq<byte>, ds: seq<nat>, k: nat)
    requires IsDashIndexList(p, ds) && |ds| >= 2 && FirstVersionDash(p, ds, 0) == Some(k)
    requires HasAsciiDigit(p[ds[|ds| - 1] + 1..])
    ensures ParseStripped(id, registerTime, p) == Some(Store(id, p[..ds[k]], p[ds[k] + 1..], None, registerTime))
  {
    DashIndicesAre(p, ds);
    ParseFragmentsFound(id, registerTime, p, ds, k, None, |p|);
    assert ParseStripped(id, registerTime, p) == ParseFragments(id, registerTime, p, ds);
    SliceToEnd(p, ds[k] + 1);
  }

  lemma SliceToEnd(p: seq<byte>, a: nat)
    requires a <= |p|
    ensures p[a..|p|] == p[a..]
  {
  }

  lemma ParseStrippedWithSuffix(id: u32, registerTime: u32, p: seq<byte>, ds: seq<nat>, k: nat)
    requires IsDashIndexList(p, ds) && |ds| >= 2 && FirstVersionDash(p, ds, 0) == Some(k)
    requires !HasAsciiDigit(p[ds[|ds| - 1] + 1..])
    ensures k < |ds| - 1
    ensures ParseStripped(id, registerTime, p)
         == Some(Store(id, p[..ds[k]], p[ds[k] + 1..ds[|ds| - 1]], Some(p[ds[|ds| - 1] + 1..]), registerTime))
  {
    DashIndicesAre(p, ds);
    ParseFragmentsFound(id, registerTime, p, ds, k, Some(p[ds[|ds| - 1] + 1..]), ds[|ds| - 1]);
  }

  lemma ParseStrippedOneDash(id: u32, registerTime: u32, p: seq<byte>, d: nat)
    requires d < |p| && IsDashIndexList(p, [d])
    ensures ParseStripped(id, registerTime, p)
         == if HasAsciiDigit(p[d + 1..]) then Some(Store(id, p[..d], p[d + 1..], None, registerTime)) else None
  {
    DashIndicesAre(p, [d]);
  }

  lemma ParseStrippedNoVersion(id: u32, registerTime: u32, p: seq<byte>, ds: seq<nat>)
    requires IsDashIndexList(p, ds) && |ds| >= 2 && FirstVersionDash(p, ds, 0) == None
    ensures ParseStripped(id, registerTime, p) == None
  {
    DashIndicesAre(p, ds);
  }

  // ---------------------------------------------------------------------
  // What a successful parse means

  /** The text a record was parsed from: name, version and suffix joined by
      dashes. */
  function Rebuild(s: Store): seq<byte> {
    s.name + [DASH] + s.version + (match s.suffix case None => [] case Some(x) => [DASH] + x)
  }

  /** The bytes after position `d` up to the next dash or the end. */
  function RunAfter(p: seq<byte>, d: nat): seq<byte>
    requires d < |p|
  {
    var rest := p[d + 1..];
    match IndexOf(rest, DASH)
    case None => rest
    case Some(e) => rest[..e]
  }

  /** Parsing loses nothing: the name, the version and the suffix, joined
      by dashes, give back the stripped path. */
  lemma ParseStrippedReconstructs(id: u32, registerTime: u32, p: seq<byte>)
    ensures ParseStripped(id, registerTime, p).Some? ==> Rebuild(ParseStripped(id, registerTime, p).value) == p
  {
    var ds := DashIndices(p);
    if |ds| == 1 {
      assert p == p[..ds[0]] + [DASH] + p[ds[0] + 1..];
    } else if |ds| >= 2 {
      ParseFragmentsReconstructs(id, registerTime, p, ds);
    }
  }

  lemma ParseFragmentsReconstructs(id: u32, registerTime: u32, p: seq<byte>, ds: seq<nat>)
    requires DashesAt(p, ds) && |ds| >= 2
    ensures ParseFragments(id, registerTime, p, ds).Some? ==> Rebuild(ParseFragments(id, registerTime, p, ds).value) == p
  {
    var last := ds[|ds| - 1];
    assert Fragment(p, ds, |ds| - 1) == p[last + 1..];
    match FirstVersionDash(p, ds, 0)
    case None =>
    case Some(k) =>
      var d := ds[k];
      var r := ParseFragments(id, registerTime, p, ds).value;
      if HasAsciiDigit(p[last + 1..]) {
        CutAtDash(p, d);
        assert r == Store(id, p[..d], p[d + 1..], None, registerTime);
        assert Rebuild(r) == p[..d] + [DASH] + p[d + 1..] + [];
      } else {
        assert d < last;
        assert r == Store(id, p[..d], p[d + 1..last], Some(p[last + 1..]), registerTime);
        CutAtTwoDashes(p, d, last);
      }
  }

  lemma CutAtDash(p: seq<byte>, d: nat)
    requires d < |p| && p[d] == DASH
    ensures p == p[..d] + [DASH] + p[d + 1..]
  {
  }

  lemma CutAtTwoDashes(p: seq<byte>, d: nat, l: nat)
    requires d < l < |p| && p[d] == DASH && p[l] == DASH
    ensures p == p[..d] + [DASH] + p[d + 1..l] + ([DASH] + p[l + 1..])
  {
    var q := p[..d] + [DASH] + p[d + 1..l] + ([DASH] + p[l + 1..]);
    assert |q| == |p|;
    forall i | 0 <= i < |p|
      ensures q[i] == p[i]
    {
      if i < d {
      } else if i == d {
      } else if i < l {
        assert q[i] == p[d + 1..l][i - d - 1];
      } else if i == l {
      } else {
        assert q[i] == p[l + 1..][i - l - 1];
      }
    }
  }

  /** A whole store path parses to a record exactly when its prefix strips
      and the rest parses; the record then rebuilds the stripped text, which
      is what follows a dash of the path. */
  lemma ParseReconstructs(id: u32, registerTime: u32, path: seq<byte>)
    ensures ParseSpec(id, registerTime, path).Some? ==>
      && StripPrefix(path).Some?
      && Rebuild(ParseSpec(id, registerTime, path).value) == StripPrefix(path).value
      && path == path[..|path| - |StripPrefix(path).value|] + Rebuild(ParseSpec(id, registerTime, path).value)
  {
    match StripPrefix(path)
    case None =>
    case Some(p) =>
      ParseStrippedReconstructs(id, registerTime, p);
      assert path == path[..|path| - |p|] + path[|path| - |p|..];
  }

  /** A stripped path without a dash has no version and is rejected. */
  lemma ParseNoDash(id: u32, registerTime: u32, p: seq<byte>)
    requires DASH !in p
    ensures ParseStripped(id, registerTime, p) == None
  {
    var ds := DashIndices(p);
    assert forall k | 0 <= k < |ds| :: p[ds[k]] in p;
  }

  /** With exactly one dash the part after it is the version whenever it
      holds a digit, and the path is rejected otherwise. */
  lemma ParseOneDash(id: u32, registerTime: u32, name: seq<byte>, version: seq<byte>)
    requires DASH !in name && DASH !in version
    ensures ParseStripped(id, registerTime, name + [DASH] + version) ==
      if HasAsciiDigit(version) then Some(Store(id, name, version, None, registerTime)) else None
  {
    var p := name + [DASH] + version;
    assert forall i | 0 <= i < |name| :: p[i] == name[i] && name[i] in name;
    assert forall i | |name| < i < |p| :: p[i] == version[i - |name| - 1] && version[i - |name| - 1] in version;
    assert IsDashIndexList(p, [|name|]);
    DashIndexListUnique(p, DashIndices(p), [|name|]);
    assert p[..|name|] == name;
    assert p[|name| + 1..] == version;
  }

  /** The first dash of `rest` is at `e` when `e` holds a dash and nothing
      before it does. */
  lemma IndexOfDash(rest: seq<byte>, e: nat)
    requires e < |rest| && rest[e] == DASH && DASH !in rest[..e]
    ensures IndexOf(rest, DASH) == Some(e)
  {
    assert rest[e] in rest;
    var f := IndexOf(rest, DASH).value;
    assert forall q | 0 <= q < e :: rest[..e][q] == rest[q];
    assert forall q | 0 <= q < f :: rest[..f][q] == rest[q];
  }

  /** The fragment after the `j`-th dash is the run of bytes after that
      dash. */
  lemma FragmentIsRunAfter(p: seq<byte>, ds: seq<nat>, j: nat)
    requires IsDashIndexList(p, ds) && j < |ds|
    ensures Fragment(p, ds, j) == RunAfter(p, ds[j])
  {
    if j + 1 < |ds| {
      NoDashBetween(p, ds, j);
      RunAfterUpTo(p, ds[j], ds[j + 1]);
    } else {
      NoDashAfterLast(p, ds);
      RunAfterUpTo(p, ds[j], |p|);
    }
  }

  lemma NoDashBetween(p: seq<byte>, ds: seq<nat>, j: nat)
    requires IsDashIndexList(p, ds) && j + 1 < |ds|
    ensures forall i | ds[j] < i < ds[j + 1] :: p[i] != DASH
  {
    assert forall m | 0 <= m < |ds| :: ds[m] <= ds[j] || ds[j + 1] <= ds[m];
    assert forall i | ds[j] < i < ds[j + 1] :: p[i] == DASH ==> Listed(ds, i);
  }

  lemma NoDashAfterLast(p: seq<byte>, ds: seq<nat>)
    requires IsDashIndexList(p, ds) && |ds| > 0
    ensures forall i | ds[|ds| - 1] < i < |p| :: p[i] != DASH
  {
    assert forall m | 0 <= m < |ds| :: ds[m] <= ds[|ds| - 1];
    assert forall i | ds[|ds| - 1] < i < |p| :: p[i] == DASH ==> Listed(ds, i);
  }

  /** The run after a dash at `d` ends at the next dash `e`, or at the end
      of the path when `e` is its length. */
  lemma RunAfterUpTo(p: seq<byte>, d: nat, e: nat)
    requires d < e <= |p|
    requires e == |p| || p[e] == DASH
    requires forall i | d < i < e :: p[i] != DASH
    ensures RunAfter(p, d) == p[d + 1..e]
  {
    var rest := p[d + 1..];
    assert forall q | 0 <= q < |rest| :: rest[q] == p[d + 1 + q];
    if e < |p| {
      var f := e - d - 1;
      assert forall q | 0 <= q < f :: rest[..f][q] != DASH;
      IndexOfDash(rest, f);
    } else {
      assert forall q | 0 <= q < |rest| :: rest[q] != DASH;
      assert p[d + 1..e] == rest;
    }
  }

  /** Every dash of `p` is one of the listed dash positions. */
  lemma DashIsListed(p: seq<byte>, ds: seq<nat>, d: nat) returns (j: nat)
    requires IsDashIndexList(p, ds) && d < |p| && p[d] == DASH
    ensures j < |ds| && ds[j] == d
  {
    assert Listed(ds, d);
    j :| 0 <= j < |ds| && ds[j] == d;
  }

  /** With two dashes or more the path parses exactly when some dash is
      followed by a run of bytes that looks like a version. */
  lemma ParseSeveralDashesAccepts(id: u32, registerTime: u32, p: seq<byte>, d1: nat, d2: nat)
    requires d1 < d2 < |p| && p[d1] == DASH && p[d2] == DASH
    ensures ParseStripped(id, registerTime, p).Some? <==>
      exists d | 0 <= d < |p| && p[d] == DASH :: IsVersionStr(RunAfter(p, d))
  {
    var ds := DashIndices(p);
    var j1 := DashIsListed(p, ds, d1);
    var j2 := DashIsListed(p, ds, d2);
    assert ParseStripped(id, registerTime, p) == ParseFragments(id, registerTime, p, ds);
    VersionDashIffRun(p, ds);
  }

  /** Some listed dash is followed by a version-like fragment exactly when
      some dash of `p` is followed by a version-like run. */
  lemma VersionDashIffRun(p: seq<byte>, ds: seq<nat>)
    requires IsDashIndexList(p, ds)
    ensures FirstVersionDash(p, ds, 0).Some? <==>
      exists d | 0 <= d < |p| && p[d] == DASH :: IsVersionStr(RunAfter(p, d))
  {
    match FirstVersionDash(p, ds, 0)
    case None =>
      forall d | 0 <= d < |p| && p[d] == DASH
        ensures !IsVersionStr(RunAfter(p, d))
      {
        var j := DashIsListed(p, ds, d);
        FragmentIsRunAfter(p, ds, j);
      }
    case Some(k) =>
      FragmentIsRunAfter(p, ds, k);
  }

  /** With two dashes or more the name of a parsed record is everything
      before the first dash whose following run looks like a version. */
  lemma ParseSeveralDashesName(id: u32, registerTime: u32, p: seq<byte>, d1: nat, d2: nat)
    requires d1 < d2 < |p| && p[d1] == DASH && p[d2] == DASH
    ensures ParseStripped(id, registerTime, p).Some? ==>
      var n := |ParseStripped(id, registerTime, p).value.name|;
      && n < |p| && p[n] == DASH
      && ParseStripped(id, registerTime, p).value.name == p[..n]
      && IsVersionStr(RunAfter(p, n))
      && forall d | 0 <= d < n && p[d] == DASH :: !IsVersionStr(RunAfter(p, d))
  {
    var ds := DashIndices(p);
    var j1 := DashIsListed(p, ds, d1);
    var j2 := DashIsListed(p, ds, d2);
    assert |ds| >= 2;
    var r := ParseStripped(id, registerTime, p);
    assert r == ParseFragments(id, registerTime, p, ds);
    match FirstVersionDash(p, ds, 0)
    case None =>
    case Some(k) =>
      assert r.value.name == p[..ds[k]];
      FirstDashBeforeVersion(p, ds, k);
  }

  lemma FirstDashBeforeVersion(p: seq<byte>, ds: seq<nat>, k: nat)
    requires IsDashIndexList(p, ds) && FirstVersionDash(p, ds, 0) == Some(k)
    ensures IsVersionStr(RunAfter(p, ds[k]))
    ensures forall d | 0 <= d < ds[k] && p[d] == DASH :: !IsVersionStr(RunAfter(p, d))
  {
    FragmentIsRunAfter(p, ds, k);
    forall d | 0 <= d < ds[k] && p[d] == DASH
      ensures !IsVersionStr(RunAfter(p, d))
    {
      EarlierDashNoVersion(p, ds, k, d);
    }
  }

  lemma EarlierDashNoVersion(p: seq<byte>, ds: seq<nat>, k: nat, d: nat)
    requires IsDashIndexList(p, ds) && FirstVersionDash(p, ds, 0) == Some(k)
    requires d < ds[k] && p[d] == DASH
    ensures !IsVersionStr(RunAfter(p, d))
  {
    var j := DashIsListed(p, ds, d);
    assert j < k by {
      assert forall m | k <= m < |ds| :: ds[k] <= ds[m];
    }
    FragmentIsRunAfter(p, ds, j);
  }

  /** With two dashes or more the text after the last dash of a parsed path
      is its suffix exactly when that text holds no digit. */
  lemma ParseSeveralDashesSuffix(id: u32, registerTime: u32, p: seq<byte>, d1: nat, d2: nat, l: nat)
    requires d1 < d2 < |p| && p[d1] == DASH && p[d2] == DASH
    requires l < |p| && p[l] == DASH && DASH !in p[l + 1..]
    ensures ParseStripped(id, registerTime, p).Some? ==>
      ParseStripped(id, registerTime, p).value.suffix ==
        if HasAsciiDigit(p[l + 1..]) then None else Some(p[l + 1..])
  {
    var ds := DashIndices(p);
    var j1 := DashIsListed(p, ds, d1);
    var j2 := DashIsListed(p, ds, d2);
    assert ParseStripped(id, registerTime, p) == ParseFragments(id, registerTime, p, ds);
    FragmentsSuffix(id, registerTime, p, ds, l);
  }

  lemma FragmentsSuffix(id: u32, registerTime: u32, p: seq<byte>, ds: seq<nat>, l: nat)
    requires IsDashIndexList(p, ds) && |ds| >= 2
    requires l < |p| && p[l] == DASH && DASH !in p[l + 1..]
    ensures ParseFragments(id, registerTime, p, ds).Some? ==>
      ParseFragments(id, registerTime, p, ds).value.suffix ==
        if HasAsciiDigit(p[l + 1..]) then None else Some(p[l + 1..])
  {
    LastDashIsLast(p, ds, l);
  }

  lemma LastDashIsLast(p: seq<byte>, ds: seq<nat>, l: nat)
    requires IsDashIndexList(p, ds) && l < |p| && p[l] == DASH && DASH !in p[l + 1..]
    ensures |ds| > 0 && ds[|ds| - 1] == l
  {
    var j := DashIsListed(p, ds, l);
    var last := ds[|ds| - 1];
    assert forall m | 0 <= m < |ds| :: ds[m] <= last;
    assert forall i | l < i < |p| :: p[l + 1..][i - l - 1] == p[i];
  }

  // ---------------------------------------------------------------------
  // Removing ambiguous duplicates (`Store::get_unique`)

  /** The two sets `get_unique` keeps while it walks the records: the
      records retained so far, by name, and the names dropped for good. */
  datatype Dedup = Dedup(unique: map<Name, Store>, duplicates: set<Name>)

  /** A later same-named record conflicts with the retained one when their
      versions differ and they were registered less than an hour apart. */
  predicate Conflicting(existing: Store, later: Store) {
    var newer := if existing.registerTime >= later.registerTime then existing.registerTime else later.registerTime;
    var older := if existing.registerTime <= later.registerTime then existing.registerTime else later.registerTime;
    (newer - older) as int < DUPLICATE_WINDOW && existing.version != later.version
  }

  /** One turn of the `get_unique` loop. */
  function Step(d: Dedup, s: Store): Dedup {
    if s.name in d.duplicates then d
    else if s.name in d.unique then
      if Conflicting(d.unique[s.name], s) then Dedup(d.unique - {s.name}, d.duplicates + {s.name})
      else d
    else Dedup(d.unique[s.name := s], d.duplicates)
  }

  /** The state of `get_unique` after walking `stores` in order. */
  function Dedupe(stores: seq<Store>): Dedup {
    if |stores| == 0 then Dedup(map[], {})
    else Step(Dedupe(stores[..|stores| - 1]), stores[|stores| - 1])
  }

  /** `Store::get_unique`. */
  method GetUnique(stores: seq<Store>) returns (unique: map<Name, Store>)
    ensures unique == Dedupe(stores).unique
  {
    unique := map[];
    var duplicates: set<Name> := {};
    for i := 0 to |stores|
      invariant Dedup(unique, duplicates) == Dedupe(stores[..i])
    {
      assert stores[..i + 1][..i] == stores[..i];
      var store := stores[i];
      if store.name in duplicates {
        continue;
      }
      if store.name in unique {
        var existing := unique[store.name];
        if Conflicting(existing, store) {
          unique := unique - {store.name};
          duplicates := duplicates + {store.name};
        }
        continue;
      }
      unique := unique[store.name := store];
    }
    assert stores[..|stores|] == stores;
  }

  function Names(stores: seq<Store>): (r: seq<Name>)
    ensures |r| == |stores| && forall i | 0 <= i < |stores| :: r[i] == stores[i].name
  {
    seq(|stores|, i requires 0 <= i < |stores| => stores[i].name)
  }

  /** A name is ambiguous when some later record under it conflicts with
      its first record. */
  ghost predicate Ambiguous(stores: seq<Store>, n: Name) {
    match IndexOf(Names(stores), n)
    case None => false
    case Some(i) => exists j | i < j < |stores| :: stores[j].name == n && Conflicting(stores[i], stores[j])
  }

  /** What `get_unique` keeps, name by name: an ambiguous name is dropped
      for good; any other name that occurs keeps its first record,
      whatever same-named records follow it. */
  lemma {:induction false} DedupeByName(stores: seq<Store>, n: Name)
    ensures KeptByName(stores, n)
  {
    if |stores| > 0 {
      var init := stores[..|stores| - 1];
      var s := stores[|stores| - 1];
      DedupeByName(init, n);
      assert stores == init + [s];
      if n in Names(init) {
        DedupeByNameSeen(init, s, n);
      } else {
        DedupeByNameNew(init, s, n);
      }
    }
  }

  /** The three facts `DedupeByName` states about one name. */
  ghost predicate KeptByName(stores: seq<Store>, n: Name) {
    && (n in Dedupe(stores).duplicates <==> Ambiguous(stores, n))
    && (n in Dedupe(stores).unique <==> n in Names(stores) && !Ambiguous(stores, n))
    && (n in Dedupe(stores).unique ==> Dedupe(stores).unique[n] == stores[IndexOf(Names(stores), n).value])
  }

  lemma DedupeByNameNew(init: seq<Store>, s: Store, n: Name)
    requires n !in Names(init) && KeptByName(init, n)
    ensures KeptByName(init + [s], n)
  {
    var stores := init + [s];
    assert stores[..|stores| - 1] == init;
    assert Names(stores) == Names(init) + [s.name];
    IndexOfAppend(Names(init), s.name, n);
    assert !Ambiguous(init, n);
    if s.name == n {
      assert !Ambiguous(stores, n);
    } else {
      assert n !in Names(stores);
    }
  }

  lemma DedupeByNameSeen(init: seq<Store>, s: Store, n: Name)
    requires n in Names(init) && KeptByName(init, n)
    ensures KeptByName(init + [s], n)
  {
    var stores := init + [s];
    assert stores[..|stores| - 1] == init;
    assert Names(stores) == Names(init) + [s.name];
    IndexOfAppend(Names(init), s.name, n);
    var i := IndexOf(Names(init), n).value;
    assert IndexOf(Names(stores), n) == Some(i);
    if s.name == n && Conflicting(init[i], s) {
      assert stores[|init|] == s && stores[i] == init[i];
      assert Ambiguous(stores, n);
    } else {
      SameAmbiguity(init, s, n, i);
    }
  }

  /** A record that does not conflict with the first record of `n` leaves
      the ambiguity of `n` as it was. */
  lemma SameAmbiguity(init: seq<Store>, s: Store, n: Name, i: nat)
    requires IndexOf(Names(init), n) == Some(i) && IndexOf(Names(init + [s]), n) == Some(i)
    requires !(s.name == n && Conflicting(init[i], s))
    ensures Ambiguous(init + [s], n) <==> Ambiguous(init, n)
  {
    var stores := init + [s];
    assert forall j | 0 <= j < |init| :: stores[j] == init[j];
    if Ambiguous(stores, n) {
      var j :| i < j < |stores| && stores[j].name == n && Conflicting(stores[i], stores[j]);
      assert j < |init|;
    }
  }

  /** `get_unique` files every record under its own name, keeps only
      records it was given, and never keeps a name it has dropped. */
  lemma {:induction false} DedupeWellFormed(stores: seq<Store>)
    ensures WellKeyed(Dedupe(stores).unique)
    ensures forall n | n in Dedupe(stores).unique :: Dedupe(stores).unique[n] in stores
    ensures Dedupe(stores).unique.Keys !! Dedupe(stores).duplicates
  {
    if |stores| > 0 {
      var init := stores[..|stores| - 1];
      DedupeWellFormed(init);
      assert forall x | x in init :: x in stores;
    }
  }

  /** A dropped name stays dropped whatever records come later. */
  lemma {:induction false} DuplicatesPersist(stores: seq<Store>, more: seq<Store>)
    ensures Dedupe(stores).duplicates <= Dedupe(stores + more).duplicates
    ensures forall n | n in Dedupe(stores).duplicates :: n !in Dedupe(stores + more).unique
  {
    if |more| > 0 {
      var all := stores + more;
      assert all[..|all| - 1] == stores + more[..|more| - 1];
      DuplicatesPersist(stores, more[..|more| - 1]);
    } else {
      assert stores + more == stores;
    }
    DedupeWellFormed(stores + more);
  }

  // ---------------------------------------------------------------------
  // Records from database rows (the parsing half of `all_from_system`)

  /** A row of the store database's valid paths, as the queries select it:
      id, path and registration time. */
  datatype Row = Row(id: i32, path: seq<byte>, registrationTime: i32)

  function ParseRow(row: Row): Option<Store> {
    ParseSpec(I32AsU32(row.id), I32AsU32(row.registrationTime), row.path)
  }

  /** The `filter_map` over the rows: the records of the rows that parse,
      in row order. */
  function ParseRows(rows: seq<Row>): (r: seq<Store>)
    ensures |r| <= |rows|
    ensures forall x | x in r :: exists i | 0 <= i < |rows| :: ParseRow(rows[i]) == Some(x)
    ensures forall i | 0 <= i < |rows| :: ParseRow(rows[i]).Some? ==> ParseRow(rows[i]).value in r
  {
    if |rows| == 0 then []
    else
      var init := ParseRows(rows[..|rows| - 1]);
      assert forall i | 0 <= i < |rows| - 1 :: rows[..|rows| - 1][i] == rows[i];
      match ParseRow(rows[|rows| - 1])
      case None => init
      case Some(s) => init + [s]
  }

  /** `all_from_system` once the query has run: the rows, newest first,
      parsed and deduplicated. */
  function UniqueFromRows(rows: seq<Row>): map<Name, Store> {
    Dedupe(ParseRows(rows)).unique
  }

  /** Every record `all_from_system` keeps is filed under its name and is
      what one of the rows parses to. */
  lemma UniqueFromRowsSound(rows: seq<Row>)
    ensures WellKeyed(UniqueFromRows(rows))
    ensures forall n | n in UniqueFromRows(rows) ::
      exists i | 0 <= i < |rows| :: ParseRow(rows[i]) == Some(UniqueFromRows(rows)[n])
  {
    DedupeWellFormed(ParseRows(rows));
  }

  /** The `filter_map` keeps row order: parsing two runs of rows one after
      the other gives their records one after the other. */
  lemma {:induction false} ParseRowsAppend(a: seq<Row>, b: seq<Row>)
    ensures ParseRows(a + b) == ParseRows(a) + ParseRows(b)
  {
    if |b| == 0 {
      assert a + b == a;
    } else {
      var init := b[..|b| - 1];
      assert b == init + [b[|b| - 1]];
      ParseRowsAppend(a, init);
      ParseRowsAppendStep(a, init, b[|b| - 1]);
    }
  }

  lemma ParseRowsAppendStep(a: seq<Row>, init: seq<Row>, r: Row)
    requires ParseRows(a + init) == ParseRows(a) + ParseRows(init)
    ensures ParseRows(a + (init + [r])) == ParseRows(a) + ParseRows(init + [r])
  {
    SnocAssoc(a, init, r);
    ParseRowsSnoc(a + init, r);
    ParseRowsSnoc(init, r);
    if ParseRow(r).Some? {
      SnocAssoc(ParseRows(a), ParseRows(init), ParseRow(r).value);
    }
  }

  lemma SnocAssoc<T>(x: seq<T>, y: seq<T>, v: T)
    ensures x + (y + [v]) == (x + y) + [v]
  {
  }

  /** Row `row` parses to a record named `n`. */
  ghost predicate ParsesTo(row: Row, n: Name) {
    ParseRow(row).Some? && ParseRow(row).value.name == n
  }

  /** Row `i` is the first row that parses to a record named `n`. */
  ghost predicate FirstRowFor(rows: seq<Row>, n: Name, i: int) {
    0 <= i < |rows| && ParsesTo(rows[i], n) && forall j | 0 <= j < i :: !ParsesTo(rows[j], n)
  }

  /** Some later row parses to a record named `n` that conflicts with the
      record of the first row for `n`. */
  ghost predicate RowsAmbiguous(rows: seq<Row>, n: Name) {
    exists i, j | FirstRowFor(rows, n, i) && i < j < |rows| && ParsesTo(rows[j], n) ::
      Conflicting(ParseRow(rows[i]).value, ParseRow(rows[j]).value)
  }

  /** A name is among the parsed records iff some row parses to it. */
  lemma ParsedNames(rows: seq<Row>, n: Name)
    ensures n in Names(ParseRows(rows)) <==> exists j | 0 <= j < |rows| :: ParsesTo(rows[j], n)
  {
    var r := ParseRows(rows);
    if n in Names(r) {
      var k :| 0 <= k < |r| && Names(r)[k] == n;
      assert r[k] in r;
      var j :| 0 <= j < |rows| && ParseRow(rows[j]) == Some(r[k]);
      assert ParsesTo(rows[j], n);
    }
    forall j | 0 <= j < |rows| && ParsesTo(rows[j], n) ensures n in Names(r) {
      var x := ParseRow(rows[j]).value;
      var k :| 0 <= k < |r| && r[k] == x;
      assert Names(r)[k] == n;
    }
  }

  /** A row that parses to `n` has a first such row at or before it. */
  lemma {:induction false} FirstRowExists(rows: seq<Row>, n: Name, j: nat)
    requires j < |rows| && ParsesTo(rows[j], n)
    ensures exists i :: FirstRowFor(rows, n, i) && i <= j
    decreases j
  {
    if exists q | 0 <= q < j :: ParsesTo(rows[q], n) {
      var q :| 0 <= q < j && ParsesTo(rows[q], n);
      FirstRowExists(rows, n, q);
    } else {
      assert FirstRowFor(rows, n, j);
    }
  }

  /** One more parsed record changes the ambiguity of `n` only when it is
      named `n` and conflicts with the first record of `n`. */
  lemma AmbiguousAppend(init: seq<Store>, s: Store, n: Name)
    ensures n in Names(init) ==>
      (Ambiguous(init + [s], n) <==>
        Ambiguous(init, n) || (s.name == n && Conflicting(init[IndexOf(Names(init), n).value], s)))
    ensures n !in Names(init) ==> !Ambiguous(init + [s], n)
  {
    var stores := init + [s];
    assert Names(stores) == Names(init) + [s.name];
    IndexOfAppend(Names(init), s.name, n);
    if n in Names(init) {
      var i := IndexOf(Names(init), n).value;
      if s.name == n && Conflicting(init[i], s) {
        assert stores[|init|] == s && stores[i] == init[i];
        assert Ambiguous(stores, n);
      } else {
        SameAmbiguity(init, s, n, i);
      }
    }
  }

  /** The same for rows: once `n` has a first row in `init`, one more row
      makes `n` ambiguous only when it parses to a conflicting record. */
  lemma RowsAmbiguousAppend(init: seq<Row>, r: Row, n: Name, i0: nat)
    requires FirstRowFor(init, n, i0)
    ensures FirstRowFor(init + [r], n, i0)
    ensures RowsAmbiguous(init + [r], n) <==>
      RowsAmbiguous(init, n) || (ParsesTo(r, n) && Conflicting(ParseRow(init[i0]).value, ParseRow(r).value))
  {
    var rows := init + [r];
    assert forall q | 0 <= q < |init| :: rows[q] == init[q];
    assert rows[|init|] == r;
    assert FirstRowFor(rows, n, i0);
    if RowsAmbiguous(rows, n) {
      var i, j :| FirstRowFor(rows, n, i) && i < j < |rows| && ParsesTo(rows[j], n) &&
        Conflicting(ParseRow(rows[i]).value, ParseRow(rows[j]).value);
      assert i == i0;
      if j < |init| {
        assert FirstRowFor(init, n, i) && ParsesTo(init[j], n);
        assert RowsAmbiguous(init, n);
      }
    }
    if RowsAmbiguous(init, n) {
      var i, j :| FirstRowFor(init, n, i) && i < j < |init| && ParsesTo(init[j], n) &&
        Conflicting(ParseRow(init[i]).value, ParseRow(init[j]).value);
      assert i == i0;
      assert FirstRowFor(rows, n, i) && ParsesTo(rows[j], n);
    }
    if ParsesTo(r, n) && Conflicting(ParseRow(init[i0]).value, ParseRow(r).value) {
      assert ParsesTo(rows[|init|], n);
    }
  }

  /** The first parsed record named `n` is the record of the first row
      that parses to `n`. */
  ghost predicate FirstRecordAgrees(rows: seq<Row>, n: Name) {
    forall i | FirstRowFor(rows, n, i) ::
      n in Names(ParseRows(rows)) &&
      ParseRows(rows)[IndexOf(Names(ParseRows(rows)), n).value] == ParseRow(rows[i]).value
  }

  /** The parsed records make `n` ambiguous iff the rows do. */
  ghost predicate AmbiguityAgrees(rows: seq<Row>, n: Name) {
    Ambiguous(ParseRows(rows), n) <==> RowsAmbiguous(rows, n)
  }

  lemma {:induction false} RowsByName(rows: seq<Row>, n: Name)
    ensures FirstRecordAgrees(rows, n) && AmbiguityAgrees(rows, n)
  {
    if |rows| > 0 {
      var init := rows[..|rows| - 1];
      var r := rows[|rows| - 1];
      assert rows == init + [r];
      RowsByName(init, n);
      RowsByNameStep(init, r, n);
    }
  }

  lemma RowsByNameStep(init: seq<Row>, r: Row, n: Name)
    requires FirstRecordAgrees(init, n) && AmbiguityAgrees(init, n)
    ensures FirstRecordAgrees(init + [r], n) && AmbiguityAgrees(init + [r], n)
  {
    ParsedNames(init, n);
    if n in Names(ParseRows(init)) {
      var q :| 0 <= q < |init| && ParsesTo(init[q], n);
      FirstRowExists(init, n, q);
      var i0 :| FirstRowFor(init, n, i0) && i0 <= q;
      FirstRowStays(init, r, n, i0);
      SeenFirstRecord(init, r, n, i0);
      SeenAmbiguity(init, r, n, i0);
    } else {
      FirstRowLast(init, r, n);
      NewFirstRecord(init, r, n);
      NewAmbiguity(init, r, n);
    }
  }

  /** `ParseRows` on one more row. */
  lemma ParseRowsSnoc(init: seq<Row>, r: Row)
    ensures ParseRows(init + [r]) == if ParseRow(r).Some? then ParseRows(init) + [ParseRow(r).value] else ParseRows(init)
  {
    assert (init + [r])[..|init|] == init;
  }

  /** A first row for `n` in `init` stays the only first row. */
  lemma FirstRowStays(init: seq<Row>, r: Row, n: Name, i0: nat)
    requires FirstRowFor(init, n, i0)
    ensures FirstRowFor(init + [r], n, i0)
    ensures forall i | FirstRowFor(init + [r], n, i) :: i == i0
  {
    var rows := init + [r];
    assert forall q | 0 <= q < |init| :: rows[q] == init[q];
  }

  /** With no row of `init` for `n`, only the new row can be first, and
      nothing follows it. */
  lemma FirstRowLast(init: seq<Row>, r: Row, n: Name)
    requires forall q | 0 <= q < |init| :: !ParsesTo(init[q], n)
    ensures forall i | FirstRowFor(init + [r], n, i) :: i == |init|
    ensures !RowsAmbiguous(init + [r], n)
  {
    var rows := init + [r];
    assert forall q | 0 <= q < |init| :: rows[q] == init[q];
    assert forall q | 0 <= q < |init| :: !ParsesTo(rows[q], n);
  }

  lemma SeenFirstRecord(init: seq<Row>, r: Row, n: Name, i0: nat)
    requires FirstRowFor(init, n, i0) && FirstRecordAgrees(init, n)
    requires forall i | FirstRowFor(init + [r], n, i) :: i == i0
    ensures FirstRecordAgrees(init + [r], n)
  {
    ParseRowsSnoc(init, r);
    assert (init + [r])[i0] == init[i0];
    if ParseRow(r).Some? {
      SeenNameStays(ParseRows(init), ParseRow(r).value, n);
    }
  }

  /** A name the earlier records carry keeps looking up to the same record
      when one more record follows. */
  lemma SeenNameStays(pi: seq<Store>, s: Store, n: Name)
    requires n in Names(pi)
    ensures n in Names(pi + [s])
    ensures (pi + [s])[IndexOf(Names(pi + [s]), n).value] == pi[IndexOf(Names(pi), n).value]
  {
    IndexOfAppend(Names(pi), s.name, n);
    assert Names(pi + [s]) == Names(pi) + [s.name];
  }

  lemma SeenAmbiguity(init: seq<Row>, r: Row, n: Name, i0: nat)
    requires FirstRowFor(init, n, i0) && FirstRecordAgrees(init, n) && AmbiguityAgrees(init, n)
    ensures AmbiguityAgrees(init + [r], n)
  {
    var pi := ParseRows(init);
    ParseRowsSnoc(init, r);
    RowsAmbiguousAppend(init, r, n, i0);
    if ParseRow(r).Some? {
      var s := ParseRow(r).value;
      AmbiguousAppend(pi, s, n);
    }
  }

  lemma NewFirstRecord(init: seq<Row>, r: Row, n: Name)
    requires n !in Names(ParseRows(init))
    requires forall i | FirstRowFor(init + [r], n, i) :: i == |init|
    ensures FirstRecordAgrees(init + [r], n)
  {
    if ParsesTo(r, n) {
      ParseRowsSnoc(init, r);
      NewNameLast(ParseRows(init), ParseRow(r).value);
    }
  }

  /** A record whose name the earlier records do not carry is the one its
      name looks up to. */
  lemma NewNameLast(pi: seq<Store>, s: Store)
    requires s.name !in Names(pi)
    ensures s.name in Names(pi + [s])
    ensures (pi + [s])[IndexOf(Names(pi + [s]), s.name).value] == s
  {
    IndexOfAppend(Names(pi), s.name, s.name);
    assert Names(pi + [s]) == Names(pi) + [s.name];
  }

  lemma NewAmbiguity(init: seq<Row>, r: Row, n: Name)
    requires n !in Names(ParseRows(init))
    requires !RowsAmbiguous(init + [r], n)
    ensures AmbiguityAgrees(init + [r], n)
  {
    var pi := ParseRows(init);
    ParseRowsSnoc(init, r);
    if ParseRow(r).Some? {
      AmbiguousAppend(pi, ParseRow(r).value, n);
    } else {
      assert IndexOf(Names(pi), n).None?;
    }
  }

  /** What `all_from_system` keeps, name by name: a name is kept iff some
      row parses to it and no later row parses to a record that conflicts
      with the first row's; the kept record is that first row's. */
  lemma UniqueFromRowsByName(rows: seq<Row>, n: Name)
    ensures n in UniqueFromRows(rows) <==>
      (exists j | 0 <= j < |rows| :: ParsesTo(rows[j], n)) && !RowsAmbiguous(rows, n)
    ensures forall i | FirstRowFor(rows, n, i) && n in UniqueFromRows(rows) ::
      UniqueFromRows(rows)[n] == ParseRow(rows[i]).value
    ensures n in UniqueFromRows(rows) ==> exists i :: FirstRowFor(rows, n, i)
  {
    DedupeByName(ParseRows(rows), n);
    RowsByName(rows, n);
    ParsedNames(rows, n);
    if n in UniqueFromRows(rows) {
      var j :| 0 <= j < |rows| && ParsesTo(rows[j], n);
      FirstRowExists(rows, n, j);
    }
  }

  /** `Derivation::all_from_stores` for one package, once its dependency
      rows are queried. */
  function DerivationFromRows(store: Store, depRows: seq<Row>): (d: Derivation)
    ensures d.store == store && WellKeyed(d.deps)
    ensures d.deps == UniqueFromRows(depRows)
  {
    DedupeWellFormed(ParseRows(depRows));
    Derivation(store, UniqueFromRows(depRows))
  }

  /** The first occurrence of `n` in `xs + [x]`. */
  lemma IndexOfAppend<T>(xs: seq<T>, x: T, n: T)
    ensures IndexOf(xs + [x], n) ==
      if n in xs then IndexOf(xs, n) else if x == n then Some(|xs|) else None
  {
    var ys := xs + [x];
    assert forall q | 0 <= q < |xs| :: ys[q] == xs[q];
    if n in xs {
      var k := IndexOf(xs, n).value;
      assert forall q | 0 <= q < k :: xs[..k][q] == xs[q];
      IndexOfIsFirst(ys, n, k);
    } else if x == n {
      IndexOfIsFirst(ys, n, |xs|);
    } else {
      assert n !in ys;
    }
  }
}
