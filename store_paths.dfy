/** The older generation of the store module (src/store.rs): store paths
    are split into `-`-separated segments of text, a trailing alphabetic
    segment is folded into the name as `name|suffix`, and the version is
    the run of segments from the first version-like one on. */
module StorePaths {
  import opened Common

  type Name = string

  /** A parsed store path; its origin path is not part of the model. */
  datatype StorePath = StorePath(name: Name, version: string)

  /** `char::is_numeric`, restricted to ASCII. */
  predicate IsNumeric(c: char) {
    '0' <= c <= '9'
  }

  /** `char::is_alphabetic`, restricted to ASCII. */
  predicate IsAlphabetic(c: char) {
    'a' <= c <= 'z' || 'A' <= c <= 'Z'
  }

  predicate IsVersionChar(c: char) {
    IsNumeric(c) || c == '.' || ('a' <= c <= 'z') || c == '_'
  }

  predicate AllAlphabetic(s: string) {
    forall i | 0 <= i < |s| :: IsAlphabetic(s[i])
  }

  /** `StorePath::is_version_str`: a first character that is numeric or
      `v`, then only numeric characters, `.`, lower-case letters and `_`. */
  predicate IsVersionStr(s: string) {
    if |s| == 0 || !(IsNumeric(s[0]) || s[0] == 'v') then false
    else forall i | 0 <= i < |s| :: IsVersionChar(s[i])
  }

  /** A version string is a non-empty run of version characters headed by a
      digit or `v`; a lone `v` is one. */
  lemma IsVersionStrMeans(s: string)
    ensures IsVersionStr(s) <==>
      |s| > 0 && (IsNumeric(s[0]) || s[0] == 'v') && forall i | 0 <= i < |s| :: IsVersionChar(s[i])
    ensures IsVersionStr("v")
    ensures IsVersionStr(s) && s[0] != 'v' ==> IsNumeric(s[0])
  {
    assert "v"[0] == 'v';
  }

  /** `StorePath::strip`: the text after the first `-`, when there is some. */
  function Strip(path: string): (r: Option<string>)
    ensures r.None? <==> '-' !in path || (path[|path| - 1] == '-' && '-' !in path[..|path| - 1])
    ensures r.Some? ==>
      var k := |path| - |r.value| - 1;
      0 < |r.value| && 0 <= k && path[k] == '-' && '-' !in path[..k] && path[k + 1..] == r.value
  {
    match IndexOf(path, '-')
    case None => None
    case Some(idx) =>
      if |path| <= idx + 1 then
        assert path[..idx] == path[..|path| - 1];
        None
      else
        assert path[..|path| - 1][idx] == '-';
        Some(path[idx + 1..])
  }

  /** Rust's `split('-')` on a string: the segments between dashes, always
      at least one. */
  function Split(s: string): (r: seq<string>)
    ensures |r| >= 1
    ensures forall i | 0 <= i < |r| :: '-' !in r[i]
    decreases |s|
  {
    match IndexOf(s, '-')
    case None => [s]
    case Some(i) => [s[..i]] + Split(s[i + 1..])
  }

  /** Rust's `join("-")` on a slice of segments; the join of none is empty. */
  function Join(parts: seq<string>): string {
    if |parts| == 0 then ""
    else if |parts| == 1 then parts[0]
    else parts[0] + "-" + Join(parts[1..])
  }

  /** Joining the segments of a split gives back the text. */
  lemma {:induction false} JoinSplit(s: string)
    ensures Join(Split(s)) == s
    decreases |s|
  {
    match IndexOf(s, '-')
    case None =>
    case Some(i) =>
      JoinSplit(s[i + 1..]);
      var parts := Split(s);
      assert parts[1..] == Split(s[i + 1..]);
      assert s == s[..i] + "-" + s[i + 1..];
  }

  /** A dash-free head and a dash split off as the first segment. */
  lemma SplitAtDash(head: string, rest: string)
    requires '-' !in head
    ensures Split(head + "-" + rest) == [head] + Split(rest)
  {
    var s := head + "-" + rest;
    assert s[|head|] == '-';
    assert forall q | 0 <= q < |head| :: s[q] == head[q];
    IndexOfIsFirst(s, '-', |head|);
    assert s[..|head|] == head;
    assert s[|head| + 1..] == rest;
  }

  /** Splitting the join of dash-free segments gives back the segments. */
  lemma {:induction false} SplitJoin(parts: seq<string>)
    requires |parts| >= 1
    requires forall i | 0 <= i < |parts| :: '-' !in parts[i]
    ensures Split(Join(parts)) == parts
  {
    if |parts| > 1 {
      var tail := parts[1..];
      assert forall i | 0 <= i < |tail| :: tail[i] == parts[i + 1];
      SplitJoin(tail);
      SplitAtDash(parts[0], Join(tail));
      assert parts == [parts[0]] + tail;
    }
  }

  /** Joining two non-empty runs of segments puts one dash between them. */
  lemma {:induction false} JoinAppend(a: seq<string>, b: seq<string>)
    requires |a| >= 1 && |b| >= 1
    ensures Join(a + b) == Join(a) + "-" + Join(b)
  {
    if |a| > 1 {
      JoinAppend(a[1..], b);
      assert (a + b)[1..] == a[1..] + b;
    } else {
      assert (a + b)[1..] == b;
    }
  }

  /** `position` of the first version-like segment at index `from` or
      later. */
  function FindVersion(segs: seq<string>, from: nat): (r: Option<nat>)
    ensures r.Some? ==>
      from <= r.value < |segs| && IsVersionStr(segs[r.value]) &&
      forall j | from <= j < r.value :: !IsVersionStr(segs[j])
    ensures r.None? <==> forall j | from <= j < |segs| :: !IsVersionStr(segs[j])
    decreases |segs| - from
  {
    if from >= |segs| then None
    else if IsVersionStr(segs[from]) then Some(from)
    else FindVersion(segs, from + 1)
  }

  /** What a parse cuts the stripped path into: the name's segments joined,
      the version's segments joined, and the trailing alphabetic segment. */
  datatype Parts = Parts(name: string, version: string, suffix: Option<string>)

  /** The cut of three or more segments, searching for the version from
      segment `from` on. */
  function SplitSegments(segs: seq<string>, from: nat): Option<Parts>
    requires |segs| >= 3
  {
    var last := segs[|segs| - 1];
    var suffix := if AllAlphabetic(last) then Some(last) else None;
    var rest := if suffix.Some? then segs[..|segs| - 1] else segs;
    match FindVersion(rest, from)
    case None => None
    case Some(pos) => Some(Parts(Join(rest[..pos]), Join(rest[pos..]), suffix))
  }

  /** `StorePath::parse` up to the point where the name is assembled;
      `from` is the first segment the version search looks at. */
  function PartsWith(path: string, from: nat): Option<Parts> {
    match Strip(path)
    case None => None
    case Some(stripped) =>
      var segs := Split(stripped);
      if |segs| <= 1 then None
      else if |segs| == 2 then
        if IsVersionStr(segs[1]) then Some(Parts(segs[0], segs[1], None)) else None
      else SplitSegments(segs, from)
  }

  /** The record a cut gives: a suffix is appended to the name after `|`. */
  function Assemble(p: Parts): StorePath {
    StorePath(if p.suffix.Some? then p.name + "|" + p.suffix.value else p.name, p.version)
  }

  function AssembleAll(p: Option<Parts>): Option<StorePath> {
    match p
    case None => None
    case Some(parts) => Some(Assemble(parts))
  }

  /** `StorePath::parse` as written: with three or more segments the search
      for the version starts at the first segment. */
  function ParseSpec(path: string): Option<StorePath> {
    AssembleAll(PartsWith(path, 0))
  }

  /** `StorePath::parse` with the version search starting after the first
      segment, which the two-segment case and the newer generation do. */
  function ParseCorrected(path: string): Option<StorePath> {
    AssembleAll(PartsWith(path, 1))
  }

  /** The text a cut stands for: name, version and suffix joined by dashes. */
  function Rebuild(p: Parts): string {
    if p.suffix.Some? then p.name + "-" + p.version + "-" + p.suffix.value
    else p.name + "-" + p.version
  }

  /** `StorePath::parse`: strips the prefix, splits on `-`, and with three
      or more segments removes an alphabetic last segment, finds the first
      version-like segment and cuts the list there. */
  method Parse(path: string) returns (r: Option<StorePath>)
    ensures r == ParseSpec(path)
  {
    var stripped := Strip(path);
    if stripped.None? {
      return None;
    }
    var splitSep := Split(stripped.value);
    if |splitSep| <= 1 {
      return None;
    }
    if |splitSep| == 2 {
      if !IsVersionStr(splitSep[1]) {
        return None;
      }
      return Some(StorePath(splitSep[0], splitSep[1]));
    }
    r := ParseSegments(splitSep);
  }

  /** The three-or-more-segment path of `StorePath::parse`: removes an
      alphabetic last segment, finds the first version-like segment and
      cuts the list there. */
  method ParseSegments(segs: seq<string>) returns (r: Option<StorePath>)
    requires |segs| >= 3
    ensures r == AssembleAll(SplitSegments(segs, 0))
  {
    var splitSep := segs;
    var end := |splitSep| - 1;
    var suffix: Option<string> := None;
    if AllAlphabetic(splitSep[end]) {
      suffix := Some(splitSep[end]);
      splitSep := splitSep[..end];
    }
    var pos := 0;
    while pos < |splitSep| && !IsVersionStr(splitSep[pos])
      invariant 0 <= pos <= |splitSep|
      invariant forall j | 0 <= j < pos :: !IsVersionStr(splitSep[j])
    {
      pos := pos + 1;
    }
    assert splitSep == if suffix.Some? then segs[..|segs| - 1] else segs;
    if pos == |splitSep| {
      assert FindVersion(splitSep, 0).None?;
      return None;
    }
    assert FindVersion(splitSep, 0) == Some(pos);
    assert SplitSegments(segs, 0) == Some(Parts(Join(splitSep[..pos]), Join(splitSep[pos..]), suffix));
    var version := Join(splitSep[pos..]);
    splitSep := splitSep[..pos];
    var name := Join(splitSep);
    if suffix.Some? {
      name := name + "|" + suffix.value;
    }
    return Some(StorePath(name, version));
  }

  /** `strip` removes everything up to and including the first `-`. */
  lemma StripAfterFirstDash(head: string, rest: string)
    requires '-' !in head && |rest| > 0
    ensures Strip(head + "-" + rest) == Some(rest)
  {
    var path := head + "-" + rest;
    assert path[|head|] == '-';
    assert forall q | 0 <= q < |head| :: path[q] == head[q];
    IndexOfIsFirst(path, '-', |head|);
    assert path[|head| + 1..] == rest;
  }

  /** With no `-`, or with nothing after the first one, `strip` gives
      nothing. */
  lemma StripRejects(head: string)
    requires '-' !in head
    ensures Strip(head) == None
    ensures Strip(head + "-") == None
  {
  }

  /** The segments of a stripped path that is a join of dash-free
      segments. */
  lemma SegmentsOf(head: string, segs: seq<string>)
    requires '-' !in head && |segs| >= 1 && |Join(segs)| > 0
    requires forall i | 0 <= i < |segs| :: '-' !in segs[i]
    ensures Strip(head + "-" + Join(segs)) == Some(Join(segs))
    ensures Split(Join(segs)) == segs
  {
    StripAfterFirstDash(head, Join(segs));
    SplitJoin(segs);
  }

  /** With exactly one `-` after the prefix, the parse succeeds iff the part
      after it is a version string, and then the two parts are the name and
      the version. */
  lemma ParseTwoSegments(head: string, name: string, version: string)
    requires '-' !in head && '-' !in name && '-' !in version
    ensures ParseSpec(head + "-" + (name + "-" + version)) ==
      if IsVersionStr(version) then Some(StorePath(name, version)) else None
  {
    assert Join([name, version]) == name + "-" + version;
    SegmentsOf(head, [name, version]);
  }

  /** The name and version of a cut, when the version search may start at
      segment 0, and when it starts at segment 1: the cut splits the
      segments that remain once an alphabetic last one is set aside. */
  lemma {:induction false} CutMeaning(segs: seq<string>, from: nat, p: Parts)
    requires |segs| >= 3 && forall i | 0 <= i < |segs| :: '-' !in segs[i]
    requires SplitSegments(segs, from) == Some(p)
    ensures p.suffix.Some? <==> AllAlphabetic(segs[|segs| - 1])
    ensures p.suffix.Some? ==> p.suffix.value == segs[|segs| - 1]
    ensures var rest := if p.suffix.Some? then segs[..|segs| - 1] else segs;
      exists pos | from <= pos < |rest| ::
        && p.name == Join(rest[..pos]) && p.version == Join(rest[pos..])
        && IsVersionStr(rest[pos]) && (forall j | from <= j < pos :: !IsVersionStr(rest[j]))
  {
  }

  /** A path whose hashed prefix `head` is followed by the segments `segs`. */
  lemma UnderHead(head: string, segs: seq<string>)
    requires '-' !in head && |segs| >= 3 && forall i | 0 <= i < |segs| :: '-' !in segs[i]
    ensures Strip(head + "-" + Join(segs)) == Some(Join(segs))
    ensures PartsWith(head + "-" + Join(segs), 0) == SplitSegments(segs, 0)
    ensures PartsWith(head + "-" + Join(segs), 1) == SplitSegments(segs, 1)
  {
    JoinCut(segs, 1);
    SegmentsOf(head, segs);
  }

  /** The version search finds the first version-like segment from `from` on. */
  lemma FirstVersionAt(segs: seq<string>, from: nat, pos: nat)
    requires from <= pos < |segs| && IsVersionStr(segs[pos])
    requires forall j | from <= j < pos :: !IsVersionStr(segs[j])
    ensures FindVersion(segs, from) == Some(pos)
  {
  }

  /** Three or more segments, the last not alphabetic, cut at the first
      version-like one. */
  lemma CutAt(head: string, segs: seq<string>, pos: nat)
    requires '-' !in head && |segs| >= 3 && forall i | 0 <= i < |segs| :: '-' !in segs[i]
    requires !AllAlphabetic(segs[|segs| - 1])
    requires pos < |segs| && IsVersionStr(segs[pos]) && forall j | 0 <= j < pos :: !IsVersionStr(segs[j])
    ensures PartsWith(head + "-" + Join(segs), 0) == Some(Parts(Join(segs[..pos]), Join(segs[pos..]), None))
    ensures ParseSpec(head + "-" + Join(segs)) == Some(StorePath(Join(segs[..pos]), Join(segs[pos..])))
  {
    UnderHead(head, segs);
    FirstVersionAt(segs, 0, pos);
  }

  /** The same cut with the search starting after the first segment. */
  lemma CutAfterFirst(head: string, segs: seq<string>, pos: nat)
    requires '-' !in head && |segs| >= 3 && forall i | 0 <= i < |segs| :: '-' !in segs[i]
    requires !AllAlphabetic(segs[|segs| - 1])
    requires 1 <= pos < |segs| && IsVersionStr(segs[pos]) && forall j | 1 <= j < pos :: !IsVersionStr(segs[j])
    ensures ParseCorrected(head + "-" + Join(segs)) == Some(StorePath(Join(segs[..pos]), Join(segs[pos..])))
  {
    UnderHead(head, segs);
    FirstVersionAt(segs, 1, pos);
  }

  /** Three or more segments, the last alphabetic, so set aside as the
      suffix, and the rest cut at the first version-like one. */
  lemma CutAtWithSuffix(head: string, rest: seq<string>, last: string, pos: nat)
    requires '-' !in head && |rest| >= 2 && forall i | 0 <= i < |rest| :: '-' !in rest[i]
    requires '-' !in last && AllAlphabetic(last)
    requires pos < |rest| && IsVersionStr(rest[pos]) && forall j | 0 <= j < pos :: !IsVersionStr(rest[j])
    ensures ParseSpec(head + "-" + Join(rest + [last])) ==
      Some(StorePath(Join(rest[..pos]) + "|" + last, Join(rest[pos..])))
  {
    var segs := rest + [last];
    assert forall i | 0 <= i < |segs| :: '-' !in segs[i] by {
      forall i | 0 <= i < |segs| ensures '-' !in segs[i] {
        if i < |rest| { assert segs[i] == rest[i]; }
      }
    }
    UnderHead(head, segs);
    SuffixSplit(rest, last, pos);
  }

  /** The segment split when the last segment is alphabetic. */
  lemma SuffixSplit(rest: seq<string>, last: string, pos: nat)
    requires |rest| >= 2 && AllAlphabetic(last)
    requires pos < |rest| && IsVersionStr(rest[pos]) && forall j | 0 <= j < pos :: !IsVersionStr(rest[j])
    ensures SplitSegments(rest + [last], 0) == Some(Parts(Join(rest[..pos]), Join(rest[pos..]), Some(last)))
  {
    var segs := rest + [last];
    assert segs[..|segs| - 1] == rest;
    assert segs[|segs| - 1] == last;
    FirstVersionAt(rest, 0, pos);
  }

  /** Three or more segments, none of them version-like. */
  lemma NoVersionSegment(head: string, segs: seq<string>)
    requires '-' !in head && |segs| >= 3 && forall i | 0 <= i < |segs| :: '-' !in segs[i]
    requires forall j | 0 <= j < |segs| :: !IsVersionStr(segs[j])
    ensures ParseSpec(head + "-" + Join(segs)) == None
  {
    UnderHead(head, segs);
    NoVersionNoSplit(segs);
  }

  lemma NoVersionNoSplit(segs: seq<string>)
    requires |segs| >= 3 && forall j | 0 <= j < |segs| :: !IsVersionStr(segs[j])
    ensures SplitSegments(segs, 0) == None
  {
    var rest := if AllAlphabetic(segs[|segs| - 1]) then segs[..|segs| - 1] else segs;
    assert forall j | 0 <= j < |rest| :: rest[j] == segs[j];
    assert FindVersion(rest, 0) == None;
  }

  /** A name whose first segment looks like a version: the search from
      segment 0 stops there and leaves the name empty, so the cut no longer
      gives back the stripped path; the search from segment 1 cuts at the
      next version-like segment. */
  lemma LeadingVersion(head: string, segs: seq<string>, pos: nat)
    requires '-' !in head && |segs| >= 3 && forall i | 0 <= i < |segs| :: '-' !in segs[i]
    requires !AllAlphabetic(segs[|segs| - 1]) && IsVersionStr(segs[0])
    requires 1 <= pos < |segs| && IsVersionStr(segs[pos]) && forall j | 1 <= j < pos :: !IsVersionStr(segs[j])
    ensures Strip(head + "-" + Join(segs)) == Some(Join(segs))
    ensures PartsWith(head + "-" + Join(segs), 0) == Some(Parts("", Join(segs), None))
    ensures Rebuild(Parts("", Join(segs), None)) != Join(segs)
    ensures ParseSpec(head + "-" + Join(segs)) == Some(StorePath("", Join(segs)))
    ensures ParseCorrected(head + "-" + Join(segs)) == Some(StorePath(Join(segs[..pos]), Join(segs[pos..])))
  {
    UnderHead(head, segs);
    CutAt(head, segs, 0);
    CutAfterFirst(head, segs, pos);
    assert segs[..0] == [] && segs[0..] == segs;
    assert |Rebuild(Parts("", Join(segs), None))| == |Join(segs)| + 1;
  }

  /** Cutting a run of segments anywhere but at its ends puts the dash
      between the two joins. */
  lemma JoinCut(rest: seq<string>, pos: nat)
    requires 1 <= pos < |rest|
    ensures Join(rest) == Join(rest[..pos]) + "-" + Join(rest[pos..])
  {
    JoinAppend(rest[..pos], rest[pos..]);
    CutAppend(rest, pos);
  }

  lemma CutAppend<T>(s: seq<T>, pos: nat)
    requires pos <= |s|
    ensures s[..pos] + s[pos..] == s
  {
  }

  lemma DropLastAppend<T>(s: seq<T>)
    requires |s| > 0
    ensures s[..|s| - 1] + [s[|s| - 1]] == s
  {
  }

  /** Appending one segment adds a dash and that segment. */
  lemma JoinLast(rest: seq<string>, last: string)
    requires |rest| >= 1
    ensures Join(rest + [last]) == Join(rest) + "-" + last
  {
    JoinAppend(rest, [last]);
  }

  /** A cut whose version does not start at segment 0 joins back to the
      segments it was made from. */
  lemma CutReconstructs(segs: seq<string>, from: nat, p: Parts)
    requires |segs| >= 3
    requires from >= 1 && SplitSegments(segs, from) == Some(p)
    ensures Join(segs) == Rebuild(p)
  {
    var last := segs[|segs| - 1];
    var rest := if AllAlphabetic(last) then segs[..|segs| - 1] else segs;
    var pos := FindVersion(rest, from).value;
    JoinCut(rest, pos);
    if AllAlphabetic(last) {
      JoinLast(rest, last);
      DropLastAppend(segs);
    }
  }

  /** Searching from segment 1 the cut gives back exactly the stripped
      path. */
  lemma CorrectedReconstructs(path: string, p: Parts)
    requires PartsWith(path, 1) == Some(p)
    ensures Strip(path) == Some(Rebuild(p))
  {
    var stripped := Strip(path).value;
    var segs := Split(stripped);
    JoinSplit(stripped);
    if |segs| == 2 {
      assert Join(segs) == segs[0] + "-" + segs[1];
    } else {
      CutReconstructs(segs, 1, p);
    }
  }

  /** The search from segment 0 differs from the search from segment 1 only
      when the first segment is itself version-like. */
  lemma AgreeUnlessLeadingVersion(path: string)
    requires Strip(path).Some? && !IsVersionStr(Split(Strip(path).value)[0])
    ensures PartsWith(path, 0) == PartsWith(path, 1)
    ensures ParseSpec(path) == ParseCorrected(path)
  {
    var segs := Split(Strip(path).value);
    if |segs| >= 3 {
      SegmentsAgree(segs);
    }
  }

  /** A cut of three or more segments whose first is not version-like is
      the same whichever of the first two segments the search starts at. */
  lemma SegmentsAgree(segs: seq<string>)
    requires |segs| >= 3 && !IsVersionStr(segs[0])
    ensures SplitSegments(segs, 0) == SplitSegments(segs, 1)
  {
    var last := segs[|segs| - 1];
    var rest := if AllAlphabetic(last) then segs[..|segs| - 1] else segs;
    assert rest[0] == segs[0];
    assert FindVersion(rest, 0) == FindVersion(rest, 1);
  }

  /** Unless the first segment is version-like, the parse as written gives
      back the stripped path too. */
  lemma ParseReconstructs(path: string, p: Parts)
    requires PartsWith(path, 0) == Some(p)
    requires !IsVersionStr(Split(Strip(path).value)[0])
    ensures Strip(path) == Some(Rebuild(p))
  {
    AgreeUnlessLeadingVersion(path);
    CorrectedReconstructs(path, p);
  }
}
