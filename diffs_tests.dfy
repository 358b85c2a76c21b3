/** The `detect_store_diffs` fixture of src/store/diff.rs, proved of the
    model. Names and versions are byte sequences; each carries its text. */
module DiffsTests {
  import opened Common
  import opened Stores
  import opened Diffs

  const GLXINFO: Name := [103, 108, 120, 105, 110, 102, 111]                                  // "glxinfo"
  const FFMPEG: Name := [102, 102, 109, 112, 101, 103]                                        // "ffmpeg"
  const WINE_WOW: Name := [119, 105, 110, 101, 45, 119, 111, 119]                             // "wine-wow"
  const STEAM_RUNTIME: Name := [115, 116, 101, 97, 109, 45, 114, 117, 110, 116, 105, 109, 101] // "steam-runtime"
  const DXVK: Name := [100, 120, 118, 107]                                                    // "dxvk"
  const DIFF_SUFFIX: Name := [100, 105, 102, 102, 45, 115, 117, 102, 102, 105, 120]           // "diff-suffix"
  const SAME_SUFFIX: Name := [115, 97, 109, 101, 45, 115, 117, 102, 102, 105, 120]            // "same-suffix"
  const PARTIAL_SUFFIX: Name := [112, 97, 114, 116, 105, 97, 108, 45, 115, 117, 102, 102, 105, 120] // "partial-suffix"

  const V_8_5_0: seq<byte> := [56, 46, 53, 46, 48]                                  // "8.5.0"
  const V_8_4_0: seq<byte> := [56, 46, 52, 46, 48]                                  // "8.4.0"
  const V_3_4_5: seq<byte> := [51, 46, 52, 46, 53]                                  // "3.4.5"
  const V_3_4_6: seq<byte> := [51, 46, 52, 46, 54]                                  // "3.4.6"
  const V_4_1: seq<byte> := [52, 46, 49]                                            // "4.1"
  const V_4_0_RC5: seq<byte> := [52, 46, 48, 45, 114, 99, 53]                       // "4.0-rc5"
  const V_2019: seq<byte> := [50, 48, 49, 57, 45, 48, 50, 45, 49, 53]               // "2019-02-15"
  const V_2016: seq<byte> := [50, 48, 49, 54, 45, 48, 56, 45, 50, 54]               // "2016-08-26"
  const V_0_96: seq<byte> := [118, 48, 46, 57, 54]                                  // "v0.96"
  const V_1_0_1: seq<byte> := [49, 46, 48, 46, 49]                                  // "1.0.1"
  const V_1_0_0: seq<byte> := [49, 46, 48, 46, 48]                                  // "1.0.0"

  const STAGING: seq<byte> := [115, 116, 97, 103, 105, 110, 103]                    // "staging"
  const BIN: seq<byte> := [98, 105, 110]                                            // "bin"
  const OUT: seq<byte> := [111, 117, 116]                                           // "out"

  /** A record as the fixture's `store!` macro builds it. */
  function Record(name: Name, version: seq<byte>, suffix: Option<seq<byte>>): Store {
    Store(0, name, version, suffix, 0)
  }

  const NEWER: map<Name, Store> := map[
    GLXINFO := Record(GLXINFO, V_8_5_0, None),
    FFMPEG := Record(FFMPEG, V_3_4_5, None),
    WINE_WOW := Record(WINE_WOW, V_4_1, Some(STAGING)),
    STEAM_RUNTIME := Record(STEAM_RUNTIME, V_2019, None),
    DXVK := Record(DXVK, V_0_96, None),
    DIFF_SUFFIX := Record(DIFF_SUFFIX, V_3_4_6, Some(BIN)),
    SAME_SUFFIX := Record(SAME_SUFFIX, V_1_0_1, Some(BIN)),
    PARTIAL_SUFFIX := Record(PARTIAL_SUFFIX, V_1_0_1, None)]

  const OLDER: map<Name, Store> := map[
    GLXINFO := Record(GLXINFO, V_8_4_0, None),
    FFMPEG := Record(FFMPEG, V_3_4_5, None),
    WINE_WOW := Record(WINE_WOW, V_4_0_RC5, Some(STAGING)),
    STEAM_RUNTIME := Record(STEAM_RUNTIME, V_2016, None),
    DXVK := Record(DXVK, V_0_96, None),
    DIFF_SUFFIX := Record(DIFF_SUFFIX, V_3_4_5, Some(OUT)),
    SAME_SUFFIX := Record(SAME_SUFFIX, V_1_0_0, Some(BIN)),
    PARTIAL_SUFFIX := Record(PARTIAL_SUFFIX, V_1_0_0, Some(BIN))]

  /** The four changes the fixture expects: a version change with the same
      (or no) suffix on both sides. */
  const EXPECTED: set<StoreDiff> := {
    StoreDiff(GLXINFO, None, V_8_4_0, V_8_5_0),
    StoreDiff(WINE_WOW, Some(STAGING), V_4_0_RC5, V_4_1),
    StoreDiff(STEAM_RUNTIME, None, V_2016, V_2019),
    StoreDiff(SAME_SUFFIX, Some(BIN), V_1_0_0, V_1_0_1)}

  lemma FixtureWellKeyed()
    ensures WellKeyed(NEWER)
  {
  }

  /** Both snapshots hold the same eight names. */
  lemma FixtureNames()
    ensures NEWER.Keys == {GLXINFO, FFMPEG, WINE_WOW, STEAM_RUNTIME, DXVK, DIFF_SUFFIX, SAME_SUFFIX, PARTIAL_SUFFIX}
    ensures OLDER.Keys == NEWER.Keys
  {
  }

  /** The four names whose version changed under an equal suffix (or none
      on either side) give a diff. */
  lemma FixtureChanged()
    ensures FromStore(NEWER[GLXINFO], OLDER[GLXINFO]) == Some(StoreDiff(GLXINFO, None, V_8_4_0, V_8_5_0))
    ensures FromStore(NEWER[WINE_WOW], OLDER[WINE_WOW]) == Some(StoreDiff(WINE_WOW, Some(STAGING), V_4_0_RC5, V_4_1))
    ensures FromStore(NEWER[STEAM_RUNTIME], OLDER[STEAM_RUNTIME]) == Some(StoreDiff(STEAM_RUNTIME, None, V_2016, V_2019))
    ensures FromStore(NEWER[SAME_SUFFIX], OLDER[SAME_SUFFIX]) == Some(StoreDiff(SAME_SUFFIX, Some(BIN), V_1_0_0, V_1_0_1))
  {
  }

  /** An equal version, a changed suffix or a suffix only one side has
      gives none. */
  lemma FixtureUnchanged()
    ensures FromStore(NEWER[FFMPEG], OLDER[FFMPEG]) == None
    ensures FromStore(NEWER[DXVK], OLDER[DXVK]) == None
    ensures FromStore(NEWER[DIFF_SUFFIX], OLDER[DIFF_SUFFIX]) == None
    ensures FromStore(NEWER[PARTIAL_SUFFIX], OLDER[PARTIAL_SUFFIX]) == None
  {
  }

  function Present(d: Option<StoreDiff>): set<StoreDiff> {
    if d.Some? then {d.value} else {}
  }

  /** One more name of both snapshots adds its diff, if any. */
  lemma AddName(newer: map<Name, Store>, older: map<Name, Store>, done: set<Name>, before: set<StoreDiff>, n: Name, d: Option<StoreDiff>)
    requires DiffsOver(newer, older, done) == before
    requires n in newer && n in older && FromStore(newer[n], older[n]) == d
    ensures DiffsOver(newer, older, done + {n}) == before + Present(d)
  {
    DiffsOverAdd(newer, older, done, n);
  }

  lemma EightNames(a: Name, b: Name, c: Name, d: Name, e: Name, f: Name, g: Name, h: Name)
    ensures {} + {a} + {b} + {c} + {d} + {e} + {f} + {g} + {h} == {a, b, c, d, e, f, g, h}
  {
  }

  lemma FourDiffs(da: StoreDiff, dc: StoreDiff, dd: StoreDiff, dg: StoreDiff)
    ensures {} + Present(Some(da)) + Present(None) + Present(Some(dc)) + Present(Some(dd)) + Present(None)
      + Present(None) + Present(Some(dg)) + Present(None) == {da, dc, dd, dg}
  {
  }

  /** Eight names, four of which give a diff, give exactly those four. */
  lemma FourOfEight(newer: map<Name, Store>, older: map<Name, Store>, a: Name, b: Name, c: Name, d: Name,
                    e: Name, f: Name, g: Name, h: Name, da: StoreDiff, dc: StoreDiff, dd: StoreDiff, dg: StoreDiff)
    requires newer.Keys == {a, b, c, d, e, f, g, h} && newer.Keys <= older.Keys
    requires FromStore(newer[a], older[a]) == Some(da) && FromStore(newer[b], older[b]) == None
    requires FromStore(newer[c], older[c]) == Some(dc) && FromStore(newer[d], older[d]) == Some(dd)
    requires FromStore(newer[e], older[e]) == None && FromStore(newer[f], older[f]) == None
    requires FromStore(newer[g], older[g]) == Some(dg) && FromStore(newer[h], older[h]) == None
    ensures DiffsOver(newer, older, newer.Keys) == {da, dc, dd, dg}
  {
    assert DiffsOver(newer, older, {}) == {};
    AddName(newer, older, {}, {}, a, Some(da));
    AddName(newer, older, {} + {a}, {} + Present(Some(da)), b, None);
    AddName(newer, older, {} + {a} + {b}, {} + Present(Some(da)) + Present(None), c, Some(dc));
    AddName(newer, older, {} + {a} + {b} + {c},
      {} + Present(Some(da)) + Present(None) + Present(Some(dc)), d, Some(dd));
    AddName(newer, older, {} + {a} + {b} + {c} + {d},
      {} + Present(Some(da)) + Present(None) + Present(Some(dc)) + Present(Some(dd)), e, None);
    AddName(newer, older, {} + {a} + {b} + {c} + {d} + {e},
      {} + Present(Some(da)) + Present(None) + Present(Some(dc)) + Present(Some(dd)) + Present(None), f, None);
    AddName(newer, older, {} + {a} + {b} + {c} + {d} + {e} + {f},
      {} + Present(Some(da)) + Present(None) + Present(Some(dc)) + Present(Some(dd)) + Present(None)
        + Present(None), g, Some(dg));
    AddName(newer, older, {} + {a} + {b} + {c} + {d} + {e} + {f} + {g},
      {} + Present(Some(da)) + Present(None) + Present(Some(dc)) + Present(Some(dd)) + Present(None)
        + Present(None) + Present(Some(dg)), h, None);
    EightNames(a, b, c, d, e, f, g, h);
    FourDiffs(da, dc, dd, dg);
  }

  /** The diffs of the fixture snapshots are exactly the expected four. */
  lemma FixtureDiffs()
    ensures DiffsOver(NEWER, OLDER, NEWER.Keys) == EXPECTED
  {
    FixtureNames();
    FixtureChanged();
    FixtureUnchanged();
    FourOfEight(NEWER, OLDER, GLXINFO, FFMPEG, WINE_WOW, STEAM_RUNTIME, DXVK, DIFF_SUFFIX, SAME_SUFFIX, PARTIAL_SUFFIX,
      StoreDiff(GLXINFO, None, V_8_4_0, V_8_5_0),
      StoreDiff(WINE_WOW, Some(STAGING), V_4_0_RC5, V_4_1),
      StoreDiff(STEAM_RUNTIME, None, V_2016, V_2019),
      StoreDiff(SAME_SUFFIX, Some(BIN), V_1_0_0, V_1_0_1));
  }

  lemma ExpectedCount()
    ensures |EXPECTED| == 4
  {
  }

  /** What `detect_store_diffs` asserts of `from_store_list` on the
      fixture: four diffs, each one of the expected. */
  lemma DetectStoreDiffs(diffs: seq<StoreDiff>)
    requires ElementSet(diffs) == DiffsOver(NEWER, OLDER, NEWER.Keys)
    requires DistinctNames(diffs)
    ensures |diffs| == 4
    ensures forall i | 0 <= i < |diffs| :: diffs[i] in EXPECTED
  {
    FixtureDiffs();
    DistinctNamesCount(diffs);
    ExpectedCount();
    assert forall i | 0 <= i < |diffs| :: diffs[i] in ElementSet(diffs);
  }
}
