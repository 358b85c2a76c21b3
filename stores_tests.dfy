/** The parse and prefix fixtures of src/store/mod.rs, proved of the model.
    Paths are written as byte sequences; each carries its text alongside. */
module StoresTests {
  import opened Common
  import opened Stores

  // "/nix/store/zx6vs1b6xf07cprslk9is1fhwih21ix5-"
  const HASHED: seq<byte> := [47, 110, 105, 120, 47, 115, 116, 111, 114, 101, 47, 122, 120, 54, 118, 115,
    49, 98, 54, 120, 102, 48, 55, 99, 112, 114, 115, 108, 107, 57, 105, 115, 49, 102, 104, 119, 105, 104,
    50, 49, 105, 120, 53, 45]

  // "vpnc-0.5.3-post-r550"
  const VPNC: seq<byte> := [118, 112, 110, 99, 45, 48, 46, 53, 46, 51, 45, 112, 111, 115, 116, 45, 114,
    53, 53, 48]

  // "wine-wow-4.0-rc5-staging"
  const WINE: seq<byte> := [119, 105, 110, 101, 45, 119, 111, 119, 45, 52, 46, 48, 45, 114, 99, 53, 45,
    115, 116, 97, 103, 105, 110, 103]

  // "ffmpeg-3.4.5-bin"
  const FFMPEG: seq<byte> := [102, 102, 109, 112, 101, 103, 45, 51, 46, 52, 46, 53, 45, 98, 105, 110]

  // "rpcs3-9165-8ca53f9"
  const RPCS3: seq<byte> := [114, 112, 99, 115, 51, 45, 57, 49, 54, 53, 45, 56, 99, 97, 53, 51, 102, 57]

  // "dash-edge-case-"
  const DASH_EDGE: seq<byte> := [100, 97, 115, 104, 45, 101, 100, 103, 101, 45, 99, 97, 115, 101, 45]

  // "fix-static.patch"
  const FIX_STATIC: seq<byte> := [102, 105, 120, 45, 115, 116, 97, 116, 105, 99, 46, 112, 97, 116, 99, 104]

  // "glxinfo-8.4.0"
  const GLXINFO: seq<byte> := [103, 108, 120, 105, 110, 102, 111, 45, 56, 46, 52, 46, 48]

  // "dxvk-v1.4.6"
  const DXVK: seq<byte> := [100, 120, 118, 107, 45, 118, 49, 46, 52, 46, 54]

  // "/nix/store/123shortprefix-"
  const SHORT_HASHED: seq<byte> := [47, 110, 105, 120, 47, 115, 116, 111, 114, 101, 47, 49, 50, 51, 115,
    104, 111, 114, 116, 112, 114, 101, 102, 105, 120, 45]

  // "short-prefix-1.0"
  const SHORT_PREFIX: seq<byte> := [115, 104, 111, 114, 116, 45, 112, 114, 101, 102, 105, 120, 45, 49, 46, 48]

  // "some-deriv.drv"
  const SOME_DERIV: seq<byte> := [115, 111, 109, 101, 45, 100, 101, 114, 105, 118, 46, 100, 114, 118]

  // "dash-short-"
  const DASH_SHORT: seq<byte> := [100, 97, 115, 104, 45, 115, 104, 111, 114, 116, 45]

  // "pcre-8.42"
  const PCRE: seq<byte> := [112, 99, 114, 101, 45, 56, 46, 52, 50]

  // "c47095a8dcfa4c376d8e9c4276865b7f298137d8"
  const COMMIT: seq<byte> := [99, 52, 55, 48, 57, 53, 97, 56, 100, 99, 102, 97, 52, 99, 51, 55, 54, 100, 56,
    101, 57, 99, 52, 50, 55, 54, 56, 54, 53, 98, 55, 102, 50, 57, 56, 49, 51, 55, 100, 56]

  // "dxvk-c47095a8dcfa4c376d8e9c4276865b7f298137d8"
  const DXVK_COMMIT: seq<byte> := DXVK[..5] + COMMIT

  // "single-version-8"
  const SINGLE_VERSION: seq<byte> := [115, 105, 110, 103, 108, 101, 45, 118, 101, 114, 115, 105, 111,
    110, 45, 56]

  // "single-4"
  const SINGLE: seq<byte> := [115, 105, 110, 103, 108, 101, 45, 52]

  // "wine-wow-4.21-staging"
  const WINE_421: seq<byte> := [119, 105, 110, 101, 45, 119, 111, 119, 45, 52, 46, 50, 49, 45, 115,
    116, 97, 103, 105, 110, 103]

  // "vulkan-loader-1.1.85"
  const VULKAN: seq<byte> := [118, 117, 108, 107, 97, 110, 45, 108, 111, 97, 100, 101, 114, 45, 49, 46,
    49, 46, 56, 53]

  // "/nix/store/03lp4drizbh8cl3f9mjysrrzrg3ssakv-"
  const NORMAL_HASHED: seq<byte> := [47, 110, 105, 120, 47, 115, 116, 111, 114, 101, 47, 48, 51, 108,
    112, 52, 100, 114, 105, 122, 98, 104, 56, 99, 108, 51, 102, 57, 109, 106, 121, 115, 114, 114, 122,
    114, 103, 51, 115, 115, 97, 107, 118, 45]

  /** Any 44-byte prefix ending in `-` strips to the non-empty rest that
      follows it, on the fast path. */
  lemma StripFastPath(head: seq<byte>, rest: seq<byte>)
    requires |head| == PREFIX_LEN && head[DASH_POS] == DASH && 0 < |rest|
    ensures StripPrefix(head + rest) == Some(rest)
  {
    assert (head + rest)[DASH_POS] == head[DASH_POS];
    assert (head + rest)[PREFIX_LEN..] == rest;
  }

  /** The "normal store" case of the strip fixture. */
  lemma StripStorePath()
    ensures StripPrefix(NORMAL_HASHED + GLXINFO) == Some(GLXINFO)
  {
    StripFastPath(NORMAL_HASHED, GLXINFO);
  }

  /** The prefix the parse fixtures share strips to what follows it. */
  lemma StripHashed(rest: seq<byte>)
    requires 0 < |rest|
    ensures StripPrefix(HASHED + rest) == Some(rest)
  {
    StripFastPath(HASHED, rest);
  }

  /** The bare hashed prefix strips to nothing. */
  lemma StripBareHashed()
    ensures StripPrefix(HASHED) == None
  {
    StripAtFirstDash(HASHED, DASH_POS);
  }

  /** A short hash is cut after its first dash. */
  lemma StripShortHashed()
    ensures StripPrefix(SHORT_HASHED + SHORT_PREFIX) == Some(SHORT_PREFIX)
  {
    var b := SHORT_HASHED + SHORT_PREFIX;
    assert forall i | 0 <= i < 26 :: b[i] == SHORT_HASHED[i];
    StripAtFirstDash(b, 25);
    assert b[26..] == SHORT_PREFIX;
  }

  // Each multi-dash fixture is settled in three small steps: its dash
  // positions, its version dash, and the evaluation rule that applies.

  /** "vpnc-0.5.3-post-r550" gives name "vpnc" and version
      "0.5.3-post-r550": the dashes inside the version stay in it. */
  lemma ParseVpnc()
    ensures ParseSpec(0, 0, HASHED + VPNC) == Some(Store(0, VPNC[..4], VPNC[5..], None, 0))
  {
    StripHashed(VPNC);
    VpncVersionDash();
    assert HasAsciiDigit(VPNC[16..]) by { assert IsAsciiDigit(VPNC[16..][1]); }
    ParseStrippedWithoutSuffix(0, 0, VPNC, [4, 10, 15], 0);
  }

  lemma VpncDashes()
    ensures IsDashIndexList(VPNC, [4, 10, 15])
  {
  }

  lemma VpncVersionDash()
    ensures IsDashIndexList(VPNC, [4, 10, 15])
    ensures FirstVersionDash(VPNC, [4, 10, 15], 0) == Some(0)
  {
    VpncDashes();
    assert Fragment(VPNC, [4, 10, 15], 0) == VPNC[5..10];
    assert VPNC[5..10] == [48, 46, 53, 46, 51];
    assert IsVersionStr(VPNC[5..10]);
  }

  /** "/nix/store/123shortprefix-short-prefix-1.0" gives name
      "short-prefix" and version "1.0". */
  lemma ParseShortPrefix()
    ensures ParseSpec(0, 0, SHORT_HASHED + SHORT_PREFIX)
         == Some(Store(0, SHORT_PREFIX[..12], SHORT_PREFIX[13..], None, 0))
  {
    StripShortHashed();
    ShortPrefixVersionDash();
    assert HasAsciiDigit(SHORT_PREFIX[13..]) by { assert IsAsciiDigit(SHORT_PREFIX[13..][0]); }
    ParseStrippedWithoutSuffix(0, 0, SHORT_PREFIX, [5, 12], 1);
  }

  lemma ShortPrefixDashes()
    ensures IsDashIndexList(SHORT_PREFIX, [5, 12])
  {
  }

  lemma ShortPrefixVersionDash()
    ensures IsDashIndexList(SHORT_PREFIX, [5, 12])
    ensures FirstVersionDash(SHORT_PREFIX, [5, 12], 0) == Some(1)
  {
    var p, ds := SHORT_PREFIX, [5, 12];
    ShortPrefixDashes();
    assert Fragment(p, ds, 0) == p[6..12];
    assert !IsVersionStr(p[6..12]);
    assert Fragment(p, ds, 1) == p[13..];
    assert IsVersionStr(p[13..]);
  }

  /** "wine-wow-4.0-rc5-staging" gives name "wine-wow", version "4.0-rc5"
      and suffix "staging". */
  lemma ParseWine()
    ensures ParseSpec(0, 0, HASHED + WINE)
         == Some(Store(0, WINE[..8], WINE[9..16], Some(WINE[17..]), 0))
  {
    StripHashed(WINE);
    WineVersionDash();
    WineSuffix();
    ParseStrippedWithSuffix(0, 0, WINE, [4, 8, 12, 16], 1);
  }

  lemma WineDashes()
    ensures IsDashIndexList(WINE, [4, 8, 12, 16])
  {
  }

  lemma WineSuffix()
    ensures !HasAsciiDigit(WINE[17..])
  {
  }

  lemma WineVersionDash()
    ensures IsDashIndexList(WINE, [4, 8, 12, 16])
    ensures FirstVersionDash(WINE, [4, 8, 12, 16], 0) == Some(1)
  {
    var p, ds := WINE, [4, 8, 12, 16];
    WineDashes();
    assert Fragment(p, ds, 0) == p[5..8];
    assert !IsVersionStr(p[5..8]) by { assert p[5..8][0] == p[5]; }
    assert Fragment(p, ds, 1) == p[9..12];
    assert IsVersionStr(p[9..12]) by {
      assert p[9..12] == [p[9], p[10], p[11]];
    }
  }

  /** "ffmpeg-3.4.5-bin" gives name "ffmpeg", version "3.4.5" and suffix
      "bin". */
  lemma ParseFfmpeg()
    ensures ParseSpec(0, 0, HASHED + FFMPEG)
         == Some(Store(0, FFMPEG[..6], FFMPEG[7..12], Some(FFMPEG[13..]), 0))
  {
    StripHashed(FFMPEG);
    FfmpegVersionDash();
    assert !HasAsciiDigit(FFMPEG[13..]);
    ParseStrippedWithSuffix(0, 0, FFMPEG, [6, 12], 0);
  }

  lemma FfmpegDashes()
    ensures IsDashIndexList(FFMPEG, [6, 12])
  {
  }

  lemma FfmpegVersionDash()
    ensures IsDashIndexList(FFMPEG, [6, 12])
    ensures FirstVersionDash(FFMPEG, [6, 12], 0) == Some(0)
  {
    FfmpegDashes();
    assert Fragment(FFMPEG, [6, 12], 0) == FFMPEG[7..12];
    assert FFMPEG[7..12] == [51, 46, 52, 46, 53];
    assert IsVersionStr(FFMPEG[7..12]);
  }

  /** "rpcs3-9165-8ca53f9" gives name "rpcs3" and version "9165-8ca53f9":
      a last fragment with a digit is no suffix. */
  lemma ParseRpcs3()
    ensures ParseSpec(0, 0, HASHED + RPCS3) == Some(Store(0, RPCS3[..5], RPCS3[6..], None, 0))
  {
    StripHashed(RPCS3);
    Rpcs3VersionDash();
    assert HasAsciiDigit(RPCS3[11..]) by { assert IsAsciiDigit(RPCS3[11..][0]); }
    ParseStrippedWithoutSuffix(0, 0, RPCS3, [5, 10], 0);
  }

  lemma Rpcs3Dashes()
    ensures IsDashIndexList(RPCS3, [5, 10])
  {
  }

  lemma Rpcs3VersionDash()
    ensures IsDashIndexList(RPCS3, [5, 10])
    ensures FirstVersionDash(RPCS3, [5, 10], 0) == Some(0)
  {
    Rpcs3Dashes();
    assert Fragment(RPCS3, [5, 10], 0) == RPCS3[6..10];
    assert RPCS3[6..10] == [57, 49, 54, 53];
    assert IsVersionStr(RPCS3[6..10]);
  }

  /** "dash-edge-case-" has no fragment that looks like a version. */
  lemma ParseDashEdge()
    ensures ParseSpec(0, 0, HASHED + DASH_EDGE) == None
  {
    StripHashed(DASH_EDGE);
    DashEdgeNoVersion();
    ParseStrippedNoVersion(0, 0, DASH_EDGE, [4, 9, 14]);
  }

  lemma DashEdgeDashes()
    ensures IsDashIndexList(DASH_EDGE, [4, 9, 14])
  {
  }

  lemma DashEdgeNoVersion()
    ensures IsDashIndexList(DASH_EDGE, [4, 9, 14])
    ensures FirstVersionDash(DASH_EDGE, [4, 9, 14], 0) == None
  {
    var p, ds := DASH_EDGE, [4, 9, 14];
    DashEdgeDashes();
    assert Fragment(p, ds, 0) == p[5..9];
    assert !IsVersionStr(p[5..9]);
    assert Fragment(p, ds, 1) == p[10..14];
    assert !IsVersionStr(p[10..14]);
    assert Fragment(p, ds, 2) == p[15..];
  }

  /** "fix-static.patch" has one dash and no digit after it. */
  lemma ParseFixStatic()
    ensures ParseSpec(0, 0, HASHED + FIX_STATIC) == None
  {
    StripHashed(FIX_STATIC);
    FixStaticFacts();
    ParseStrippedOneDash(0, 0, FIX_STATIC, 3);
  }

  lemma FixStaticFacts()
    ensures IsDashIndexList(FIX_STATIC, [3])
    ensures !HasAsciiDigit(FIX_STATIC[4..])
  {
  }

  /** "glxinfo-8.4.0" takes the one-dash path. */
  lemma ParseGlxinfo()
    ensures ParseSpec(0, 0, HASHED + GLXINFO) == Some(Store(0, GLXINFO[..7], GLXINFO[8..], None, 0))
  {
    StripHashed(GLXINFO);
    GlxinfoFacts();
    ParseStrippedOneDash(0, 0, GLXINFO, 7);
  }

  lemma GlxinfoFacts()
    ensures IsDashIndexList(GLXINFO, [7])
    ensures HasAsciiDigit(GLXINFO[8..])
  {
    assert IsAsciiDigit(GLXINFO[8..][0]);
  }

  /** "dxvk-v1.4.6" keeps the leading `v` in its version. */
  lemma ParseDxvk()
    ensures ParseSpec(0, 0, HASHED + DXVK) == Some(Store(0, DXVK[..4], DXVK[5..], None, 0))
  {
    StripHashed(DXVK);
    DxvkFacts();
    ParseStrippedOneDash(0, 0, DXVK, 4);
  }

  lemma DxvkFacts()
    ensures IsDashIndexList(DXVK, [4])
    ensures HasAsciiDigit(DXVK[5..])
  {
    assert IsAsciiDigit(DXVK[5..][1]);
  }

  /** A dash-free head, a dash and a dash-free tail: the one dash is the
      only dash position. */
  lemma OneDashAt(head: seq<byte>, tail: seq<byte>)
    requires DASH !in head && DASH !in tail
    ensures IsDashIndexList(head + [DASH] + tail, [|head|])
  {
    var p := head + [DASH] + tail;
    assert forall i | 0 <= i < |head| :: p[i] == head[i];
    assert forall i | |head| < i < |p| :: p[i] == tail[i - |head| - 1];
  }

  /** "some-deriv.drv" has one dash and no digit after it. */
  lemma ParseSomeDeriv()
    ensures ParseSpec(0, 0, HASHED + SOME_DERIV) == None
  {
    StripHashed(SOME_DERIV);
    SomeDerivFacts();
    ParseStrippedOneDash(0, 0, SOME_DERIV, 4);
  }

  lemma SomeDerivFacts()
    ensures IsDashIndexList(SOME_DERIV, [4])
    ensures !HasAsciiDigit(SOME_DERIV[5..])
  {
  }

  /** "dash-short-" ends in an empty suffix and has no version. */
  lemma ParseDashShort()
    ensures ParseSpec(0, 0, HASHED + DASH_SHORT) == None
  {
    StripHashed(DASH_SHORT);
    DashShortNoVersion();
    ParseStrippedNoVersion(0, 0, DASH_SHORT, [4, 10]);
  }

  lemma DashShortNoVersion()
    ensures IsDashIndexList(DASH_SHORT, [4, 10])
    ensures FirstVersionDash(DASH_SHORT, [4, 10], 0) == None
  {
    var p, ds := DASH_SHORT, [4, 10];
    assert IsDashIndexList(p, ds);
    assert Fragment(p, ds, 0) == p[5..10];
    assert !IsVersionStr(p[5..10]);
    assert Fragment(p, ds, 1) == p[11..] == [];
  }

  /** The bare hashed prefix has nothing to parse. */
  lemma ParseBareHashed()
    ensures ParseSpec(0, 0, HASHED) == None
  {
    StripBareHashed();
  }

  /** "pcre-8.42" takes the one-dash path. */
  lemma ParsePcre()
    ensures ParseSpec(0, 0, HASHED + PCRE) == Some(Store(0, PCRE[..4], PCRE[5..], None, 0))
  {
    StripHashed(PCRE);
    PcreFacts();
    ParseStrippedOneDash(0, 0, PCRE, 4);
  }

  lemma PcreFacts()
    ensures IsDashIndexList(PCRE, [4])
    ensures HasAsciiDigit(PCRE[5..])
  {
    assert IsAsciiDigit(PCRE[5..][0]);
  }

  /** "dxvk-<commit>": with one dash any digit after it makes a version. */
  lemma ParseDxvkCommit()
    ensures ParseSpec(0, 0, HASHED + DXVK_COMMIT)
         == Some(Store(0, DXVK_COMMIT[..4], DXVK_COMMIT[5..], None, 0))
  {
    StripHashed(DXVK_COMMIT);
    DxvkCommitFacts();
    ParseStrippedOneDash(0, 0, DXVK_COMMIT, 4);
  }

  lemma DxvkCommitFacts()
    ensures IsDashIndexList(DXVK_COMMIT, [4])
    ensures HasAsciiDigit(DXVK_COMMIT[5..])
  {
    assert DASH !in DXVK[..4];
    assert DASH !in COMMIT;
    OneDashAt(DXVK[..4], COMMIT);
    assert DXVK[..4] + [DASH] + COMMIT == DXVK_COMMIT;
    assert DXVK_COMMIT[5..] == COMMIT;
    assert IsAsciiDigit(COMMIT[1]);
  }

  /** "single-version-8" gives name "single-version" and version "8". */
  lemma ParseSingleVersion()
    ensures ParseSpec(0, 0, HASHED + SINGLE_VERSION)
         == Some(Store(0, SINGLE_VERSION[..14], SINGLE_VERSION[15..], None, 0))
  {
    StripHashed(SINGLE_VERSION);
    SingleVersionDash();
    assert HasAsciiDigit(SINGLE_VERSION[15..]) by { assert IsAsciiDigit(SINGLE_VERSION[15..][0]); }
    ParseStrippedWithoutSuffix(0, 0, SINGLE_VERSION, [6, 14], 1);
  }

  lemma SingleVersionDash()
    ensures IsDashIndexList(SINGLE_VERSION, [6, 14])
    ensures FirstVersionDash(SINGLE_VERSION, [6, 14], 0) == Some(1)
  {
    var p, ds := SINGLE_VERSION, [6, 14];
    assert IsDashIndexList(p, ds);
    assert Fragment(p, ds, 0) == p[7..14];
    assert !IsVersionStr(p[7..14]) by { assert p[7..14][0] == p[7]; }
    assert Fragment(p, ds, 1) == p[15..] == [56];
    assert IsVersionStr(p[15..]);
  }

  /** "single-4" takes the one-dash path. */
  lemma ParseSingle()
    ensures ParseSpec(0, 0, HASHED + SINGLE) == Some(Store(0, SINGLE[..6], SINGLE[7..], None, 0))
  {
    StripHashed(SINGLE);
    SingleFacts();
    ParseStrippedOneDash(0, 0, SINGLE, 6);
  }

  lemma SingleFacts()
    ensures IsDashIndexList(SINGLE, [6])
    ensures HasAsciiDigit(SINGLE[7..])
  {
    assert IsAsciiDigit(SINGLE[7..][0]);
  }

  /** "wine-wow-4.21-staging" gives name "wine-wow", version "4.21" and
      suffix "staging". */
  lemma ParseWine421()
    ensures ParseSpec(0, 0, HASHED + WINE_421)
         == Some(Store(0, WINE_421[..8], WINE_421[9..13], Some(WINE_421[14..]), 0))
  {
    StripHashed(WINE_421);
    Wine421VersionDash();
    Wine421Suffix();
    ParseStrippedWithSuffix(0, 0, WINE_421, [4, 8, 13], 1);
  }

  lemma Wine421Dashes()
    ensures IsDashIndexList(WINE_421, [4, 8, 13])
  {
  }

  lemma Wine421Suffix()
    ensures !HasAsciiDigit(WINE_421[14..])
  {
  }

  lemma Wine421VersionDash()
    ensures IsDashIndexList(WINE_421, [4, 8, 13])
    ensures FirstVersionDash(WINE_421, [4, 8, 13], 0) == Some(1)
  {
    var p, ds := WINE_421, [4, 8, 13];
    Wine421Dashes();
    assert Fragment(p, ds, 0) == p[5..8];
    assert !IsVersionStr(p[5..8]) by { assert p[5..8][0] == p[5]; }
    assert Fragment(p, ds, 1) == p[9..13] == [52, 46, 50, 49];
    assert IsVersionStr(p[9..13]);
  }

  /** "vulkan-loader-1.1.85" gives name "vulkan-loader" and version
      "1.1.85". */
  lemma ParseVulkan()
    ensures ParseSpec(0, 0, HASHED + VULKAN) == Some(Store(0, VULKAN[..13], VULKAN[14..], None, 0))
  {
    StripHashed(VULKAN);
    VulkanVersionDash();
    assert HasAsciiDigit(VULKAN[14..]) by { assert IsAsciiDigit(VULKAN[14..][0]); }
    ParseStrippedWithoutSuffix(0, 0, VULKAN, [6, 13], 1);
  }

  lemma VulkanVersionDash()
    ensures IsDashIndexList(VULKAN, [6, 13])
    ensures FirstVersionDash(VULKAN, [6, 13], 0) == Some(1)
  {
    var p, ds := VULKAN, [6, 13];
    assert IsDashIndexList(p, ds);
    assert Fragment(p, ds, 0) == p[7..13];
    assert !IsVersionStr(p[7..13]) by { assert p[7..13][0] == p[7]; }
    assert Fragment(p, ds, 1) == p[14..] == [49, 46, 49, 46, 56, 53];
    assert IsVersionStr(p[14..]);
  }
}
