/** The `parse_store_info` and `strip_store_path` fixtures of src/store.rs,
    and the path that shows the empty name, proved of the model. */
module StorePathsTests {
  import opened Common
  import opened StorePaths

  /** The hashed prefix the fixtures share, up to its dash. */
  const HEAD: string := "/nix/store/123abc"

  lemma HeadDashFree()
    ensures '-' !in HEAD
  {
    assert forall i | 0 <= i < |HEAD| :: HEAD[i] != '-';
  }

  lemma StripStorePath()
    ensures Strip("/nix/store/03lp4drizbh8cl3f9mjysrrzrg3ssakv" + "-" + "glxinfo-8.4.0") == Some("glxinfo-8.4.0")
  {
    StripAfterFirstDash("/nix/store/03lp4drizbh8cl3f9mjysrrzrg3ssakv", "glxinfo-8.4.0");
  }

  lemma ParseGlxinfo()
    ensures ParseSpec(HEAD + "-" + ("glxinfo" + "-" + "8.4.0")) == Some(StorePath("glxinfo", "8.4.0"))
  {
    assert IsVersionStr("8.4.0");
    ParseTwoSegments(HEAD, "glxinfo", "8.4.0");
  }

  lemma ParseFixStatic()
    ensures ParseSpec(HEAD + "-" + ("fix" + "-" + "static.patch")) == None
  {
    assert !IsVersionStr("static.patch");
    ParseTwoSegments(HEAD, "fix", "static.patch");
  }

  lemma ParsePcre()
    ensures ParseSpec(HEAD + "-" + ("pcre" + "-" + "8.42")) == Some(StorePath("pcre", "8.42"))
  {
    assert IsVersionStr("8.42");
    ParseTwoSegments(HEAD, "pcre", "8.42");
  }

  lemma ParseDxvkTag()
    ensures ParseSpec(HEAD + "-" + ("dxvk" + "-" + "v0.96")) == Some(StorePath("dxvk", "v0.96"))
  {
    assert IsVersionStr("v0.96");
    ParseTwoSegments(HEAD, "dxvk", "v0.96");
  }

  lemma ParseDxvkCommit()
    ensures ParseSpec(HEAD + "-" + ("dxvk" + "-" + "6062dfbef4d5c0f061b9f6e342acab54f34e089a")) ==
      Some(StorePath("dxvk", "6062dfbef4d5c0f061b9f6e342acab54f34e089a"))
  {
    assert IsVersionStr("6062dfbef4d5c0f061b9f6e342acab54f34e089a");
    ParseTwoSegments(HEAD, "dxvk", "6062dfbef4d5c0f061b9f6e342acab54f34e089a");
  }

  lemma ParseGcc()
    ensures ParseSpec(HEAD + "-" + ("gcc" + "-" + "7.4.0")) == Some(StorePath("gcc", "7.4.0"))
  {
    assert IsVersionStr("7.4.0");
    ParseTwoSegments(HEAD, "gcc", "7.4.0");
  }

  lemma WallpaperSegments(segs: seq<string>)
    requires segs == ["nix", "wallpaper", "simple", "dark", "gray_bottom.png.drv"]
    ensures |segs| == 5 && forall i | 0 <= i < |segs| :: '-' !in segs[i]
    ensures forall j | 0 <= j < |segs| :: !IsVersionStr(segs[j])
  {
    assert !IsVersionStr("nix") by { assert "nix"[0] == 'n'; }
    assert !IsVersionStr("wallpaper") by { assert "wallpaper"[0] == 'w'; }
    assert !IsVersionStr("simple") by { assert "simple"[0] == 's'; }
    assert !IsVersionStr("dark") by { assert "dark"[0] == 'd'; }
    assert !IsVersionStr("gray_bottom.png.drv") by { assert "gray_bottom.png.drv"[0] == 'g'; }
  }

  lemma ParseWallpaper()
    ensures ParseSpec(HEAD + "-" + Join(["nix", "wallpaper", "simple", "dark", "gray_bottom.png.drv"])) == None
  {
    var segs := ["nix", "wallpaper", "simple", "dark", "gray_bottom.png.drv"];
    WallpaperSegments(segs);
    HeadDashFree();
    NoVersionSegment(HEAD, segs);
  }

  lemma Rpcs3Segments(segs: seq<string>)
    requires segs == ["rpcs3", "7788", "4c59395"]
    ensures |segs| == 3 && forall i | 0 <= i < |segs| :: '-' !in segs[i]
    ensures !AllAlphabetic(segs[2]) && IsVersionStr(segs[1]) && !IsVersionStr(segs[0])
    ensures segs[..1] == ["rpcs3"] && segs[1..] == ["7788", "4c59395"]
  {
    assert !AllAlphabetic("4c59395") by { assert "4c59395"[0] == '4'; }
    assert !IsVersionStr("rpcs3") by { assert "rpcs3"[0] == 'r'; }
    assert IsVersionStr("7788");
  }

  lemma ParseRpcs3()
    ensures ParseSpec(HEAD + "-" + Join(["rpcs3", "7788", "4c59395"])) ==
      Some(StorePath(Join(["rpcs3"]), Join(["7788", "4c59395"])))
  {
    var segs := ["rpcs3", "7788", "4c59395"];
    Rpcs3Segments(segs);
    HeadDashFree();
    CutAt(HEAD, segs, 1);
  }

  lemma SteamRuntimeSegments(segs: seq<string>)
    requires segs == ["steam", "runtime", "2016", "08", "26"]
    ensures |segs| == 5 && forall i | 0 <= i < |segs| :: '-' !in segs[i]
    ensures !AllAlphabetic(segs[4]) && IsVersionStr(segs[2]) && forall j | 0 <= j < 2 :: !IsVersionStr(segs[j])
    ensures segs[..2] == ["steam", "runtime"] && segs[2..] == ["2016", "08", "26"]
  {
    assert !AllAlphabetic("26") by { assert "26"[0] == '2'; }
    assert !IsVersionStr("steam") by { assert "steam"[0] == 's'; }
    assert !IsVersionStr("runtime") by { assert "runtime"[0] == 'r'; }
    assert IsVersionStr("2016");
  }

  lemma ParseSteamRuntime()
    ensures ParseSpec(HEAD + "-" + Join(["steam", "runtime", "2016", "08", "26"])) ==
      Some(StorePath(Join(["steam", "runtime"]), Join(["2016", "08", "26"])))
  {
    var segs := ["steam", "runtime", "2016", "08", "26"];
    SteamRuntimeSegments(segs);
    HeadDashFree();
    CutAt(HEAD, segs, 2);
  }

  lemma WineWowSegments(rest: seq<string>, last: string)
    requires rest == ["wine", "wow", "4.0", "rc5"] && last == "staging"
    ensures |rest| == 4 && forall i | 0 <= i < |rest| :: '-' !in rest[i]
    ensures '-' !in last && AllAlphabetic(last)
    ensures IsVersionStr(rest[2]) && forall j | 0 <= j < 2 :: !IsVersionStr(rest[j])
    ensures rest[..2] == ["wine", "wow"] && rest[2..] == ["4.0", "rc5"]
  {
    assert AllAlphabetic("staging");
    assert !IsVersionStr("wine") by { assert "wine"[0] == 'w'; }
    assert !IsVersionStr("wow") by { assert "wow"[0] == 'w'; }
    assert IsVersionStr("4.0");
  }

  lemma ParseWineWow()
    ensures ParseSpec(HEAD + "-" + Join(["wine", "wow", "4.0", "rc5"] + ["staging"])) ==
      Some(StorePath(Join(["wine", "wow"]) + "|" + "staging", Join(["4.0", "rc5"])))
  {
    var rest := ["wine", "wow", "4.0", "rc5"];
    WineWowSegments(rest, "staging");
    HeadDashFree();
    CutAtWithSuffix(HEAD, rest, "staging", 2);
  }

  lemma FfmpegSegments(rest: seq<string>, last: string)
    requires rest == ["ffmpeg", "3.4.5"] && last == "bin"
    ensures |rest| == 2 && forall i | 0 <= i < |rest| :: '-' !in rest[i]
    ensures '-' !in last && AllAlphabetic(last)
    ensures IsVersionStr(rest[1]) && !IsVersionStr(rest[0])
    ensures rest[..1] == ["ffmpeg"] && rest[1..] == ["3.4.5"]
  {
    assert AllAlphabetic("bin");
    assert !IsVersionStr("ffmpeg") by { assert "ffmpeg"[0] == 'f'; }
    assert IsVersionStr("3.4.5");
  }

  lemma ParseFfmpeg()
    ensures ParseSpec(HEAD + "-" + Join(["ffmpeg", "3.4.5"] + ["bin"])) ==
      Some(StorePath(Join(["ffmpeg"]) + "|" + "bin", Join(["3.4.5"])))
  {
    var rest := ["ffmpeg", "3.4.5"];
    FfmpegSegments(rest, "bin");
    HeadDashFree();
    CutAtWithSuffix(HEAD, rest, "bin", 1);
  }

  lemma ZeroAdSegments(segs: seq<string>)
    requires segs == ["0ad", "data", "0.0.23"]
    ensures |segs| == 3 && forall i | 0 <= i < |segs| :: '-' !in segs[i]
    ensures !AllAlphabetic(segs[2]) && IsVersionStr(segs[0]) && !IsVersionStr(segs[1]) && IsVersionStr(segs[2])
    ensures segs[..2] == ["0ad", "data"] && segs[2..] == ["0.0.23"]
  {
    assert !AllAlphabetic("0.0.23") by { assert "0.0.23"[0] == '0'; }
    assert IsVersionStr("0ad");
    assert !IsVersionStr("data") by { assert "data"[0] == 'd'; }
    assert IsVersionStr("0.0.23");
  }

  /** The path of a package named `0ad-data`, version `0.0.23`. */
  lemma LeadingVersionSegment()
    ensures ParseSpec(HEAD + "-" + Join(["0ad", "data", "0.0.23"])) == Some(StorePath("", Join(["0ad", "data", "0.0.23"])))
    ensures ParseCorrected(HEAD + "-" + Join(["0ad", "data", "0.0.23"])) ==
      Some(StorePath(Join(["0ad", "data"]), Join(["0.0.23"])))
    ensures Rebuild(Parts("", Join(["0ad", "data", "0.0.23"]), None)) != Join(["0ad", "data", "0.0.23"])
  {
    var segs := ["0ad", "data", "0.0.23"];
    ZeroAdSegments(segs);
    HeadDashFree();
    LeadingVersion(HEAD, segs, 2);
  }
}
