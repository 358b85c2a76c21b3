/** The two generations of the store parser side by side: the newer,
    byte-based `Store::is_version_str` (src/store/mod.rs) accepts exactly
    the strings the older, char-based `is_version_str` (src/store.rs)
    accepts, except those led by a `v` that no digit follows. */
module Generations {
  import opened Common
  import Newer = Stores
  import Older = StorePaths

  predicate IsAscii(s: string) {
    forall i | 0 <= i < |s| :: s[i] as int < 128
  }

  /** On ASCII text the byte and char classes agree. */
  lemma ClassesAgree(s: string, i: nat)
    requires IsAscii(s) && i < |s|
    ensures IsAsciiDigit(AsciiBytes(s)[i]) <==> Older.IsNumeric(s[i])
    ensures Newer.IsVersionByte(AsciiBytes(s)[i]) <==> Older.IsVersionChar(s[i])
    ensures AsciiBytes(s)[i] == LOWER_V <==> s[i] == 'v'
  {
  }

  /** The newer test is the older one plus a digit after a leading `v`. */
  lemma NewerIsStricter(s: string)
    requires IsAscii(s)
    ensures Newer.IsVersionStr(AsciiBytes(s)) <==>
      Older.IsVersionStr(s) && (s[0] == 'v' ==> |s| >= 2 && Older.IsNumeric(s[1]))
  {
    var b := AsciiBytes(s);
    forall i | 0 <= i < |s|
      ensures Newer.IsVersionByte(b[i]) <==> Older.IsVersionChar(s[i])
      ensures IsAsciiDigit(b[i]) <==> Older.IsNumeric(s[i])
      ensures b[i] == LOWER_V <==> s[i] == 'v'
    {
      ClassesAgree(s, i);
    }
    if |s| >= 2 && s[0] == 'v' {
      assert forall i | 1 <= i < |b| :: b[1..][i - 1] == b[i];
    }
  }

  /** A lone `v` is a version to the older parser and not to the newer. */
  lemma BareVersionPrefix()
    ensures Older.IsVersionStr("v")
    ensures !Newer.IsVersionStr(AsciiBytes("v"))
  {
    NewerIsStricter("v");
    assert "v"[0] == 'v';
  }
}
