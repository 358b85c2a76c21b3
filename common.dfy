/** Shared vocabulary of the model: optional values, bytes and the ASCII
    character classes both generations of the store parser test for. */
module Common {

  datatype Option<+T> = None | Some(value: T)

  /** An unsigned 8-bit value, as in a Rust `&[u8]`. */
  newtype byte = b: int | 0 <= b < 256

  /** A Rust `u32`. */
  newtype u32 = x: int | 0 <= x < 0x1_0000_0000

  /** A Rust `i32`, as the store database hands out its integers. */
  newtype i32 = x: int | -0x8000_0000 <= x < 0x8000_0000

  /** Rust's `x as u32` on an `i32`: the same 32 bits read as unsigned, so
      a negative value wraps around. */
  function I32AsU32(x: i32): (r: u32)
    ensures r as int % 0x1_0000_0000 == x as int % 0x1_0000_0000
    ensures 0 <= x ==> r as int == x as int
  {
    if x < 0 then (x as int + 0x1_0000_0000) as u32 else x as int as u32
  }

  const DASH: byte := 45        // '-'
  const DOT: byte := 46         // '.'
  const UNDERSCORE: byte := 95  // '_'
  const LOWER_V: byte := 118    // 'v'

  predicate IsAsciiDigit(b: byte) {
    48 <= b <= 57
  }

  predicate IsAsciiLower(b: byte) {
    97 <= b <= 122
  }

  /** The bytes of a string whose characters all fit in a byte (the UTF-8
      encoding when they are ASCII); used to write byte fixtures as text. */
  function AsciiBytes(s: string): (r: seq<byte>)
    ensures |r| == |s|
    ensures forall i | 0 <= i < |s| && s[i] as int < 256 :: r[i] as int == s[i] as int
  {
    seq(|s|, i requires 0 <= i < |s| => if s[i] as int < 256 then s[i] as int as byte else 0)
  }

  /** The position of the first occurrence of `x` in `s`, as Rust's
      `iter().position` and `str::find` give it. */
  function IndexOf<T(==)>(s: seq<T>, x: T): (r: Option<nat>)
    ensures r.Some? ==> r.value < |s| && s[r.value] == x && x !in s[..r.value]
    ensures r.None? <==> x !in s
  {
    if |s| == 0 then None
    else if s[0] == x then Some(0)
    else match IndexOf(s[1..], x)
      case None => None
      case Some(k) =>
        assert s[..k + 1] == [s[0]] + s[1..][..k];
        Some(k + 1)
  }

  /** `IndexOf` finds the first occurrence and no other. */
  lemma IndexOfIsFirst<T>(s: seq<T>, x: T, k: nat)
    requires k < |s| && s[k] == x
    requires forall q | 0 <= q < k :: s[q] != x
    ensures IndexOf(s, x) == Some(k)
  {
    assert x in s;
    var r := IndexOf(s, x).value;
    assert forall q | 0 <= q < r :: s[..r][q] == s[q];
  }

  /** The elements of a sequence, as a set. */
  function ElementSet<T>(s: seq<T>): set<T> {
    set x | x in s
  }

  /** A sequence is empty iff it has no elements. */
  lemma ElementSetEmpty<T>(s: seq<T>)
    ensures s == [] <==> ElementSet(s) == {}
  {
    if s != [] {
      assert s[0] in ElementSet(s);
    }
  }

  lemma ElementSetAppend<T>(s: seq<T>, x: T)
    ensures ElementSet(s + [x]) == ElementSet(s) + {x}
  {
  }
}
