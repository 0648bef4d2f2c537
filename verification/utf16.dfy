/** JavaScript strings are sequences of UTF-16 code units: `.length` counts
    code units, and the default `Array.prototype.sort` compares strings code
    unit by code unit. The model's `string` is a sequence of Unicode scalar
    values, so both are expressed through the UTF-16 encoding. */
module Utf16 {

  /** The UTF-16 encoding of one scalar value: one unit in the Basic
      Multilingual Plane, a surrogate pair above it. */
  function CodeUnits(c: char): (u: seq<int>)
    ensures |u| == 1 <==> (c as int) < 0x1_0000
    ensures |u| == 1 || |u| == 2
    ensures forall k :: 0 <= k < |u| ==> 0 <= u[k] < 0x1_0000
    ensures |u| == 2 <==> 0xD800 <= u[0] < 0xDC00
  {
    var v := c as int;
    if v < 0x1_0000 then [v]
    else [0xD800 + (v - 0x1_0000) / 0x400, 0xDC00 + (v - 0x1_0000) % 0x400]
  }

  function Units(s: string): seq<int>
    decreases |s|
  {
    if |s| == 0 then [] else CodeUnits(s[0]) + Units(s[1..])
  }

  /** The JavaScript length of `s`, in code units. */
  function Length(s: string): (n: nat)
    ensures |s| <= n <= 2 * |s|
    decreases |s|
  {
    if |s| == 0 then 0 else |CodeUnits(s[0])| + Length(s[1..])
  }

  lemma {:induction false} LengthIsUnitCount(s: string)
    ensures Length(s) == |Units(s)|
    decreases |s|
  {
    if |s| > 0 {
      LengthIsUnitCount(s[1..]);
    }
  }

  /** A string of Basic Multilingual Plane characters has one code unit per
      character. */
  lemma {:induction false} LengthOfBmp(s: string)
    requires forall k :: 0 <= k < |s| ==> (s[k] as int) < 0x1_0000
    ensures Length(s) == |s|
    decreases |s|
  {
    if |s| > 0 {
      LengthOfBmp(s[1..]);
    }
  }

  lemma CodeUnitsInjective(c: char, d: char)
    requires CodeUnits(c) == CodeUnits(d)
    ensures c == d
  {
    var v, w := c as int, d as int;
    if v >= 0x1_0000 {
      var u := CodeUnits(c);
      assert (v - 0x1_0000) == (u[0] - 0xD800) * 0x400 + (u[1] - 0xDC00);
      assert (w - 0x1_0000) == (u[0] - 0xD800) * 0x400 + (u[1] - 0xDC00);
    }
  }

  /** UTF-16 is a prefix code: two strings with the same encoding are equal. */
  lemma {:induction false} UnitsInjective(s: string, t: string)
    requires Units(s) == Units(t)
    ensures s == t
    decreases |s|
  {
    if |s| > 0 {
      assert |t| > 0;
      var us, ut := CodeUnits(s[0]), CodeUnits(t[0]);
      assert Units(s) == us + Units(s[1..]) && Units(t) == ut + Units(t[1..]);
      assert us[0] == Units(s)[0] == ut[0];
      assert |us| == |ut|;
      assert us == Units(s)[..|us|] == ut;
      CodeUnitsInjective(s[0], t[0]);
      assert Units(s[1..]) == Units(s)[|us|..] == Units(t[1..]);
      UnitsInjective(s[1..], t[1..]);
      assert s == [s[0]] + s[1..] && t == [t[0]] + t[1..];
    }
  }
}
