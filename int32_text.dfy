/** The parts of .NET's `System.Int32` that the calculator relies on: the 32-bit range and
    unchecked wrap-around of `+=`, `int.TryParse` under `NumberStyles.Integer`, and
    `Int32.ToString()`, all with the invariant culture. */
module Int32Text {
  import opened Wrappers

  const MinInt32: int := -0x8000_0000
  const MaxInt32: int := 0x7FFF_FFFF
  const TwoTo32: int := 0x1_0000_0000

  predicate InInt32(x: int) {
    MinInt32 <= x <= MaxInt32
  }

  /** The 32-bit two's-complement value of `x`, what unchecked C# `int` arithmetic keeps: the
      value in the Int32 range that differs from `x` by a multiple of 2^32. */
  function Wrap32(x: int): (r: int)
    ensures InInt32(r)
    decreases if x > MaxInt32 then x - MaxInt32 else if x < MinInt32 then MinInt32 - x else 0
  {
    if x > MaxInt32 then Wrap32(x - TwoTo32)
    else if x < MinInt32 then Wrap32(x + TwoTo32)
    else x
  }

  /** A value that fits in 32 bits is left as it is. */
  lemma Wrap32Keeps(x: int)
    requires InInt32(x)
    ensures Wrap32(x) == x
  {
  }

  lemma ShiftMod(y: int, q: int)
    ensures (y + q * TwoTo32) % TwoTo32 == y % TwoTo32
  {
    var d := y / TwoTo32;
    var m := y % TwoTo32;
    assert y + q * TwoTo32 == (d + q) * TwoTo32 + m;
  }

  /** The wrapped value in closed form: the remainder of `x - MinInt32` by 2^32, shifted back. */
  lemma {:induction false} Wrap32Mod(x: int)
    ensures Wrap32(x) == (x - MinInt32) % TwoTo32 + MinInt32
    decreases if x > MaxInt32 then x - MaxInt32 else if x < MinInt32 then MinInt32 - x else 0
  {
    if x > MaxInt32 {
      Wrap32Mod(x - TwoTo32);
      ShiftMod(x - TwoTo32 - MinInt32, 1);
    } else if x < MinInt32 {
      Wrap32Mod(x + TwoTo32);
      ShiftMod(x + TwoTo32 - MinInt32, -1);
    }
  }

  /** Wrapping after every addition gives the same value as wrapping once at the end. */
  lemma Wrap32Add(a: int, b: int)
    ensures Wrap32(Wrap32(a) + b) == Wrap32(a + b)
  {
    Wrap32Mod(a);
    Wrap32Mod(Wrap32(a) + b);
    Wrap32Mod(a + b);
    var x := a - MinInt32;
    var q := x / TwoTo32;
    assert Wrap32(a) + b - MinInt32 == (a + b - MinInt32) + (-q) * TwoTo32;
    ShiftMod(a + b - MinInt32, -q);
  }

  // ---------------------------------------------------------------------------------------
  // Character classes of NumberStyles.Integer

  /** White space that `AllowLeadingWhite` and `AllowTrailingWhite` skip: U+0009 to U+000D and U+0020. */
  predicate IsWhite(c: char) {
    c == ' ' || '\t' <= c <= '\r'
  }

  predicate IsDigit(c: char) {
    '0' <= c <= '9'
  }

  predicate IsSign(c: char) {
    c == '+' || c == '-'
  }

  predicate AllDigits(d: string) {
    forall m :: 0 <= m < |d| ==> IsDigit(d[m])
  }

  /** The value of a decimal digit string, most significant digit first (0 for no digits). */
  function DigitsValue(d: string): nat
    requires AllDigits(d)
  {
    if d == [] then 0
    else DigitsValue(d[..|d| - 1]) * 10 + (d[|d| - 1] as int - '0' as int)
  }

  /** The first index at or after `i` whose character is not white space, or |s|. */
  function SkipWhite(s: string, i: nat): (r: nat)
    requires i <= |s|
    ensures i <= r <= |s|
    ensures forall m :: i <= m < r ==> IsWhite(s[m])
    ensures r < |s| ==> !IsWhite(s[r])
    decreases |s| - i
  {
    if i < |s| && IsWhite(s[i]) then SkipWhite(s, i + 1) else i
  }

  /** The first index at or after `i` whose character is not a digit, or |s|. */
  function SkipDigits(s: string, i: nat): (r: nat)
    requires i <= |s|
    ensures i <= r <= |s|
    ensures forall m :: i <= m < r ==> IsDigit(s[m])
    ensures r < |s| ==> !IsDigit(s[r])
    decreases |s| - i
  {
    if i < |s| && IsDigit(s[i]) then SkipDigits(s, i + 1) else i
  }

  /** The value written by the digits s[j..k], negated when the sign position s[i] (i < j) is '-'. */
  function SignedValue(s: string, i: nat, j: nat, k: nat): int
    requires i <= j <= k <= |s|
    requires forall m :: j <= m < k ==> IsDigit(s[m])
  {
    var magnitude: int := DigitsValue(s[j..k]);
    if j == i + 1 && s[i] == '-' then -magnitude else magnitude
  }

  /** `int.TryParse(s, out v)` with the default `NumberStyles.Integer`: leading white space, an
      optional sign, at least one digit, trailing white space, and a value inside the Int32 range. */
  function TryParse(s: string): (r: Option<int>)
    ensures r.Some? ==> InInt32(r.value)
  {
    var i := SkipWhite(s, 0);
    var j := if i < |s| && IsSign(s[i]) then i + 1 else i;
    var k := SkipDigits(s, j);
    if j == k || SkipWhite(s, k) < |s| then None
    else
      var v := SignedValue(s, i, j, k);
      if InInt32(v) then Some(v) else None
  }

  /** The grammar of NumberStyles.Integer, cut at its three boundaries: s[..i] is white space,
      s[i..j] is empty or one sign, s[j..k] is one or more digits and s[k..] is white space. */
  ghost predicate IntegerLayout(s: string, i: nat, j: nat, k: nat) {
    i <= j < k <= |s| &&
    (forall m :: 0 <= m < i ==> IsWhite(s[m])) &&
    (j == i || (j == i + 1 && IsSign(s[i]))) &&
    (forall m :: j <= m < k ==> IsDigit(s[m])) &&
    (forall m :: k <= m < |s| ==> IsWhite(s[m]))
  }

  /** Every text that follows the grammar parses, to its value when that fits in 32 bits. */
  lemma TryParseComplete(s: string, i: nat, j: nat, k: nat)
    requires IntegerLayout(s, i, j, k)
    ensures TryParse(s) == if InInt32(SignedValue(s, i, j, k)) then Some(SignedValue(s, i, j, k)) else None
  {
    // s[i] is a sign or a digit, so the white-space prefix ends exactly at i.
    assert IsSign(s[i]) || IsDigit(s[i]);
    assert SkipWhite(s, 0) == i;
    // s[k], if any, is white space and so not a digit: the digit run ends exactly at k.
    assert k < |s| ==> IsWhite(s[k]);
    assert SkipDigits(s, j) == k;
    assert SkipWhite(s, k) == |s|;
  }

  /** Everything that parses follows the grammar, and its value is the one the grammar gives. */
  lemma TryParseSound(s: string)
    ensures TryParse(s).Some? ==>
      exists i: nat, j: nat, k: nat :: IntegerLayout(s, i, j, k) && TryParse(s).value == SignedValue(s, i, j, k)
  {
    if TryParse(s).Some? {
      var i := SkipWhite(s, 0);
      var j := if i < |s| && IsSign(s[i]) then i + 1 else i;
      var k := SkipDigits(s, j);
      assert IntegerLayout(s, i, j, k);
    }
  }

  /** A token whose first character is neither white space, a sign nor a digit never parses. */
  lemma TryParseRejectsOtherFirstChar(s: string)
    requires |s| > 0 && !IsWhite(s[0]) && !IsSign(s[0]) && !IsDigit(s[0])
    ensures TryParse(s) == None
  {
    assert SkipWhite(s, 0) == 0;
    assert SkipDigits(s, 0) == 0;
  }

  /** An empty or all-white-space token never parses: there must be a digit. */
  lemma TryParseNeedsDigit(s: string)
    requires forall m :: 0 <= m < |s| ==> IsWhite(s[m])
    ensures TryParse(s) == None
  {
    var i := SkipWhite(s, 0);
    assert i == |s|;
  }

  // ---------------------------------------------------------------------------------------
  // Int32.ToString()

  function DigitChar(d: int): (c: char)
    requires 0 <= d < 10
    ensures IsDigit(c) && c as int - '0' as int == d
  {
    ('0' as int + d) as char
  }

  /** Decimal text of `n`, without leading zeros. */
  function NatToString(n: nat): (r: string)
    ensures |r| > 0 && AllDigits(r)
    ensures DigitsValue(r) == n
    ensures r[0] == '0' ==> r == "0"
  {
    if n < 10 then [DigitChar(n)]
    else
      var prefix := NatToString(n / 10);
      var r := prefix + [DigitChar(n % 10)];
      assert r[..|r| - 1] == prefix;
      r
  }

  /** `Int32.ToString()` under the invariant culture: '-' then the digits of the magnitude. */
  function IntToString(v: int): (r: string)
    ensures |r| > 0 && IsDigit(r[|r| - 1])
    ensures forall m :: 0 <= m < |r| ==> r[m] != ','
  {
    if v < 0 then "-" + NatToString(-v) else NatToString(v)
  }

  /** Formatting and parsing are inverse: the text ToString produces parses back to the value. */
  lemma ParseToStringRoundTrip(v: int)
    requires InInt32(v)
    ensures TryParse(IntToString(v)) == Some(v)
  {
    var s := IntToString(v);
    if v < 0 {
      var digits := NatToString(-v);
      assert s[1..|s|] == digits;
      assert IntegerLayout(s, 0, 1, |s|);
      TryParseComplete(s, 0, 1, |s|);
    } else {
      assert s[0..|s|] == s;
      assert IntegerLayout(s, 0, 0, |s|);
      TryParseComplete(s, 0, 0, |s|);
    }
  }
}
