/**
  The parts of java.lang.String, java.lang.Character and java.lang.Integer
  that the account service relies on: `trim`, `isBlank`, `toLowerCase`
  (restricted to ASCII), substring search, `Integer.parseInt`,
  `String.valueOf(int)` and 32-bit `int` wrap-around.
  Strings are sequences of code points; only characters of the Basic
  Multilingual Plane occur in the definitions below.
*/
module JavaText {
  import opened Options

  const INT_MIN: int := -0x8000_0000
  const INT_MAX: int := 0x7FFF_FFFF
  const TWO_TO_32: int := 0x1_0000_0000

  predicate IsInt(x: int) {
    INT_MIN <= x <= INT_MAX
  }

  /** The value a Java `int` expression `x` evaluates to: x reduced modulo 2^32 into the int range. */
  function Wrap32(x: int): (r: int)
    ensures IsInt(r)
    ensures (x - r) % TWO_TO_32 == 0
    ensures IsInt(x) ==> r == x
  {
    (x - INT_MIN) % TWO_TO_32 + INT_MIN
  }

  /** A sum that overflows the int range by less than 2^32 wraps to a negative int. */
  lemma WrapAboveMax(x: int)
    requires INT_MAX < x < TWO_TO_32
    ensures Wrap32(x) == x - TWO_TO_32 && Wrap32(x) < 0
  {
  }

  // ---------------------------------------------------------------- whitespace

  /** Character.isWhitespace: the Unicode space, line and paragraph separators other than the
      no-break spaces U+00A0, U+2007 and U+202F, plus the ASCII controls 9-13 and 28-31. */
  predicate IsWhitespace(c: char): (b: bool)
    ensures b && c <= '\U{7F}' ==> IsTrimmable(c)
    ensures b ==> !IsDigit(c) && c != '-' && c != '+' && LowerAscii(c) == c
  {
    || c == ' ' || '\t' <= c <= '\r' || '\U{1C}' <= c <= '\U{1F}'
    || c == '\U{1680}' || ('\U{2000}' <= c <= '\U{200A}' && c != '\U{2007}')
    || c == '\U{2028}' || c == '\U{2029}' || c == '\U{205F}' || c == '\U{3000}'
  }

  /** String.isBlank: empty or made only of whitespace. */
  predicate IsBlank(s: string) {
    forall i | 0 <= i < |s| :: IsWhitespace(s[i])
  }

  /** The characters String.trim removes at both ends: every character up to U+0020. */
  predicate IsTrimmable(c: char) {
    c <= ' '
  }

  function TrimStart(s: string): (r: string)
    ensures |r| <= |s| && r == s[|s| - |r|..]
    ensures forall i :: 0 <= i < |s| - |r| ==> IsTrimmable(s[i])
    ensures r == [] || !IsTrimmable(r[0])
  {
    if |s| > 0 && IsTrimmable(s[0]) then TrimStart(s[1..]) else s
  }

  function TrimEnd(s: string): (r: string)
    ensures |r| <= |s| && r == s[..|r|]
    ensures forall i :: |r| <= i < |s| ==> IsTrimmable(s[i])
    ensures r == [] || !IsTrimmable(r[|r| - 1])
  {
    if |s| > 0 && IsTrimmable(s[|s| - 1]) then TrimEnd(s[..|s| - 1]) else s
  }

  /** `r` is `s` from position `k` on, with only trimmable characters cut off on either side. */
  predicate TrimmedAt(s: string, r: string, k: int) {
    && 0 <= k <= |s| - |r| && s[k..k + |r|] == r
    && (forall i :: 0 <= i < k ==> IsTrimmable(s[i]))
    && (forall i :: k + |r| <= i < |s| ==> IsTrimmable(s[i]))
  }

  /** String.trim: `s` without its leading and trailing characters up to U+0020. */
  function Trim(s: string): (r: string)
    ensures r == [] || (!IsTrimmable(r[0]) && !IsTrimmable(r[|r| - 1]))
    ensures exists k :: TrimmedAt(s, r, k)
  {
    var t := TrimStart(s);
    var r := TrimEnd(t);
    assert r == s[|s| - |t|..][..|r|] == s[|s| - |t|..|s| - |t| + |r|];
    assert TrimmedAt(s, r, |s| - |t|);
    r
  }

  /** A string with nothing to trim at either end is its own trim. */
  lemma TrimNothing(s: string)
    requires s == [] || (!IsTrimmable(s[0]) && !IsTrimmable(s[|s| - 1]))
    ensures Trim(s) == s
  {
  }

  /** Trimming twice trims no more than trimming once. */
  lemma TrimIdempotent(s: string)
    ensures Trim(Trim(s)) == Trim(s)
  {
    TrimNothing(Trim(s));
  }

  /** Trimming leaves nothing exactly when every character is one trim removes. */
  lemma TrimsToEmptyIffAllTrimmable(s: string)
    ensures Trim(s) == [] <==> forall i :: 0 <= i < |s| ==> IsTrimmable(s[i])
  {
    var r := Trim(s);
    var k :| TrimmedAt(s, r, k);
    if r != [] {
      assert r[0] == s[k];
    }
  }

  /** A blank string of ASCII characters trims to the empty string. */
  lemma AsciiBlankTrimsToEmpty(s: string)
    requires IsBlank(s)
    requires forall i :: 0 <= i < |s| ==> s[i] <= '\U{7F}'
    ensures Trim(s) == []
  {
    assert forall i :: 0 <= i < |s| ==> IsTrimmable(s[i]);
    TrimsToEmptyIffAllTrimmable(s);
  }

  /** isBlank and trim disagree both ways. A control character that is not whitespace is
      not blank, yet trim removes it. */
  lemma ControlCharIsNotBlankButTrims()
    ensures !IsBlank("\U{1}") && Trim("\U{1}") == []
  {
    var control := "\U{1}";
    assert !IsBlank(control) by {
      assert !IsWhitespace(control[0]);
    }
    assert Trim(control) == [] by {
      assert IsTrimmable(control[0]);
      TrimsToEmptyIffAllTrimmable(control);
    }
  }

  /** A Unicode space above U+0020 is blank, yet trim keeps it. */
  lemma UnicodeSpaceIsBlankButStays()
    ensures IsBlank("\U{2000}") && Trim("\U{2000}") == "\U{2000}"
  {
    var space := "\U{2000}";
    assert IsBlank(space) by {
      assert IsWhitespace(space[0]);
    }
    assert Trim(space) == space by {
      assert !IsTrimmable(space[0]);
      TrimNothing(space);
    }
  }

  // ------------------------------------------------------------- lower case

  function LowerAscii(c: char): char {
    if 'A' <= c <= 'Z' then (c as int + 32) as char else c
  }

  /** String.toLowerCase, restricted to the ASCII letters. */
  function ToLowerAscii(s: string): (r: string)
    ensures |r| == |s|
    ensures forall i :: 0 <= i < |s| ==> r[i] == LowerAscii(s[i])
  {
    seq(|s|, i requires 0 <= i < |s| => LowerAscii(s[i]))
  }

  /** Lower-casing a lower-cased string changes nothing. */
  lemma LowerIdempotent(s: string)
    ensures ToLowerAscii(ToLowerAscii(s)) == ToLowerAscii(s)
  {
    var once := ToLowerAscii(s);
    assert forall i :: 0 <= i < |once| ==> LowerAscii(once[i]) == once[i];
  }

  /** Lower-casing a slice is slicing the lower-cased string. */
  lemma LowerOfSlice(s: string, i: int, j: int)
    requires 0 <= i <= j <= |s|
    ensures ToLowerAscii(s[i..j]) == ToLowerAscii(s)[i..j]
  {
  }

  lemma {:induction false} TrimStartIgnoresCase(s: string)
    ensures TrimStart(ToLowerAscii(s)) == ToLowerAscii(TrimStart(s))
  {
    var low := ToLowerAscii(s);
    if s == [] {
      assert low == [];
    } else if IsTrimmable(s[0]) {
      assert IsTrimmable(low[0]);
      LowerOfSlice(s, 1, |s|);
      assert s[1..|s|] == s[1..] && low[1..|s|] == low[1..];
      TrimStartIgnoresCase(s[1..]);
      assert TrimStart(low) == TrimStart(low[1..]);
      assert TrimStart(s) == TrimStart(s[1..]);
    } else {
      assert !IsTrimmable(low[0]);
      assert TrimStart(low) == low;
      assert TrimStart(s) == s;
    }
  }

  lemma {:induction false} TrimEndIgnoresCase(s: string)
    ensures TrimEnd(ToLowerAscii(s)) == ToLowerAscii(TrimEnd(s))
  {
    var low := ToLowerAscii(s);
    if s == [] {
      assert low == [];
    } else if IsTrimmable(s[|s| - 1]) {
      assert IsTrimmable(low[|s| - 1]);
      LowerOfSlice(s, 0, |s| - 1);
      assert s[0..|s| - 1] == s[..|s| - 1] && low[0..|s| - 1] == low[..|s| - 1];
      TrimEndIgnoresCase(s[..|s| - 1]);
      assert TrimEnd(low) == TrimEnd(low[..|s| - 1]);
      assert TrimEnd(s) == TrimEnd(s[..|s| - 1]);
    } else {
      assert !IsTrimmable(low[|s| - 1]);
      assert TrimEnd(low) == low;
      assert TrimEnd(s) == s;
    }
  }

  /** Trimming and lower-casing commute: no letter is trimmed, and no trimmed character is a letter. */
  lemma TrimIgnoresCase(s: string)
    ensures Trim(ToLowerAscii(s)) == ToLowerAscii(Trim(s))
  {
    TrimStartIgnoresCase(s);
    TrimEndIgnoresCase(TrimStart(s));
  }

  /** Lower-casing neither makes a string blank nor makes a blank string non-blank. */
  lemma BlankIgnoresCase(s: string)
    ensures IsBlank(ToLowerAscii(s)) <==> IsBlank(s)
  {
    var low := ToLowerAscii(s);
    assert forall i :: 0 <= i < |s| ==> (IsWhitespace(low[i]) <==> IsWhitespace(s[i]));
  }

  // ------------------------------------------------------- substring search

  predicate StartsWith(s: string, prefix: string) {
    |prefix| <= |s| && s[..|prefix|] == prefix
  }

  predicate OccursAt(s: string, sub: string, k: int) {
    0 <= k <= |s| - |sub| && s[k..k + |sub|] == sub
  }

  /** Whether `sub` occurs in `s`, found by trying each starting position in turn. */
  function Contains(s: string, sub: string): bool {
    StartsWith(s, sub) || (|s| > 0 && Contains(s[1..], sub))
  }

  /** Contains finds `sub` exactly when it occurs at some position of `s`. */
  lemma {:induction false} ContainsIffOccurs(s: string, sub: string)
    ensures Contains(s, sub) <==> exists k :: OccursAt(s, sub, k)
  {
    if StartsWith(s, sub) {
      assert OccursAt(s, sub, 0);
    } else if |s| > 0 {
      ContainsIffOccurs(s[1..], sub);
      assert !OccursAt(s, sub, 0);
      forall k | 0 < k
        ensures OccursAt(s, sub, k) <==> OccursAt(s[1..], sub, k - 1)
      {
        if k <= |s| - |sub| {
          assert s[1..][k - 1..k - 1 + |sub|] == s[k..k + |sub|];
        }
      }
      if Contains(s[1..], sub) {
        var k :| OccursAt(s[1..], sub, k);
        assert OccursAt(s, sub, k + 1);
      }
    } else {
      assert |sub| > 0;
    }
  }

  // ---------------------------------------------------------------- numbers

  predicate IsDigit(c: char) {
    '0' <= c <= '9'
  }

  predicate AllDigits(s: string) {
    forall i | 0 <= i < |s| :: IsDigit(s[i])
  }

  function DigitValue(c: char): nat
    requires IsDigit(c)
  {
    c as int - '0' as int
  }

  function DigitChar(d: nat): (c: char)
    requires d < 10
    ensures IsDigit(c) && DigitValue(c) == d
  {
    ('0' as int + d) as char
  }

  /** The number a string of decimal digits denotes, most significant digit first. */
  function DigitsValue(s: string): nat
    requires AllDigits(s)
  {
    if s == [] then 0 else DigitsValue(s[..|s| - 1]) * 10 + DigitValue(s[|s| - 1])
  }

  /** The decimal digits of `n` without leading zeros. */
  function NatToDecimal(n: nat): (r: string)
    ensures |r| >= 1 && AllDigits(r)
    ensures |r| > 1 ==> r[0] != '0'
  {
    if n < 10 then [DigitChar(n)] else NatToDecimal(n / 10) + [DigitChar(n % 10)]
  }

  /** String.valueOf(int): an optional minus sign followed by the digits of the magnitude. */
  function ToDecimal(n: int): (r: string)
    ensures |r| >= 1 && (r[0] == '-' <==> n < 0)
    ensures AllDigits(if n < 0 then r[1..] else r)
  {
    if n < 0 then "-" + NatToDecimal(-n) else NatToDecimal(n)
  }

  /** Integer.parseInt(s) with radix 10: an optional sign, then at least one digit, with the
      value inside the int range; None stands for the NumberFormatException thrown otherwise. */
  function ParseInt(s: string): (r: Option<int>)
    ensures r.Some? ==> IsInt(r.value)
    ensures r.Some? ==> |s| > 0 && (IsDigit(s[0]) || s[0] == '-' || s[0] == '+')
    ensures r.Some? ==> AllDigits(s[1..]) && (s[0] == '-' || s[0] == '+' ==> |s| > 1)
  {
    if |s| == 0 then None
    else if s[0] == '-' || s[0] == '+' then
      if |s| == 1 || !AllDigits(s[1..]) then None
      else
        var v: int := if s[0] == '-' then -(DigitsValue(s[1..]) as int) else DigitsValue(s[1..]);
        if IsInt(v) then Some(v) else None
    else if AllDigits(s) && IsInt(DigitsValue(s)) then Some(DigitsValue(s))
    else None
  }

  lemma {:induction false} DigitsValueOfDecimal(n: nat)
    ensures DigitsValue(NatToDecimal(n)) == n
  {
    if n >= 10 {
      var r := NatToDecimal(n);
      assert r[..|r| - 1] == NatToDecimal(n / 10);
      DigitsValueOfDecimal(n / 10);
    }
  }

  /** Integer.parseInt reads back what String.valueOf wrote, for every int. */
  lemma ParseIntOfDecimal(n: int)
    requires IsInt(n)
    ensures ParseInt(ToDecimal(n)) == Some(n)
  {
    var s := ToDecimal(n);
    if n < 0 {
      var digits := NatToDecimal(-n);
      assert s[0] == '-' && s[1..] == digits;
      DigitsValueOfDecimal(-n);
      assert -(DigitsValue(s[1..]) as int) == n;
    } else {
      assert s == NatToDecimal(n) && IsDigit(s[0]);
      DigitsValueOfDecimal(n);
    }
  }

  /** The decimal form of a number is never blank and has nothing for String.trim to remove. */
  lemma DecimalIsTrimmed(n: int)
    ensures !IsBlank(ToDecimal(n))
    ensures Trim(ToDecimal(n)) == ToDecimal(n)
  {
    var s := ToDecimal(n);
    assert !IsWhitespace(s[0]);
    assert IsDigit(s[|s| - 1]);
    TrimNothing(s);
  }
}
