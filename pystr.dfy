/**
 The few Python built-ins that the printer monitor applies to strings and
 numbers: `str.strip()`, `str.lower()` on ASCII letters, `str.find()`,
 slicing `s[:stop]` (negative `stop` included), `int()` of a string of
 decimal digits, `str()` of a non-negative integer and `int()` of a float
 quotient (truncation toward zero). `int()` of a string is approximated: it
 trims the same whitespace as `str.strip()`, where CPython's `int()` does not
 skip the separators U+001C..U+001F.
 */
module PyStr {

  datatype Option<T> = None | Some(value: T)

  function Abs(x: int): nat { if x < 0 then -x else x }

  // ---------------------------------------------------------------------------
  // str.strip()

  /** The characters `str.isspace()` accepts, which are the ones `str.strip()` removes. */
  predicate IsSpace(c: char) {
    var k := c as int;
    || 9 <= k <= 13
    || 28 <= k <= 32
    || k == 0x85 || k == 0xA0 || k == 0x1680
    || 0x2000 <= k <= 0x200A
    || k == 0x2028 || k == 0x2029 || k == 0x202F || k == 0x205F || k == 0x3000
  }

  predicate AllSpace(s: string) {
    forall k :: 0 <= k < |s| ==> IsSpace(s[k])
  }

  function StripStart(s: string): (r: string)
    ensures |r| <= |s| && r == s[|s| - |r|..]
    ensures AllSpace(s[..|s| - |r|])
    ensures r == [] || !IsSpace(r[0])
  {
    if |s| > 0 && IsSpace(s[0]) then
      var r := StripStart(s[1..]);
      assert s[..|s| - |r|] == [s[0]] + s[1..][..|s| - 1 - |r|];
      r
    else s
  }

  function StripEnd(s: string): (r: string)
    ensures |r| <= |s| && r == s[..|r|]
    ensures AllSpace(s[|r|..])
    ensures r == [] || !IsSpace(r[|r| - 1])
  {
    if |s| > 0 && IsSpace(s[|s| - 1]) then
      var r := StripEnd(s[..|s| - 1]);
      assert s[|r|..] == s[..|s| - 1][|r|..] + [s[|s| - 1]];
      r
    else s
  }

  /** `s.strip()`: neither starts nor ends with whitespace. */
  function Strip(s: string): (r: string)
    ensures r == [] || (!IsSpace(r[0]) && !IsSpace(r[|r| - 1]))
  {
    StripEnd(StripStart(s))
  }

  /** What strip() removes is whitespace only, from both ends, and the rest of `s` is kept whole. */
  lemma StripRemovesOnlyOuterSpace(s: string)
    ensures exists i :: 0 <= i <= |s| - |Strip(s)| && Strip(s) == s[i..i + |Strip(s)|]
                        && AllSpace(s[..i]) && AllSpace(s[i + |Strip(s)|..])
  {
    var t := StripStart(s);
    var r := StripEnd(t);
    assert r == Strip(s);
    var i := |s| - |t|;
    PrefixOfSuffix(s, i, t, r);
    var after := s[i + |r|..];
    assert after == t[|r|..];
    assert AllSpace(after);
    assert 0 <= i <= |s| - |r| && r == s[i..i + |r|] && AllSpace(s[..i]) && AllSpace(s[i + |r|..]);
  }

  lemma PrefixOfSuffix(s: string, i: nat, t: string, r: string)
    requires i <= |s| && t == s[i..] && |r| <= |t| && r == t[..|r|]
    ensures r == s[i..i + |r|] && s[i + |r|..] == t[|r|..]
  {
  }

  /** Stripping a string that already has no whitespace at either end changes nothing. */
  lemma StripTrimmed(s: string)
    requires s == [] || (!IsSpace(s[0]) && !IsSpace(s[|s| - 1]))
    ensures Strip(s) == s
  {
  }

  // ---------------------------------------------------------------------------
  // str.lower()

  predicate IsUpper(c: char) { 'A' <= c <= 'Z' }

  function LowerChar(c: char): char {
    if IsUpper(c) then (c as int - 'A' as int + 'a' as int) as char else c
  }

  /** `s.lower()` on the ASCII letters. */
  function Lower(s: string): (r: string)
    ensures |r| == |s|
    ensures forall k :: 0 <= k < |s| ==> !IsUpper(r[k])
    ensures forall k :: 0 <= k < |s| && !IsUpper(s[k]) ==> r[k] == s[k]
    ensures forall k :: 0 <= k < |s| && IsUpper(s[k]) ==> r[k] as int == s[k] as int + 32
  {
    seq(|s|, k requires 0 <= k < |s| => LowerChar(s[k]))
  }

  /** Lower-casing a second time changes nothing. */
  lemma LowerIdempotent(s: string)
    ensures Lower(Lower(s)) == Lower(s)
  {
    var p := Lower(s);
    var q := Lower(p);
    forall k | 0 <= k < |q|
      ensures q[k] == p[k]
    {
      assert !IsUpper(p[k]);
    }
  }

  /** Lower-casing keeps every character's whitespace status, so it commutes with strip(). */
  lemma LowerKeepsSpace(s: string, k: int)
    requires 0 <= k < |s|
    ensures IsSpace(Lower(s)[k]) == IsSpace(s[k])
  {
  }

  // ---------------------------------------------------------------------------
  // str.find() and s[:stop]

  /** `s.find(c)`: the index of the first `c` in `s`, or -1 when there is none. */
  function Find(s: string, c: char): (r: int)
    ensures -1 <= r < |s|
    ensures r == -1 <==> c !in s
    ensures 0 <= r ==> s[r] == c && c !in s[..r]
  {
    if |s| == 0 then -1
    else if s[0] == c then 0
    else
      var k := Find(s[1..], c);
      if k == -1 then -1
      else
        assert s[..k + 1] == [s[0]] + s[1..][..k];
        k + 1
  }

  /** `s[:stop]`: a negative `stop` counts from the end, and the bound is clipped to the string. */
  function SliceTo(s: string, stop: int): (r: string)
    ensures |r| == if stop >= 0 then (if stop <= |s| then stop else |s|)
                   else (if |s| + stop >= 0 then |s| + stop else 0)
    ensures r == s[..|r|]
  {
    if stop >= 0 then (if stop <= |s| then s[..stop] else s)
    else if |s| + stop >= 0 then s[..|s| + stop]
    else []
  }

  // ---------------------------------------------------------------------------
  // str() of a non-negative integer and int() of a string

  predicate IsDigit(c: char) { '0' <= c <= '9' }

  predicate AllDigits(s: string) {
    forall k :: 0 <= k < |s| ==> IsDigit(s[k])
  }

  function DigitChar(d: nat): (c: char)
    requires d < 10
    ensures IsDigit(c)
  {
    ('0' as int + d) as char
  }

  /** The value of a string of decimal digits, most significant first. */
  function DigitsValue(s: string): nat
    requires AllDigits(s)
  {
    if |s| == 0 then 0
    else 10 * DigitsValue(s[..|s| - 1]) + (s[|s| - 1] as int - '0' as int)
  }

  /** `str(n)` for `n >= 0`: its decimal digits, most significant first. */
  function NatToString(n: nat): string
  {
    if n < 10 then [DigitChar(n)] else NatToString(n / 10) + [DigitChar(n % 10)]
  }

  /** `str(n)` is a non-empty string of digits without leading zeros, and reading it back gives `n`. */
  lemma {:induction false} NatToStringDigits(n: nat)
    ensures var r := NatToString(n); |r| > 0 && AllDigits(r) && DigitsValue(r) == n && (r[0] == '0' ==> n == 0)
  {
    if n >= 10 {
      NatToStringDigits(n / 10);
      var front := NatToString(n / 10);
      var r := NatToString(n);
      assert r[..|r| - 1] == front;
    }
  }

  /**
   `int(s)` for a string: surrounding whitespace, an optional sign, then one or
   more digits. The whitespace trimmed is that of `str.strip()`, which also
   takes U+001C..U+001F; CPython's `int()` rejects those.
   */
  function ParseInt(s: string): Option<int>
  {
    ParseSigned(Strip(s))
  }

  /** `int(t)` for a string without surrounding whitespace: an optional sign, then one or more digits. */
  function ParseSigned(t: string): Option<int>
  {
    if |t| > 0 && (t[0] == '+' || t[0] == '-') then
      var u := t[1..];
      var v: int := if |u| > 0 && AllDigits(u) then DigitsValue(u) else 0;
      if |u| > 0 && AllDigits(u) then Some(if t[0] == '-' then -v else v)
      else None
    else if |t| > 0 && AllDigits(t) then Some(DigitsValue(t))
    else None
  }

  /** `int(s) == DigitsValue(s)` for a non-empty string of digits. */
  lemma ParseDigits(s: string)
    requires |s| > 0 && AllDigits(s)
    ensures ParseInt(s) == Some(DigitsValue(s))
  {
    assert ParseSigned(s) == Some(DigitsValue(s));
    assert IsDigit(s[0]) && IsDigit(s[|s| - 1]);
    StripTrimmed(s);
  }

  /** A minus sign before a non-empty string of digits negates its value. */
  lemma SignedNegative(s: string)
    requires |s| > 0 && AllDigits(s)
    ensures ParseSigned("-" + s) == Some(-(DigitsValue(s) as int))
  {
    var t := "-" + s;
    assert t[0] == '-' && t[1..] == s;
  }

  /** `int("-" + s) == -DigitsValue(s)` for a non-empty string of digits. */
  lemma ParseNegativeDigits(s: string)
    requires |s| > 0 && AllDigits(s)
    ensures ParseInt("-" + s) == Some(-(DigitsValue(s) as int))
  {
    SignedNegative(s);
    var t := "-" + s;
    assert t[|t| - 1] == s[|s| - 1];
    assert IsDigit(t[|t| - 1]);
    StripTrimmed(t);
  }

  /** `int(str(n)) == n`: the value parser inverts the integer printer. */
  lemma ParseNatToString(n: nat)
    ensures ParseInt(NatToString(n)) == Some(n)
  {
    var s := NatToString(n);
    NatToStringDigits(n);
    ParseDigits(s);
  }

  // ---------------------------------------------------------------------------
  // int(a / b): the real quotient truncated toward zero

  /** `int(a / b)`: the real quotient of `a` by `b`, truncated toward zero. */
  function TruncDiv(a: int, b: int): int
    requires b != 0
  {
    if (a < 0) == (b < 0) then Abs(a) / Abs(b) else -(Abs(a) / Abs(b))
  }

  /** Truncation toward zero: `q * b` lies between 0 and `a`, less than one `|b|` away from `a`. */
  lemma TruncDivBounds(a: int, b: int)
    requires b != 0
    ensures var q := TruncDiv(a, b);
      && (0 <= a ==> 0 <= q * b <= a && a < q * b + Abs(b))
      && (a < 0 ==> a <= q * b <= 0 && q * b - Abs(b) < a)
  {
    var p := Abs(a) / Abs(b);
    DivBounds(Abs(a), Abs(b));
    SignedProduct(a, b, p);
  }

  lemma DivBounds(x: nat, y: nat)
    requires y > 0
    ensures 0 <= (x / y) * y <= x < (x / y) * y + y
  {
    assert x == (x / y) * y + x % y;
  }

  lemma SignedProduct(a: int, b: int, p: int)
    ensures (if (a < 0) == (b < 0) then p else -p) * b == if a < 0 then -(p * Abs(b)) else p * Abs(b)
  {
  }

  /** For non-negative operands truncation is Dafny's division. */
  lemma TruncDivNonNegative(a: int, b: int)
    requires 0 <= a && 0 < b
    ensures TruncDiv(a, b) == a / b
  {
  }
}
