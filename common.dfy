/**
  Helpers shared by the models of the user interface, the HUD and the
  JSON scanner: the C semantics the sources rely on, written out.

  - `Option` stands for a possibly-NULL `char *` or a "no result yet".
  - `CDiv`/`CRem` are C99 `/` and `%` on `int`, which truncate toward zero
    (Dafny's own `/` and `%` are Euclidean).
  - The character classes are those of the C locale (`isprint`, `isgraph`,
    `isalnum`, `isspace`, `tolower`, `toupper`).
  - `IntToString` is `Com_sprintf(…, "%d", n)`; `Atoi` is the leading-integer
    parse that `atoi` and `sscanf("%d")` perform (without overflow).
 */
module Common {

  datatype Option<+T> = None | Some(value: T)

  function Abs(n: int): nat { if n < 0 then -n else n }

  /** C99 division: the quotient truncated toward zero. */
  function CDiv(a: int, b: int): int
    requires b != 0
  {
    if a >= 0 && b > 0 then a / b
    else if a >= 0 then -(a / -b)
    else if b > 0 then -((-a) / b)
    else (-a) / (-b)
  }

  /** C99 remainder: what is left after the truncating division; it is
      smaller than the divisor and takes the sign of the dividend. */
  function CRem(a: int, b: int): (r: int)
    requires b != 0
    ensures Abs(r) < Abs(b)
    ensures (a >= 0 ==> r >= 0) && (a <= 0 ==> r <= 0)
    ensures a >= 0 && b > 0 ==> r == a % b && CDiv(a, b) == a / b
  {
    if a >= 0 && b > 0 then
      assert a - b * CDiv(a, b) == a % b;
      a - b * CDiv(a, b)
    else if a >= 0 then
      assert a - b * CDiv(a, b) == a % (-b) by {
        assert b * CDiv(a, b) == (-b) * (a / (-b));
      }
      a - b * CDiv(a, b)
    else if b > 0 then
      assert a - b * CDiv(a, b) == -((-a) % b) by {
        assert b * CDiv(a, b) == -(b * ((-a) / b));
      }
      a - b * CDiv(a, b)
    else
      assert a - b * CDiv(a, b) == -((-a) % (-b)) by {
        assert b * CDiv(a, b) == -((-b) * ((-a) / (-b)));
      }
      a - b * CDiv(a, b)
  }

  // ---------------------------------------------------------------------
  //   <ctype.h> in the C locale
  // ---------------------------------------------------------------------

  predicate IsPrint(c: char) { ' ' <= c <= '~' }
  predicate IsGraph(c: char) { '!' <= c <= '~' }
  predicate IsDigit(c: char) { '0' <= c <= '9' }
  predicate IsUpper(c: char) { 'A' <= c <= 'Z' }
  predicate IsLower(c: char) { 'a' <= c <= 'z' }
  predicate IsAlnum(c: char) { IsDigit(c) || IsUpper(c) || IsLower(c) }
  /** space, \t, \n, \v, \f, \r */
  predicate IsSpace(c: char) { c == ' ' || 9 <= c as int <= 13 }

  function ToLower(c: char): (l: char)
    ensures !IsUpper(l)
    ensures IsUpper(c) ==> l as int == c as int + 32
    ensures !IsUpper(c) ==> l == c
  {
    if IsUpper(c) then (c as int + 32) as char else c
  }

  function ToUpper(c: char): (u: char)
    ensures !IsLower(u)
    ensures IsLower(c) ==> u as int == c as int - 32
    ensures !IsLower(c) ==> u == c
  {
    if IsLower(c) then (c as int - 32) as char else c
  }

  /** The string lower-cased character by character. */
  function Lower(s: string): (t: string)
    ensures |t| == |s|
    ensures forall k :: 0 <= k < |s| ==> t[k] == ToLower(s[k])
  {
    if s == [] then [] else [ToLower(s[0])] + Lower(s[1..])
  }

  /** `Q_stricmp(a, b) == 0`: equality up to ASCII case. */
  predicate EqualsIgnoreCase(a: string, b: string)
  {
    Lower(a) == Lower(b)
  }

  /** The character a C string holds at index i, NUL past its end. */
  function CharAt(s: string, i: nat): char
  {
    if i < |s| then s[i] else '\0'
  }

  /** The first n characters, or the whole string when it is shorter:
      what `Q_strncpyz(dst, s, n + 1)` keeps. */
  function Truncate(s: string, n: nat): (t: string)
    ensures |t| <= n && t <= s
    ensures |s| <= n ==> t == s
  {
    if |s| <= n then s else s[..n]
  }

  // ---------------------------------------------------------------------
  //   "%d" and atoi
  // ---------------------------------------------------------------------

  function DigitChar(d: nat): (c: char)
    requires d < 10
    ensures IsDigit(c) && c as int - '0' as int == d
  {
    ('0' as int + d) as char
  }

  function NatToString(n: nat): (s: string)
    ensures |s| >= 1
    ensures forall k :: 0 <= k < |s| ==> IsDigit(s[k])
    decreases n
  {
    if n < 10 then [DigitChar(n)] else NatToString(n / 10) + [DigitChar(n % 10)]
  }

  /** `Com_sprintf(buf, size, "%d", n)` with a large enough buffer. */
  function IntToString(n: int): string
  {
    if n < 0 then "-" + NatToString(-n) else NatToString(n)
  }

  /** "%d" writes digits, after a minus sign for a negative number. */
  lemma IntToStringChars(n: int)
    ensures forall k :: 0 <= k < |IntToString(n)| ==>
      IsDigit(IntToString(n)[k]) || (k == 0 && n < 0 && IntToString(n)[k] == '-')
  {
  }

  /** `%02d`: a single digit gets a leading zero. */
  function Pad2(n: int): string
  {
    if 0 <= n < 10 then "0" + IntToString(n) else IntToString(n)
  }

  /** The number of decimal digits of n. */
  function DigitCount(n: nat): (d: nat)
    ensures d >= 1
    decreases n
  {
    if n < 10 then 1 else DigitCount(n / 10) + 1
  }

  function Pow10(k: nat): (p: nat)
    ensures p >= 1
  {
    if k == 0 then 1 else 10 * Pow10(k - 1)
  }

  lemma {:induction false} NatToStringLength(n: nat)
    ensures |NatToString(n)| == DigitCount(n)
    decreases n
  {
    if n >= 10 { NatToStringLength(n / 10); }
  }

  /** A number below 10^k has at most k digits. */
  lemma {:induction false} DigitCountBound(n: nat, k: nat)
    requires 1 <= k && n < Pow10(k)
    ensures DigitCount(n) <= k
    decreases k
  {
    if n >= 10 {
      assert k != 1 by { assert Pow10(1) == 10; }
      assert n / 10 < Pow10(k - 1) by {
        assert Pow10(k) == 10 * Pow10(k - 1);
      }
      DigitCountBound(n / 10, k - 1);
    }
  }

  /** A number of at least 10^k has more than k digits. */
  lemma {:induction false} DigitCountAbove(n: nat, k: nat)
    requires n >= Pow10(k)
    ensures DigitCount(n) > k
    decreases k
  {
    if k > 0 {
      assert Pow10(k) == 10 * Pow10(k - 1);
      assert n / 10 >= Pow10(k - 1);
      DigitCountAbove(n / 10, k - 1);
    }
  }

  /** The digit count of n is at most k exactly when n is below 10^k. */
  lemma DigitCountWithin(n: nat, k: nat)
    requires k >= 1
    ensures DigitCount(n) <= k <==> n < Pow10(k)
  {
    if n < Pow10(k) { DigitCountBound(n, k); } else { DigitCountAbove(n, k); }
  }

  /** The length of "%d" of n. */
  lemma IntToStringLength(n: int)
    ensures n >= 0 ==> |IntToString(n)| == DigitCount(n)
    ensures n < 0 ==> |IntToString(n)| == DigitCount(-n) + 1
  {
    if n >= 0 { NatToStringLength(n); } else { NatToStringLength(-n); }
  }

  /** The value of a string of decimal digits. */
  function DecimalValue(d: string): (v: nat)
    requires forall k :: 0 <= k < |d| ==> IsDigit(d[k])
  {
    if d == [] then 0
    else
      var c := d[|d| - 1];
      assert IsDigit(c);
      DecimalValue(d[..|d| - 1]) * 10 + (c as int - '0' as int)
  }

  /** The longest prefix of decimal digits. */
  function LeadingDigits(s: string): (d: string)
    ensures d <= s
    ensures forall k :: 0 <= k < |d| ==> IsDigit(s[k])
    ensures |d| < |s| ==> !IsDigit(s[|d|])
  {
    if s == [] || !IsDigit(s[0]) then [] else [s[0]] + LeadingDigits(s[1..])
  }

  function SkipSpaces(s: string): (t: string)
    ensures t == [] || !IsSpace(t[0])
    ensures |t| <= |s| && t == s[|s| - |t|..]
  {
    if s != [] && IsSpace(s[0]) then SkipSpaces(s[1..]) else s
  }

  /** `atoi(s)`: leading white space, an optional sign, then as many digits
      as there are; 0 when there are none. Overflow is not modelled. */
  function Atoi(s: string): int
  {
    var t := SkipSpaces(s);
    if t != [] && (t[0] == '-' || t[0] == '+') then
      var v: int := DecimalValue(LeadingDigits(t[1..]));
      if t[0] == '-' then -v else v
    else
      DecimalValue(LeadingDigits(t))
  }

  lemma {:induction false} DecimalValueOfNatToString(n: nat)
    ensures DecimalValue(NatToString(n)) == n
    decreases n
  {
    if n >= 10 {
      var s := NatToString(n);
      assert s[..|s| - 1] == NatToString(n / 10);
      DecimalValueOfNatToString(n / 10);
    }
  }

  lemma {:induction false} LeadingDigitsOfDigits(d: string, rest: string)
    requires forall k :: 0 <= k < |d| ==> IsDigit(d[k])
    requires rest == [] || !IsDigit(rest[0])
    ensures LeadingDigits(d + rest) == d
    decreases |d|
  {
    if d != [] {
      assert (d + rest)[1..] == d[1..] + rest;
      LeadingDigitsOfDigits(d[1..], rest);
    } else {
      assert d + rest == rest;
    }
  }

  /** `atoi` reads back what "%d" wrote, whatever non-digit follows it. */
  lemma AtoiOfIntToStringThen(n: int, rest: string)
    requires rest == [] || !IsDigit(rest[0])
    ensures Atoi(IntToString(n) + rest) == n
  {
    DigitsThen(n, rest);
    DecimalValueOfNatToString(Abs(n));
    if n < 0 {
      AtoiNegative(IntToString(n) + rest);
    } else {
      AtoiUnsigned(IntToString(n) + rest);
    }
  }

  /** "%d" of n followed by a non-digit: a sign when n is negative, then
      the digits of |n| as the leading digits. */
  lemma DigitsThen(n: int, rest: string)
    requires rest == [] || !IsDigit(rest[0])
    ensures var s := IntToString(n) + rest;
      s != [] && (n < 0 ==> s[0] == '-' && LeadingDigits(s[1..]) == NatToString(Abs(n)))
      && (n >= 0 ==> IsDigit(s[0]) && LeadingDigits(s) == NatToString(Abs(n)))
  {
    var d := NatToString(Abs(n));
    LeadingDigitsOfDigits(d, rest);
    if n < 0 {
      SignThen(d, rest, IntToString(n) + rest);
    } else {
      assert IntToString(n) + rest == d + rest;
    }
  }

  /** A sign, then digits d followed by a non-digit: d are the leading
      digits after the sign. */
  lemma SignThen(d: string, rest: string, s: string)
    requires s == "-" + d + rest && LeadingDigits(d + rest) == d
    ensures s != [] && s[0] == '-' && LeadingDigits(s[1..]) == d
  {
    assert s[1..] == d + rest;
  }

  /** `atoi` of a text that starts with a digit is the value of its
      leading digits. */
  lemma AtoiUnsigned(s: string)
    requires s != [] && IsDigit(s[0])
    ensures Atoi(s) == DecimalValue(LeadingDigits(s))
  {
    assert SkipSpaces(s) == s;
  }

  /** `atoi` of a text that starts with a minus sign is minus the value of
      the digits after it. */
  lemma AtoiNegative(s: string)
    requires s != [] && s[0] == '-'
    ensures Atoi(s) == -(DecimalValue(LeadingDigits(s[1..])) as int)
  {
    assert SkipSpaces(s) == s;
  }

  /** `atoi` reads back what "%d" wrote. */
  lemma AtoiOfIntToString(n: int)
    ensures Atoi(IntToString(n)) == n
  {
    assert IntToString(n) + [] == IntToString(n);
    AtoiOfIntToStringThen(n, []);
  }
}
