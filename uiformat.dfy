/**
  Small formatting helpers of the user interface in src/ui/ui_main.c: the
  display aspect ratio of the video options (GCD, UI_DisplayAspectString),
  the download-size and download-time texts of the connect screen
  (UI_ReadableSize, UI_PrintTime) and the line splitter of UI_UpdateNews.
  `int` arithmetic of the source is 32-bit; where a product can leave that
  range the wrap-around is written out.
 */
module UiFormat {
  import opened Common

  // ---------------------------------------------------------------------
  //   GCD and UI_DisplayAspectString
  // ---------------------------------------------------------------------

  ghost predicate Divides(d: int, x: int)
  {
    exists k :: x == d * k
  }

  /** Euclid's algorithm with C's remainder, which keeps the sign of the
      dividend: the value the loop of GCD ends with. */
  function EuclidGcd(a: int, b: int): int
    decreases Abs(b)
  {
    if b == 0 then a else EuclidGcd(b, CRem(a, b))
  }

  // Integer facts the proofs below rest on.

  /** The only multiple of a positive u strictly between -u and u is 0. */
  lemma MulBelow(u: int, j: int)
    requires u > 0 && -u < u * j < u
    ensures j == 0
  {
    assert j >= 1 ==> u * j >= u;
    assert j <= -1 ==> u * j <= -u;
  }

  /** Euclidean division is unique: a quotient and a remainder in [0, u)
      that recombine to x are x / u and x % u. */
  lemma DivUnique(x: int, u: int, q: int, e: int)
    requires u > 0 && x == u * q + e && 0 <= e < u
    ensures x / u == q && x % u == e
  {
    var j := q - x / u;
    assert u * j == u * q - u * (x / u);
    assert u * j == x % u - e;
    MulBelow(u, j);
  }

  /** A common divisor of x and y divides x - y * q. */
  lemma DividesCombination(d: int, x: int, y: int, q: int)
    requires Divides(d, x) && Divides(d, y)
    ensures Divides(d, x - y * q)
  {
    var k1 :| x == d * k1;
    var k2 :| y == d * k2;
    assert y * q == d * (k2 * q);
    assert x - y * q == d * (k1 - k2 * q);
  }

  /** One step of the loop keeps the common divisors: those of (a, b) are
      those of (b, a % b). */
  lemma StepKeepsDivisors(a: int, b: int, d: int)
    requires b != 0
    ensures Divides(d, a) && Divides(d, b) <==> Divides(d, b) && Divides(d, CRem(a, b))
  {
    var q := CDiv(a, b);
    assert CRem(a, b) == a - b * q;
    if Divides(d, a) && Divides(d, b) {
      DividesCombination(d, a, b, q);
    }
    if Divides(d, b) && Divides(d, CRem(a, b)) {
      DividesCombination(d, CRem(a, b), b, -q);
      assert CRem(a, b) - b * (-q) == a;
    }
  }

  /** What GCD computes is a greatest common divisor: it divides both
      arguments, and every common divisor divides it. Its sign follows the
      signs the remainders take, so for negative arguments it can be
      negative. */
  lemma {:induction false} EuclidGcdIsGreatest(a: int, b: int)
    ensures Divides(EuclidGcd(a, b), a) && Divides(EuclidGcd(a, b), b)
    ensures forall d :: Divides(d, a) && Divides(d, b) ==> Divides(d, EuclidGcd(a, b))
    decreases Abs(b)
  {
    if b == 0 {
      assert a == a * 1 && 0 == a * 0;
    } else {
      EuclidGcdIsGreatest(b, CRem(a, b));
      var g := EuclidGcd(a, b);
      StepKeepsDivisors(a, b, g);
      forall d | Divides(d, a) && Divides(d, b)
        ensures Divides(d, g)
      {
        StepKeepsDivisors(a, b, d);
      }
    }
  }

  /** GCD: the loop of Euclid's algorithm. */
  method GCD(a0: int, b0: int) returns (g: int)
    ensures g == EuclidGcd(a0, b0)
  {
    var a, b := a0, b0;
    while b != 0
      invariant EuclidGcd(a, b) == EuclidGcd(a0, b0)
      decreases Abs(b)
    {
      var c := CRem(a, b);
      a := b;
      b := c;
    }
    return a;
  }

  /** Only two zeros have a zero GCD. */
  lemma GcdZero(a: int, b: int)
    ensures EuclidGcd(a, b) == 0 <==> a == 0 && b == 0
  {
    EuclidGcdIsGreatest(a, b);
    if EuclidGcd(a, b) == 0 {
      var k1 :| a == 0 * k1;
      var k2 :| b == 0 * k2;
    }
    if a == 0 && b == 0 {
      assert Divides(0, a) && Divides(0, b) by { assert 0 == 0 * 0; }
      var k :| EuclidGcd(a, b) == 0 * k;
    }
  }

  /** C's division is exact on a multiple. */
  lemma ExactQuotient(x: int, g: int, k: int)
    requires g != 0 && x == g * k
    ensures CDiv(x, g) == k
  {
    if g > 0 {
      if x >= 0 {
        DivUnique(x, g, k, 0);
      } else {
        assert -x == g * (-k);
        DivUnique(-x, g, -k, 0);
      }
    } else {
      if x >= 0 {
        assert x == (-g) * (-k);
        DivUnique(x, -g, -k, 0);
      } else {
        assert -x == (-g) * k;
        DivUnique(-x, -g, k, 0);
      }
    }
  }

  /** The aspect ratio of w:h as UI_DisplayAspectString prints it: both
      sides divided by their GCD, with 8:5 written 16:10. */
  function AspectRatio(w: int, h: int): (r: (int, int))
    requires w != 0 || h != 0
    ensures r.0 * h == r.1 * w
  {
    GcdZero(w, h);
    RatioKept(w, h);
    var g := EuclidGcd(w, h);
    var (rw, rh) := (CDiv(w, g), CDiv(h, g));
    if rw == 8 && rh == 5 then (16, 10) else (rw, rh)
  }

  /** The printed ratio is the screen's ratio, and apart from 16:10 it is in
      lowest terms: its two sides have no common divisor but 1 and -1. */
  lemma AspectRatioCorrect(w: int, h: int)
    requires w != 0 || h != 0
    ensures var (rw, rh) := AspectRatio(w, h); rw * h == rh * w
    ensures var (rw, rh) := AspectRatio(w, h);
      (rw, rh) != (16, 10) ==> forall d :: Divides(d, rw) && Divides(d, rh) ==> d == 1 || d == -1
  {
    GcdZero(w, h);
    var g := EuclidGcd(w, h);
    var kw, kh := GcdQuotients(w, h);
    assert AspectRatio(w, h) == if kw == 8 && kh == 5 then (16, 10) else (kw, kh);
    CrossProduct(g, kw, kh);
  }

  /** Both sides divided by their GCD keep the ratio. */
  lemma RatioKept(w: int, h: int)
    requires w != 0 || h != 0
    ensures EuclidGcd(w, h) != 0
    ensures CDiv(w, EuclidGcd(w, h)) * h == CDiv(h, EuclidGcd(w, h)) * w
  {
    var kw, kh := GcdQuotients(w, h);
    CrossProduct(EuclidGcd(w, h), kw, kh);
  }

  lemma CrossProduct(g: int, kw: int, kh: int)
    ensures kw * (g * kh) == kh * (g * kw)
    ensures kw == 8 && kh == 5 ==> 16 * (g * kh) == 10 * (g * kw)
  {
  }

  /** The quotients of w and h by their GCD: exact, and C's division finds
      them. */
  lemma GcdQuotients(w: int, h: int) returns (kw: int, kh: int)
    requires w != 0 || h != 0
    ensures EuclidGcd(w, h) != 0 && w == EuclidGcd(w, h) * kw && h == EuclidGcd(w, h) * kh
    ensures CDiv(w, EuclidGcd(w, h)) == kw && CDiv(h, EuclidGcd(w, h)) == kh
    ensures forall d :: Divides(d, kw) && Divides(d, kh) ==> d == 1 || d == -1
  {
    GcdZero(w, h);
    EuclidGcdIsGreatest(w, h);
    var g := EuclidGcd(w, h);
    kw :| w == g * kw;
    kh :| h == g * kh;
    ExactQuotient(w, g, kw);
    ExactQuotient(h, g, kh);
    CoprimeQuotients(w, h, g, kw, kh);
  }

  /** Dividing by a greatest common divisor leaves coprime quotients. */
  lemma CoprimeQuotients(w: int, h: int, g: int, kw: int, kh: int)
    requires g != 0 && w == g * kw && h == g * kh
    requires forall d :: Divides(d, w) && Divides(d, h) ==> Divides(d, g)
    ensures forall d :: Divides(d, kw) && Divides(d, kh) ==> d == 1 || d == -1
  {
    forall d | Divides(d, kw) && Divides(d, kh)
      ensures d == 1 || d == -1
    {
      var m1 :| kw == d * m1;
      var m2 :| kh == d * m2;
      assert w == (d * g) * m1 by { assert g * (d * m1) == (d * g) * m1; }
      assert h == (d * g) * m2 by { assert g * (d * m2) == (d * g) * m2; }
      assert Divides(d * g, w) && Divides(d * g, h);
      assert Divides(d * g, g);
      var m :| g == (d * g) * m;
      UnitFactor(d, m, g);
    }
  }

  lemma UnitFactor(d: int, m: int, g: int)
    requires g != 0 && g == (d * g) * m
    ensures d == 1 || d == -1
  {
    assert g * (d * m - 1) == 0 by { assert (d * g) * m == g * (d * m); }
    if g > 0 {
      MulBelow(g, d * m - 1);
    } else {
      assert (-g) * (d * m - 1) == 0;
      MulBelow(-g, d * m - 1);
    }
    assert d * m == 1;
    assert d >= 2 ==> (m >= 1 ==> d * m >= 2) && (m <= 0 ==> d * m <= 0);
    assert d <= -2 ==> (m <= -1 ==> d * m >= 2) && (m >= 0 ==> d * m <= 0);
  }

  /** UI_DisplayAspectString: "%d:%d" of the ratio. */
  function DisplayAspectString(w: int, h: int): (s: string)
    requires w != 0 || h != 0
    ensures var (rw, rh) := AspectRatio(w, h); var k := |IntToString(rw)|;
      k < |s| && s[k] == ':' && Atoi(s) == rw && Atoi(s[k + 1..]) == rh
  {
    var (rw, rh) := AspectRatio(w, h);
    var a, b := IntToString(rw), IntToString(rh);
    AtoiOfIntToStringThen(rw, ":" + b);
    AtoiOfIntToString(rh);
    assert a + ":" + b == a + (":" + b) && (a + ":" + b)[|a| + 1..] == b;
    a + ":" + b
  }

  /** 1920x1200 is shown as 16:10 and 1920x1080 as 16:9. */
  lemma AspectExamples()
    ensures AspectRatio(1920, 1200) == (16, 10)
    ensures AspectRatio(1920, 1080) == (16, 9)
  {
    assert CRem(1920, 1200) == 720 && CRem(1200, 720) == 480 && CRem(720, 480) == 240 && CRem(480, 240) == 0;
    assert EuclidGcd(1920, 1200) == 240;
    assert CDiv(1920, 240) == 8 && CDiv(1200, 240) == 5;
    assert CRem(1920, 1080) == 840 && CRem(1080, 840) == 240 && CRem(840, 240) == 120 && CRem(240, 120) == 0;
    assert EuclidGcd(1920, 1080) == 120;
    assert CDiv(1920, 120) == 16 && CDiv(1080, 120) == 9;
  }

  // ---------------------------------------------------------------------
  //   UI_ReadableSize
  // ---------------------------------------------------------------------

  const GIB: int := 1024 * 1024 * 1024
  const MIB: int := 1024 * 1024
  const KIB: int := 1024

  predicate IsInt32(x: int)
  {
    -0x8000_0000 <= x < 0x8000_0000
  }

  /** A C `int` result on the two's-complement machines the game runs on:
      the value reduced modulo 2^32 into [-2^31, 2^31). */
  function Wrap32(x: int): (r: int)
    ensures IsInt32(r)
    ensures IsInt32(x) ==> r == x
    ensures (r - x) % 0x1_0000_0000 == 0
  {
    var m := x % 0x1_0000_0000;
    if m >= 0x8000_0000 then m - 0x1_0000_0000 else m
  }

  /** Whether s ends with the suffix u. */
  predicate EndsWith(s: string, u: string)
  {
    |u| <= |s| && s[|s| - |u|..] == u
  }

  /** A text followed by u ends with u. */
  lemma EndsWithAppend(p: string, u: string)
    ensures EndsWith(p + u, u)
  {
    assert (p + u)[|p|..] == u;
  }

  /** The text of a number of whole units with the given hundredths. */
  function WithHundredths(whole: int, hundredths: int, unit: string): (s: string)
    ensures EndsWith(s, " " + unit)
  {
    var p := IntToString(whole) + "." + Pad2(hundredths);
    EndsWithAppend(p, " " + unit);
    p + (" " + unit)
  }

  /** UI_ReadableSize as written: the hundredths of a gigabyte are computed
      as (value % 2^30) * 100 in 32-bit `int`, which wraps around once the
      remainder reaches 2^31 / 100. */
  function ReadableSizeAsWritten(value: int): (s: string)
    requires IsInt32(value)
    ensures value > GIB ==> EndsWith(s, " GB")
    ensures MIB < value <= GIB ==> EndsWith(s, " MB")
    ensures KIB < value <= MIB ==> EndsWith(s, " KB")
    ensures value <= KIB ==> EndsWith(s, " bytes")
  {
    assert " " + "GB" == " GB" && " " + "MB" == " MB";
    if value > GIB then WithHundredths(value / GIB, CDiv(Wrap32((value % GIB) * 100), GIB), "GB")
    else if value > MIB then WithHundredths(value / MIB, (value % MIB) * 100 / MIB, "MB")
    else if value > KIB then EndsWithAppend(IntToString(value / KIB), " KB"); IntToString(value / KIB) + " KB"
    else EndsWithAppend(IntToString(value), " bytes"); IntToString(value) + " bytes"
  }

  /** UI_ReadableSize with the hundredths computed exactly, the evident
      intent: gigabytes or megabytes with two decimals, kilobytes, else
      bytes. Division and remainder are those of C; every operand they see
      here is positive, so Dafny's agree with them. */
  function ReadableSize(value: int): (s: string)
    ensures value > GIB ==> EndsWith(s, " GB")
    ensures MIB < value <= GIB ==> EndsWith(s, " MB")
    ensures KIB < value <= MIB ==> EndsWith(s, " KB")
    ensures value <= KIB ==> EndsWith(s, " bytes")
  {
    assert " " + "GB" == " GB" && " " + "MB" == " MB";
    if value > GIB then WithHundredths(value / GIB, (value % GIB) * 100 / GIB, "GB")
    else if value > MIB then WithHundredths(value / MIB, (value % MIB) * 100 / MIB, "MB")
    else if value > KIB then EndsWithAppend(IntToString(value / KIB), " KB"); IntToString(value / KIB) + " KB"
    else EndsWithAppend(IntToString(value), " bytes"); IntToString(value) + " bytes"
  }

  /** The decimal the corrected text shows for a unit of size u is the size
      in that unit truncated to two decimals: whole units and hundredths in
      [0, 99] that together make floor(100 * value / u). */
  lemma HundredthsTruncate(value: int, u: int)
    requires u > 0 && value > u
    ensures var (whole, frac) := (value / u, (value % u) * 100 / u);
      0 <= frac <= 99 && whole * 100 + frac == (value * 100) / u
  {
    var whole, r := value / u, value % u;
    var frac, e := r * 100 / u, r * 100 % u;
    HundredthsRange(r, u, frac, e);
    ScaledSplit(value, u, whole, r, frac, e);
    DivUnique(value * 100, u, whole * 100 + frac, e);
  }

  /** Hundredths of a remainder below the unit lie in [0, 99]. */
  lemma HundredthsRange(r: int, u: int, frac: int, e: int)
    requires u > 0 && 0 <= r < u
    requires r * 100 == u * frac + e && 0 <= e < u
    ensures 0 <= frac <= 99
  {
    assert frac < 0 ==> u * frac <= -u;
    assert frac >= 100 ==> u * frac >= u * 100;
  }

  /** Scaling value = u * whole + r by 100 splits as u * (100 * whole +
      frac) + e, where r * 100 = u * frac + e. */
  lemma ScaledSplit(value: int, u: int, whole: int, r: int, frac: int, e: int)
    requires value == u * whole + r && r * 100 == u * frac + e
    ensures value * 100 == u * (whole * 100 + frac) + e
  {
    assert value * 100 == (u * whole) * 100 + r * 100;
    assert (u * whole) * 100 == u * (whole * 100);
    assert u * (whole * 100 + frac) == u * (whole * 100) + u * frac;
  }

  /** What the corrected UI_ReadableSize shows: with h the size in hundredths
      of the largest unit it exceeds, truncated, the text is h / 100, a dot,
      h % 100 in two digits and the unit. */
  lemma ReadableSizeMeaning(value: int)
    ensures value > GIB ==> ReadableSize(value) == WithHundredths(value * 100 / GIB / 100, value * 100 / GIB % 100, "GB")
    ensures MIB < value <= GIB ==> ReadableSize(value) == WithHundredths(value * 100 / MIB / 100, value * 100 / MIB % 100, "MB")
    ensures KIB < value <= MIB ==> ReadableSize(value) == IntToString(value / KIB) + " KB"
    ensures value <= KIB ==> ReadableSize(value) == IntToString(value) + " bytes"
  {
    if value > GIB {
      HundredthsTruncate(value, GIB);
      DivUnique(value * 100 / GIB, 100, value / GIB, (value % GIB) * 100 / GIB);
    } else if value > MIB {
      HundredthsTruncate(value, MIB);
      DivUnique(value * 100 / MIB, 100, value / MIB, (value % MIB) * 100 / MIB);
    }
  }

  /** Up to a gigabyte and a little more, both agree. */
  lemma ReadableSizeAgreesBelowWrap(value: int)
    requires IsInt32(value) && value < GIB + 21474836
    ensures ReadableSizeAsWritten(value) == ReadableSize(value)
  {
    if value > GIB {
      assert (value % GIB) * 100 < 0x8000_0000;
    }
  }

  /** A size of one and a half gigabytes reads "1.-2 GB" as written, where
      "1.50 GB" is meant: 2^29 * 100 wraps around to -2^31. */
  lemma ReadableSizeWraps()
    ensures ReadableSizeAsWritten(GIB + GIB / 2) == "1.-2 GB"
    ensures ReadableSize(GIB + GIB / 2) == "1.50 GB"
  {
    var v := GIB + GIB / 2;
    assert v / GIB == 1 && v % GIB == 536870912;
    assert Wrap32(536870912 * 100) == -0x8000_0000;
    assert CDiv(-0x8000_0000, GIB) == -2;
    assert 536870912 * 100 / GIB == 50;
    assert ReadableSizeAsWritten(v) == WithHundredths(1, -2, "GB");
    assert ReadableSize(v) == WithHundredths(1, 50, "GB");
    OneAndAHalfTexts();
  }

  /** The two texts of one and a half gigabytes. */
  lemma OneAndAHalfTexts()
    ensures WithHundredths(1, -2, "GB") == "1.-2 GB"
    ensures WithHundredths(1, 50, "GB") == "1.50 GB"
  {
    assert IntToString(1) == "1" by {
      assert NatToString(1) == "1";
    }
    assert Pad2(-2) == "-2" by {
      assert NatToString(2) == "2";
    }
    assert Pad2(50) == "50" by {
      assert NatToString(50) == NatToString(5) + [DigitChar(0)];
    }
  }

  // ---------------------------------------------------------------------
  //   UI_PrintTime
  // ---------------------------------------------------------------------

  /** How UI_PrintTime reads a duration: hours and minutes, minutes and
      seconds, or seconds. */
  datatype TimeParts = HoursMinutes(hours: int, minutes: int) | MinutesSeconds(minutes: int, seconds: int) | Seconds(seconds: int)

  /** The split of UI_PrintTime for a time in milliseconds, truncated to
      whole seconds as C's division does. */
  function TimeSplit(time: int): (p: TimeParts)
    ensures var t := CDiv(time, 1000);
      (t > 3600 <==> p.HoursMinutes?) && (60 < t <= 3600 <==> p.MinutesSeconds?)
    ensures var t := CDiv(time, 1000);
      p.HoursMinutes? ==> (p.hours >= 1 && 0 <= p.minutes < 60
        && p.hours * 3600 + p.minutes * 60 <= t < p.hours * 3600 + (p.minutes + 1) * 60)
    ensures var t := CDiv(time, 1000);
      p.MinutesSeconds? ==> (1 <= p.minutes <= 60 && 0 <= p.seconds < 60 && p.minutes * 60 + p.seconds == t)
    ensures p.Seconds? ==> p.seconds == CDiv(time, 1000) <= 60
  {
    var t := CDiv(time, 1000);
    if t > 3600 then HoursMinutes(t / 3600, (t % 3600) / 60)
    else if t > 60 then MinutesSeconds(t / 60, t % 60)
    else Seconds(t)
  }

  /** UI_PrintTime's text. */
  function PrintTime(time: int): (s: string)
    ensures CDiv(time, 1000) > 3600 ==> EndsWith(s, " min")
    ensures CDiv(time, 1000) <= 3600 ==> EndsWith(s, " sec")
  {
    match TimeSplit(time)
    case HoursMinutes(h, m) =>
      EndsWithAppend(IntToString(h) + " hr " + IntToString(m), " min");
      IntToString(h) + " hr " + IntToString(m) + " min"
    case MinutesSeconds(m, s) =>
      EndsWithAppend(IntToString(m) + " min " + IntToString(s), " sec");
      IntToString(m) + " min " + IntToString(s) + " sec"
    case Seconds(s) =>
      EndsWithAppend(IntToString(s), " sec");
      IntToString(s) + " sec"
  }

  // ---------------------------------------------------------------------
  //   The line splitter of UI_UpdateNews
  // ---------------------------------------------------------------------

  /** The splitter loop from character i of the wrapped news text, with the
      finished lines `done` and the current line `cur`: a newline or a full
      line (lineWidth - 1 characters) ends the line, and on the last line
      the loop stops; a character that ends a full line starts the next
      one whatever it is; otherwise only printable characters are kept. */
  function NewsFrom(t: string, i: nat, done: seq<string>, cur: string, maxLines: nat, lineWidth: nat): (r: seq<string>)
    requires i <= |t|
    ensures |done| < |r| && done <= r
    decreases |t| - i
  {
    if i == |t| then done + [cur]
    else
      var c := t[i];
      if |cur| == lineWidth - 1 || c == '\n' then
        if |done| == maxLines - 1 then done + [cur]
        else NewsFrom(t, i + 1, done + [cur], if c != '\n' then [c] else [], maxLines, lineWidth)
      else if IsPrint(c) then NewsFrom(t, i + 1, done, cur + [c], maxLines, lineWidth)
      else NewsFrom(t, i + 1, done, cur, maxLines, lineWidth)
  }

  /** The lines of uiInfo.newsInfo.text, numLines of them, for the wrapped
      text. */
  function NewsLines(t: string, maxLines: nat, lineWidth: nat): (r: seq<string>)
    ensures |r| >= 1
  {
    NewsFrom(t, 0, [], [], maxLines, lineWidth)
  }

  /** The characters of a text without its newlines. */
  function WithoutNewlines(s: string): (r: string)
    ensures '\n' !in r
  {
    if s == [] then [] else (if s[0] == '\n' then [] else [s[0]]) + WithoutNewlines(s[1..])
  }

  /** The lines joined together. */
  function Joined(ls: seq<string>): string
  {
    if ls == [] then [] else Joined(ls[..|ls| - 1]) + ls[|ls| - 1]
  }

  ghost predicate LineOk(l: string, first: bool, lineWidth: nat)
  {
    |l| <= lineWidth - 1 && '\n' !in l
    && forall k :: 0 <= k < |l| ==> IsPrint(l[k]) || (k == 0 && !first)
  }

  /** The splitter keeps its bounds: between 1 and maxLines lines, each at
      most lineWidth - 1 characters long and free of newlines, and holding
      only printable characters except for the character a full line
      carries over to the start of the next. */
  lemma {:induction false} NewsFromBounds(t: string, i: nat, done: seq<string>, cur: string, maxLines: nat, lineWidth: nat)
    requires i <= |t| && maxLines >= 1 && lineWidth >= 2
    requires |done| <= maxLines - 1
    requires forall k :: 0 <= k < |done| ==> LineOk(done[k], k == 0, lineWidth)
    requires LineOk(cur, |done| == 0, lineWidth)
    ensures var r := NewsFrom(t, i, done, cur, maxLines, lineWidth);
      |done| + 1 <= |r| <= maxLines && r[..|done|] == done
      && forall k :: 0 <= k < |r| ==> LineOk(r[k], k == 0, lineWidth)
    decreases |t| - i
  {
    if i < |t| {
      var c := t[i];
      if |cur| == lineWidth - 1 || c == '\n' {
        if |done| < maxLines - 1 {
          var next: string := if c != '\n' then [c] else [];
          assert LineOk(next, false, lineWidth);
          NewsFromBounds(t, i + 1, done + [cur], next, maxLines, lineWidth);
          var r := NewsFrom(t, i + 1, done + [cur], next, maxLines, lineWidth);
          assert r[..|done| + 1][..|done|] == done;
        }
      } else if IsPrint(c) {
        var cur' := cur + [c];
        assert forall k :: 0 <= k < |cur| ==> cur'[k] == cur[k];
        NewsFromBounds(t, i + 1, done, cur', maxLines, lineWidth);
      } else {
        NewsFromBounds(t, i + 1, done, cur, maxLines, lineWidth);
      }
    }
  }

  lemma WithoutNewlinesCons(s: string)
    requires s != []
    ensures WithoutNewlines(s) == (if s[0] == '\n' then [] else [s[0]]) + WithoutNewlines(s[1..])
  {
  }

  /** When the text fits, nothing is lost: for a text of printable
      characters and newlines that ends before the last line fills, the
      lines joined together are the text without its newlines. */
  lemma {:induction false} NewsFromComplete(t: string, i: nat, done: seq<string>, cur: string, maxLines: nat, lineWidth: nat)
    requires i <= |t| && maxLines >= 1 && lineWidth >= 2 && |done| <= maxLines - 1
    requires forall k :: i <= k < |t| ==> IsPrint(t[k]) || t[k] == '\n'
    ensures var r := NewsFrom(t, i, done, cur, maxLines, lineWidth);
      |r| < maxLines ==> Joined(r) == Joined(done) + cur + WithoutNewlines(t[i..])
    decreases |t| - i
  {
    var r := NewsFrom(t, i, done, cur, maxLines, lineWidth);
    if i == |t| {
      assert (done + [cur])[..|done|] == done;
      assert t[i..] == [];
    } else {
      var c := t[i];
      assert t[i..] == [c] + t[i + 1..];
      WithoutNewlinesCons(t[i..]);
      assert t[i..][1..] == t[i + 1..];
      if |cur| == lineWidth - 1 || c == '\n' {
        if |done| < maxLines - 1 {
          var next: string := if c != '\n' then [c] else [];
          NewsFromComplete(t, i + 1, done + [cur], next, maxLines, lineWidth);
          assert (done + [cur])[..|done|] == done;
          assert Joined(done + [cur]) == Joined(done) + cur;
        } else {
          assert |r| == maxLines;
        }
      } else {
        assert IsPrint(c);
        NewsFromComplete(t, i + 1, done, cur + [c], maxLines, lineWidth);
      }
    }
  }

  /** The whole-text form of the two lemmas above. */
  lemma NewsLinesCorrect(t: string, maxLines: nat, lineWidth: nat)
    requires maxLines >= 1 && lineWidth >= 2
    ensures var r := NewsLines(t, maxLines, lineWidth);
      1 <= |r| <= maxLines && forall k :: 0 <= k < |r| ==> LineOk(r[k], k == 0, lineWidth)
    ensures (forall k :: 0 <= k < |t| ==> IsPrint(t[k]) || t[k] == '\n') && |NewsLines(t, maxLines, lineWidth)| < maxLines
      ==> Joined(NewsLines(t, maxLines, lineWidth)) == WithoutNewlines(t)
  {
    NewsFromBounds(t, 0, [], [], maxLines, lineWidth);
    if forall k :: 0 <= k < |t| ==> IsPrint(t[k]) || t[k] == '\n' {
      NewsFromComplete(t, 0, [], [], maxLines, lineWidth);
      assert t[0..] == t;
    }
  }

  /** The splitter loop of UI_UpdateNews over the wrapped text: the lines
      uiInfo.newsInfo.text holds afterwards, numLines of them. */
  method SplitNews(wrapped: string, maxLines: nat, lineWidth: nat) returns (lines: seq<string>)
    requires maxLines >= 1 && lineWidth >= 2
    ensures lines == NewsLines(wrapped, maxLines, lineWidth)
  {
    var done: seq<string> := [];
    var cur: string := [];
    var i := 0;
    while i < |wrapped|
      invariant 0 <= i <= |wrapped| && |done| <= maxLines - 1
      invariant NewsFrom(wrapped, i, done, cur, maxLines, lineWidth) == NewsLines(wrapped, maxLines, lineWidth)
    {
      var c := wrapped[i];
      if |cur| == lineWidth - 1 || c == '\n' {
        if |done| == maxLines - 1 {
          break;
        }
        done := done + [cur];
        cur := if c != '\n' then [c] else [];
      } else if IsPrint(c) {
        cur := cur + [c];
      }
      i := i + 1;
    }
    lines := done + [cur];
  }
}
