/**
  The integer bookkeeping inside the HUD painter of src/cgame/cg_draw.c:
  the number fields of the status bar, the spawn-queue ordinal, the
  12-hour clock and the match timer. What is drawn is returned as data;
  pixel positions, which the C code computes in floating point, are given as
  character slots counted from the field's left edge.
 */
module Hud {
  import opened Common

  // ---------------------------------------------------------------------
  //   CG_DrawField and CG_DrawFieldPadded
  // ---------------------------------------------------------------------

  /** A number glyph: the shader numberShaders[d] or the minus sign
      (STAT_MINUS). */
  datatype Glyph = Digit(d: nat) | Minus

  /** The largest value a field of `width` characters shows: 10^width - 1. */
  function FieldMax(width: nat): int
    requires 1 <= width
  {
    Pow10(width) - 1
  }

  /** The smallest: a minus sign and width - 1 nines. */
  function FieldMin(width: nat): int
    requires 1 <= width
  {
    1 - Pow10(width - 1)
  }

  /** The width cap both painters apply: at most 4 characters. */
  function CapWidth(width: int): (w: nat)
    requires width >= 1
    ensures 1 <= w <= 4
    ensures width <= 4 ==> w == width
  {
    if width > 4 then 4 else width
  }

  /** The per-width clamp of the switch in both painters. */
  function ClampValue(width: nat, value: int): (v: int)
    requires 1 <= width <= 4
    ensures FieldMin(width) <= v <= FieldMax(width)
    ensures FieldMin(width) <= value <= FieldMax(width) ==> v == value
    ensures value > FieldMax(width) ==> v == FieldMax(width)
    ensures value < FieldMin(width) ==> v == FieldMin(width)
  {
    assert Pow10(1) == 10 && Pow10(2) == 100 && Pow10(3) == 1000 && Pow10(4) == 10000;
    match width
    case 1 =>
      var v := if value > 9 then 9 else value;
      if v < 0 then 0 else v
    case 2 =>
      var v := if value > 99 then 99 else value;
      if v < -9 then -9 else v
    case 3 =>
      var v := if value > 999 then 999 else value;
      if v < -99 then -99 else v
    case 4 =>
      var v := if value > 9999 then 9999 else value;
      if v < -999 then -999 else v
  }

  /** The clamp range is exactly the values whose "%d" text fits the
      width. */
  lemma FieldRangeIsFit(width: nat, v: int)
    requires 1 <= width
    ensures FieldMin(width) <= v <= FieldMax(width) <==> |IntToString(v)| <= width
  {
    IntToStringLength(v);
    if v >= 0 {
      DigitCountWithin(v, width);
    } else if width == 1 {
      assert |IntToString(v)| >= 2;
    } else {
      DigitCountWithin(-v, width - 1);
    }
  }

  /** The clamped value always fits the field, and the clamp changes
      exactly the values that do not fit. */
  lemma ClampFits(width: nat, value: int)
    requires 1 <= width <= 4
    ensures |IntToString(ClampValue(width, value))| <= width
    ensures ClampValue(width, value) == value <==> |IntToString(value)| <= width
  {
    FieldRangeIsFit(width, ClampValue(width, value));
    FieldRangeIsFit(width, value);
  }

  /** The glyph drawn for a character of the number text. */
  function GlyphOf(c: char): (g: Glyph)
    requires c == '-' || IsDigit(c)
    ensures g.Minus? <==> c == '-'
    ensures g.Digit? ==> g.d < 10 && DigitChar(g.d) == c
  {
    if c == '-' then Minus else Digit(c as int - '0' as int)
  }

  /** The glyphs of a number text. */
  function Glyphs(num: string): (gs: seq<Glyph>)
    requires forall k :: 0 <= k < |num| ==> num[k] == '-' || IsDigit(num[k])
    ensures |gs| == |num|
    ensures forall k :: 0 <= k < |num| ==> gs[k] == GlyphOf(num[k])
  {
    if num == [] then [] else [GlyphOf(num[0])] + Glyphs(num[1..])
  }

  /** n zero glyphs. */
  function Zeros(n: nat): (gs: seq<Glyph>)
    ensures |gs| == n
  {
    if n == 0 then [] else [Digit(0)] + Zeros(n - 1)
  }

  lemma {:induction false} ZerosSnoc(n: nat)
    ensures Zeros(n) + [Digit(0)] == Zeros(n + 1)
  {
    if n > 0 {
      ZerosSnoc(n - 1);
      assert Zeros(n) + [Digit(0)] == [Digit(0)] + (Zeros(n - 1) + [Digit(0)]);
    }
  }

  /** The text the painters format, and the facts they rely on: it fits the
      capped width and holds only digits and a leading minus. */
  function FieldText(width: nat, value: int): (num: string)
    requires 1 <= width <= 4
    ensures 1 <= |num| <= width
    ensures IsNumberText(num)
  {
    ClampFits(width, value);
    IntToStringChars(ClampValue(width, value));
    IntToString(ClampValue(width, value))
  }

  /** The characters a painter may meet: digits and a minus sign. */
  predicate IsNumberText(num: string)
  {
    forall k :: 0 <= k < |num| ==> num[k] == '-' || IsDigit(num[k])
  }

  /** CG_DrawField: nothing for a width below 1; otherwise the clamped
      number right-aligned in the capped width, one (slot, glyph) pair per
      character. */
  method DrawField(width: int, value: int) returns (drawn: seq<(nat, Glyph)>)
    ensures width < 1 ==> drawn == []
    ensures width >= 1 ==> (
      var w := CapWidth(width);
      var num := FieldText(w, value);
      |drawn| == |num|
      && forall k :: 0 <= k < |num| ==> drawn[k] == (w - |num| + k, GlyphOf(num[k])))
  {
    if width < 1 {
      return [];
    }
    var w := CapWidth(width);
    var num := FieldText(w, value);
    drawn := PaintRight(w, num);
  }

  /** The painting loop of CG_DrawField: the characters of the text, one
      slot each, ending at the right edge of a field of width w. */
  method PaintRight(w: nat, num: string) returns (drawn: seq<(nat, Glyph)>)
    requires |num| <= w && IsNumberText(num)
    ensures |drawn| == |num|
    ensures forall k :: 0 <= k < |num| ==> drawn[k] == (w - |num| + k, GlyphOf(num[k]))
  {
    var l := |num|;
    if l > w {
      l := w;
    }
    var x: nat := w - l;
    var ptr: nat := 0;
    drawn := [];
    while ptr < |num| && l > 0
      invariant 0 <= l && ptr + l == |num| && x == w - |num| + ptr
      invariant |drawn| == ptr
      invariant forall k :: 0 <= k < ptr ==> drawn[k] == (w - |num| + k, GlyphOf(num[k]))
    {
      drawn := drawn + [(x, GlyphOf(num[ptr]))];
      x, ptr, l := x + 1, ptr + 1, l - 1;
    }
  }

  /** CG_DrawFieldPadded: nothing for a width below 1; otherwise exactly
      the capped width of glyphs, zero glyphs first and then the clamped
      number. */
  method DrawFieldPadded(width0: int, value: int) returns (drawn: seq<Glyph>)
    ensures width0 < 1 ==> drawn == []
    ensures width0 >= 1 ==> (
      var w := CapWidth(width0);
      var num := FieldText(w, value);
      |drawn| == w && drawn == Zeros(w - |num|) + Glyphs(num))
  {
    if width0 < 1 {
      return [];
    }
    var width := CapWidth(width0);
    var num := FieldText(width, value);
    drawn := PaintPadded(width, num);
  }

  /** The painting loop of CG_DrawFieldPadded: a zero glyph for each unused
      place of the field, then the characters of the text. */
  method PaintPadded(w: nat, num: string) returns (drawn: seq<Glyph>)
    requires 1 <= |num| <= w && IsNumberText(num)
    ensures |drawn| == w && drawn == Zeros(w - |num|) + Glyphs(num)
  {
    var width := w;
    var l := |num|;
    if l > width {
      l := width;
    }
    var orgL := l;
    var ptr: nat := 0;
    ghost var all := Glyphs(num);
    drawn := [];
    while ptr < |num| && l > 0
      invariant orgL == |num| <= width <= w
      invariant 0 <= l && ptr + l == orgL && (ptr > 0 ==> width == orgL)
      invariant drawn == Zeros(w - width) + all[..ptr]
      decreases width + l
    {
      if width > orgL {
        ZerosSnoc(w - width);
        drawn := drawn + [Digit(0)];
        width := width - 1;
        continue;
      }
      assert all[..ptr] + [all[ptr]] == all[..ptr + 1];
      drawn := drawn + [GlyphOf(num[ptr])];
      ptr, l := ptr + 1, l - 1;
    }
    assert all[..ptr] == all;
  }

  // ---------------------------------------------------------------------
  //   CG_DrawQueue
  // ---------------------------------------------------------------------

  /** The English ordinal suffix CG_DrawQueue picks for a queue position. */
  function OrdinalSuffix(position: int): (suffix: string)
    requires position >= 1
    ensures suffix == "st" <==> position % 10 == 1 && position % 100 != 11
    ensures suffix == "nd" <==> position % 10 == 2 && position % 100 != 12
    ensures suffix == "rd" <==> position % 10 == 3 && position % 100 != 13
    ensures suffix == "th" <==> (position % 10 !in {1, 2, 3} || position % 100 in {11, 12, 13})
  {
    match position % 100
    case 11 => "th"
    case 12 => "th"
    case 13 => "th"
    case _ =>
      match position % 10
      case 1 => "st"
      case 2 => "nd"
      case 3 => "rd"
      case _ => "th"
  }

  /** CG_DrawQueue once its PMF_QUEUED test has passed (a player who is
      not queued draws nothing, and that test is the caller's): no message
      when PERS_QUEUEPOS + 1 is below 1; otherwise the one-based position
      with its suffix. */
  function QueueMessage(queuePos: int): (m: Option<string>)
    ensures m.None? <==> queuePos + 1 < 1
    ensures m.Some? ==> (m.value == "You are " + IntToString(queuePos + 1)
      + OrdinalSuffix(queuePos + 1) + " in the spawn queue")
  {
    var position := queuePos + 1;
    if position < 1 then None
    else Some("You are " + IntToString(position) + OrdinalSuffix(position) + " in the spawn queue")
  }

  /** The suffix repeats every hundred positions. */
  lemma OrdinalPeriodic(position: int)
    requires position >= 1
    ensures OrdinalSuffix(position + 100) == OrdinalSuffix(position)
  {
    HundredShift(position);
  }

  /** Adding a hundred changes neither the last digit nor the last two. */
  lemma HundredShift(x: int)
    ensures (x + 100) % 100 == x % 100 && (x + 100) % 10 == x % 10
  {
    var q, r := x / 10, x % 10;
    assert x + 100 == 10 * (q + 10) + r;
    var p, t := x / 100, x % 100;
    assert x + 100 == 100 * (p + 1) + t;
  }

  // ---------------------------------------------------------------------
  //   CG_DrawClock
  // ---------------------------------------------------------------------

  /** The 12-hour mapping of CG_DrawClock for tm_hour in [0, 23]: the hour
      shown and whether it is "pm". */
  function TwelveHour(hour: int): (r: (int, bool))
    requires 0 <= hour <= 23
    ensures 1 <= r.0 <= 12
    ensures r.0 % 12 == hour % 12
    ensures r.1 <==> hour >= 12
  {
    if hour == 0 then (12, false)
    else if hour == 12 then (12, true)
    else if hour > 12 then (hour - 12, true)
    else (hour, false)
  }

  /** The 12-hour reading determines the 24-hour hour: reading it back
      gives the hour it came from. */
  lemma TwelveHourRoundTrip(hour: int)
    requires 0 <= hour <= 23
    ensures var (h, pm) := TwelveHour(hour);
      (if pm then h % 12 + 12 else h % 12) == hour
  {
  }

  /** The clock text: the 24-hour form "%02d%s%02d" in mode 2 and the
      12-hour form "%d%s%02d%s" in mode 1 (any other non-zero mode); the
      separator blinks with the parity of the seconds. In mode 0
      CG_DrawClock returns before it builds any text, so the value for
      mode 0 is never drawn. */
  function ClockText(mode: int, hour: int, min: int, sec: int): (t: string)
    requires 0 <= hour <= 23 && 0 <= sec
    ensures mode != 2 ==> |t| >= 2 && t[|t| - 2..] == (if hour >= 12 then "pm" else "am")
  {
    var sep := if sec % 2 != 0 then ":" else " ";
    if mode == 2 then Pad2(hour) + sep + Pad2(min)
    else
      var (h, pm) := TwelveHour(hour);
      IntToString(h) + sep + Pad2(min) + (if pm then "pm" else "am")
  }

  // ---------------------------------------------------------------------
  //   CG_DrawTimer
  // ---------------------------------------------------------------------

  /** The digit split of CG_DrawTimer with C's truncating division: whole
      minutes, tens of seconds and seconds of the elapsed milliseconds. */
  function TimerSplit(msec: int): (r: (int, int, int))
    ensures r.0 * 60 + r.1 * 10 + r.2 == CDiv(msec, 1000)
    ensures msec >= 0 ==> r.0 >= 0 && 0 <= r.1 <= 5 && 0 <= r.2 <= 9
    ensures msec <= 0 ==> r.0 <= 0 && -5 <= r.1 <= 0 && -9 <= r.2 <= 0
  {
    var seconds := CDiv(msec, 1000);
    var mins := CDiv(seconds, 60);
    var s1 := seconds - mins * 60;
    assert s1 == CRem(seconds, 60);
    var tens := CDiv(s1, 10);
    var s2 := s1 - tens * 10;
    assert s2 == CRem(s1, 10);
    assert msec >= 0 ==> seconds >= 0 && mins >= 0 && tens >= 0;
    assert msec <= 0 ==> seconds <= 0 && mins <= 0 && tens <= 0;
    assert -59 <= s1 <= 59;
    (mins, tens, s2)
  }

  /** The timer text "%d:%d%d". */
  function TimerText(msec: int): (t: string)
    ensures msec >= 0 ==> var k := |IntToString(TimerSplit(msec).0)|;
      |t| == k + 3 && t[k] == ':' && IsDigit(t[k + 1]) && IsDigit(t[k + 2])
      && Atoi(t) * 60 + (t[k + 1] as int - '0' as int) * 10 + (t[k + 2] as int - '0' as int) == msec / 1000
  {
    var (mins, tens, seconds) := TimerSplit(msec);
    var t := IntToString(mins) + ":" + IntToString(tens) + IntToString(seconds);
    if msec >= 0 then
      assert CDiv(msec, 1000) == msec / 1000;
      TimerDigits(mins, tens, seconds, t);
      t
    else t
  }

  /** Minutes, a colon and two single digits read back as the seconds. */
  lemma TimerDigits(mins: int, tens: int, seconds: int, t: string)
    requires 0 <= tens <= 9 && 0 <= seconds <= 9
    requires t == IntToString(mins) + ":" + IntToString(tens) + IntToString(seconds)
    ensures var k := |IntToString(mins)|;
      |t| == k + 3 && t[k] == ':' && IsDigit(t[k + 1]) && IsDigit(t[k + 2])
      && Atoi(t) == mins
      && t[k + 1] as int - '0' as int == tens && t[k + 2] as int - '0' as int == seconds
  {
    var rest := ":" + IntToString(tens) + IntToString(seconds);
    assert IntToString(tens) == [DigitChar(tens)];
    assert IntToString(seconds) == [DigitChar(seconds)];
    assert t == IntToString(mins) + rest;
    AtoiOfIntToStringThen(mins, rest);
  }
}
