/** The countdown display: `formatTime` renders whole seconds as zero-padded `HH:MM:SS`,
    and the low-time marker is on when `0 < time <= 10`. `ParseClock` is an independent
    reading of such a display, used to state what the rendering means. */
module Clock {
  import opened Wrappers

  predicate IsDigit(c: char) { '0' <= c <= '9' }

  predicate AllDigits(s: string)
  {
    forall i :: 0 <= i < |s| ==> IsDigit(s[i])
  }

  function DigitChar(d: nat): (c: char)
    requires d < 10
    ensures IsDigit(c) && (c as int) - ('0' as int) == d
  {
    (('0' as int) + d) as char
  }

  /** The number a string of decimal digits denotes (most significant digit first). */
  function DigitsValue(s: string): nat
    requires AllDigits(s)
    decreases |s|
  {
    if |s| == 0 then 0
    else DigitsValue(s[..|s| - 1]) * 10 + ((s[|s| - 1] as int) - ('0' as int))
  }

  /** `String(n)` for a non-negative integer: its shortest decimal digit string. */
  function DecimalString(n: nat): (r: string)
    ensures AllDigits(r) && DigitsValue(r) == n
    ensures |r| >= 1
    ensures n < 10 <==> |r| == 1
    ensures n < 100 <==> |r| <= 2
    ensures |r| == 1 || r[0] != '0'
    decreases n
  {
    if n < 10 then [DigitChar(n)]
    else
      var r := DecimalString(n / 10) + [DigitChar(n % 10)];
      assert r[..|r| - 1] == DecimalString(n / 10);
      r
  }

  /** A leading zero does not change the value of a digit string. */
  lemma {:induction false} LeadingZero(s: string)
    requires AllDigits(s)
    ensures AllDigits(['0'] + s) && DigitsValue(['0'] + s) == DigitsValue(s)
  {
    if |s| > 0 {
      var z := ['0'] + s;
      assert z[..|z| - 1] == ['0'] + s[..|s| - 1];
      LeadingZero(s[..|s| - 1]);
    }
  }

  /** `s.padStart(width, fill)`: prefix copies of `fill` until the length reaches `width`. */
  function PadStart(s: string, width: nat, fill: char): (r: string)
    ensures |r| == if |s| >= width then |s| else width
    ensures r[|r| - |s|..] == s
    ensures forall i :: 0 <= i < |r| - |s| ==> r[i] == fill
    decreases width - |s|
  {
    if |s| >= width then s else PadStart([fill] + s, width, fill)
  }

  /** Padding a one- or more-digit string to width 2 keeps it a digit string of the same value. */
  lemma PadTwoDigits(d: string)
    requires AllDigits(d) && |d| >= 1
    ensures var r := PadStart(d, 2, '0');
      AllDigits(r) && DigitsValue(r) == DigitsValue(d) && (|r| == 2 <==> |d| <= 2)
  {
    var r := PadStart(d, 2, '0');
    if |d| == 1 {
      assert r == ['0'] + d;
      LeadingZero(d);
    }
  }

  /** `String(n).padStart(2, "0")`: at least two digits, denoting `n`. */
  function Pad2(n: nat): (r: string)
    ensures AllDigits(r) && DigitsValue(r) == n
    ensures |r| >= 2
    ensures |r| == 2 <==> n < 100
  {
    var d := DecimalString(n);
    PadTwoDigits(d);
    PadStart(d, 2, '0')
  }

  /** Division by 60 is determined by its defining equation. */
  lemma DivMod60Unique(x: int, q: int, r: int)
    requires x == q * 60 + r && 0 <= r < 60
    ensures x / 60 == q && x % 60 == r
  {
  }

  /** The whole hours of a time in seconds (hours are not wrapped at 24). */
  function HoursOf(time: nat): nat
  {
    time / 3600
  }

  /** The minutes past the whole hours. */
  function MinutesOf(time: nat): (r: nat)
    ensures r < 60
  {
    (time % 3600) / 60
  }

  /** The seconds past the whole minutes. */
  function SecondsOf(time: nat): (r: nat)
    ensures r < 60
  {
    time % 60
  }

  /** Hours, minutes and seconds add back up to the time. */
  lemma SplitSeconds(time: nat)
    ensures HoursOf(time) * 3600 + MinutesOf(time) * 60 + SecondsOf(time) == time
  {
    var h, r := time / 3600, time % 3600;
    var m, s := r / 60, r % 60;
    assert r == m * 60 + s;
    assert time == (h * 60 + m) * 60 + s;
    DivMod60Unique(time, h * 60 + m, s);
  }

  /** The hours field needs no more than two digits exactly below 100 hours. */
  lemma HoursFit(time: nat)
    ensures HoursOf(time) < 100 <==> time < 360000
  {
  }

  /** `formatTime`: hours, minutes and seconds, each padded to two digits and joined by
      colons. */
  function FormatTime(time: nat): (r: string)
    ensures |r| >= 8
    ensures |r| == 8 <==> time < 360000
    ensures r[|r| - 6] == ':' && r[|r| - 3] == ':'
    ensures AllDigits(r[..|r| - 6]) && AllDigits(r[|r| - 5..|r| - 3]) && AllDigits(r[|r| - 2..])
  {
    var h, m, s := HoursOf(time), MinutesOf(time), SecondsOf(time);
    HoursFit(time);
    AssembledSlices(Pad2(h), Pad2(m), Pad2(s));
    Pad2(h) + ":" + Pad2(m) + ":" + Pad2(s)
  }

  /** Reads a display `H..H:MM:SS` back into seconds; `None` for anything that is not one
      (too short, a separator missing, a non-digit, minutes or seconds of 60 or more). */
  function ParseClock(text: string): (r: Option<nat>)
  {
    if |text| < 8 then None
    else ParseFieldsOf(text[..|text| - 6], text[|text| - 6], text[|text| - 5..|text| - 3],
                       text[|text| - 3], text[|text| - 2..])
  }

  /** The value of hours, minutes and seconds fields between two separators. */
  function ParseFieldsOf(hh: string, sep1: char, mm: string, sep2: char, ss: string): Option<nat>
  {
    if sep1 == ':' && sep2 == ':' && AllDigits(hh) && AllDigits(mm) && AllDigits(ss)
       && DigitsValue(mm) < 60 && DigitsValue(ss) < 60
    then Some(DigitsValue(hh) * 3600 + DigitsValue(mm) * 60 + DigitsValue(ss))
    else None
  }

  /** Where the fields of an assembled display sit. */
  lemma AssembledSlices(ph: string, pm: string, ps: string)
    requires |ph| >= 2 && |pm| == 2 && |ps| == 2
    ensures var text := ph + ":" + pm + ":" + ps;
      && text[..|text| - 6] == ph && text[|text| - 5..|text| - 3] == pm && text[|text| - 2..] == ps
      && text[|text| - 6] == ':' && text[|text| - 3] == ':'
  {
    var text := ph + ":" + pm + ":" + ps;
    assert text[..|text| - 6] == ph;
    assert text[|text| - 5..|text| - 3] == pm;
    assert text[|text| - 2..] == ps;
  }

  /** An assembled display is read field by field. */
  lemma ParseAssembledShape(ph: string, pm: string, ps: string)
    requires |ph| >= 2 && |pm| == 2 && |ps| == 2
    ensures ParseClock(ph + ":" + pm + ":" + ps) == ParseFieldsOf(ph, ':', pm, ':', ps)
  {
    AssembledSlices(ph, pm, ps);
  }

  /** Digit fields with minutes and seconds below 60 read as hours, minutes and seconds. */
  lemma ParseFieldsValue(ph: string, pm: string, ps: string, h: nat, m: nat, s: nat)
    requires AllDigits(ph) && AllDigits(pm) && AllDigits(ps)
    requires DigitsValue(ph) == h && DigitsValue(pm) == m && DigitsValue(ps) == s
    requires m < 60 && s < 60
    ensures ParseFieldsOf(ph, ':', pm, ':', ps) == Some(h * 3600 + m * 60 + s)
  {
  }

  /** A display assembled from digit fields parses back into those fields. */
  lemma ParseAssembled(ph: string, pm: string, ps: string, h: nat, m: nat, s: nat)
    requires AllDigits(ph) && AllDigits(pm) && AllDigits(ps)
    requires |ph| >= 2 && |pm| == 2 && |ps| == 2
    requires DigitsValue(ph) == h && DigitsValue(pm) == m && DigitsValue(ps) == s
    requires m < 60 && s < 60
    ensures ParseClock(ph + ":" + pm + ":" + ps) == Some(h * 3600 + m * 60 + s)
  {
    ParseAssembledShape(ph, pm, ps);
    ParseFieldsValue(ph, pm, ps, h, m, s);
  }

  /** Padded hours, minutes and seconds joined by colons read back as their total. */
  lemma PaddedRoundTrip(h: nat, m: nat, s: nat)
    requires m < 60 && s < 60
    ensures ParseClock(Pad2(h) + ":" + Pad2(m) + ":" + Pad2(s)) == Some(h * 3600 + m * 60 + s)
  {
    ParseAssembled(Pad2(h), Pad2(m), Pad2(s), h, m, s);
  }

  /** The display reads back as the number of seconds it was made from, for every time. */
  lemma FormatParseRoundTrip(time: nat)
    ensures ParseClock(FormatTime(time)) == Some(time)
  {
    SplitSeconds(time);
    PaddedRoundTrip(HoursOf(time), MinutesOf(time), SecondsOf(time));
  }

  /** For every time below 100 hours the display is exactly `HH:MM:SS`: eight characters,
      digits around two colons, minutes and seconds below 60, and the three fields add up
      to the time. */
  lemma DisplayFields(time: nat)
    requires time < 360000
    ensures var text := FormatTime(time);
      && |text| == 8 && text[2] == ':' && text[5] == ':'
      && AllDigits(text[..2]) && AllDigits(text[3..5]) && AllDigits(text[6..])
      && DigitsValue(text[3..5]) < 60 && DigitsValue(text[6..]) < 60
      && DigitsValue(text[..2]) * 3600 + DigitsValue(text[3..5]) * 60 + DigitsValue(text[6..]) == time
  {
    FormatParseRoundTrip(time);
  }

  /** The low-time marker of the countdown display. */
  predicate IsLowTime(time: int)
  {
    0 < time <= 10
  }

  /** The marker is on exactly for the displays `00:00:01` to `00:00:10`: hours and
      minutes fields reading zero and a seconds field reading 1 to 10. */
  lemma LowTimeDisplay(time: nat)
    requires time < 360000
    ensures var text := FormatTime(time);
      IsLowTime(time)
      <==> (DigitsValue(text[..2]) == 0 && DigitsValue(text[3..5]) == 0 && 1 <= DigitsValue(text[6..]) <= 10)
  {
    DisplayFields(time);
    var text := FormatTime(time);
    LowTimeFields(DigitsValue(text[..2]), DigitsValue(text[3..5]), DigitsValue(text[6..]));
  }

  lemma LowTimeFields(h: nat, m: nat, s: nat)
    requires m < 60 && s < 60
    ensures IsLowTime(h * 3600 + m * 60 + s) <==> (h == 0 && m == 0 && 1 <= s <= 10)
  {
    if h > 0 {
      assert h * 3600 >= 3600;
    }
  }
}
