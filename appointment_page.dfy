/**
 * The time formatter of the appointment page (frontend/appointment.js):
 * a 24-hour "HH:MM" string from the time picker shown on a 12-hour clock.
 */
module AppointmentPage {
  import opened Wrappers
  import opened Text

  /** JavaScript `%` on integers: the remainder takes the sign of the dividend. */
  function JsRem(a: int, b: int): (r: int)
    requires b > 0
    ensures a >= 0 ==> 0 <= r < b
    ensures a < 0 ==> -b < r <= 0
    ensures a >= 0 ==> r == a % b
  {
    if a >= 0 then a % b else -((-a) % b)
  }

  /** The truncating remainder is odd in the dividend: negating it negates the remainder. */
  lemma JsRemOdd(a: int, b: int)
    requires b > 0
    ensures JsRem(-a, b) == -JsRem(a, b)
  {
  }

  /** -5 % 12 is -5 in JavaScript, where the Euclidean remainder would be 7. */
  lemma JsRemNegativeExample()
    ensures JsRem(-5, 12) == -5 && (-5) % 12 == 7
  {
  }

  /**
   * `hour % 12 || 12`: a remainder of 0 is falsy and so is the NaN that
   * parseInt gives for text without digits (None); both become 12.
   */
  function Hour12(hour: Option<int>): (h: int)
    ensures hour.None? ==> h == 12
    ensures hour.Some? && hour.value >= 0 ==> 1 <= h <= 12 && h % 12 == hour.value % 12
    ensures hour.Some? && hour.value < 0 ==> -12 < h < 0 || h == 12
  {
    match hour
    case None => 12
    case Some(v) => if JsRem(v, 12) == 0 then 12 else JsRem(v, 12)
  }

  /** `hour >= 12 ? 'PM' : 'AM'`; NaN compares false, so it reads as morning. */
  function Meridiem(hour: Option<int>): (m: string)
    ensures m == "AM" || m == "PM"
  {
    if hour.Some? && hour.value >= 12 then "PM" else "AM"
  }

  function FormatTime(timeStr: string): (r: string)
    ensures |r| >= 3 && (r[|r| - 3..] == " AM" || r[|r| - 3..] == " PM")
    ensures ':' in r
  {
    var parts := Split(timeStr, ':');
    var hour := ParseInt(parts[0]);
    var minutes := if |parts| > 1 then parts[1] else "undefined";
    IntToString(Hour12(hour)) + ":" + minutes + " " + Meridiem(hour)
  }

  /** Reads a 12-hour clock reading back as an hour of the day. */
  function Hour24(hour12: int, meridiem: string): int
  {
    var base := if hour12 == 12 then 0 else hour12;
    if meridiem == "PM" then base + 12 else base
  }

  /** The 12-hour reading loses nothing: every hour of the day is recovered from it. */
  lemma ClockRoundTrip(hour: int)
    requires 0 <= hour < 24
    ensures Hour24(Hour12(Some(hour)), Meridiem(Some(hour))) == hour
  {
  }

  /** The suffix is PM exactly from noon on. */
  lemma MeridiemAfterNoon(hour: int)
    ensures Meridiem(Some(hour)) == "PM" <==> hour >= 12
    ensures Meridiem(None) == "AM"
  {
  }

  /** The text before the first colon gives the hour; the text after it is copied verbatim. */
  lemma FormatTimeShape(hh: string, mm: string)
    requires ':' !in hh && ':' !in mm
    ensures FormatTime(hh + ":" + mm) == IntToString(Hour12(ParseInt(hh))) + ":" + mm + " " + Meridiem(ParseInt(hh))
  {
    assert hh + ":" + mm == hh + [':'] + mm;
    SplitAt(hh, mm, ':');
    SplitWithout(mm, ':');
  }

  /** The two-digit hour the time picker writes. */
  function TwoDigits(hour: nat): (s: string)
    requires hour < 100
    ensures |s| == 2 && AllDigits(s)
  {
    [DigitChar(hour / 10), DigitChar(hour % 10)]
  }

  lemma ParseTwoDigits(hour: nat)
    requires hour < 100
    ensures ParseInt(TwoDigits(hour)) == Some(hour)
  {
    var s := TwoDigits(hour);
    LeadingDigitsOfDigits(s);
    assert s[..1] == [s[0]] && s[..1][..0] == [];
    assert ParseNat(s[..1]) == DigitValue(s[0]);
    assert ParseNat(s) == 10 * (hour / 10) + hour % 10;
  }

  /** A picker value "HH:MM" shows as the 12-hour reading of HH, the minutes MM and the suffix. */
  lemma FormatClockTime(hour: nat, mm: string)
    requires hour < 24 && ':' !in mm
    ensures FormatTime(TwoDigits(hour) + ":" + mm)
         == IntToString(Hour12(Some(hour))) + ":" + mm + " " + Meridiem(Some(hour))
  {
    assert ':' !in TwoDigits(hour);
    FormatTimeShape(TwoDigits(hour), mm);
    ParseTwoDigits(hour);
  }

  lemma TwelveText()
    ensures IntToString(12) == "12" && IntToString(1) == "1"
  {
    assert NatToString(1) == "1";
  }

  /** The picker text of `hour` shows as `text`, the minutes and `meridiem`. */
  lemma FormatClockText(hour: nat, mm: string, text: string, meridiem: string)
    requires hour < 24 && ':' !in mm
    requires IntToString(Hour12(Some(hour))) == text && Meridiem(Some(hour)) == meridiem
    ensures FormatTime(TwoDigits(hour) + ":" + mm) == (text + ":") + mm + (" " + meridiem)
  {
    FormatClockTime(hour, mm);
    ClockText(text, mm, meridiem);
  }

  /** Hour 0 shows as 12 in the morning. */
  lemma FormatTimeMidnight(mm: string)
    requires ':' !in mm
    ensures FormatTime(TwoDigits(0) + ":" + mm) == "12:" + mm + " AM"
  {
    TwelveText();
    assert Hour12(Some(0)) == 12;
    FormatClockText(0, mm, "12", "AM");
    assert "12" + ":" == "12:" && " " + "AM" == " AM";
  }

  /** Hour 12 shows as 12 in the afternoon. */
  lemma FormatTimeNoon(mm: string)
    requires ':' !in mm
    ensures FormatTime(TwoDigits(12) + ":" + mm) == "12:" + mm + " PM"
  {
    TwelveText();
    assert Hour12(Some(12)) == 12;
    FormatClockText(12, mm, "12", "PM");
    assert "12" + ":" == "12:" && " " + "PM" == " PM";
  }

  /** Hour 13 shows as 1 in the afternoon. */
  lemma FormatTimeAfternoon(mm: string)
    requires ':' !in mm
    ensures FormatTime(TwoDigits(13) + ":" + mm) == "1:" + mm + " PM"
  {
    TwelveText();
    assert Hour12(Some(13)) == 1;
    FormatClockText(13, mm, "1", "PM");
    assert "1" + ":" == "1:" && " " + "PM" == " PM";
  }

  /** An hour without digits is NaN to parseInt: it shows as twelve in the morning. */
  lemma FormatTimeNotANumber(hh: string, mm: string)
    requires ':' !in hh && ':' !in mm && ParseInt(hh).None?
    ensures FormatTime(hh + ":" + mm) == "12:" + mm + " AM"
  {
    FormatTimeShape(hh, mm);
    TwelveText();
    ClockText("12", mm, "AM");
    assert "12" + ":" == "12:" && " " + "AM" == " AM";
  }

  /** Regrouping of the output text around the minutes. */
  lemma ClockText(hour: string, mm: string, meridiem: string)
    ensures hour + ":" + mm + " " + meridiem == (hour + ":") + mm + (" " + meridiem)
  {
  }

  /** Without a colon, the minutes read as the text "undefined". */
  lemma FormatTimeWithoutColon(hh: string)
    requires ':' !in hh
    ensures FormatTime(hh) == IntToString(Hour12(ParseInt(hh))) + ":" + "undefined" + " " + Meridiem(ParseInt(hh))
  {
    SplitWithout(hh, ':');
    var parts := Split(hh, ':');
    assert |parts| == 1 && parts[0] == hh;
  }
}
