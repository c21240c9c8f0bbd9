/** The real-time clock message: the driver's reduction of broken-down time, and its codec. */
module RtcTime {
  import opened CInts
  import opened LittleEndian
  import opened Calendar

  datatype Rtc = Rtc(weekday: byte, month: byte, date: byte, year: byte,
                     hour: byte, minute: byte, second: byte, microsecond: u32)

  /** The instant the fields stand for, read as a date of 2000..2255 with Sunday as day 7. */
  ghost predicate RtcDenotes(rtc: Rtc, tvSec: int, tvNsec: int) {
    && ValidDate(2000 + rtc.year, rtc.month - 1, rtc.date)
    && rtc.hour < 24 && rtc.minute < 60 && rtc.second < 60
    && DayCount(2000 + rtc.year, rtc.month - 1, rtc.date) * SECS_PER_DAY
       + rtc.hour * SECS_PER_HOUR + rtc.minute * 60 + rtc.second == tvSec
    && rtc.microsecond == tvNsec / 1000 < 1000000
    && 1 <= rtc.weekday <= 7
    && rtc.weekday % 7 == (tvSec / SECS_PER_DAY + 4) % 7
  }

  /** The seconds from 2000-01-01 up to 2256-01-01, where an 8-bit year is enough. */
  const RTC_BEGIN: int := 946684800
  const RTC_END: int := 9025257600

  function RtcOfTm(tm: Tm, tvNsec: int): Rtc
    requires 0 <= tvNsec < 1000000000
  {
    Rtc(if tm.wday == 0 then 7 else ToByte(tm.wday), ToByte(tm.mon + 1), ToByte(tm.mday),
        ToByte(tm.year + 1900 - 2000), ToByte(tm.hour), ToByte(tm.min), ToByte(tm.sec), tvNsec / 1000)
  }

  /** Comparing a year is comparing seconds; `begin` is the first second of year `b`. */
  lemma YearBegins(y: int, yday: int, t: int, b: int, begin: int)
    requires 0 <= yday < DaysInYear(y)
    requires YearStart(y) + yday == t / SECS_PER_DAY
    requires begin
          == 86400 * (365 * (b - 1970) + (b - 1) / 4 - (b - 1) / 100 + (b - 1) / 400 - 477)
    ensures y < b <==> t < begin
  {
    YearStartClosedForm(b);
    var q, r := t / 86400, t % 86400;
    assert t == 86400 * q + r && q == t / SECS_PER_DAY;
    if y < b {
      YearStartMonotone(y, b);
    } else if b < y {
      YearStartMonotone(b, y);
    }
  }

  lemma YearDayBound(y: int, mon: int, mday: int)
    requires ValidDate(y, mon, mday)
    ensures 0 <= MonthStart(y, mon) + mday - 1 < DaysInYear(y)
  {
    MonthStarts(y);
  }

  lemma YearIsBefore(tm: Tm, t: int, b: int, begin: int)
    requires DenotesInstant(tm, t)
    requires begin == 86400 * (365 * (b - 1970) + (b - 1) / 4 - (b - 1) / 100 + (b - 1) / 400 - 477)
    ensures tm.year + 1900 < b <==> t < begin
  {
    YearDayBound(tm.year + 1900, tm.mon, tm.mday);
    YearBegins(tm.year + 1900, tm.yday, t, b, begin);
  }

  /** The years an 8-bit field holds, as seconds. */
  lemma RtcYears(tm: Tm, t: int)
    requires DenotesInstant(tm, t)
    ensures 2000 <= tm.year + 1900 < 2256 <==> RTC_BEGIN <= t < RTC_END
    ensures tm.year + 1900 < 2100 <==> t < 4102444800
  {
    YearIsBefore(tm, t, 2000, RTC_BEGIN);
    YearIsBefore(tm, t, 2100, 4102444800);
    YearIsBefore(tm, t, 2256, RTC_END);
  }

  /** Reading the fields back gives the same day, whatever the time of day. */
  lemma RtcDayIsDayCount(rtc: Rtc, tvSec: int, tvNsec: int)
    requires RtcDenotes(rtc, tvSec, tvNsec)
    ensures DayCount(2000 + rtc.year, rtc.month - 1, rtc.date) == tvSec / SECS_PER_DAY
  {
    var day := DayCount(2000 + rtc.year, rtc.month - 1, rtc.date);
    var rem: int := rtc.hour * 3600 + rtc.minute * 60 + rtc.second;
    assert 0 <= rem < 86400 && day * 86400 + rem == tvSec;
  }

  lemma RtcFields(tm: Tm, tvNsec: int)
    requires 100 <= tm.year < 356 && 0 <= tm.mon < 12 && 1 <= tm.mday <= 31 && 0 <= tm.wday < 7
    requires 0 <= tm.hour < 24 && 0 <= tm.min < 60 && 0 <= tm.sec < 60 && 0 <= tvNsec < 1000000000
    ensures var rtc := RtcOfTm(tm, tvNsec);
      && rtc.year == tm.year - 100 && rtc.month == tm.mon + 1 && rtc.date == tm.mday
      && rtc.hour == tm.hour && rtc.minute == tm.min && rtc.second == tm.sec
      && 1 <= rtc.weekday <= 7 && rtc.weekday % 7 == tm.wday
      && rtc.microsecond == tvNsec / 1000 < 1000000
  {
  }

  lemma DayAndTime(t: int)
    ensures t == t / SECS_PER_DAY * SECS_PER_DAY + t % SECS_PER_DAY
  {
  }

  lemma RtcOfTmIsFaithful(tm: Tm, t: int, tvNsec: int)
    requires DenotesInstant(tm, t) && 0 <= tvNsec < 1000000000 && 2000 <= tm.year + 1900 < 2256
    ensures RtcDenotes(RtcOfTm(tm, tvNsec), t, tvNsec)
  {
    RtcFields(tm, tvNsec);
    DayAndTime(t);
  }

  /** The reduction to 8-bit fields keeps the instant exactly when the year is 2000..2255. */
  lemma RtcFaithful(tm: Tm, t: int, tvNsec: int)
    requires DenotesInstant(tm, t) && 0 <= tvNsec < 1000000000
    ensures RtcDenotes(RtcOfTm(tm, tvNsec), t, tvNsec) <==> 2000 <= tm.year + 1900 < 2256
  {
    var y := tm.year + 1900;
    if 2000 <= y < 2256 {
      RtcOfTmIsFaithful(tm, t, tvNsec);
    }
    if RtcDenotes(RtcOfTm(tm, tvNsec), t, tvNsec) {
      var rtc := RtcOfTm(tm, tvNsec);
      RtcDayIsDayCount(rtc, t, tvNsec);
      DayCountInjective(2000 + rtc.year, rtc.month - 1, rtc.date, y, tm.mon, tm.mday);
    }
  }

  /** `get_real_rtc_time`; the wall clock is the parameter. */
  method GetRealRtcTime(tvSec: s64, tvNsec: int) returns (rtc: Rtc)
    requires 0 <= tvNsec < 1000000000
    ensures RtcDenotes(rtc, tvSec, tvNsec) <==> RTC_BEGIN <= tvSec < RTC_END
    ensures RTC_BEGIN <= tvSec < 4102444800 ==> rtc.year < 100
  {
    var tm := Time64ToTm(tvSec, 0);
    rtc := RtcOfTm(tm, tvNsec);
    RtcYears(tm, tvSec);
    RtcFaithful(tm, tvSec, tvNsec);
  }

  function RtcBytes(rtc: Rtc): (s: seq<byte>)
    ensures |s| == 11
  {
    [rtc.weekday, rtc.month, rtc.date, rtc.year, rtc.hour, rtc.minute, rtc.second] + Le32(rtc.microsecond)
  }

  /** What each byte of the message is. */
  ghost predicate SpellsRtc(s: seq<byte>, rtc: Rtc) {
    && |s| >= 11
    && s[0] == rtc.weekday && s[1] == rtc.month && s[2] == rtc.date && s[3] == rtc.year
    && s[4] == rtc.hour && s[5] == rtc.minute && s[6] == rtc.second
    && Spells32(s[7], s[8], s[9], s[10], rtc.microsecond)
  }

  lemma RtcBytesSpell(rtc: Rtc, behind: seq<byte>)
    ensures SpellsRtc(RtcBytes(rtc) + behind, rtc)
  {
    Le32Spells(rtc.microsecond);
    var s := RtcBytes(rtc) + behind;
    assert s[7] == Le32(rtc.microsecond)[0] && s[8] == Le32(rtc.microsecond)[1];
    assert s[9] == Le32(rtc.microsecond)[2] && s[10] == Le32(rtc.microsecond)[3];
  }

  /** Pack (Set RTC Time). */
  method PackSetRtcTime(rtc: Rtc, data: array<byte>)
    requires data.Length >= 11
    modifies data
    ensures data[..] == RtcBytes(rtc) + old(data[11..])
    ensures SpellsRtc(data[..], rtc)
  {
    var n := 0;
    data[n] := rtc.weekday;
    n := n + 1;
    data[n] := rtc.month;
    n := n + 1;
    data[n] := rtc.date;
    n := n + 1;
    data[n] := rtc.year;
    n := n + 1;
    data[n] := rtc.hour;
    n := n + 1;
    data[n] := rtc.minute;
    n := n + 1;
    data[n] := rtc.second;
    n := n + 1;
    data[n] := ToByte(rtc.microsecond);
    data[n + 1] := ToByte(rtc.microsecond / 0x100);
    data[n + 2] := ToByte(rtc.microsecond / 0x1_0000);
    data[n + 3] := ToByte(rtc.microsecond / 0x100_0000);
    assert data[..11] == RtcBytes(rtc);
    assert data[11..] == old(data[11..]);
    assert data[..] == data[..11] + data[11..];
    RtcBytesSpell(rtc, data[11..]);
  }

  /** Parse (Response Get RTC Time), stated as the inverse of packing. */
  method ParseResponseGetRtcTime(data: array<byte>) returns (rtc: Rtc)
    requires data.Length >= 11
    ensures RtcBytes(rtc) == data[..11] && SpellsRtc(data[..], rtc)
    ensures forall sent: Rtc :: RtcBytes(sent) == data[..11] ==> rtc == sent
  {
    var n := 7;
    var microsecond := FromLe32(data[n..n + 4]);
    rtc := Rtc(data[0], data[1], data[2], data[3], data[4], data[5], data[6], microsecond);
    Le32Inverse(data[n..n + 4]);
    RtcBytesSpell(rtc, data[11..]);
    assert data[..] == data[..11] + data[11..];
    forall sent: Rtc | RtcBytes(sent) == data[..11]
      ensures rtc == sent
    {
      RtcBytesInjective(rtc, sent);
    }
  }

  lemma RtcBytesInjective(a: Rtc, b: Rtc)
    requires RtcBytes(a) == RtcBytes(b)
    ensures a == b
  {
    assert Le32(a.microsecond) == RtcBytes(a)[7..] == RtcBytes(b)[7..] == Le32(b.microsecond);
    Le32RoundTrip(a.microsecond);
    Le32RoundTrip(b.microsecond);
    assert RtcBytes(a)[..7] == RtcBytes(b)[..7];
    assert forall i | 0 <= i < 7 :: RtcBytes(a)[..7][i] == RtcBytes(b)[..7][i];
  }
}
