/**
 * The opening-hours evaluator `isOpenNow` of src/utils/filterBars.ts and its time parser
 * `parseTime`, over `osmTags.opening_hours` text of the form `Day,Open,Close|Day,Open,Close`.
 * The clock is a parameter.
 */
module OpeningHours {
  import opened JsValues
  import opened JsStrings

  /** `Date.getDay()`: 0 is Sunday. */
  type Weekday = d: int | 0 <= d < 7

  /** The local time `isOpenNow` reads from `new Date()`. */
  datatype Now = Now(weekday: Weekday, hours: int, minutes: int)

  const DayNames: seq<string> := ["Sunday", "Monday", "Tuesday", "Wednesday", "Thursday", "Friday", "Saturday"]

  function MinuteOfDay(now: Now): int
  {
    now.hours * 60 + now.minutes
  }

  // ---------------------------------------------------------------- opening hours

  /** `t.replace(/am|pm|AM|PM/gi, '')`: removes, left to right, every `am` or `pm` in any letter case. */
  function StripMeridiem(t: string): string
  {
    if |t| >= 2 && (ToLowerChar(t[0]) == 'a' || ToLowerChar(t[0]) == 'p') && ToLowerChar(t[1]) == 'm' then
      StripMeridiem(t[2..])
    else if t == [] then []
    else [t[0]] + StripMeridiem(t[1..])
  }

  /** `/pm|PM/i.test(t)` */
  predicate HasPm(t: string)
  {
    ContainsIgnoringCase(t, "pm")
  }

  /** `/am|AM/i.test(t)` */
  predicate HasAm(t: string)
  {
    ContainsIgnoringCase(t, "am")
  }

  /** `t.toLowerCase().includes('p')`, which is the case-insensitive search by `ContainsIgnoringCaseOfLower` */
  predicate HasP(t: string)
  {
    ContainsIgnoringCase(t, "p")
  }

  /** The three hour corrections of `parseTime`, applied one after the other, given what the token contains. */
  function CorrectedHour(hour: int, pm: bool, am: bool, p: bool): int
  {
    var afterPm := if pm && hour < 12 then hour + 12 else hour;
    var afterAm := if am && afterPm == 12 then 0 else afterPm;
    if !(am || pm) && p && afterAm < 12 then afterAm + 12 else afterAm
  }

  /**
   * The minute of the day a time token denotes, as `parseTime` computes it; `None` is NaN, which a
   * NaN hour or a NaN minute makes the whole result. A missing or empty minute field counts as 0.
   */
  function TimeOfDay(t: string): Option<int>
  {
    var parts := Split(StripMeridiem(t), ':');
    var hour := ParseInt(parts[0]);
    var minute := if |parts| >= 2 && |parts[1]| > 0 then ParseInt(parts[1]) else Some(0);
    if hour.None? || minute.None? then None else Some(CorrectedHour(hour.value, HasPm(t), HasAm(t), HasP(t)) * 60 + minute.value)
  }

  /** `parseTime(t)`, correcting the hour in place step by step. */
  method ParseTime(t: string) returns (minutes: Option<int>)
    ensures minutes == TimeOfDay(t)
  {
    var parts := Split(StripMeridiem(t), ':');
    var hour := ParseInt(parts[0]);
    var minute := if |parts| >= 2 && |parts[1]| > 0 then ParseInt(parts[1]) else Some(0);
    if hour.None? || minute.None? {
      return None;
    }
    var h := hour.value;
    if HasPm(t) && h < 12 {
      h := h + 12;
    }
    if HasAm(t) && h == 12 {
      h := 0;
    }
    if !(HasAm(t) || HasPm(t)) && HasP(t) && h < 12 {
      h := h + 12;
    }
    return Some(h * 60 + minute.value);
  }

  /** The window test of `isOpenNow`: a close time before the open time wraps past midnight. */
  predicate InWindow(openMins: int, closeMins: int, current: int)
  {
    if closeMins < openMins then current >= openMins || current < closeMins
    else current >= openMins && current < closeMins
  }

  /** One `Day,Open,Close` period is well formed, is for `today`, and its window contains the minute `current`. */
  predicate PeriodOpen(period: string, today: string, current: int)
  {
    FieldsOpen(TrimAll(Split(period, ',')), today, current)
  }

  /** The trimmed comma fields of a period: the first three are present and non-empty, the day is `today`, and the window holds. */
  predicate FieldsOpen(fields: seq<string>, today: string, current: int)
  {
    && |fields| >= 3
    && |fields[0]| > 0 && |fields[1]| > 0 && |fields[2]| > 0
    && fields[0] == today
    && var openMins := TimeOfDay(fields[1]);
       var closeMins := TimeOfDay(fields[2]);
       openMins.Some? && closeMins.Some? && InWindow(openMins.value, closeMins.value, current)
  }

  /** Some `|`-separated period is open for `today` at `current`; absent or empty hours are never open. */
  predicate HoursOpen(openingHours: Option<string>, today: string, current: int)
  {
    && openingHours.Some?
    && |openingHours.value| > 0
    && var periods := Split(openingHours.value, '|');
       exists i :: 0 <= i < |periods| && PeriodOpen(periods[i], today, current)
  }

  /** What `isOpenNow` answers at the local time `now`. */
  predicate OpenAt(openingHours: Option<string>, now: Now)
  {
    HoursOpen(openingHours, DayNames[now.weekday], MinuteOfDay(now))
  }

  /** `isOpenNow(openingHours)` at the local time `now`. */
  method IsOpenNow(openingHours: Option<string>, now: Now) returns (open: bool)
    ensures open == OpenAt(openingHours, now)
  {
    if openingHours.None? || |openingHours.value| == 0 {
      return false;
    }
    var today := DayNames[now.weekday];
    var currentMinutes := now.hours * 60 + now.minutes;
    open := AnyPeriodOpen(Split(openingHours.value, '|'), today, currentMinutes);
  }

  /** The loop of `isOpenNow` over the `|`-separated periods: stops at the first open one. */
  method AnyPeriodOpen(periods: seq<string>, today: string, currentMinutes: int) returns (open: bool)
    ensures open <==> exists i :: 0 <= i < |periods| && PeriodOpen(periods[i], today, currentMinutes)
  {
    for i := 0 to |periods|
      invariant forall j :: 0 <= j < i ==> !PeriodOpen(periods[j], today, currentMinutes)
    {
      open := CheckPeriod(periods[i], today, currentMinutes);
      if open {
        return;
      }
    }
    return false;
  }

  /** One pass of the loop of `isOpenNow`: `false` where the loop continues, `true` where it returns. */
  method CheckPeriod(period: string, today: string, currentMinutes: int) returns (open: bool)
    ensures open == PeriodOpen(period, today, currentMinutes)
  {
    var fields := TrimAll(Split(period, ','));
    if |fields| < 3 || |fields[0]| == 0 || |fields[1]| == 0 || |fields[2]| == 0 {
      return false;
    }
    var day, openText, closeText := fields[0], fields[1], fields[2];
    if day != today {
      return false;
    }
    var openMins := ParseTime(openText);
    var closeMins := ParseTime(closeText);
    // every comparison with NaN is false, so a NaN time never opens the window
    if openMins.Some? && closeMins.Some? {
      if closeMins.value < openMins.value {
        if currentMinutes >= openMins.value || currentMinutes < closeMins.value {
          return true;
        }
      } else {
        if currentMinutes >= openMins.value && currentMinutes < closeMins.value {
          return true;
        }
      }
    }
    return false;
  }

  /**
   * Within one day, the window is the cyclic interval that starts at the open minute and lasts
   * (close - open) mod 1440 minutes; equal open and close times are never open.
   */
  lemma WindowIsCyclicInterval(openMins: int, closeMins: int, current: int)
    requires 0 <= openMins < 1440 && 0 <= closeMins < 1440 && 0 <= current < 1440
    ensures InWindow(openMins, closeMins, current) <==> (current - openMins) % 1440 < (closeMins - openMins) % 1440
    ensures openMins == closeMins ==> !InWindow(openMins, closeMins, current)
  {
    var len := (closeMins - openMins) % 1440;
    var pos := (current - openMins) % 1440;
    if closeMins >= openMins {
      assert len == closeMins - openMins;
    } else {
      assert len == closeMins - openMins + 1440;
    }
    if current >= openMins {
      assert pos == current - openMins;
    } else {
      assert pos == current - openMins + 1440;
    }
  }

  /** Digits and colons: text `StripMeridiem` passes through unchanged. */
  predicate IsClockText(s: string)
  {
    forall i :: 0 <= i < |s| ==> IsDigit(s[i]) || s[i] == ':'
  }

  lemma {:induction false} StripMeridiemAfterClockText(p: string, rest: string)
    requires IsClockText(p)
    ensures StripMeridiem(p + rest) == p + StripMeridiem(rest)
  {
    if p != [] {
      assert (p + rest)[1..] == p[1..] + rest;
      StripMeridiemAfterClockText(p[1..], rest);
      assert [p[0]] + p[1..] == p;
    } else {
      assert p + rest == rest;
    }
  }

  /** A prefix of clock text does not change a case-insensitive search for a pattern starting with a letter. */
  lemma {:induction false} SearchAfterClockText(p: string, rest: string, sub: string)
    requires IsClockText(p)
    requires sub != [] && IsLowerAsciiLetter(sub[0])
    ensures ContainsIgnoringCase(p + rest, sub) == ContainsIgnoringCase(rest, sub)
  {
    if p != [] {
      assert (p + rest)[1..] == p[1..] + rest;
      assert !StartsWithIgnoringCase(p + rest, sub) by { assert (p + rest)[0] == p[0]; }
      SearchAfterClockText(p[1..], rest, sub);
    } else {
      assert p + rest == rest;
    }
  }

  /**
   * Once the markers are removed, a token that reads `H` or `H:M`, with H and M free of colons and
   * M non-empty, parses to the corrected hour times 60 plus the minute.
   */
  lemma ParseTimeOfFields(t: string, hourText: string, minuteText: Option<string>, hour: int, minute: int)
    requires StripMeridiem(t) == if minuteText.Some? then hourText + [':'] + minuteText.value else hourText
    requires ':' !in hourText && ParseInt(hourText) == Some(hour)
    requires minuteText.Some? ==> ':' !in minuteText.value && |minuteText.value| > 0 && ParseInt(minuteText.value) == Some(minute)
    requires minuteText.None? ==> minute == 0
    ensures TimeOfDay(t) == Some(CorrectedHour(hour, HasPm(t), HasAm(t), HasP(t)) * 60 + minute)
  {
    if minuteText.Some? {
      SplitAfterPiece(hourText, minuteText.value, ':');
      SplitWithoutSeparator(minuteText.value, ':');
    } else {
      SplitWithoutSeparator(hourText, ':');
    }
  }

  /** A clock token before its marker: `H`, or `H:M`. */
  function ClockToken(hourText: string, minuteText: Option<string>): string
  {
    if minuteText.Some? then hourText + [':'] + minuteText.value else hourText
  }

  /** Non-empty runs of decimal digits, as the hour and minute of a clock token. */
  predicate DigitFields(hourText: string, minuteText: Option<string>)
  {
    && AllDigits(hourText) && hourText != []
    && (minuteText.Some? ==> AllDigits(minuteText.value) && minuteText.value != [])
  }

  /** The number a minute field denotes; a missing one is 0. */
  function MinuteValue(minuteText: Option<string>): nat
    requires minuteText.Some? ==> AllDigits(minuteText.value)
  {
    if minuteText.Some? then DecValue(minuteText.value) else 0
  }

  /** The fields of a digit token are colon-free clock text that parses to the numbers they denote. */
  lemma DigitFieldsParse(hourText: string, minuteText: Option<string>)
    requires DigitFields(hourText, minuteText)
    ensures IsClockText(ClockToken(hourText, minuteText))
    ensures ':' !in hourText && ParseInt(hourText) == Some(DecValue(hourText))
    ensures minuteText.Some? ==> ':' !in minuteText.value && ParseInt(minuteText.value) == Some(DecValue(minuteText.value))
  {
    ParseIntOfDigits(hourText);
    if minuteText.Some? {
      ParseIntOfDigits(minuteText.value);
    }
  }

  /** `am` or `pm` in any letter case. */
  predicate IsMarker(marker: string)
  {
    |marker| == 2 && (ToLowerChar(marker[0]) == 'a' || ToLowerChar(marker[0]) == 'p') && ToLowerChar(marker[1]) == 'm'
  }

  /** `pm` in any letter case. */
  predicate IsPmMarker(marker: string)
  {
    IsMarker(marker) && ToLowerChar(marker[0]) == 'p'
  }

  /** What `parseTime` detects in a marker alone. */
  lemma MarkerSearch(marker: string)
    requires IsMarker(marker)
    ensures StripMeridiem(marker) == []
    ensures ContainsIgnoringCase(marker, "pm") <==> IsPmMarker(marker)
    ensures ContainsIgnoringCase(marker, "am") <==> !IsPmMarker(marker)
  {
    assert marker[2..] == [];
    assert marker[1..][1..] == [];
    assert !StartsWithIgnoringCase(marker[1..], "pm") && !StartsWithIgnoringCase(marker[1..], "am");
    assert !ContainsIgnoringCase(marker[1..][1..], "pm") && !ContainsIgnoringCase(marker[1..][1..], "am");
    assert !ContainsIgnoringCase(marker[1..], "pm") && !ContainsIgnoringCase(marker[1..], "am");
    assert StartsWithIgnoringCase(marker[1..], "m") by {
      assert "m"[1..] == [];
    }
    assert "pm"[1..] == "m" && "am"[1..] == "m";
  }

  /** Clock text followed by a marker: the marker goes, and it alone decides the `am`/`pm` tests. */
  lemma MarkedClockText(text: string, marker: string)
    requires IsClockText(text)
    requires IsMarker(marker)
    ensures StripMeridiem(text + marker) == text
    ensures HasPm(text + marker) <==> IsPmMarker(marker)
    ensures HasAm(text + marker) <==> !IsPmMarker(marker)
  {
    MarkerSearch(marker);
    StripMeridiemAfterClockText(text, marker);
    assert text + [] == text;
    SearchAfterClockText(text, marker, "pm");
    SearchAfterClockText(text, marker, "am");
  }

  /**
   * Clock text `H` or `H:M` followed by a marker parses to the hour corrected by that marker
   * alone, times 60, plus the minute.
   */
  lemma MarkedToken(text: string, marker: string, hourText: string, minuteText: Option<string>, hour: int, minute: int)
    requires IsClockText(text)
    requires IsMarker(marker)
    requires text == if minuteText.Some? then hourText + [':'] + minuteText.value else hourText
    requires ':' !in hourText && ParseInt(hourText) == Some(hour)
    requires minuteText.Some? ==> ':' !in minuteText.value && |minuteText.value| > 0 && ParseInt(minuteText.value) == Some(minute)
    requires minuteText.None? ==> minute == 0
    ensures var pm := IsPmMarker(marker);
      TimeOfDay(text + marker) == Some(CorrectedHour(hour, pm, !pm, HasP(text + marker)) * 60 + minute)
  {
    MarkedClockText(text, marker);
    ParseTimeOfFields(text + marker, hourText, minuteText, hour, minute);
  }

  /**
   * A 12-hour clock token `H[:M]am` or `H[:M]pm` (either marker in any letter case, H from 1 to 12)
   * parses to the minute of the day it names: 12AM is midnight and 12PM is noon.
   */
  lemma TwelveHourClock(hourText: string, minuteText: Option<string>, marker: string, hour: nat, minute: nat)
    requires DigitFields(hourText, minuteText) && hour == DecValue(hourText) && minute == MinuteValue(minuteText)
    requires 1 <= hour <= 12
    requires IsMarker(marker)
    ensures TimeOfDay(ClockToken(hourText, minuteText) + marker)
      == Some(((hour % 12) + (if IsPmMarker(marker) then 12 else 0)) * 60 + minute)
  {
    var t := ClockToken(hourText, minuteText) + marker;
    DigitFieldsParse(hourText, minuteText);
    MarkedToken(ClockToken(hourText, minuteText), marker, hourText, minuteText, hour, minute);
    TwelveHourCorrection(hour, IsPmMarker(marker), HasP(t));
  }

  /** With exactly one of `am` and `pm` present, an hour from 1 to 12 is corrected to the 24-hour clock. */
  lemma TwelveHourCorrection(h: int, pm: bool, p: bool)
    requires 1 <= h <= 12
    ensures CorrectedHour(h, pm, !pm, p) == (h % 12) + (if pm then 12 else 0)
  {
  }

  /** Clock text alone: nothing to strip, and none of the letter tests holds. */
  lemma UnmarkedClockText(text: string)
    requires IsClockText(text)
    ensures StripMeridiem(text) == text
    ensures !HasPm(text) && !HasAm(text) && !HasP(text)
  {
    StripMeridiemAfterClockText(text, "");
    SearchAfterClockText(text, "", "pm");
    SearchAfterClockText(text, "", "am");
    SearchAfterClockText(text, "", "p");
    assert text + "" == text;
  }

  /** Clock text `H:M` without a marker parses to H * 60 + M, uncorrected. */
  lemma UnmarkedToken(text: string, hourText: string, minuteText: string, hour: int, minute: int)
    requires IsClockText(text) && text == hourText + [':'] + minuteText
    requires ':' !in hourText && ParseInt(hourText) == Some(hour)
    requires ':' !in minuteText && |minuteText| > 0 && ParseInt(minuteText) == Some(minute)
    ensures TimeOfDay(text) == Some(hour * 60 + minute)
  {
    UnmarkedClockText(text);
    ParseTimeOfFields(text, hourText, Some(minuteText), hour, minute);
  }

  /** A token `H:M` of digits and a colon, with no letter at all, parses to H * 60 + M. */
  lemma TwentyFourHourClock(hourText: string, minuteText: string, hour: nat, minute: nat)
    requires DigitFields(hourText, Some(minuteText)) && hour == DecValue(hourText) && minute == DecValue(minuteText)
    ensures TimeOfDay(ClockToken(hourText, Some(minuteText))) == Some(hour * 60 + minute)
  {
    DigitFieldsParse(hourText, Some(minuteText));
    UnmarkedToken(ClockToken(hourText, Some(minuteText)), hourText, minuteText, hour, minute);
  }

  /** `12AM` is midnight: an example from the source's own comment. */
  lemma ParseTimeMidnight()
    ensures TimeOfDay("12AM") == Some(0)
  {
    assert DecValue("12") == 12 by { assert "12"[..1] == "1" && "1"[..0] == []; }
    TwelveHourClock("12", None, "AM", 12, 0);
    assert ClockToken("12", None) + "AM" == "12AM";
  }

  /** `12PM` is noon. */
  lemma ParseTimeNoon()
    ensures TimeOfDay("12PM") == Some(720)
  {
    assert DecValue("12") == 12 by { assert "12"[..1] == "1" && "1"[..0] == []; }
    TwelveHourClock("12", None, "PM", 12, 0);
    assert ClockToken("12", None) + "PM" == "12PM";
  }

  /** `4PM` is minute 960. */
  lemma ParseTimeFourPm()
    ensures TimeOfDay("4PM") == Some(960)
  {
    assert DecValue("4") == 4;
    TwelveHourClock("4", None, "PM", 4, 0);
    assert ClockToken("4", None) + "PM" == "4PM";
  }

  /** `11:30pm` is minute 1410. */
  lemma ParseTimeHalfPastEleven()
    ensures TimeOfDay("11:30pm") == Some(1410)
  {
    assert DecValue("11") == 11 by { assert "11"[..1] == "1" && "1"[..0] == []; }
    assert DecValue("30") == 30 by { assert "30"[..1] == "3" && "3"[..0] == []; }
    TwelveHourClock("11", Some("30"), "pm", 11, 30);
    assert ClockToken("11", Some("30")) + "pm" == "11:30pm";
  }

  // ---------------------------------------------------------------- isOpenNow, period by period

  /**
   * Opening hours made of one `Day,Open,Close` period, each field trimmed and comma-free, are
   * open exactly when the day is today's full English name, both times parse and the window holds.
   */
  lemma SinglePeriod(day: string, open: string, close: string, now: Now)
    requires day != [] && open != [] && close != []
    requires ',' !in day && ',' !in open && ',' !in close && '|' !in day && '|' !in open && '|' !in close
    requires IsTrimmed(day) && IsTrimmed(open) && IsTrimmed(close)
    ensures OpenAt(Some(Join([day, open, close], ',')), now) <==>
      && day == DayNames[now.weekday]
      && TimeOfDay(open).Some? && TimeOfDay(close).Some?
      && InWindow(TimeOfDay(open).value, TimeOfDay(close).value, MinuteOfDay(now))
  {
    var period := Join([day, open, close], ',');
    PeriodFields(day, open, close);
    OnePeriod(period, now);
  }

  /** The trimmed comma fields of `Day,Open,Close` are the three fields themselves. */
  lemma PeriodFields(day: string, open: string, close: string)
    requires day != [] && open != [] && close != []
    requires ',' !in day && ',' !in open && ',' !in close && '|' !in day && '|' !in open && '|' !in close
    requires IsTrimmed(day) && IsTrimmed(open) && IsTrimmed(close)
    ensures var period := Join([day, open, close], ',');
      |period| > 0 && '|' !in period && TrimAll(Split(period, ',')) == [day, open, close]
  {
    var period := Join([day, open, close], ',');
    assert period == day + [','] + (open + [','] + close) by {
      assert [day, open, close][1..] == [open, close];
      assert [open, close][1..] == [close];
      assert Join([close], ',') == close;
      assert Join([open, close], ',') == open + [','] + close;
    }
    SplitJoin([day, open, close], ',');
    TrimSpec(day);
    TrimSpec(open);
    TrimSpec(close);
  }

  /** Hours without `|` hold a single period, open exactly when that period is. */
  lemma OnePeriod(period: string, now: Now)
    requires |period| > 0 && '|' !in period
    ensures OpenAt(Some(period), now) == PeriodOpen(period, DayNames[now.weekday], MinuteOfDay(now))
  {
    SplitWithoutSeparator(period, '|');
    var periods := Split(period, '|');
    assert periods[0] == period;
    if PeriodOpen(period, DayNames[now.weekday], MinuteOfDay(now)) {
      assert 0 <= 0 < |periods| && PeriodOpen(periods[0], DayNames[now.weekday], MinuteOfDay(now));
    }
  }

  /** A day field that is not a full English day name, such as `Mo` or `monday`, never opens a period. */
  lemma OnlyFullDayNames(period: string, now: Now)
    requires var fields := TrimAll(Split(period, ',')); |fields| >= 1 && fields[0] !in DayNames
    ensures !PeriodOpen(period, DayNames[now.weekday], MinuteOfDay(now))
  {
  }

  /**
   * A period is only ever open on the day it names: the window after midnight of a period that
   * closes past midnight is tested against that same day, not against the next one.
   */
  lemma OnlyOnItsOwnDay(period: string, now: Now)
    requires var fields := TrimAll(Split(period, ',')); |fields| >= 1 && fields[0] != DayNames[now.weekday]
    ensures !PeriodOpen(period, DayNames[now.weekday], MinuteOfDay(now))
  {
  }

  /** `18:00` is minute 1080. */
  lemma EveningTime()
    ensures TimeOfDay("18:00") == Some(1080)
  {
    assert DecValue("18") == 18 by { assert "18"[..1] == "1" && "1"[..0] == []; }
    assert DecValue("00") == 0 by { assert "00"[..1] == "0" && "0"[..0] == []; }
    TwentyFourHourClock("18", "00", 18, 0);
    assert ClockToken("18", Some("00")) == "18:00";
  }

  /** `02:00` is minute 120. */
  lemma NightTime()
    ensures TimeOfDay("02:00") == Some(120)
  {
    assert DecValue("02") == 2 by { assert "02"[..1] == "0" && "0"[..0] == []; }
    assert DecValue("00") == 0 by { assert "00"[..1] == "0" && "0"[..0] == []; }
    TwentyFourHourClock("02", "00", 2, 0);
    assert ClockToken("02", Some("00")) == "02:00";
  }

  lemma FridayEveningText()
    ensures "Friday,18:00,02:00" == Join(["Friday", "18:00", "02:00"], ',')
  {
    assert Join(["02:00"], ',') == "02:00";
    assert Join(["18:00", "02:00"], ',') == "18:00" + [','] + "02:00";
  }

  /** `Friday,18:00,02:00` is open at 00:30 on Friday, and closed at 01:00 on Saturday. */
  lemma WrappedWindowStaysOnItsDay()
    ensures OpenAt(Some("Friday,18:00,02:00"), Now(5, 0, 30))
    ensures !OpenAt(Some("Friday,18:00,02:00"), Now(6, 1, 0))
  {
    EveningTime();
    NightTime();
    FridayEveningText();
    assert IsTrimmed("Friday") && IsTrimmed("18:00") && IsTrimmed("02:00");
    SinglePeriod("Friday", "18:00", "02:00", Now(5, 0, 30));
    SinglePeriod("Friday", "18:00", "02:00", Now(6, 1, 0));
    assert DayNames[5] == "Friday" && DayNames[6] != "Friday";
  }

  /**
   * Periods joined with `|` are open exactly when one of them is; a period missing its day, open
   * or close field never is.
   */
  lemma AnyOfThePeriods(periods: seq<string>, now: Now)
    requires periods != []
    requires forall i :: 0 <= i < |periods| ==> '|' !in periods[i]
    ensures OpenAt(Some(Join(periods, '|')), now) <==>
      exists i :: 0 <= i < |periods| && PeriodOpen(periods[i], DayNames[now.weekday], MinuteOfDay(now))
    ensures forall i :: 0 <= i < |periods| && |TrimAll(Split(periods[i], ','))| < 3 ==>
      !PeriodOpen(periods[i], DayNames[now.weekday], MinuteOfDay(now))
  {
    SplitJoin(periods, '|');
    if Join(periods, '|') == [] {
      assert Split([], '|') == [""];
      assert periods == [""];
      assert TrimAll(Split("", ',')) == [""];
    }
  }
}
