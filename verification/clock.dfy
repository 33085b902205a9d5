/**
 * Times of day as the dashboard stores them (`HH:MM` text) and shows them
 * (a 12-hour clock with AM/PM). Both the schedule and the calendar use the
 * same `formatTime`.
 */
module Clock {
  import opened Base
  import opened Strings

  /** `HH:MM` with both fields zero-padded to two digits. */
  function ClockText(h: nat, m: nat): string {
    Pad2(h) + ":" + Pad2(m)
  }

  /** `parseInt(time.split(':')[0])`: None stands for NaN. */
  function HourOf(time: string): Option<int> {
    ParseInt(FirstPiece(time, ':'))
  }

  lemma ClockTextPieces(h: nat, m: nat)
    requires h < 100 && m < 100
    ensures Split(ClockText(h, m), ':') == [Pad2(h), Pad2(m)]
  {
    var pieces := [Pad2(h), Pad2(m)];
    assert Join(pieces, ':') == ClockText(h, m) by {
      assert pieces[1..] == [Pad2(m)];
    }
    SplitJoin(pieces, ':');
  }

  /** The hour written into an `HH:MM` text is the hour read back from it. */
  lemma HourOfClockText(h: nat, m: nat)
    requires h < 100 && m < 100
    ensures HourOf(ClockText(h, m)) == Some(h as int)
  {
    ClockTextPieces(h, m);
    ParseIntOfDigits(Pad2(h), "");
    assert Pad2(h) + "" == Pad2(h);
  }

  /** The hour shown on a 12-hour clock: 13..23 lose 12, 0 shows as 12. */
  function DisplayHour(h: int): int {
    if h > 12 then h - 12 else if h == 0 then 12 else h
  }

  /**
   * On the hours of a day the 12-hour reading is in 1..12 and, with its
   * AM/PM marker, determines the hour: 12 AM is 0, 12 PM is 12.
   */
  lemma TwelveHourClock(h: int)
    requires 0 <= h < 24
    ensures 1 <= DisplayHour(h) <= 12
    ensures (if h >= 12 then DisplayHour(h) % 12 + 12 else DisplayHour(h) % 12) == h
  {
  }

  /**
   * `formatTime`: the 12-hour reading of the hour, the text after the first
   * ':' up to the next one copied as is ("undefined" when there is no ':'),
   * and AM or PM. An unreadable hour shows as "NaN" with AM.
   */
  function FormatTime(time: string): (r: string)
    ensures |r| >= 3 && (r[|r| - 3..] == " AM" || r[|r| - 3..] == " PM")
    ensures r[|r| - 3..] == " PM" <==> ParseInt(Split(time, ':')[0]).Some? && ParseInt(Split(time, ':')[0]).value >= 12
  {
    var pieces := Split(time, ':');
    var minutes := if |pieces| >= 2 then pieces[1] else "undefined";
    match ParseInt(pieces[0])
    case None => "NaN:" + minutes + " AM"
    case Some(h) => IntToString(DisplayHour(h)) + ":" + minutes + (if h >= 12 then " PM" else " AM")
  }

  /** A text without ':' , then ':', then another such text splits back into the two. */
  lemma SplitAtColon(hours: string, minutes: string)
    requires ':' !in hours && ':' !in minutes
    ensures Split(hours + ":" + minutes, ':') == [hours, minutes]
  {
    var pieces := [hours, minutes];
    assert Join(pieces, ':') == hours + ":" + minutes by {
      assert pieces[1..] == [minutes];
    }
    SplitJoin(pieces, ':');
  }

  /** A digit run, ':' and a minutes text is shown as the 12-hour reading of the digits with the minutes copied. */
  lemma FormatTimeOfDigits(hours: string, minutes: string)
    requires |hours| > 0 && AllDigits(hours) && ':' !in minutes
    ensures FormatTime(hours + ":" + minutes)
         == IntToString(DisplayHour(DigitsValue(hours))) + ":" + minutes
            + (if DigitsValue(hours) >= 12 then " PM" else " AM")
  {
    assert ':' !in hours by {
      forall i | 0 <= i < |hours| ensures hours[i] != ':' {
        assert IsDigit(hours[i]);
      }
    }
    SplitAtColon(hours, minutes);
    ParseIntOfDigits(hours, "");
    assert hours + "" == hours;
  }

  /** A whole hour written in decimal, then ':' and the minutes, is shown as its 12-hour reading. */
  lemma FormatTimeOfHour(h: nat, minutes: string)
    requires ':' !in minutes
    ensures FormatTime(IntToString(h) + ":" + minutes)
         == IntToString(DisplayHour(h)) + ":" + minutes + (if h >= 12 then " PM" else " AM")
  {
    FormatTimeOfDigits(NatToString(h), minutes);
  }

  /** An `HH:MM` time is shown as its 12-hour reading with the minutes unchanged. */
  lemma FormatTimeOfClockText(h: nat, m: nat)
    requires h < 24 && m < 60
    ensures FormatTime(ClockText(h, m))
         == IntToString(DisplayHour(h)) + ":" + Pad2(m) + (if h >= 12 then " PM" else " AM")
  {
    FormatTimeOfDigits(Pad2(h), Pad2(m));
  }
}
