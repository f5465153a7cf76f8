/**
 * The estimated video length shown to the user: a number of seconds split
 * into hours, minutes and seconds, and rendered in words such as
 * "1 hour, 5 minutes and 1 second".
 */
module Durations {
  import opened Decimal

  datatype Duration = Duration(hours: nat, minutes: nat, seconds: nat)

  function TotalSeconds(d: Duration): nat {
    3600 * d.hours + 60 * d.minutes + d.seconds
  }

  /** Minutes and seconds each below 60. */
  predicate Normalized(d: Duration) {
    d.minutes < 60 && d.seconds < 60
  }

  /**
   * `Duration(seconds)`: whole hours first, then whole minutes of what is
   * left, then the remaining seconds.
   */
  method NewDuration(totalSeconds: nat) returns (d: Duration)
    ensures TotalSeconds(d) == totalSeconds
    ensures Normalized(d)
  {
    var seconds := totalSeconds;
    var hours := seconds / 3600;
    seconds := seconds - 3600 * hours;
    var minutes := seconds / 60;
    seconds := seconds - 60 * minutes;
    d := Duration(hours, minutes, seconds);
  }

  /** There is only one normalized way to write a number of seconds. */
  lemma DecompositionUnique(d: Duration, e: Duration)
    requires Normalized(d) && Normalized(e)
    requires TotalSeconds(d) == TotalSeconds(e)
    ensures d == e
  {
    var t := TotalSeconds(d);
    assert 60 * d.minutes + d.seconds < 3600 && 60 * e.minutes + e.seconds < 3600;
    assert d.hours == t / 3600 == e.hours;
    assert d.minutes == (t - 3600 * d.hours) / 60 == e.minutes;
  }

  /** "N unit" when N is 1, "N units" otherwise. */
  function UnitPhrase(count: nat, unit: string): string {
    DecimalString(count) + " " + unit + (if count == 1 then "" else "s")
  }

  /** The phrases of the units that are not zero, largest unit first. */
  function NonZeroPhrases(d: Duration): seq<string> {
    (if d.hours > 0 then [UnitPhrase(d.hours, "hour")] else [])
    + (if d.minutes > 0 then [UnitPhrase(d.minutes, "minute")] else [])
    + (if d.seconds > 0 then [UnitPhrase(d.seconds, "second")] else [])
  }

  /** An English enumeration: "a", "a and b", "a, b and c", "a, b, c and d", ... */
  function EnglishList(items: seq<string>): string
    decreases |items|
  {
    if |items| == 0 then ""
    else if |items| == 1 then items[0]
    else if |items| == 2 then items[0] + " and " + items[1]
    else items[0] + ", " + EnglishList(items[1..])
  }

  /** How a duration reads: its non-zero units enumerated, or "0 seconds". */
  function Spoken(d: Duration): string {
    var parts := NonZeroPhrases(d);
    if parts == [] then "0 seconds" else EnglishList(parts)
  }

  /** `str(duration)`: collects the phrases one unit at a time, then joins them. */
  method Render(d: Duration) returns (text: string)
    ensures text == Spoken(d)
  {
    var resultList: seq<string> := [];
    if d.hours > 0 {
      if d.hours == 1 {
        resultList := resultList + ["1 hour"];
      } else {
        resultList := resultList + [DecimalString(d.hours) + " hours"];
      }
    }
    ghost var afterHours := resultList;
    assert afterHours == if d.hours > 0 then [UnitPhrase(d.hours, "hour")] else [] by {
      UnitPhraseForms(d.hours, "hour");
      if d.hours == 1 {
        assert "1 " + "hour" == "1 hour";
      } else {
        assert " " + "hour" + "s" == " hours";
        assert DecimalString(d.hours) + " " + "hour" + "s" == DecimalString(d.hours) + " hours";
      }
    }
    if d.minutes > 0 {
      if d.minutes == 1 {
        resultList := resultList + ["1 minute"];
      } else {
        resultList := resultList + [DecimalString(d.minutes) + " minutes"];
      }
    }
    ghost var afterMinutes := resultList;
    assert afterMinutes == afterHours + if d.minutes > 0 then [UnitPhrase(d.minutes, "minute")] else [] by {
      UnitPhraseForms(d.minutes, "minute");
      if d.minutes == 1 {
        assert "1 " + "minute" == "1 minute";
      } else {
        assert " " + "minute" + "s" == " minutes";
        assert DecimalString(d.minutes) + " " + "minute" + "s" == DecimalString(d.minutes) + " minutes";
      }
    }
    if d.seconds > 0 {
      if d.seconds == 1 {
        resultList := resultList + ["1 second"];
      } else {
        resultList := resultList + [DecimalString(d.seconds) + " seconds"];
      }
    }
    assert resultList == afterMinutes + if d.seconds > 0 then [UnitPhrase(d.seconds, "second")] else [] by {
      UnitPhraseForms(d.seconds, "second");
      if d.seconds == 1 {
        assert "1 " + "second" == "1 second";
      } else {
        assert " " + "second" + "s" == " seconds";
        assert DecimalString(d.seconds) + " " + "second" + "s" == DecimalString(d.seconds) + " seconds";
      }
    }
    SpokenByCount(d, resultList);
    if |resultList| == 3 {
      return resultList[0] + ", " + resultList[1] + " and " + resultList[2];
    }
    if |resultList| == 2 {
      return resultList[0] + " and " + resultList[1];
    }
    if |resultList| == 1 {
      return resultList[0];
    }
    return "0 seconds";
  }

  /** `Spoken` spelled out by the number of non-zero units, at most three. */
  lemma SpokenByCount(d: Duration, parts: seq<string>)
    requires parts == NonZeroPhrases(d)
    ensures |parts| <= 3
    ensures Spoken(d) ==
      if |parts| == 3 then parts[0] + ", " + parts[1] + " and " + parts[2]
      else if |parts| == 2 then parts[0] + " and " + parts[1]
      else if |parts| == 1 then parts[0]
      else "0 seconds"
  {
    EnglishListShortForms(parts);
  }

  /** The enumerations of one, two and three items. */
  lemma EnglishListShortForms(items: seq<string>)
    ensures |items| == 1 ==> EnglishList(items) == items[0]
    ensures |items| == 2 ==> EnglishList(items) == items[0] + " and " + items[1]
    ensures |items| == 3 ==> EnglishList(items) == items[0] + ", " + items[1] + " and " + items[2]
  {
    if |items| == 3 {
      assert EnglishList(items[1..]) == items[1] + " and " + items[2];
    }
  }

  /** The two spellings `str(duration)` uses for a unit. */
  lemma UnitPhraseForms(count: nat, unit: string)
    ensures count == 1 ==> UnitPhrase(count, unit) == "1 " + unit
    ensures count != 1 ==> UnitPhrase(count, unit) == DecimalString(count) + " " + unit + "s"
  {
    assert DecimalString(1) == "1";
  }

  /** An enumeration starts with the first character of its first item. */
  lemma {:induction false} EnglishListStart(items: seq<string>)
    requires 1 <= |items| && 1 <= |items[0]|
    ensures 1 <= |EnglishList(items)| && EnglishList(items)[0] == items[0][0]
  {
  }

  /**
   * The rendering is "0 seconds" exactly when every unit is zero: any other
   * rendering starts with the numeral of a non-zero unit, never with '0'.
   */
  lemma SpokenZeroIff(d: Duration)
    ensures Spoken(d) == "0 seconds" <==> d.hours == 0 && d.minutes == 0 && d.seconds == 0
  {
    var parts := NonZeroPhrases(d);
    if parts != [] {
      var first := if d.hours > 0 then d.hours else if d.minutes > 0 then d.minutes else d.seconds;
      assert first > 0 && parts[0][..|DecimalString(first)|] == DecimalString(first);
      EnglishListStart(parts);
      assert Spoken(d)[0] != '0';
    }
  }
}
