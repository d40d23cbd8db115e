/** The date helpers of js/helpers.js:247-276. Dates are day numbers (days
    since 1970-01-01, a Thursday); "today" is a parameter. */
module Dates {
  import opened Records
  import opened Text

  /** `['sun', 'mon', 'tue', 'wed', 'thu', 'fri', 'sat']` */
  const Weekdays: seq<string> := ["sun", "mon", "tue", "wed", "thu", "fri", "sat"]

  /** `Date.prototype.getDay` of a day number: 0 for Sunday. */
  function DayOfWeek(day: int): (r: int)
    ensures 0 <= r < 7
  {
    (day + 4) % 7
  }

  /** `input.trim().toLowerCase()` */
  function Normalize(input: string): string
  {
    ToLower(Trim(input))
  }

  /** `weekdays.find(d => norm.startsWith(d))` from position `k` on, as the
      index of the weekday found, or -1. */
  function WeekdayFrom(norm: string, k: nat): (r: int)
    requires k <= 7
    ensures r == -1 || k <= r < 7
    ensures r == -1 <==> forall j :: k <= j < 7 ==> !StartsWith(norm, Weekdays[j])
    ensures r >= 0 ==> StartsWith(norm, Weekdays[r]) && forall j :: k <= j < r ==> !StartsWith(norm, Weekdays[j])
    decreases 7 - k
  {
    if k == 7 then -1
    else if StartsWith(norm, Weekdays[k]) then k
    else WeekdayFrom(norm, k + 1)
  }

  function WeekdayPrefix(norm: string): int
  {
    WeekdayFrom(norm, 0)
  }

  /** `parseNaturalDate`: "today" is today; a weekday name (or any text
      starting with its three letters) is the next such day, a week ahead
      when it is today's weekday; anything else is `None` (`null`). */
  function ParseNaturalDate(input: string, today: int): (r: Option<int>)
    ensures r.Some? ==> today <= r.value <= today + 7
  {
    ParseNormalized(Normalize(input), today)
  }

  /** The rules of `parseNaturalDate` on the normalised input. */
  function ParseNormalized(norm: string, today: int): (r: Option<int>)
    ensures r.Some? ==> today <= r.value <= today + 7
  {
    if norm == "today" then Some(today)
    else
      var k := WeekdayPrefix(norm);
      if k == -1 then None
      else Some(today + DaysAhead(k, today))
  }

  /** `delta = target - getDay(); if (delta <= 0) delta += 7` */
  function DaysAhead(k: int, today: int): int
  {
    var delta := k - DayOfWeek(today);
    if delta <= 0 then delta + 7 else delta
  }

  /** The weekday names are three letters each and differ, so at most one
      of them starts any text: the order `find` tries them in does not matter. */
  lemma WeekdayPrefixUnique(norm: string, k: int)
    requires 0 <= k < 7 && StartsWith(norm, Weekdays[k])
    ensures WeekdayPrefix(norm) == k
  {
    var r := WeekdayPrefix(norm);
    assert norm[..3] == Weekdays[r] && norm[..3] == Weekdays[k];
  }

  /** "today" starts with no weekday name. */
  lemma TodayIsNoWeekday()
    ensures WeekdayPrefix("today") == -1
  {
    assert "today"[..3] == "tod";
    assert forall j :: 0 <= j < 7 ==> !StartsWith("today", Weekdays[j]);
  }

  /** Moving ahead to weekday `k` takes 1 to 7 days and lands on `k`. */
  lemma DaysAheadLands(k: int, today: int)
    requires 0 <= k < 7
    ensures 1 <= DaysAhead(k, today) <= 7
    ensures DayOfWeek(today + DaysAhead(k, today)) == k
    ensures DayOfWeek(today) == k ==> DaysAhead(k, today) == 7
  {
    var ahead := DaysAhead(k, today);
    assert (today + ahead + 4) % 7 == ((today + 4) % 7 + ahead) % 7;
  }

  /** The result is today exactly for the input "today", in any case and
      with any surrounding white space. */
  lemma ParseTodayIff(input: string, today: int)
    ensures ParseNaturalDate(input, today) == Some(today) <==> Normalize(input) == "today"
  {
    var norm := Normalize(input);
    var k := WeekdayPrefix(norm);
    if norm != "today" && k != -1 {
      DaysAheadLands(k, today);
    }
  }

  /** For a weekday name the result is 1 to 7 days ahead and falls on that
      weekday; on the same weekday it is 7 days ahead, never today. */
  lemma ParseWeekday(input: string, today: int, k: int)
    requires 0 <= k < 7 && StartsWith(Normalize(input), Weekdays[k])
    ensures ParseNaturalDate(input, today) == Some(today + DaysAhead(k, today))
    ensures 1 <= DaysAhead(k, today) <= 7 && DayOfWeek(today + DaysAhead(k, today)) == k
    ensures DayOfWeek(today) == k ==> DaysAhead(k, today) == 7
  {
    ParseWeekdayNormalized(Normalize(input), today, k);
  }

  lemma ParseWeekdayNormalized(norm: string, today: int, k: int)
    requires 0 <= k < 7 && StartsWith(norm, Weekdays[k])
    ensures ParseNormalized(norm, today) == Some(today + DaysAhead(k, today))
    ensures 1 <= DaysAhead(k, today) <= 7 && DayOfWeek(today + DaysAhead(k, today)) == k
    ensures DayOfWeek(today) == k ==> DaysAhead(k, today) == 7
  {
    WeekdayPrefixUnique(norm, k);
    if norm == "today" {
      TodayIsNoWeekday();
    }
    DaysAheadLands(k, today);
  }

  /** Input matching no rule gives `None`, and only such input does. */
  lemma ParseNoneIff(input: string, today: int)
    ensures ParseNaturalDate(input, today).None? <==>
      Normalize(input) != "today" && forall k :: 0 <= k < 7 ==> !StartsWith(Normalize(input), Weekdays[k])
  {
  }

  /** The values `formatDaysUntil` receives: a falsy value, a date string
      `new Date` cannot parse, or a date (as a day number). */
  datatype DueDate = NoDate | Unparseable | OnDay(day: int)

  function Digit(d: nat): char
    requires d < 10
  {
    "0123456789"[d]
  }

  /** The decimal form of `n`, as a template literal writes it. */
  function NatToString(n: nat): (r: string)
    ensures |r| >= 1
    ensures forall i :: 0 <= i < |r| ==> '0' <= r[i] <= '9'
    decreases n
  {
    if n < 10 then [Digit(n)] else NatToString(n / 10) + [Digit(n % 10)]
  }

  function Plural(n: nat): string
  {
    if n == 1 then "" else "s"
  }

  /** `${n} day${n === 1 ? '' : 's'}` */
  function CountText(n: nat): string
  {
    NatToString(n) + (" day" + Plural(n))
  }

  /** `formatDaysUntil`: `''` for a falsy value, `'today'`, `in N day(s)` or
      `overdue by N day(s)`; an unparseable date reads "overdue by NaN days". */
  function FormatDaysUntil(due: DueDate, today: int): (r: string)
    ensures r == "" <==> due.NoDate?
    ensures r == "today" <==> due.OnDay? && due.day == today
  {
    match due
    case NoDate => ""
    case Unparseable => "overdue by NaN days"
    case OnDay(day) =>
      var n := day - today;
      if n == 0 then "today"
      else if n > 0 then "in " + CountText(n)
      else "overdue by " + CountText(-n)
  }

  predicate IsDigits(s: string)
  {
    |s| >= 1 && forall i :: 0 <= i < |s| ==> '0' <= s[i] <= '9'
  }

  function DigitsValue(s: string): nat
    requires IsDigits(s)
  {
    if |s| == 1 then (s[0] - '0') as nat
    else DigitsValue(s[..|s| - 1]) * 10 + (s[|s| - 1] - '0') as nat
  }

  lemma {:induction false} DigitsValueOfNat(n: nat)
    ensures IsDigits(NatToString(n)) && DigitsValue(NatToString(n)) == n
    decreases n
  {
    if n >= 10 {
      DigitsValueOfNat(n / 10);
      var s, init := NatToString(n), NatToString(n / 10);
      assert s == init + [Digit(n % 10)];
      assert s[..|s| - 1] == init && s[|s| - 1] == Digit(n % 10);
      DigitValue(n % 10);
    } else {
      DigitValue(n);
    }
  }

  lemma DigitValue(d: nat)
    requires d < 10
    ensures (Digit(d) - '0') as nat == d
  {
  }

  predicate EndsWith(s: string, p: string)
  {
    |p| <= |s| && s[|s| - |p|..] == p
  }

  /** The count before " day" or " days". */
  function ParseCount(s: string): Option<nat>
  {
    var body := if EndsWith(s, " days") then s[..|s| - 5]
                else if EndsWith(s, " day") then s[..|s| - 4]
                else "";
    if IsDigits(body) then Some(DigitsValue(body)) else None
  }

  /** Reads a label back as a signed day difference. */
  function ParseDaysLabel(s: string): Option<int>
  {
    if s == "today" then Some(0)
    else if StartsWith(s, "in ") then
      match ParseCount(s[3..])
      case Some(n) => Some(n as int)
      case None => None
    else if StartsWith(s, "overdue by ") then
      match ParseCount(s[11..])
      case Some(n) => Some(-(n as int))
      case None => None
    else None
  }

  lemma CountRoundTrip(n: nat)
    requires n >= 1
    ensures ParseCount(CountText(n)) == Some(n)
  {
    var d := NatToString(n);
    var w := " day" + Plural(n);
    var s := CountText(n);
    DigitsValueOfNat(n);
    PrefixSplit(d, w);
    if n == 1 {
      assert d == "1" && w == " day";
      assert s == "1 day";
    } else {
      assert w == " days";
    }
  }

  lemma ReadAhead(t: string)
    requires ParseCount(t).Some?
    ensures ParseDaysLabel("in " + t) == Some(ParseCount(t).value as int)
  {
    var s := "in " + t;
    PrefixSplit("in ", t);
    assert s != "today" by { assert s[0] == 'i'; }
  }

  lemma ReadOverdue(t: string)
    requires ParseCount(t).Some?
    ensures ParseDaysLabel("overdue by " + t) == Some(-(ParseCount(t).value as int))
  {
    var s := "overdue by " + t;
    PrefixSplit("overdue by ", t);
    assert s != "today" && !StartsWith(s, "in ") by { assert s[0] == 'o'; }
  }

  lemma PrefixSplit(p: string, t: string)
    ensures (p + t)[..|p|] == p && (p + t)[|p|..] == t
  {
  }

  /** The label of a date `n > 0` days ahead, and of one `n` days past. */
  lemma FormatOnDay(day: int, today: int)
    ensures day > today ==> FormatDaysUntil(OnDay(day), today) == "in " + CountText(day - today)
    ensures day < today ==> FormatDaysUntil(OnDay(day), today) == "overdue by " + CountText(today - day)
  {
  }

  /** Every label of a date reads back as that date's distance from today:
      distinct distances give distinct labels. */
  lemma LabelRoundTrip(day: int, today: int)
    ensures ParseDaysLabel(FormatDaysUntil(OnDay(day), today)) == Some(day - today)
  {
    var text := FormatDaysUntil(OnDay(day), today);
    FormatOnDay(day, today);
    if day > today {
      var n: nat := day - today;
      assert text == "in " + CountText(n);
      CountRoundTrip(n);
      ReadAhead(CountText(n));
      assert ParseDaysLabel(text) == Some(n as int);
    } else if day < today {
      var m: nat := today - day;
      assert text == "overdue by " + CountText(m);
      CountRoundTrip(m);
      ReadOverdue(CountText(m));
      assert ParseDaysLabel(text) == Some(-(m as int));
    } else {
      assert text == "today";
    }
  }

  /** "day" is singular exactly when the distance is one day either way. */
  lemma SingularIff(day: int, today: int)
    requires day != today
    ensures var s := FormatDaysUntil(OnDay(day), today);
      EndsWith(s, "day") <==> (day - today == 1 || today - day == 1)
  {
    var n := day - today;
    var s := FormatDaysUntil(OnDay(day), today);
    var m: nat := if n > 0 then n else -n;
    var lead := if n > 0 then "in " else "overdue by ";
    assert s == lead + CountText(m);
    if m == 1 {
      assert s[|s| - 3..] == "day";
    } else {
      assert s[|s| - 1] == 's';
    }
  }

  /** The labels of days near today. */
  lemma LabelExamples(today: int)
    ensures FormatDaysUntil(OnDay(today), today) == "today"
    ensures FormatDaysUntil(OnDay(today + 1), today) == "in 1 day"
    ensures FormatDaysUntil(OnDay(today + 3), today) == "in 3 days"
    ensures FormatDaysUntil(OnDay(today - 1), today) == "overdue by 1 day"
    ensures FormatDaysUntil(OnDay(today - 12), today) == "overdue by 12 days"
    ensures FormatDaysUntil(NoDate, today) == ""
  {
    FormatOnDay(today + 1, today);
    FormatOnDay(today + 3, today);
    FormatOnDay(today - 1, today);
    FormatOnDay(today - 12, today);
    assert CountText(1) == "1 day";
    assert CountText(3) == "3 days";
    assert CountText(12) == "12 days" by {
      assert NatToString(12) == "12";
    }
  }
}
