/** Business days and the delivery-date estimate (ColombiaAutomation in
    colombia-automation.js). A date is an integer day number: day 0 is
    1970-01-01, a Thursday. */
module Delivery {

  /** Day of the week, 0 = Sunday ... 6 = Saturday, as `Date.prototype.getDay`. */
  function Weekday(d: int): (w: int)
    ensures 0 <= w < 7
  {
    (d + 4) % 7
  }

  lemma WeekdayNext(d: int)
    ensures Weekday(d + 1) == if Weekday(d) == 6 then 0 else Weekday(d) + 1
  {
  }

  /** Day number of a proleptic Gregorian calendar date (the days-from-civil
      algorithm; `/` here is floor division, as the algorithm requires). */
  function DaysFromCivil(y: int, m: int, d: int): int
    requires 1 <= m <= 12 && 1 <= d <= 31
  {
    var y' := if m <= 2 then y - 1 else y;
    var era := y' / 400;
    var yoe := y' - era * 400;
    var mp := if m > 2 then m - 3 else m + 9;
    var doy := (153 * mp + 2) / 5 + d - 1;
    var doe := yoe * 365 + yoe / 4 - yoe / 100 + doy;
    era * 146097 + doe - 719468
  }

  lemma CalendarAnchors()
    ensures DaysFromCivil(1970, 1, 1) == 0
    ensures Weekday(DaysFromCivil(2024, 1, 1)) == 1
    ensures DaysFromCivil(2024, 3, 1) == DaysFromCivil(2024, 2, 28) + 2
  {
  }

  /** `holidays2024`, the Colombian public holidays of 2024, as day numbers;
      the three lemmas below tie each to its calendar date. */
  function Holidays2024(): seq<int>
  {
    [ 19723, 19730, 19807, 19810, 19811, 19844, 19856, 19877, 19884, 19898,
      19905, 19924, 19942, 19954, 20010, 20031, 20038, 20065, 20082 ]
  }

  /** 2024-01-01 to 2024-05-13. */
  lemma HolidaysJanuaryToMay()
    ensures Holidays2024()[..7] ==
      [ DaysFromCivil(2024, 1, 1), DaysFromCivil(2024, 1, 8), DaysFromCivil(2024, 3, 25),
        DaysFromCivil(2024, 3, 28), DaysFromCivil(2024, 3, 29), DaysFromCivil(2024, 5, 1),
        DaysFromCivil(2024, 5, 13) ]
  {
  }

  /** 2024-06-03 to 2024-08-19. */
  lemma HolidaysJuneToAugust()
    ensures Holidays2024()[7..14] ==
      [ DaysFromCivil(2024, 6, 3), DaysFromCivil(2024, 6, 10), DaysFromCivil(2024, 6, 24),
        DaysFromCivil(2024, 7, 1), DaysFromCivil(2024, 7, 20), DaysFromCivil(2024, 8, 7),
        DaysFromCivil(2024, 8, 19) ]
  {
  }

  /** 2024-10-14 to 2024-12-25. */
  lemma HolidaysOctoberToDecember()
    ensures Holidays2024()[14..] ==
      [ DaysFromCivil(2024, 10, 14), DaysFromCivil(2024, 11, 4), DaysFromCivil(2024, 11, 11),
        DaysFromCivil(2024, 12, 8), DaysFromCivil(2024, 12, 25) ]
  {
  }

  /** `isBusinessDay`: not a Saturday, not a Sunday, not a listed holiday. */
  predicate IsBusinessDay(d: int, holidays: seq<int>)
  {
    Weekday(d) != 0 && Weekday(d) != 6 && d !in holidays
  }

  /** Christmas 2024 falls on a Wednesday and is still not a business day;
      the following Thursday is. */
  lemma ChristmasIsNoBusinessDay()
    ensures Weekday(DaysFromCivil(2024, 12, 25)) == 3
    ensures !IsBusinessDay(DaysFromCivil(2024, 12, 25), Holidays2024())
    ensures IsBusinessDay(DaysFromCivil(2024, 12, 26), Holidays2024())
  {
    assert DaysFromCivil(2024, 12, 25) == 20082;
    assert DaysFromCivil(2024, 12, 26) == 20083;
  }

  /** Number of business days e with lo < e <= hi. */
  function CountBusinessDays(lo: int, hi: int, holidays: seq<int>): (n: nat)
    ensures n <= (if hi > lo then hi - lo else 0)
    decreases hi - lo
  {
    if hi <= lo then 0
    else CountBusinessDays(lo, hi - 1, holidays) + Indicator(hi, holidays)
  }

  /** Business days are counted additively over adjacent intervals. */
  lemma {:induction false} CountSplit(a: int, b: int, c: int, holidays: seq<int>)
    requires a <= b <= c
    ensures CountBusinessDays(a, c, holidays) == CountBusinessDays(a, b, holidays) + CountBusinessDays(b, c, holidays)
    decreases c - b
  {
    if c > b {
      CountSplit(a, b, c - 1, holidays);
    }
  }

  /** Any seven consecutive days without a holiday hold exactly five business days. */
  lemma WeekHasFiveBusinessDays(d: int, holidays: seq<int>)
    requires forall e :: d < e <= d + 7 ==> e !in holidays
    ensures CountBusinessDays(d, d + 7, holidays) == 5
  {
    var w := Weekday(d);
    var i1 := IndicatorShift(d, 1, holidays);
    var i2 := IndicatorShift(d, 2, holidays);
    var i3 := IndicatorShift(d, 3, holidays);
    var i4 := IndicatorShift(d, 4, holidays);
    var i5 := IndicatorShift(d, 5, holidays);
    var i6 := IndicatorShift(d, 6, holidays);
    var i7 := IndicatorShift(d, 7, holidays);
    SevenWeekdays(w);
    assert CountBusinessDays(d, d + 1, holidays) == i1;
    assert CountBusinessDays(d, d + 2, holidays) == i1 + i2;
    assert CountBusinessDays(d, d + 3, holidays) == i1 + i2 + i3;
    assert CountBusinessDays(d, d + 4, holidays) == i1 + i2 + i3 + i4;
    assert CountBusinessDays(d, d + 5, holidays) == i1 + i2 + i3 + i4 + i5;
    assert CountBusinessDays(d, d + 6, holidays) == i1 + i2 + i3 + i4 + i5 + i6;
  }

  /** 1 for a weekday from Monday to Friday, counting weekdays modulo 7. */
  function WorkdayIndicator(k: int): nat
  {
    if k % 7 == 0 || k % 7 == 6 then 0 else 1
  }

  /** A day that is no holiday counts exactly when its weekday is a workday. */
  lemma IndicatorShift(d: int, k: int, holidays: seq<int>) returns (i: nat)
    requires d + k !in holidays
    ensures i == Indicator(d + k, holidays) == WorkdayIndicator(Weekday(d) + k)
  {
    i := Indicator(d + k, holidays);
  }

  lemma SevenWeekdays(w: int)
    requires 0 <= w < 7
    ensures WorkdayIndicator(w + 1) + WorkdayIndicator(w + 2) + WorkdayIndicator(w + 3)
            + WorkdayIndicator(w + 4) + WorkdayIndicator(w + 5) + WorkdayIndicator(w + 6)
            + WorkdayIndicator(w + 7) == 5
  {
  }

  function Indicator(d: int, holidays: seq<int>): nat
  {
    if IsBusinessDay(d, holidays) then 1 else 0
  }

  /** A day after every holiday in the list. */
  function BoundAbove(holidays: seq<int>): (m: int)
    ensures forall k :: 0 <= k < |holidays| ==> holidays[k] < m
    decreases |holidays|
  {
    if |holidays| == 0 then 0
    else
      var m := BoundAbove(holidays[1..]);
      assert forall k :: 1 <= k < |holidays| ==> holidays[k] == holidays[1..][k - 1];
      if holidays[0] < m then m else holidays[0] + 1
  }

  /** How many days can still pass before the walk must reach a business day:
      before the last holiday this shrinks with every step; after it only a
      weekend can hold the walk back. */
  function Slack(d: int, bound: int): nat
  {
    if d < bound then bound - d + 3
    else if Weekday(d + 1) == 6 then 2
    else if Weekday(d + 1) == 0 then 1
    else 0
  }

  /** `calculateDeliveryDate(deliveryDays)`: step forward from `today` one day
      at a time, counting business days, until `target` (`deliveryDays.max`)
      of them have passed. The result is the day on which the count is reached,
      the only day after `today` that is a business day and completes the count. */
  method CalculateDeliveryDate(today: int, target: int, holidays: seq<int>) returns (d: int)
    ensures target <= 0 ==> d == today
    ensures target >= 1 ==> d > today && IsBusinessDay(d, holidays)
                            && CountBusinessDays(today, d, holidays) == target
    ensures forall e :: today <= e < d ==> CountBusinessDays(today, e, holidays) < target
  {
    ghost var bound := BoundAbove(holidays);
    d := today;
    var count := 0;
    while count < target
      invariant d >= today
      invariant count == CountBusinessDays(today, d, holidays)
      invariant target >= 1 && d > today ==> IsBusinessDay(d, holidays) || count < target
      invariant forall e :: today <= e < d ==> CountBusinessDays(today, e, holidays) < target
      decreases target - count, Slack(d, bound)
    {
      d := d + 1;
      if IsBusinessDay(d, holidays) {
        count := count + 1;
      } else {
        WeekdayNext(d);
        WeekdayNext(d + 1);
      }
    }
    if target >= 1 {
      assert d > today;
    }
  }

  /** The day the estimate is looking for is unique: two days that both
      complete the count with a business day are the same day. */
  lemma {:induction false} DeliveryDayUnique(today: int, target: int, holidays: seq<int>, d1: int, d2: int)
    requires target >= 1
    requires d1 > today && IsBusinessDay(d1, holidays) && CountBusinessDays(today, d1, holidays) == target
    requires d2 > today && IsBusinessDay(d2, holidays) && CountBusinessDays(today, d2, holidays) == target
    ensures d1 == d2
  {
    if d1 < d2 {
      CountSplit(today, d1, d2, holidays);
      CountSplit(d1, d2 - 1, d2, holidays);
    } else if d2 < d1 {
      CountSplit(today, d2, d1, holidays);
      CountSplit(d2, d1 - 1, d1, holidays);
    }
  }

  /** One business day from a Friday, with no holiday on the following Monday,
      is that Monday. */
  lemma OneDayFromFridayIsMonday(today: int, holidays: seq<int>)
    requires Weekday(today) == 5
    requires today + 3 !in holidays
    ensures IsBusinessDay(today + 3, holidays)
    ensures CountBusinessDays(today, today + 3, holidays) == 1
    ensures forall e :: today <= e < today + 3 ==> CountBusinessDays(today, e, holidays) < 1
  {
    assert Weekday(today + 1) == 6 && Weekday(today + 2) == 0 && Weekday(today + 3) == 1;
    assert CountBusinessDays(today, today + 1, holidays) == 0;
    assert CountBusinessDays(today, today + 2, holidays) == 0;
  }
}
