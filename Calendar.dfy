/**
 * The calendar page of the frontend
 * (frontend/src/components/dashboard/CalendarView.js): the union of all
 * completion days, the habits done on one day, and each habit's share of the
 * days of the selected month.
 *
 * The page lists the habits the backend returned; a habit whose
 * `completed_dates` is missing counts as having none (`?.` and `|| []`).
 * Months are counted from 0, as JavaScript's `getMonth` does.
 */
module Calendar {
  import opened Wrappers
  import opened Seqs
  import opened Dates
  import opened Rounding
  import opened Entities
  import opened Streaks

  /** A listed habit as the page reads it. */
  datatype CalendarHabit = CalendarHabit(id: HabitId, completedDates: Option<seq<Day>>)

  /** The habit's days, none when the list is missing. */
  function DatesOf(h: CalendarHabit): seq<Day> {
    h.completedDates.GetOr([])
  }

  // ----- getAllCompletionDates -----

  /** Every habit's days, habit after habit, as the two `forEach` loops visit them. */
  function Visited(habits: seq<CalendarHabit>): (all: seq<Day>)
    ensures forall d :: d in all <==> exists h :: h in habits && d in DatesOf(h)
  {
    if habits == [] then []
    else
      var init := habits[..|habits| - 1];
      assert habits == init + [habits[|habits| - 1]];
      Visited(init) + DatesOf(habits[|habits| - 1])
  }

  /** A `Set` filled in that order, read back in insertion order: the first occurrence of each day. */
  function FirstOccurrences(s: seq<Day>): (r: seq<Day>)
    ensures forall d :: d in r <==> d in s
    ensures NoDuplicates(r)
  {
    if s == [] then []
    else
      var init := s[..|s| - 1];
      var last := s[|s| - 1];
      assert s == init + [last];
      var seen := FirstOccurrences(init);
      if last in seen then seen else seen + [last]
  }

  /** getAllCompletionDates: each day that some habit lists, exactly once, in first-seen order. */
  method GetAllCompletionDates(habits: seq<CalendarHabit>) returns (allDates: seq<Day>)
    ensures allDates == FirstOccurrences(Visited(habits))
    ensures NoDuplicates(allDates)
    ensures forall d :: d in allDates <==> exists h :: h in habits && d in DatesOf(h)
  {
    allDates := [];
    for i := 0 to |habits|
      invariant allDates == FirstOccurrences(Visited(habits[..i]))
    {
      var dates := DatesOf(habits[i]);
      ghost var before := Visited(habits[..i]);
      assert before + dates[..0] == before;
      for j := 0 to |dates|
        invariant allDates == FirstOccurrences(before + dates[..j])
      {
        var date := dates[j];
        FirstOccurrencesStep(before + dates[..j], date);
        PrefixStep(before, dates, j);
        if date !in allDates {
          allDates := allDates + [date];
        }
      }
      VisitedStep(habits, i);
      assert dates[..|dates|] == dates;
    }
    assert habits[..|habits|] == habits;
  }

  lemma FirstOccurrencesStep(s: seq<Day>, x: Day)
    ensures FirstOccurrences(s + [x]) == if x in FirstOccurrences(s) then FirstOccurrences(s) else FirstOccurrences(s) + [x]
  {
    assert (s + [x])[..|s|] == s;
  }

  lemma PrefixStep(before: seq<Day>, dates: seq<Day>, j: nat)
    requires j < |dates|
    ensures before + dates[..j + 1] == (before + dates[..j]) + [dates[j]]
  {
    assert dates[..j + 1] == dates[..j] + [dates[j]];
  }

  lemma VisitedStep(habits: seq<CalendarHabit>, i: nat)
    requires i < |habits|
    ensures Visited(habits[..i + 1]) == Visited(habits[..i]) + DatesOf(habits[i])
  {
    assert habits[..i + 1][..i] == habits[..i];
  }

  // ----- getHabitsForDate -----

  /** getHabitsForDate: the habits that list the day, in the order given. */
  function HabitsForDate(habits: seq<CalendarHabit>, date: Day): (r: seq<CalendarHabit>)
    ensures |r| <= |habits|
    ensures forall h :: h in r <==> h in habits && date in DatesOf(h)
  {
    if habits == [] then []
    else
      assert forall h :: h in habits ==> h == habits[0] || h in habits[1..];
      (if date in DatesOf(habits[0]) then [habits[0]] else []) + HabitsForDate(habits[1..], date)
  }

  /** Filtering keeps order: the habits for a day of two lists are those of the first, then those of the second. */
  lemma {:induction false} HabitsForDateAppend(a: seq<CalendarHabit>, b: seq<CalendarHabit>, date: Day)
    ensures HabitsForDate(a + b, date) == HabitsForDate(a, date) + HabitsForDate(b, date)
  {
    if a == [] {
      assert a + b == b;
    } else {
      assert (a + b)[1..] == a[1..] + b;
      HabitsForDateAppend(a[1..], b, date);
    }
  }

  /** The number of habits shown for a day is the week chart's count for that day. */
  lemma {:induction false} HabitsForDateCount(habits: seq<CalendarHabit>, date: Day)
    ensures |HabitsForDate(habits, date)| == HabitsCompletedOn(DateLists(habits, ListedDates), date)
  {
    if habits != [] {
      var init := habits[..|habits| - 1];
      var last := habits[|habits| - 1];
      assert habits == init + [last];
      assert DateLists(habits, ListedDates)[..|habits| - 1] == DateLists(init, ListedDates);
      HabitsForDateAppend(init, [last], date);
      HabitsForDateCount(init, date);
    }
  }

  /** A habit's list as the page received it, possibly missing. */
  function ListedDates(h: CalendarHabit): Option<seq<Day>> {
    h.completedDates
  }

  // ----- the monthly overview -----

  /** `new Date(date)` falls in the selected month (month counted from 0) and year. */
  predicate InMonth(d: Day, year: int, month: int) {
    FromOrdinal(d).year == year && FromOrdinal(d).month - 1 == month
  }

  /** The `filter` of the monthly overview: the habit's days in the selected month. */
  function MonthDates(dates: seq<Day>, year: int, month: int): (r: seq<Day>)
    ensures |r| <= |dates|
    ensures forall d :: d in r <==> d in dates && InMonth(d, year, month)
  {
    if dates == [] then []
    else
      var init := dates[..|dates| - 1];
      var last := dates[|dates| - 1];
      assert dates == init + [last];
      MonthDates(init, year, month) + (if InMonth(last, year, month) then [last] else [])
  }

  /** `monthCompletions`: how many of the habit's days fall in the selected month; 0 exactly when none does. */
  function MonthCompletions(h: CalendarHabit, year: int, month: int): (n: nat)
    ensures n <= |DatesOf(h)|
    ensures n == 0 <==> forall d :: d in DatesOf(h) ==> !InMonth(d, year, month)
  {
    var inside := MonthDates(DatesOf(h), year, month);
    assert inside != [] ==> inside[0] in inside;
    |inside|
  }

  /** Days of other months add nothing: the count depends only on the days inside the month. */
  lemma {:induction false} MonthCompletionsIgnoreOtherMonths(dates: seq<Day>, d: Day, year: int, month: int)
    requires !InMonth(d, year, month)
    ensures MonthDates(dates + [d], year, month) == MonthDates(dates, year, month)
    ensures MonthDates([d] + dates, year, month) == MonthDates(dates, year, month)
  {
    assert (dates + [d])[..|dates|] == dates;
    if dates != [] {
      var init := dates[..|dates| - 1];
      assert ([d] + dates)[..|dates|] == [d] + init;
      MonthCompletionsIgnoreOtherMonths(init, d, year, month);
    }
  }

  /** `new Date(year, month + 1, 0)` asks for day 0 of the next month; this is that month's first day. */
  function NextMonthFirst(year: int, month: int): (c: Civil)
    requires 1 <= year && 0 <= month < 12
    ensures ValidCivil(c) && c.day == 1
  {
    if month + 1 == 12 then Civil(year + 1, 1, 1) else Civil(year, month + 2, 1)
  }

  /**
   * `new Date(year, month + 1, 0).getDate()`: day 0 of the next month, which
   * JavaScript rolls back to the month's last day; so it is the Gregorian
   * length of the month.
   */
  function JsDaysInMonth(year: int, month: int): (n: int)
    requires 1 <= year && 0 <= month < 12
    ensures n == DaysInMonth(year, month + 1)
  {
    DayZeroIsLastDay(year, month);
    FromOrdinal(ToOrdinal(NextMonthFirst(year, month)) - 1).day
  }

  /** Day 0 of the next month is the last day of this one. */
  lemma DayZeroIsLastDay(year: int, month: int)
    requires 1 <= year && 0 <= month < 12
    ensures FromOrdinal(ToOrdinal(NextMonthFirst(year, month)) - 1) == Civil(year, month + 1, DaysInMonth(year, month + 1))
  {
    var last := Civil(year, month + 1, DaysInMonth(year, month + 1));
    var n := ToOrdinal(NextMonthFirst(year, month)) - 1;
    NextMonthStart(year, month);
    assert n == ToOrdinal(last);
    FromOrdinalToOrdinal(last);
  }

  /** The day before the first of the next month is the last day of this one. */
  lemma NextMonthStart(year: int, month: int)
    requires 1 <= year && 0 <= month < 12
    ensures ToOrdinal(NextMonthFirst(year, month)) - 1 == ToOrdinal(Civil(year, month + 1, DaysInMonth(year, month + 1)))
  {
    DaysBeforeMonthStep(year, month + 1);
    if month + 1 == 12 {
      DaysBeforeYearStep(year);
    }
  }

  /** The monthly rate: `Math.round(monthCompletions / daysInMonth * 100)`, the whole percentage nearest the share of the month's days. */
  function MonthRate(h: CalendarHabit, year: int, month: int): (r: JsNumber)
    requires 1 <= year && 0 <= month < 12
    ensures r.Finite? && r.value == r.value.Floor as real
    ensures var share := MonthCompletions(h, year, month) as real / DaysInMonth(year, month + 1) as real * 100.0;
      share - 0.5 < r.value <= share + 0.5
  {
    JsPercent(MonthCompletions(h, year, month), JsDaysInMonth(year, month))
  }

  /** The rate of distinct dates is a percentage in 0..100. */
  lemma MonthRateBounds(h: CalendarHabit, year: int, month: int)
    requires 1 <= year && 0 <= month < 12
    requires NoDuplicates(DatesOf(h))
    ensures MonthRate(h, year, month).Finite?
    ensures 0.0 <= MonthRate(h, year, month).value <= 100.0
  {
    MonthCountBound(DatesOf(h), year, month);
    JsPercentBounds(MonthCompletions(h, year, month), DaysInMonth(year, month + 1));
  }

  /** A month holds at most its length of distinct days. */
  lemma MonthCountBound(dates: seq<Day>, year: int, month: int)
    requires 1 <= year && 0 <= month < 12
    requires NoDuplicates(dates)
    ensures |MonthDates(dates, year, month)| <= DaysInMonth(year, month + 1)
  {
    var n := DaysInMonth(year, month + 1);
    var first := ToOrdinal(Civil(year, month + 1, 1));
    var inside := MonthDates(dates, year, month);
    MonthDatesNoDuplicates(dates, year, month);
    forall d | d in inside ensures first <= d < first + n {
      InMonthRange(d, year, month);
    }
    DistinctInInterval(inside, first, n);
  }

  /** The days of a month are the n days from its first. */
  lemma InMonthRange(d: Day, year: int, month: int)
    requires 1 <= year && 0 <= month < 12 && InMonth(d, year, month)
    ensures var first := ToOrdinal(Civil(year, month + 1, 1));
      first <= d < first + DaysInMonth(year, month + 1)
  {
    var c := FromOrdinal(d);
    assert ToOrdinal(c) == d;
  }

  lemma {:induction false} MonthDatesNoDuplicates(dates: seq<Day>, year: int, month: int)
    requires NoDuplicates(dates)
    ensures NoDuplicates(MonthDates(dates, year, month))
  {
    if dates != [] {
      var init := dates[..|dates| - 1];
      assert NoDuplicates(init) by {
        forall i, j | 0 <= i < j < |init| ensures init[i] != init[j] {
          assert init[i] == dates[i] && init[j] == dates[j];
        }
      }
      MonthDatesNoDuplicates(init, year, month);
      assert dates[|dates| - 1] !in init;
    }
  }

  /** Distinct days inside an interval of length n are at most n. */
  lemma DistinctInInterval(s: seq<Day>, lo: int, n: nat)
    requires NoDuplicates(s) && forall d :: d in s ==> lo <= d < lo + n
    ensures |s| <= n
  {
    var days := set d | d in s;
    SetInInterval(days, lo, n);
    DistinctCardinality(s);
  }

  /** A set of whole numbers inside an interval of length n has at most n elements. */
  lemma {:induction false} SetInInterval(s: set<Day>, lo: int, n: nat)
    requires forall d :: d in s ==> lo <= d < lo + n
    ensures |s| <= n
  {
    if n > 0 {
      var rest := s - {lo + n - 1};
      SetInInterval(rest, lo, n - 1);
    }
  }
}
