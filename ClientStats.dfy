/**
 * The statistics page of the frontend
 * (frontend/src/components/dashboard/StatsOverview.js): the figures it derives
 * from the mock habits, and each habit card's rate, days remaining and badge.
 *
 * The page reads the shared mock habits; here it is given their fields as
 * values. Its quotients are JavaScript numbers, so a zero divisor yields an
 * infinity or NaN rather than an error.
 */
module ClientStats {
  import opened Wrappers
  import opened Seqs
  import opened Dates
  import opened Rounding
  import opened Entities
  import opened Streaks

  /** The fields of a mock habit that the page reads. */
  datatype ShownHabit = ShownHabit(targetDays: int, currentStreak: int, longestStreak: int, completedDates: seq<Day>)

  /** The badge of a habit card. */
  datatype BadgeVariant = Default | Secondary | Outline

  // ----- HabitProgressCard -----

  /**
   * The card's completion rate: `Math.round(completed / target * 100)`. It is a
   * number exactly when the target is not zero, NaN for a zero target without
   * completions, and a percentage in 0..100 while the target is not yet passed.
   */
  function CardRate(h: ShownHabit): (r: JsNumber)
    ensures r.Finite? <==> h.targetDays != 0
    ensures r == NaN <==> h.targetDays == 0 && h.completedDates == []
    ensures 0 < h.targetDays && |h.completedDates| <= h.targetDays ==> r.Finite? && 0.0 <= r.value <= 100.0
  {
    if 0 < h.targetDays && |h.completedDates| <= h.targetDays then
      JsPercentBounds(|h.completedDates|, h.targetDays);
      JsPercent(|h.completedDates|, h.targetDays)
    else
      JsPercent(|h.completedDates|, h.targetDays)
  }

  /** `Math.max(0, target - completed)`: never negative, and 0 exactly when the target is reached. */
  function DaysRemaining(h: ShownHabit): (r: int)
    ensures r >= 0 && r >= h.targetDays - |h.completedDates|
    ensures r == 0 || r == h.targetDays - |h.completedDates|
    ensures r == 0 <==> |h.completedDates| >= h.targetDays
  {
    Max(0, h.targetDays - |h.completedDates|)
  }

  /** "default" from 80 up, "secondary" from 50 up, else "outline"; NaN compares false. */
  function Badge(rate: JsNumber): (b: BadgeVariant)
    ensures b == Default <==> JsAtLeast(rate, 80.0)
    ensures b == Outline <==> !JsAtLeast(rate, 50.0)
  {
    if JsAtLeast(rate, 80.0) then Default
    else if JsAtLeast(rate, 50.0) then Secondary
    else Outline
  }

  /** For a positive target the badge thresholds fall at 79.5% and 49.5% of the target, before rounding. */
  lemma BadgeThresholds(h: ShownHabit)
    requires h.targetDays > 0
    ensures Badge(CardRate(h)) == Default <==> 200 * |h.completedDates| >= 159 * h.targetDays
    ensures Badge(CardRate(h)) != Outline <==> 200 * |h.completedDates| >= 99 * h.targetDays
  {
    RoundedPercentAtLeast(|h.completedDates|, h.targetDays, 80);
    RoundedPercentAtLeast(|h.completedDates|, h.targetDays, 50);
  }

  /** With a zero target the rate is NaN without completions (outline) and Infinity with some (default). */
  lemma BadgeOfZeroTarget(h: ShownHabit)
    requires h.targetDays == 0
    ensures h.completedDates == [] ==> Badge(CardRate(h)) == Outline
    ensures h.completedDates != [] ==> Badge(CardRate(h)) == Default
  {
  }

  /** `Math.round(part / whole * 100) >= c` compares the unrounded value with c - 1/2. */
  lemma RoundedPercentAtLeast(part: int, whole: int, c: int)
    requires whole > 0
    ensures JsPercent(part, whole).Finite?
    ensures JsPercent(part, whole).value >= c as real <==> 200 * part >= (2 * c - 1) * whole
  {
    var x := part as real / whole as real * 100.0;
    assert x * whole as real == 100.0 * part as real;
    var r := JsRound(x);
    assert r >= c <==> x + 0.5 >= c as real;
    if x >= c as real - 0.5 {
      MultiplyMonotone(c as real - 0.5, x, whole as real);
    } else {
      MultiplyMonotone(x, c as real - 0.5, whole as real);
    }
  }

  lemma MultiplyMonotone(a: real, b: real, k: real)
    requires a <= b && k > 0.0
    ensures a * k <= b * k
    ensures a < b ==> a * k < b * k
  {
  }

  // ----- StatsOverview -----

  /** `reduce((sum, habit) => sum + habit.completedDates.length, 0)`: at least each habit's count, 0 for no habits. */
  function TotalCompletions(hs: seq<ShownHabit>): (total: nat)
    ensures forall h :: h in hs ==> |h.completedDates| <= total
    ensures hs == [] ==> total == 0
  {
    if hs == [] then 0
    else
      var init := hs[..|hs| - 1];
      assert hs == init + [hs[|hs| - 1]];
      TotalCompletions(init) + |hs[|hs| - 1].completedDates|
  }

  /** `reduce((sum, habit) => sum + habit.currentStreak, 0)`: with no negative counter, at least each habit's streak. */
  function TotalCurrentStreak(hs: seq<ShownHabit>): (total: int)
    ensures hs == [] ==> total == 0
    ensures (forall h :: h in hs ==> h.currentStreak >= 0) ==>
      total >= 0 && forall h :: h in hs ==> h.currentStreak <= total
  {
    if hs == [] then 0
    else
      var init := hs[..|hs| - 1];
      assert hs == init + [hs[|hs| - 1]];
      TotalCurrentStreak(init) + hs[|hs| - 1].currentStreak
  }

  /** `Math.max(...longest streaks)`: the largest one, and -Infinity for no habits. */
  function LongestStreak(hs: seq<ShownHabit>): (r: JsNumber)
    ensures hs == [] <==> r == NegInfinity
    ensures hs != [] ==> r.Finite?
    ensures r.Finite? ==> forall h :: h in hs ==> h.longestStreak as real <= r.value
    ensures r.Finite? ==> exists h :: h in hs && h.longestStreak as real == r.value
  {
    if hs == [] then NegInfinity
    else
      var init := hs[..|hs| - 1];
      var last := hs[|hs| - 1];
      assert hs == init + [last];
      match LongestStreak(init)
      case Finite(m) => Finite(if last.longestStreak as real >= m then last.longestStreak as real else m)
      case _ => Finite(last.longestStreak as real)
  }

  /** `reduce((sum, habit) => sum + habit.completedDates.length / habit.targetDays, 0)`: a number exactly when no target is zero. */
  function RatioSum(hs: seq<ShownHabit>): (r: JsNumber)
    ensures r.Finite? <==> forall h :: h in hs ==> h.targetDays != 0
  {
    if hs == [] then Finite(0.0)
    else
      var init := hs[..|hs| - 1];
      var last := hs[|hs| - 1];
      assert hs == init + [last];
      JsAdd(RatioSum(init), JsDivide(|last.completedDates| as real, last.targetDays as real))
  }

  /** `Math.round(RatioSum / totalHabits * 100)`: a whole number exactly when there are habits and no target is zero. */
  function AvgCompletionRate(hs: seq<ShownHabit>): (r: JsNumber)
    ensures r.Finite? <==> hs != [] && forall h :: h in hs ==> h.targetDays != 0
    ensures r.Finite? ==> r.value == r.value.Floor as real
    ensures r.Finite? ==>
      RatioSum(hs).Finite?
      && RatioSum(hs).value / |hs| as real * 100.0 - 0.5 < r.value <= RatioSum(hs).value / |hs| as real * 100.0 + 0.5
  {
    JsMathRound(JsScale(JsDivideBy(RatioSum(hs), |hs| as real), 100.0))
  }

  /** With no habits the average is 0 / 0, that is NaN. */
  lemma AvgCompletionRateOfNothing()
    ensures AvgCompletionRate([]) == NaN
  {
  }

  /** With positive targets the ratio sum is finite and, when no habit is past its target, at most one per habit. */
  lemma {:induction false} RatioSumBounds(hs: seq<ShownHabit>)
    requires forall h :: h in hs ==> h.targetDays > 0
    ensures RatioSum(hs).Finite? && 0.0 <= RatioSum(hs).value
    ensures (forall h :: h in hs ==> |h.completedDates| <= h.targetDays) ==> RatioSum(hs).value <= |hs| as real
  {
    if hs != [] {
      var init := hs[..|hs| - 1];
      var last := hs[|hs| - 1];
      assert forall h :: h in init ==> h in hs;
      RatioSumBounds(init);
      RatioBounds(|last.completedDates|, last.targetDays);
    }
  }

  /** With positive targets the average rate is a whole percentage, and at most 100 when no habit is past its target. */
  lemma AvgCompletionRateBounds(hs: seq<ShownHabit>)
    requires hs != [] && forall h :: h in hs ==> h.targetDays > 0
    ensures AvgCompletionRate(hs).Finite? && 0.0 <= AvgCompletionRate(hs).value
    ensures (forall h :: h in hs ==> |h.completedDates| <= h.targetDays) ==> AvgCompletionRate(hs).value <= 100.0
  {
    RatioSumBounds(hs);
    var s := RatioSum(hs).value;
    var n := |hs| as real;
    var mean := s / n;
    assert mean * n == s;
    if forall h :: h in hs ==> |h.completedDates| <= h.targetDays {
      if mean > 1.0 {
        MultiplyMonotone(1.0, mean, n);
      }
      assert mean <= 1.0;
      JsRoundMonotone(mean * 100.0, 100.0);
    }
    JsRoundMonotone(0.0, mean * 100.0);
  }

  /** One habit with a zero target makes the ratio sum, and so the average, not finite. */
  lemma {:induction false} ZeroTargetSpoilsAverage(hs: seq<ShownHabit>, k: nat)
    requires k < |hs| && hs[k].targetDays == 0
    ensures !RatioSum(hs).Finite?
    ensures !AvgCompletionRate(hs).Finite?
  {
    var init := hs[..|hs| - 1];
    if k < |hs| - 1 {
      assert init[k] == hs[k];
      ZeroTargetSpoilsAverage(init, k);
    }
  }

  /** `filter(habit => habit.completedDates.includes(date)).length`. */
  function CompletedOn(hs: seq<ShownHabit>, date: Day): (n: nat)
    ensures n <= |hs|
  {
    if hs == [] then 0
    else CompletedOn(hs[..|hs| - 1], date) + (if date in hs[|hs| - 1].completedDates then 1 else 0)
  }

  /** `filter(habit => habit.currentStreak > 0).length`. */
  function ActiveStreaks(hs: seq<ShownHabit>): (n: nat)
    ensures n <= |hs|
    ensures n == 0 <==> forall h :: h in hs ==> h.currentStreak <= 0
  {
    if hs == [] then 0
    else
      var init := hs[..|hs| - 1];
      assert hs == init + [hs[|hs| - 1]];
      ActiveStreaks(init) + (if hs[|hs| - 1].currentStreak > 0 then 1 else 0)
  }

  /** A habit listing a day has at least that completion, so today's count never exceeds the total. */
  lemma {:induction false} CompletedOnAtMostTotal(hs: seq<ShownHabit>, date: Day)
    ensures CompletedOn(hs, date) <= TotalCompletions(hs)
  {
    if hs != [] {
      CompletedOnAtMostTotal(hs[..|hs| - 1], date);
    }
  }

  /** With no negative counter, each active habit adds at least one to the total current streak. */
  lemma {:induction false} ActiveAtMostTotalStreak(hs: seq<ShownHabit>)
    requires forall h :: h in hs ==> h.currentStreak >= 0
    ensures ActiveStreaks(hs) <= TotalCurrentStreak(hs)
  {
    if hs != [] {
      var init := hs[..|hs| - 1];
      assert forall h :: h in init ==> h in hs;
      ActiveAtMostTotalStreak(init);
    }
  }

  /** The consistency score: `Math.round(activeStreaks / totalHabits * 100)`, in 0..100, NaN for no habits. */
  function ConsistencyScore(hs: seq<ShownHabit>): (r: JsNumber)
    ensures hs == [] ==> r == NaN
    ensures hs != [] ==> r.Finite? && 0.0 <= r.value <= 100.0
    ensures r.Finite? ==>
      r.value == r.value.Floor as real
      && ActiveStreaks(hs) as real / |hs| as real * 100.0 - 0.5 < r.value <= ActiveStreaks(hs) as real / |hs| as real * 100.0 + 0.5
  {
    if hs != [] then
      JsPercentBounds(ActiveStreaks(hs), |hs|);
      JsPercent(ActiveStreaks(hs), |hs|)
    else JsPercent(ActiveStreaks(hs), |hs|)
  }

  /** The `thisWeek` loop: seven days ending today, oldest first, each with how many habits list it. */
  method ThisWeek(hs: seq<ShownHabit>, today: Day) returns (thisWeek: seq<WeekEntry>)
    requires today > 6
    ensures |thisWeek| == 7
    ensures forall k :: 0 <= k < 7 ==>
      thisWeek[k].date == today - 6 + k && thisWeek[k].completions == CompletedOn(hs, today - 6 + k)
  {
    thisWeek := [];
    for i := 7 downto 0
      invariant |thisWeek| == 7 - i
      invariant forall k :: 0 <= k < 7 - i ==>
        thisWeek[k].date == today - 6 + k && thisWeek[k].completions == CompletedOn(hs, today - 6 + k)
    {
      var date := today - i;
      var dayCompletions := CompletedOn(hs, date);
      thisWeek := thisWeek + [WeekEntry(date, dayCompletions)];
    }
  }

  /** The page's daily count is the backend's `get_week_performance` count over the same completion lists. */
  lemma {:induction false} CompletedOnMatchesBackend(hs: seq<ShownHabit>, date: Day)
    ensures CompletedOn(hs, date) == HabitsCompletedOn(DateLists(hs, ShownDates), date)
  {
    if hs != [] {
      var init := hs[..|hs| - 1];
      assert DateLists(hs, ShownDates)[..|hs| - 1] == DateLists(init, ShownDates);
      CompletedOnMatchesBackend(init, date);
    }
  }

  /** A habit's dates, as the backend's week count takes them. */
  function ShownDates(h: ShownHabit): Option<seq<Day>> {
    Some(h.completedDates)
  }
}
