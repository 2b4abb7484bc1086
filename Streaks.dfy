/**
 * The backend's streak, week and rate calculator (backend/utils.py).
 *
 * `CalculateStreaks` runs the two loops of `calculate_streaks` over the dates sorted latest
 * first and is proved equal to `StreaksOf`, a functional statement of the same
 * computation. The lemmas then say what `StreaksOf` means: for dates without
 * repeats, the current streak is the run of consecutive days ending at the
 * latest date (only when that date is today or yesterday) and the longest
 * streak is the longest run of consecutive days; for any dates, the result
 * does not depend on their order.
 */
module Streaks {
  import opened Wrappers
  import opened Seqs
  import opened Dates
  import opened Rounding
  import opened Entities

  // ----- sorted(dates, reverse=True) -----

  predicate Descending(s: seq<int>) {
    forall i, j :: 0 <= i < j < |s| ==> s[i] >= s[j]
  }

  predicate StrictlyDescending(s: seq<int>) {
    forall i, j :: 0 <= i < j < |s| ==> s[i] > s[j]
  }

  function Insert(x: int, s: seq<int>): (r: seq<int>)
    requires Descending(s)
    ensures |r| == |s| + 1 && (r[0] == x || (s != [] && r[0] == s[0]))
    ensures Descending(r)
  {
    if s == [] || x >= s[0] then [x] + s
    else
      var rest := Insert(x, s[1..]);
      assert rest[0] <= s[0];
      assert forall j :: 0 <= j < |rest| ==> rest[j] <= rest[0];
      [s[0]] + rest
  }

  lemma {:induction false} InsertPermutes(x: int, s: seq<int>)
    requires Descending(s)
    ensures multiset(Insert(x, s)) == multiset(s) + multiset{x}
  {
    if s != [] && x < s[0] {
      InsertPermutes(x, s[1..]);
      assert s == [s[0]] + s[1..];
    }
  }

  /** The days, latest first. */
  function SortDescending(s: seq<int>): (r: seq<int>)
    ensures |r| == |s| && Descending(r)
  {
    if s == [] then [] else Insert(s[0], SortDescending(s[1..]))
  }

  /** Sorting only reorders: every day keeps its number of occurrences. */
  lemma {:induction false} SortPermutes(s: seq<int>)
    ensures multiset(SortDescending(s)) == multiset(s)
  {
    if s != [] {
      SortStep(s);
      SortPermutes(s[1..]);
      MultisetHeadTail(s);
    }
  }

  lemma SortStep(s: seq<int>)
    requires s != []
    ensures multiset(SortDescending(s)) == multiset(SortDescending(s[1..])) + multiset{s[0]}
  {
    InsertPermutes(s[0], SortDescending(s[1..]));
  }

  /** Sorting keeps exactly the days that were there. */
  lemma SortKeepsDays(s: seq<int>)
    ensures forall d :: d in SortDescending(s) <==> d in s
  {
    SortPermutes(s);
    forall d ensures d in SortDescending(s) <==> d in s {
      assert d in SortDescending(s) <==> d in multiset(SortDescending(s));
    }
  }

  lemma DescendingHeadIsMax(a: seq<int>)
    requires Descending(a) && a != []
    ensures forall x :: x in multiset(a) ==> x <= a[0]
  {
    forall x | x in multiset(a) ensures x <= a[0] {
      assert x in a;
    }
  }

  lemma DescendingSplit(a: seq<int>)
    requires Descending(a) && a != []
    ensures Descending(a[1..]) && multiset(a[1..]) == multiset(a) - multiset{a[0]}
  {
    assert a == [a[0]] + a[1..];
  }

  /** Two latest-first orderings of the same days are the same sequence. */
  lemma {:induction false} DescendingUnique(a: seq<int>, b: seq<int>)
    requires Descending(a) && Descending(b) && multiset(a) == multiset(b)
    ensures a == b
  {
    assert |a| == |multiset(a)| == |multiset(b)| == |b|;
    if a != [] {
      DescendingHeadIsMax(a);
      DescendingHeadIsMax(b);
      assert a[0] in multiset(a) && b[0] in multiset(b);
      assert a[0] == b[0];
      DescendingSplit(a);
      DescendingSplit(b);
      DescendingUnique(a[1..], b[1..]);
    }
  }

  /** The latest of a non-empty list of days. */
  function Latest(dates: seq<int>): (m: int)
    requires dates != []
    ensures m in dates && forall d :: d in dates ==> d <= m
  {
    if |dates| == 1 then dates[0]
    else
      assert dates == [dates[0]] + dates[1..];
      Max(dates[0], Latest(dates[1..]))
  }

  lemma SortedHeadIsLatest(dates: seq<int>)
    requires dates != []
    ensures SortDescending(dates)[0] == Latest(dates)
  {
    var s := SortDescending(dates);
    SortKeepsDays(dates);
    assert s[0] in dates;
    assert Latest(dates) in s;
  }

  lemma SortedWithoutRepeats(dates: seq<int>)
    requires NoDuplicates(dates)
    ensures StrictlyDescending(SortDescending(dates))
    ensures forall d :: d in SortDescending(dates) <==> d in dates
  {
    SortPermutes(dates);
    NoDuplicatesPermutation(dates, SortDescending(dates));
    SortKeepsDays(dates);
  }

  // ----- calculate_streaks -----

  /**
   * The current-streak loop (utils.py lines 22-33) resumed at position i of
   * the latest-first dates, having counted `count` days and now expecting the
   * day `expected`. A date one day before `expected` is stepped over without
   * being counted; any other mismatch ends the loop.
   */
  function CurrentScan(s: seq<int>, i: nat, count: nat, expected: int): (r: nat)
    requires i <= |s|
    ensures count <= r <= count + (|s| - i)
    decreases |s| - i
  {
    if i == |s| then count
    else if s[i] == expected then CurrentScan(s, i + 1, count + 1, expected - 1)
    else if expected == s[i] + 1 then CurrentScan(s, i + 1, count, s[i])
    else count
  }

  /**
   * The longest-streak loop (lines 36-48) resumed at position i, with the
   * length `run` of the run just before i and the best length `longest` seen;
   * the final `max` of line 46 is the exit value.
   */
  function LongestScan(s: seq<int>, i: nat, run: nat, longest: nat): (r: nat)
    requires 1 <= i <= |s| && 1 <= run <= i && longest <= i
    ensures longest <= r <= |s| && 1 <= r
    decreases |s| - i
  {
    if i == |s| then Max(longest, run)
    else if s[i - 1] - s[i] == 1 then LongestScan(s, i + 1, run + 1, Max(longest, run + 1))
    else LongestScan(s, i + 1, 1, longest)
  }

  /** The two streaks read off dates already sorted latest first. */
  function StreaksOfSorted(s: seq<int>, today: int): (r: (nat, nat))
    ensures r.0 <= r.1
    ensures s == [] ==> r == (0, 0)
    ensures s != [] ==> 1 <= r.1 <= |s|
  {
    if s == [] then (0, 0)
    else
      var current := if s[0] == today || s[0] == today - 1 then CurrentScan(s, 0, 0, s[0]) else 0;
      var longest := if |s| > 1 then LongestScan(s, 1, 1, 0) else 1;
      (current, Max(longest, current))
  }

  /** calculate_streaks(dates) evaluated on `today`: (current streak, longest streak). */
  function StreaksOf(dates: seq<int>, today: int): (r: (nat, nat))
    ensures r.0 <= r.1
    ensures dates == [] ==> r == (0, 0)
    ensures dates != [] ==> 1 <= r.1 <= |dates|
  {
    StreaksOfSorted(SortDescending(dates), today)
  }

  method CalculateStreaks(completionDates: seq<Day>, today: Day) returns (currentStreak: nat, longestStreak: nat)
    ensures (currentStreak, longestStreak) == StreaksOf(completionDates, today)
  {
    if |completionDates| == 0 {
      return 0, 0;
    }
    var dates := SortDescending(completionDates);

    currentStreak := 0;
    if dates[0] == today || dates[0] == today - 1 {
      var currentDate := dates[0];
      var i := 0;
      while i < |dates|
        invariant 0 <= i <= |dates|
        invariant CurrentScan(dates, i, currentStreak, currentDate) == CurrentScan(dates, 0, 0, dates[0])
      {
        if dates[i] == currentDate {
          currentStreak := currentStreak + 1;
          currentDate := currentDate - 1;
        } else if currentDate == dates[i] + 1 {
          currentDate := dates[i];
        } else {
          break;
        }
        i := i + 1;
      }
    }

    longestStreak := 0;
    var tempStreak := 1;
    if |dates| > 1 {
      var i := 1;
      while i < |dates|
        invariant 1 <= i <= |dates| && 1 <= tempStreak <= i && longestStreak <= i
        invariant LongestScan(dates, i, tempStreak, longestStreak) == LongestScan(dates, 1, 1, 0)
      {
        if dates[i - 1] - dates[i] == 1 {
          tempStreak := tempStreak + 1;
          longestStreak := Max(longestStreak, tempStreak);
        } else {
          tempStreak := 1;
        }
        i := i + 1;
      }
      longestStreak := Max(longestStreak, tempStreak);
    } else {
      longestStreak := 1;
    }
    longestStreak := Max(longestStreak, currentStreak);
  }

  // ----- what StreaksOf means -----

  /** The `len` days top, top-1, ..., top-len+1 are all among the dates. */
  predicate RunDownFrom(dates: seq<int>, top: int, len: nat) {
    forall d :: top - len < d <= top ==> d in dates
  }

  /** Sorting first makes the result independent of the order the dates come in. */
  lemma StreaksIgnoreOrder(a: seq<int>, b: seq<int>, today: int)
    requires multiset(a) == multiset(b)
    ensures StreaksOf(a, today) == StreaksOf(b, today)
  {
    SortPermutes(a);
    SortPermutes(b);
    DescendingUnique(SortDescending(a), SortDescending(b));
  }

  /** A streak is only current if the latest completion is today or yesterday. */
  lemma CurrentStreakNeedsRecentCompletion(dates: seq<int>, today: int)
    requires dates != [] && Latest(dates) != today && Latest(dates) != today - 1
    ensures StreaksOf(dates, today).0 == 0
  {
    SortedHeadIsLatest(dates);
  }

  lemma {:induction false} CurrentScanFrozen(s: seq<int>, i: nat, count: nat, expected: int)
    requires StrictlyDescending(s) && i <= |s|
    requires forall j :: i <= j < |s| ==> s[j] < expected
    ensures CurrentScan(s, i, count, expected) == count
    decreases |s| - i
  {
    if i < |s| && expected == s[i] + 1 {
      CurrentScanFrozen(s, i + 1, count, s[i]);
    }
  }

  lemma {:induction false} CurrentScanCountsRun(s: seq<int>, top: int, i: nat)
    requires StrictlyDescending(s) && i <= |s|
    requires forall p :: 0 <= p < i ==> s[p] == top - p
    requires i < |s| ==> s[i] <= top - i
    ensures RunDownFrom(s, top, CurrentScan(s, i, i, top - i))
    ensures top - CurrentScan(s, i, i, top - i) !in s
    decreases |s| - i
  {
    if i < |s| && s[i] == top - i {
      CurrentScanCountsRun(s, top, i + 1);
    } else {
      if i < |s| {
        CurrentScanFrozen(s, i, i, top - i);
      }
      forall d | top - i < d <= top ensures d in s {
        assert s[top - d] == d;
      }
      forall k | 0 <= k < |s| ensures s[k] != top - i {
        if k >= i { assert s[k] <= s[i]; }
      }
    }
  }

  /**
   * For dates without repeats whose latest is today or yesterday, the current
   * streak is the number of consecutive days latest, latest-1, ... that are
   * all present: each of them is there and the next one back is not.
   */
  lemma CurrentStreakIsLiveRun(dates: seq<int>, today: int)
    requires NoDuplicates(dates) && dates != []
    requires Latest(dates) == today || Latest(dates) == today - 1
    ensures RunDownFrom(dates, Latest(dates), StreaksOf(dates, today).0)
    ensures Latest(dates) - StreaksOf(dates, today).0 !in dates
  {
    var s := SortDescending(dates);
    SortedHeadIsLatest(dates);
    SortedWithoutRepeats(dates);
    SortedCurrentIsLiveRun(s, today);
    RunTransfer(s, dates, s[0], StreaksOfSorted(s, today).0);
  }

  lemma SortedCurrentIsLiveRun(s: seq<int>, today: int)
    requires StrictlyDescending(s) && s != [] && (s[0] == today || s[0] == today - 1)
    ensures RunDownFrom(s, s[0], StreaksOfSorted(s, today).0)
    ensures s[0] - StreaksOfSorted(s, today).0 !in s
  {
    CurrentScanCountsRun(s, s[0], 0);
  }

  /** A run among some days is a run among any days that include them. */
  lemma RunTransfer(a: seq<int>, b: seq<int>, top: int, n: nat)
    requires RunDownFrom(a, top, n) && forall d :: d in a ==> d in b
    ensures RunDownFrom(b, top, n)
  {
  }

  /** Length of the block of consecutive days that ends at position i of the latest-first dates. */
  function BlockAt(s: seq<int>, i: nat): (b: nat)
    requires i < |s|
    ensures 1 <= b <= i + 1
  {
    if i == 0 then 1
    else if s[i - 1] - s[i] == 1 then BlockAt(s, i - 1) + 1
    else 1
  }

  /** The longest block ending before position i. */
  function MaxBlock(s: seq<int>, i: nat): (m: nat)
    requires 1 <= i <= |s|
    ensures forall j :: 0 <= j < i ==> BlockAt(s, j) <= m
  {
    if i == 1 then BlockAt(s, 0) else Max(MaxBlock(s, i - 1), BlockAt(s, i - 1))
  }

  /** Some block reaches the longest length. */
  lemma {:induction false} MaxBlockAttained(s: seq<int>, i: nat) returns (j: nat)
    requires 1 <= i <= |s|
    ensures j < i && BlockAt(s, j) == MaxBlock(s, i)
  {
    if i == 1 {
      j := 0;
    } else {
      j := MaxBlockAttained(s, i - 1);
      if BlockAt(s, i - 1) > MaxBlock(s, i - 1) {
        j := i - 1;
      }
    }
  }

  lemma {:induction false} LongestScanIsMaxBlock(s: seq<int>, i: nat, run: nat, longest: nat)
    requires 1 <= i <= |s| && 1 <= run <= i && longest <= i
    requires run == BlockAt(s, i - 1) && Max(longest, run) == MaxBlock(s, i)
    requires run == 1 || longest >= run
    ensures LongestScan(s, i, run, longest) == MaxBlock(s, |s|)
    decreases |s| - i
  {
    if i < |s| {
      if s[i - 1] - s[i] == 1 {
        LongestScanIsMaxBlock(s, i + 1, run + 1, Max(longest, run + 1));
      } else {
        LongestScanIsMaxBlock(s, i + 1, 1, longest);
      }
    }
  }

  /** The block ending at i is a run of consecutive days. */
  lemma {:induction false} BlockIsRun(s: seq<int>, i: nat)
    requires i < |s|
    ensures forall p :: i - BlockAt(s, i) < p <= i ==> s[p] == s[i] + (i - p)
  {
    if i > 0 && s[i - 1] - s[i] == 1 {
      BlockIsRun(s, i - 1);
    }
  }

  /** In latest-first dates without repeats, a run starting at position a occupies the next positions. */
  lemma {:induction false} RunIsContiguous(s: seq<int>, a: nat, n: nat)
    requires StrictlyDescending(s) && a < |s| && 1 <= n
    requires RunDownFrom(s, s[a], n)
    ensures a + n - 1 < |s|
    ensures forall p :: a <= p < a + n ==> s[p] == s[a] - (p - a)
  {
    if n > 1 {
      RunIsContiguous(s, a, n - 1);
      var d := s[a] - (n - 1);
      assert d in s;
      var p :| 0 <= p < |s| && s[p] == d;
      assert forall q :: 0 <= q < |s| && q <= a + n - 2 ==> s[q] > d by {
        forall q | 0 <= q < |s| && q <= a + n - 2 ensures s[q] > d {
          if q < a { assert s[q] > s[a]; }
        }
      }
      assert p >= a + n - 1;
      assert s[a + n - 1] >= s[p];
      assert s[a + n - 2] == d + 1;
    }
  }

  lemma {:induction false} RunMakesBlock(s: seq<int>, a: nat, n: nat)
    requires 1 <= n && a + n - 1 < |s|
    requires forall p :: a <= p < a + n ==> s[p] == s[a] - (p - a)
    ensures BlockAt(s, a + n - 1) >= n
  {
    if n > 1 {
      RunMakesBlock(s, a, n - 1);
      assert s[a + n - 2] - s[a + n - 1] == 1;
    }
  }

  /** No run of consecutive days is longer than the longest block. */
  lemma RunAtMostMaxBlock(s: seq<int>, top: int, n: nat)
    requires StrictlyDescending(s) && s != [] && RunDownFrom(s, top, n)
    ensures n <= MaxBlock(s, |s|)
  {
    if n > 0 {
      assert top in s;
      var a :| 0 <= a < |s| && s[a] == top;
      RunIsContiguous(s, a, n);
      RunMakesBlock(s, a, n);
    }
  }

  /** The longest block is itself a run. */
  lemma MaxBlockIsRun(s: seq<int>) returns (top: int)
    requires s != []
    ensures top in s && RunDownFrom(s, top, MaxBlock(s, |s|))
  {
    var m := MaxBlock(s, |s|);
    var j := MaxBlockAttained(s, |s|);
    BlockIsRun(s, j);
    top := s[j] + m - 1;
    assert s[j - (m - 1)] == top;
    forall d | top - m < d <= top ensures d in s {
      assert s[j - (d - s[j])] == d;
    }
  }

  /** On sorted dates without repeats, the longest streak is the longest block. */
  lemma SortedLongestIsMaxBlock(s: seq<int>, today: int)
    requires StrictlyDescending(s) && s != []
    ensures StreaksOfSorted(s, today).1 == MaxBlock(s, |s|)
  {
    if |s| > 1 {
      LongestScanIsMaxBlock(s, 1, 1, 0);
    }
    if s[0] == today || s[0] == today - 1 {
      SortedCurrentIsLiveRun(s, today);
      RunAtMostMaxBlock(s, s[0], StreaksOfSorted(s, today).0);
    }
  }

  /**
   * For dates without repeats, the longest streak is the length of the
   * longest run of consecutive days: such a run is there, and none longer.
   */
  lemma LongestStreakIsLongestRun(dates: seq<int>, today: int)
    requires NoDuplicates(dates) && dates != []
    ensures exists top :: top in dates && RunDownFrom(dates, top, StreaksOf(dates, today).1)
    ensures forall top, n :: n > StreaksOf(dates, today).1 ==> !RunDownFrom(dates, top, n)
  {
    var s := SortDescending(dates);
    SortedWithoutRepeats(dates);
    SortedLongestIsMaxBlock(s, today);
    var m := MaxBlock(s, |s|);
    var top := MaxBlockIsRun(s);
    RunTransfer(s, dates, top, m);
    forall top', n | RunDownFrom(dates, top', n) ensures n <= m {
      RunTransfer(dates, s, top', n);
      RunAtMostMaxBlock(s, top', n);
    }
  }

  /** Backfilling a missing day never shortens the longest streak: every run of the old days is still a run. */
  lemma LongestGrowsOnBackfill(dates: seq<Day>, d: Day, today: int)
    requires NoDuplicates(dates) && d !in dates
    ensures StreaksOf(dates + [d], today).1 >= StreaksOf(dates, today).1
  {
    if dates != [] {
      var more := dates + [d];
      NoDuplicatesAppend(dates, d);
      LongestStreakIsLongestRun(dates, today);
      LongestStreakIsLongestRun(more, today);
      var top :| top in dates && RunDownFrom(dates, top, StreaksOf(dates, today).1);
      RunTransfer(dates, more, top, StreaksOf(dates, today).1);
    }
  }

  // ----- get_week_performance -----

  /** The completion lists of some habits, one per habit in order, as the week count reads them. */
  function DateLists<H>(hs: seq<H>, datesOf: H -> Option<seq<Day>>): (lists: seq<Option<seq<Day>>>)
    ensures |lists| == |hs|
    ensures forall k :: 0 <= k < |hs| ==> lists[k] == datesOf(hs[k])
  {
    if hs == [] then [] else DateLists(hs[..|hs| - 1], datesOf) + [datesOf(hs[|hs| - 1])]
  }

  /** How many habits list `date` among their completed dates; a habit without the list has none. */
  function HabitsCompletedOn(habits: seq<Option<seq<Day>>>, date: Day): (n: nat)
    ensures n <= |habits|
  {
    if habits == [] then 0
    else
      HabitsCompletedOn(habits[..|habits| - 1], date)
        + (if date in habits[|habits| - 1].GetOr([]) then 1 else 0)
  }

  /** The count is the number of positions whose habit has the date. */
  lemma {:induction false} HabitsCompletedOnCountsHabits(habits: seq<Option<seq<Day>>>, date: Day)
    ensures HabitsCompletedOn(habits, date) == |set k | 0 <= k < |habits| && date in habits[k].GetOr([])|
  {
    if habits != [] {
      var n := |habits| - 1;
      var init := habits[..n];
      HabitsCompletedOnCountsHabits(init, date);
      var before := set k | 0 <= k < n && date in init[k].GetOr([]);
      var after := set k | 0 <= k < |habits| && date in habits[k].GetOr([]);
      if date in habits[n].GetOr([]) {
        assert after == before + {n};
      } else {
        assert after == before;
      }
    }
  }

  /** get_week_performance with `today` supplied: the seven days up to today, oldest first. */
  method GetWeekPerformance(habitsData: seq<Option<seq<Day>>>, today: Day) returns (weekData: seq<WeekEntry>)
    requires today > 6
    ensures |weekData| == 7
    ensures forall k :: 0 <= k < 7 ==>
      weekData[k].date == today - 6 + k && weekData[k].completions == HabitsCompletedOn(habitsData, today - 6 + k)
  {
    weekData := [];
    var i := 6;
    while i >= 0
      invariant -1 <= i <= 6 && |weekData| == 6 - i
      invariant forall k :: 0 <= k < |weekData| ==>
        weekData[k].date == today - 6 + k && weekData[k].completions == HabitsCompletedOn(habitsData, today - 6 + k)
    {
      var date: Day := today - i;
      var completions := 0;
      var h := 0;
      while h < |habitsData|
        invariant 0 <= h <= |habitsData|
        invariant completions == HabitsCompletedOn(habitsData[..h], date)
      {
        assert habitsData[..h + 1][..h] == habitsData[..h];
        if date in habitsData[h].GetOr([]) {
          completions := completions + 1;
        }
        h := h + 1;
      }
      assert habitsData[..|habitsData|] == habitsData;
      weekData := weekData + [WeekEntry(date, completions)];
      i := i - 1;
    }
  }

  // ----- get_completion_rate -----

  /** Completed days as a percentage of the target, rounded to one decimal; 0 for a zero target. */
  function CompletionRate(completedDays: int, targetDays: int): (rate: real)
    ensures targetDays == 0 ==> rate == 0.0
    ensures targetDays != 0 ==>
      completedDays as real / targetDays as real * 100.0 - 0.05 <= rate <= completedDays as real / targetDays as real * 100.0 + 0.05
    ensures (rate * 10.0).Floor as real == rate * 10.0
  {
    if targetDays == 0 then 0.0
    else RoundTenths(completedDays as real / targetDays as real * 100.0)
  }

  /** The rate is not clamped: within the target it lies in 0..100, beyond it it is at least 100. */
  lemma CompletionRateRange(completedDays: int, targetDays: int)
    requires 0 <= completedDays && 0 < targetDays
    ensures 0.0 <= CompletionRate(completedDays, targetDays)
    ensures completedDays <= targetDays ==> CompletionRate(completedDays, targetDays) <= 100.0
    ensures completedDays >= targetDays ==> CompletionRate(completedDays, targetDays) >= 100.0
  {
    var q := completedDays as real / targetDays as real;
    RatioBounds(completedDays, targetDays);
    assert q * 100.0 * 10.0 == q * 1000.0;
  }

  // ----- group_completions_by_date -----

  /** The habit ids of the completions on `date`, in input order. */
  function HabitIdsOn(completions: seq<Completion>, date: Day): (ids: seq<HabitId>)
    ensures |ids| <= |completions|
  {
    if completions == [] then []
    else
      var init := completions[..|completions| - 1];
      var last := completions[|completions| - 1];
      HabitIdsOn(init, date) + (if last.completionDate == date then [last.habitId] else [])
  }

  lemma HabitIdsOnSnoc(completions: seq<Completion>, c: Completion, date: Day)
    ensures HabitIdsOn(completions + [c], date)
      == HabitIdsOn(completions, date) + (if c.completionDate == date then [c.habitId] else [])
  {
    assert (completions + [c])[..|completions|] == completions;
  }

  /** An id is listed for a date exactly when some completion of that habit falls on it. */
  lemma {:induction false} HabitIdsOnMembers(completions: seq<Completion>, date: Day)
    ensures forall id :: id in HabitIdsOn(completions, date) <==>
      exists c :: c in completions && c.completionDate == date && c.habitId == id
  {
    if completions != [] {
      var init := completions[..|completions| - 1];
      var last := completions[|completions| - 1];
      assert completions == init + [last];
      HabitIdsOnMembers(init, date);
      forall id ensures id in HabitIdsOn(completions, date) <==>
        exists c :: c in completions && c.completionDate == date && c.habitId == id
      {
        if id in HabitIdsOn(completions, date) && id !in HabitIdsOn(init, date) {
          assert last in completions;
        }
        if exists c :: c in completions && c.completionDate == date && c.habitId == id {
          var c :| c in completions && c.completionDate == date && c.habitId == id;
          if c != last {
            assert c in init;
          }
        }
      }
    }
  }

  /** Every date that has completions maps to their habit ids, in input order; no other date is a key. */
  method GroupCompletionsByDate(completions: seq<Completion>) returns (grouped: map<Day, seq<HabitId>>)
    ensures forall date :: date in grouped <==> HabitIdsOn(completions, date) != []
    ensures forall date :: date in grouped ==> grouped[date] == HabitIdsOn(completions, date)
  {
    grouped := map[];
    for i := 0 to |completions|
      invariant forall date :: date in grouped <==> HabitIdsOn(completions[..i], date) != []
      invariant forall date :: date in grouped ==> grouped[date] == HabitIdsOn(completions[..i], date)
    {
      var c := completions[i];
      assert completions[..i + 1] == completions[..i] + [c];
      forall date {
        HabitIdsOnSnoc(completions[..i], c, date);
      }
      var ids := if c.completionDate in grouped then grouped[c.completionDate] else [];
      grouped := grouped[c.completionDate := ids + [c.habitId]];
    }
    assert completions[..|completions|] == completions;
  }

  /** The sizes of the groups of the listed dates, added up. */
  function GroupSizes(completions: seq<Completion>, dates: seq<Day>): nat {
    if dates == [] then 0 else |HabitIdsOn(completions, dates[0])| + GroupSizes(completions, dates[1..])
  }

  lemma {:induction false} GroupSizesSnoc(completions: seq<Completion>, c: Completion, dates: seq<Day>)
    requires NoDuplicates(dates)
    ensures GroupSizes(completions + [c], dates)
      == GroupSizes(completions, dates) + (if c.completionDate in dates then 1 else 0)
  {
    if dates != [] {
      GroupSizesSnoc(completions, c, dates[1..]);
      HabitIdsOnSnoc(completions, c, dates[0]);
      assert c.completionDate in dates <==> c.completionDate == dates[0] || c.completionDate in dates[1..];
    }
  }

  /**
   * Whatever order the dates are listed in, the groups' sizes add up to the
   * number of completions: every completion lands in exactly one group.
   */
  lemma {:induction false} GroupSizesSumToCount(completions: seq<Completion>, dates: seq<Day>)
    requires NoDuplicates(dates)
    requires forall c :: c in completions ==> c.completionDate in dates
    ensures GroupSizes(completions, dates) == |completions|
  {
    if completions == [] {
      GroupSizesOfNothing(dates);
    } else {
      var init := completions[..|completions| - 1];
      var last := completions[|completions| - 1];
      assert completions == init + [last];
      GroupSizesSumToCount(init, dates);
      GroupSizesSnoc(init, last, dates);
    }
  }

  lemma {:induction false} GroupSizesOfNothing(dates: seq<Day>)
    ensures GroupSizes([], dates) == 0
  {
    if dates != [] {
      GroupSizesOfNothing(dates[1..]);
    }
  }
}
