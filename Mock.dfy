/**
 * The frontend's mock data helpers (frontend/src/mock.js). Each mock habit is
 * a shared object: `mockToggleHabit` finds it by id and changes its
 * `completedDates`, `currentStreak` and `longestStreak` in place, adjusting the
 * two counters by one instead of recomputing them.
 *
 * Dates are day numbers (see Dates); mock.js compares `YYYY-MM-DD` strings,
 * which `Dates.Format` maps one-to-one onto days. `today` is a parameter.
 */
module Mock {
  import opened Wrappers
  import opened Seqs
  import opened Dates
  import opened Rounding
  import opened Streaks

  /** The mutable part of a mock habit, as a value. */
  datatype MockHabitState = MockHabitState(currentStreak: int, longestStreak: int, completedDates: seq<Day>)

  /** What one toggle does to a habit's state: remove today and step the current streak down, or add today and step it up. */
  function ToggleState(s: MockHabitState, today: Day): (r: MockHabitState)
    ensures today in s.completedDates ==>
      |r.completedDates| == |s.completedDates| - 1
      && multiset(r.completedDates) == multiset(s.completedDates) - multiset{today}
      && r.currentStreak == Max(0, s.currentStreak - 1) && r.longestStreak == s.longestStreak
    ensures today !in s.completedDates ==>
      |r.completedDates| == |s.completedDates| + 1
      && multiset(r.completedDates) == multiset(s.completedDates) + multiset{today}
      && r.currentStreak == s.currentStreak + 1 && r.longestStreak == Max(s.longestStreak, r.currentStreak)
    ensures r.longestStreak >= s.longestStreak
  {
    if today in s.completedDates then
      var index := IndexOf(s.completedDates, today).value;
      s.(completedDates := RemoveAt(s.completedDates, index), currentStreak := Max(0, s.currentStreak - 1))
    else
      var current := s.currentStreak + 1;
      s.(completedDates := s.completedDates + [today], currentStreak := current,
         longestStreak := if current > s.longestStreak then current else s.longestStreak)
  }

  class MockHabit {
    const id: string
    const targetDays: int
    var currentStreak: int
    var longestStreak: int
    var completedDates: seq<Day>

    function State(): MockHabitState
      reads this
    {
      MockHabitState(currentStreak, longestStreak, completedDates)
    }

    constructor(id: string, targetDays: int, state: MockHabitState)
      ensures this.id == id && this.targetDays == targetDays && State() == state
    {
      this.id := id;
      this.targetDays := targetDays;
      currentStreak := state.currentStreak;
      longestStreak := state.longestStreak;
      completedDates := state.completedDates;
    }

    /** The body of `if (habit) { ... }` in mockToggleHabit. */
    method Toggle(today: Day)
      modifies this
      ensures State() == ToggleState(old(State()), today)
    {
      var isCompleted := today in completedDates;
      if isCompleted {
        var index := IndexOf(completedDates, today).value;
        completedDates := RemoveAt(completedDates, index);
        currentStreak := Max(0, currentStreak - 1);
      } else {
        completedDates := completedDates + [today];
        currentStreak := currentStreak + 1;
        if currentStreak > longestStreak {
          longestStreak := currentStreak;
        }
      }
    }
  }

  /** `mockHabits.find(h => h.id === habitId)`: the position of the first habit with that id. */
  function FindHabit(habits: seq<MockHabit>, habitId: string): (r: Option<nat>)
    ensures r.Some? ==> r.value < |habits| && habits[r.value].id == habitId
    ensures r.Some? ==> forall k :: 0 <= k < r.value ==> habits[k].id != habitId
    ensures r.None? <==> forall h :: h in habits ==> h.id != habitId
  {
    if habits == [] then None
    else if habits[0].id == habitId then Some(0)
    else
      match FindHabit(habits[1..], habitId)
      case None =>
        assert forall h :: h in habits ==> h == habits[0] || h in habits[1..];
        None
      case Some(i) => Some(i + 1)
  }

  /** No two mock habits share an id. */
  predicate IdsUnique(habits: seq<MockHabit>) {
    forall i, j :: 0 <= i < j < |habits| ==> habits[i].id != habits[j].id
  }

  /** getTodayCompletion: whether the habit with that id lists today; false for an unknown id. */
  function GetTodayCompletion(habits: seq<MockHabit>, habitId: string, today: Day): (r: bool)
    reads habits
    ensures (forall h :: h in habits ==> h.id != habitId) ==> !r
    ensures r ==> exists h :: h in habits && h.id == habitId && today in h.completedDates
  {
    match FindHabit(habits, habitId)
    case None => false
    case Some(i) => today in habits[i].completedDates
  }

  /** With unique ids, getTodayCompletion answers exactly "some habit with this id lists today". */
  lemma GetTodayCompletionUniqueIds(habits: seq<MockHabit>, habitId: string, today: Day)
    requires IdsUnique(habits)
    ensures GetTodayCompletion(habits, habitId, today)
      <==> exists h :: h in habits && h.id == habitId && today in h.completedDates
  {
    if h :| h in habits && h.id == habitId && today in h.completedDates {
      var j :| 0 <= j < |habits| && habits[j] == h;
      var i := FindHabit(habits, habitId).value;
      assert i == j;
    }
  }

  /** getHabitProgress: 0 for an unknown id, else `Math.round(completed / target * 100)`, which is not finite for a zero target. */
  function GetHabitProgress(habits: seq<MockHabit>, habitId: string): (p: JsNumber)
    reads habits
    ensures (forall h :: h in habits ==> h.id != habitId) ==> p == Finite(0.0)
    ensures p != Finite(0.0) ==> exists h :: h in habits && h.id == habitId
    ensures FindHabit(habits, habitId).Some? ==>
      var h := habits[FindHabit(habits, habitId).value];
      (p.Finite? <==> h.targetDays != 0)
      && (p == NaN <==> h.targetDays == 0 && h.completedDates == [])
      && (p.Finite? ==>
            p.value == p.value.Floor as real
            && |h.completedDates| as real / h.targetDays as real * 100.0 - 0.5 < p.value
            && p.value <= |h.completedDates| as real / h.targetDays as real * 100.0 + 0.5)
  {
    match FindHabit(habits, habitId)
    case None => Finite(0.0)
    case Some(i) => JsPercent(|habits[i].completedDates|, habits[i].targetDays)
  }

  /** Progress of a habit within its target is a percentage in 0..100. */
  lemma GetHabitProgressBounds(habits: seq<MockHabit>, habitId: string)
    requires FindHabit(habits, habitId).Some?
    requires 0 < habits[FindHabit(habits, habitId).value].targetDays
    requires |habits[FindHabit(habits, habitId).value].completedDates| <= habits[FindHabit(habits, habitId).value].targetDays
    ensures GetHabitProgress(habits, habitId).Finite?
    ensures 0.0 <= GetHabitProgress(habits, habitId).value <= 100.0
  {
    var h := habits[FindHabit(habits, habitId).value];
    JsPercentBounds(|h.completedDates|, h.targetDays);
  }

  /** mockToggleHabit: toggles today on the first habit with that id and returns it; an unknown id changes nothing. */
  method MockToggleHabit(habits: seq<MockHabit>, habitId: string, today: Day) returns (r: Option<MockHabit>)
    modifies habits
    ensures FindHabit(habits, habitId).None? ==>
      r.None? && forall h :: h in habits ==> h.State() == old(h.State())
    ensures FindHabit(habits, habitId).Some? ==>
      var i := FindHabit(habits, habitId).value;
      r == Some(habits[i])
      && habits[i].State() == ToggleState(old(habits[i].State()), today)
      && forall h :: h in habits && h != habits[i] ==> h.State() == old(h.State())
    ensures FindHabit(habits, habitId).Some? && NoDuplicates(old(habits[FindHabit(habits, habitId).value].completedDates)) ==>
      GetTodayCompletion(habits, habitId, today) == !old(GetTodayCompletion(habits, habitId, today))
  {
    var found := FindHabit(habits, habitId);
    if found.None? {
      return None;
    }
    var habit := habits[found.value];
    if NoDuplicates(habit.completedDates) {
      ToggleFlipsToday(habit.State(), today);
    }
    habit.Toggle(today);
    r := Some(habit);
  }

  // ----- what one toggle does -----

  /** A toggle flips whether today is listed, by one splice or one push, and keeps the list free of repeats. */
  lemma ToggleFlipsToday(s: MockHabitState, today: Day)
    requires NoDuplicates(s.completedDates)
    ensures var r := ToggleState(s, today).completedDates;
      NoDuplicates(r)
      && (today in r <==> today !in s.completedDates)
      && (today in s.completedDates ==> |r| == |s.completedDates| - 1 && multiset(r) == multiset(s.completedDates) - multiset{today})
      && (today !in s.completedDates ==> |r| == |s.completedDates| + 1 && multiset(r) == multiset(s.completedDates) + multiset{today})
  {
    if today in s.completedDates {
      NoDuplicatesRemoveAt(s.completedDates, IndexOf(s.completedDates, today).value);
    } else {
      NoDuplicatesAppend(s.completedDates, today);
    }
  }

  /** The longest streak never goes down, the current streak never goes negative, and longest >= current is kept. */
  lemma ToggleCounters(s: MockHabitState, today: Day)
    requires s.currentStreak >= 0
    ensures ToggleState(s, today).longestStreak >= s.longestStreak
    ensures ToggleState(s, today).currentStreak >= 0
    ensures today !in s.completedDates ==> ToggleState(s, today).currentStreak == s.currentStreak + 1
    ensures today in s.completedDates ==> ToggleState(s, today).longestStreak == s.longestStreak
    ensures s.longestStreak >= s.currentStreak ==> ToggleState(s, today).longestStreak >= ToggleState(s, today).currentStreak
  {
  }

  /** Completing and then un-completing today restores the dates and the current streak (the longest streak may have grown). */
  lemma ToggleTwice(s: MockHabitState, today: Day)
    requires today !in s.completedDates && s.currentStreak >= 0
    ensures ToggleState(ToggleState(s, today), today).completedDates == s.completedDates
    ensures ToggleState(ToggleState(s, today), today).currentStreak == s.currentStreak
    ensures ToggleState(ToggleState(s, today), today).longestStreak == Max(s.longestStreak, s.currentStreak + 1)
  {
    var once := ToggleState(s, today);
    var index := IndexOf(once.completedDates, today).value;
    assert index == |s.completedDates|;
    assert once.completedDates[..index] == s.completedDates;
  }

  // ----- the mock's counters against the backend's recomputation -----

  /** The counters equal what the backend computes from the dates, which are distinct and none after today. */
  predicate Consistent(s: MockHabitState, today: Day) {
    NoDuplicates(s.completedDates) && (forall d :: d in s.completedDates ==> d <= today)
    && s.currentStreak == StreaksOf(s.completedDates, today).0
    && s.longestStreak == StreaksOf(s.completedDates, today).1
  }

  /** Completing today keeps the mock's counters in step with the backend. */
  lemma CompletingKeepsConsistent(s: MockHabitState, today: Day)
    requires Consistent(s, today) && today !in s.completedDates
    ensures Consistent(ToggleState(s, today), today)
  {
    NoDuplicatesAppend(s.completedDates, today);
    AddingTodayExtendsRun(s.completedDates, today);
  }

  /** Un-completing today keeps the mock's current streak in step with the backend. */
  lemma UncompletingKeepsCurrent(s: MockHabitState, today: Day)
    requires Consistent(s, today) && today in s.completedDates
    ensures ToggleState(s, today).currentStreak == StreaksOf(ToggleState(s, today).completedDates, today).0
  {
    var index := IndexOf(s.completedDates, today).value;
    var rest := RemoveAt(s.completedDates, index);
    NoDuplicatesRemoveAt(s.completedDates, index);
    RemoveAtSubset(s.completedDates, index);
    assert multiset(rest + [today]) == multiset(s.completedDates);
    StreaksIgnoreOrder(rest + [today], s.completedDates, today);
    AddingTodayExtendsRun(rest, today);
  }

  /** ...but not its longest streak: after un-completing, the mock still reports the longer run that no longer exists. */
  lemma UncompletingCanLeaveLongestStale()
    ensures var s := MockHabitState(2, 2, [9, 10]);
      Consistent(s, 10)
      && ToggleState(s, 10).longestStreak == 2
      && StreaksOf(ToggleState(s, 10).completedDates, 10).1 == 1
  {
    var s := MockHabitState(2, 2, [9, 10]);
    assert SortDescending([9, 10]) == [10, 9];
    assert CurrentScan([10, 9], 0, 0, 10) == 2 && LongestScan([10, 9], 1, 1, 0) == 2;
    assert StreaksOf([9, 10], 10) == (2, 2);
    assert IndexOf(s.completedDates, 10) == Some(1);
    assert RemoveAt([9, 10], 1) == [9];
    assert SortDescending([9]) == [9];
    assert CurrentScan([9], 0, 0, 9) == 1;
    assert StreaksOf([9], 10) == (1, 1);
  }

  /** Adding today to distinct dates none of which is after today lengthens the live run by one and the longest run to at least that. */
  lemma AddingTodayExtendsRun(dates: seq<Day>, today: Day)
    requires NoDuplicates(dates) && (forall d :: d in dates ==> d <= today) && today !in dates
    ensures StreaksOf(dates + [today], today).0 == StreaksOf(dates, today).0 + 1
    ensures StreaksOf(dates + [today], today).1 == Max(StreaksOf(dates, today).1, StreaksOf(dates, today).0 + 1)
  {
    var more := dates + [today];
    var c := StreaksOf(dates, today).0;
    var l := StreaksOf(dates, today).1;
    NoDuplicatesAppend(dates, today);
    assert today in more && forall d :: d in more ==> d <= today;
    assert Latest(more) == today;
    LiveRunBeforeToday(dates, today);
    assert RunDownFrom(more, today, c + 1);
    CurrentIsTheLiveRun(more, today, c + 1);
    var m := Max(l, c + 1);
    var top := today;
    if dates != [] && l >= c + 1 {
      LongestStreakIsLongestRun(dates, today);
      top :| top in dates && RunDownFrom(dates, top, l);
      RunTransfer(dates, more, top, l);
    }
    forall t, n | n > m ensures !RunDownFrom(more, t, n) {
      RunsAfterAddingToday(dates, today, t, n);
      if dates != [] {
        LongestStreakIsLongestRun(dates, today);
      }
    }
    LongestIsTheLongestRun(more, today, top, m);
  }

  /** Before today is added, the current streak is the run ending yesterday. */
  lemma LiveRunBeforeToday(dates: seq<Day>, today: Day)
    requires NoDuplicates(dates) && (forall d :: d in dates ==> d <= today) && today !in dates
    ensures RunDownFrom(dates, today - 1, StreaksOf(dates, today).0)
    ensures today - 1 - StreaksOf(dates, today).0 !in dates
  {
    if dates != [] {
      if Latest(dates) == today - 1 {
        CurrentStreakIsLiveRun(dates, today);
      } else {
        CurrentStreakNeedsRecentCompletion(dates, today);
      }
    }
  }

  /** A run in the extended dates either ends at today, and then continues the run ending yesterday, or lies in the old dates. */
  lemma RunsAfterAddingToday(dates: seq<Day>, today: Day, top: int, n: nat)
    requires (forall d :: d in dates ==> d <= today) && today !in dates
    ensures RunDownFrom(dates + [today], top, n) && 1 <= n ==> top <= today
    ensures RunDownFrom(dates + [today], top, n) && top < today && 1 <= n ==> top in dates
    ensures RunDownFrom(dates + [today], top, n) && top < today ==> RunDownFrom(dates, top, n)
    ensures RunDownFrom(dates + [today], top, n) && top == today && 1 <= n ==> RunDownFrom(dates, today - 1, n - 1)
  {
    var more := dates + [today];
    if RunDownFrom(more, top, n) {
      if 1 <= n {
        assert top in more;
      }
      if top < today {
        forall d | top - n < d <= top ensures d in dates {
          assert d in more;
        }
      }
      if top == today && 1 <= n {
        forall d | today - 1 - (n - 1) < d <= today - 1 ensures d in dates {
          assert d in more;
        }
      }
    }
  }

  /** The live run that ends at the latest day and stops at a missing day is the current streak. */
  lemma CurrentIsTheLiveRun(dates: seq<int>, today: int, n: nat)
    requires NoDuplicates(dates) && dates != []
    requires Latest(dates) == today || Latest(dates) == today - 1
    requires RunDownFrom(dates, Latest(dates), n) && Latest(dates) - n !in dates
    ensures StreaksOf(dates, today).0 == n
  {
    CurrentStreakIsLiveRun(dates, today);
  }

  /** A run of length m, with no longer run anywhere, is the longest streak. */
  lemma LongestIsTheLongestRun(dates: seq<int>, today: int, top: int, m: nat)
    requires NoDuplicates(dates) && dates != []
    requires RunDownFrom(dates, top, m)
    requires forall t, n :: n > m ==> !RunDownFrom(dates, t, n)
    ensures StreaksOf(dates, today).1 == m
  {
    LongestStreakIsLongestRun(dates, today);
    var t :| t in dates && RunDownFrom(dates, t, StreaksOf(dates, today).1);
  }
}
