/**
 * The backend's store rules (backend/server.py): the `habits` and
 * `habit_completions` collections held in memory by `HabitStore`, the
 * endpoints that change them, and the two read endpoints that derive
 * per-habit figures and the overview from them.
 *
 * The current user is a parameter of every operation; so are a new habit's
 * id and creation time, and `today`.
 */
module Store {
  import opened Wrappers
  import opened Seqs
  import opened Dates
  import opened Rounding
  import opened Entities
  import opened Streaks

  /** Why a request is refused: 404 "Habit not found", 400 "already completed", 404 "Completion not found". */
  datatype Error = HabitNotFound | AlreadyCompleted | CompletionNotFound

  // ----- lookups and filters (the Mongo queries) -----

  /** Some habit with this id belongs to this user. */
  predicate Owns(habits: seq<Habit>, habitId: HabitId, userId: UserId) {
    exists h :: h in habits && h.id == habitId && h.userId == userId
  }

  /** `find_one({"id": habitId, "user_id": userId})`: the position of the first such habit. */
  function FindOwned(habits: seq<Habit>, habitId: HabitId, userId: UserId): (r: Option<nat>)
    ensures r.Some? ==> r.value < |habits| && habits[r.value].id == habitId && habits[r.value].userId == userId
    ensures r.None? <==> !Owns(habits, habitId, userId)
  {
    if habits == [] then None
    else if habits[0].id == habitId && habits[0].userId == userId then Some(0)
    else
      match FindOwned(habits[1..], habitId, userId)
      case None =>
        assert forall h :: h in habits ==> h == habits[0] || h in habits[1..];
        None
      case Some(i) => Some(i + 1)
  }

  /** Habit ids are unique (they are fresh UUIDs). */
  predicate HabitIdsUnique(habits: seq<Habit>) {
    forall i, j :: 0 <= i < j < |habits| ==> habits[i].id != habits[j].id
  }

  /** `find({"user_id": userId})`: the user's habits in stored order. */
  function UserHabits(habits: seq<Habit>, userId: UserId): (r: seq<Habit>)
    ensures |r| <= |habits|
    ensures forall h :: h in r <==> h in habits && h.userId == userId
  {
    if habits == [] then []
    else
      assert forall h :: h in habits ==> h == habits[0] || h in habits[1..];
      (if habits[0].userId == userId then [habits[0]] else []) + UserHabits(habits[1..], userId)
  }

  /** `find({"user_id": userId})` on the completions. */
  function UserCompletions(completions: seq<Completion>, userId: UserId): (r: seq<Completion>)
    ensures |r| <= |completions|
    ensures forall c :: c in r <==> c in completions && c.userId == userId
  {
    if completions == [] then []
    else
      assert forall c :: c in completions ==> c == completions[0] || c in completions[1..];
      (if completions[0].userId == userId then [completions[0]] else []) + UserCompletions(completions[1..], userId)
  }

  /** The dates of the completions of one habit, in stored order. */
  function HabitDates(completions: seq<Completion>, habitId: HabitId): (dates: seq<Day>)
    ensures |dates| <= |completions|
    ensures forall d :: d in dates <==> exists c :: c in completions && c.habitId == habitId && c.completionDate == d
  {
    if completions == [] then []
    else
      var c0 := completions[0];
      assert forall c :: c in completions ==> c == c0 || c in completions[1..];
      (if c0.habitId == habitId then [c0.completionDate] else []) + HabitDates(completions[1..], habitId)
  }

  /** `delete_many({"habit_id": habitId})`: every completion of other habits, in order. */
  function WithoutHabit(completions: seq<Completion>, habitId: HabitId): (r: seq<Completion>)
    ensures forall c :: c in r <==> c in completions && c.habitId != habitId
  {
    if completions == [] then []
    else
      assert forall c :: c in completions ==> c == completions[0] || c in completions[1..];
      (if completions[0].habitId != habitId then [completions[0]] else []) + WithoutHabit(completions[1..], habitId)
  }

  lemma {:induction false} WithoutHabitNoDuplicates(completions: seq<Completion>, habitId: HabitId)
    requires NoDuplicates(completions)
    ensures NoDuplicates(WithoutHabit(completions, habitId))
  {
    if completions != [] {
      var tail := completions[1..];
      assert NoDuplicates(tail) by {
        forall i, j | 0 <= i < j < |tail| ensures tail[i] != tail[j] {
          assert tail[i] == completions[i + 1] && tail[j] == completions[j + 1];
        }
      }
      WithoutHabitNoDuplicates(tail, habitId);
      assert completions[0] !in tail;
    }
  }

  /** How many of the completions fall on `date`. */
  function CountOn(completions: seq<Completion>, date: Day): (n: nat)
    ensures n <= |completions|
    ensures n == 0 <==> forall c :: c in completions ==> c.completionDate != date
  {
    if completions == [] then 0
    else
      assert forall c :: c in completions ==> c == completions[0] || c in completions[1..];
      (if completions[0].completionDate == date then 1 else 0) + CountOn(completions[1..], date)
  }

  // ----- the store -----

  /** Every completion belongs to a habit of the same user. */
  predicate CompletionsOwned(habits: seq<Habit>, completions: seq<Completion>) {
    forall c :: c in completions ==> Owns(habits, c.habitId, c.userId)
  }

  /** The habit a create request produces. */
  function NewHabit(id: HabitId, userId: UserId, data: HabitCreate, createdAt: int): Habit {
    Habit(id, userId, data.name, data.description, data.color, data.icon, data.targetDays, createdAt)
  }

  /** An update request sets at least one field (`if update_data:`). */
  predicate HasChanges(u: HabitUpdate) {
    u.name.Some? || u.description.Some? || u.color.Some? || u.icon.Some? || u.targetDays.Some?
  }

  /** `$set` of the fields that are not None. */
  function ApplyUpdate(h: Habit, u: HabitUpdate): (r: Habit)
    ensures r.id == h.id && r.userId == h.userId && r.createdAt == h.createdAt
    ensures (u.name.Some? ==> r.name == u.name.value) && (u.name.None? ==> r.name == h.name)
    ensures (u.description.Some? ==> r.description == u.description.value) && (u.description.None? ==> r.description == h.description)
    ensures (u.color.Some? ==> r.color == u.color.value) && (u.color.None? ==> r.color == h.color)
    ensures (u.icon.Some? ==> r.icon == u.icon.value) && (u.icon.None? ==> r.icon == h.icon)
    ensures (u.targetDays.Some? ==> r.targetDays == u.targetDays.value) && (u.targetDays.None? ==> r.targetDays == h.targetDays)
  {
    h.(name := u.name.GetOr(h.name),
       description := u.description.GetOr(h.description),
       color := u.color.GetOr(h.color),
       icon := u.icon.GetOr(h.icon),
       targetDays := u.targetDays.GetOr(h.targetDays))
  }

  /** An update that sets nothing leaves the habit as it is, so skipping the write changes no result. */
  lemma ApplyUpdateNothing(h: Habit, u: HabitUpdate)
    requires !HasChanges(u)
    ensures ApplyUpdate(h, u) == h
  {
  }

  /** Sending the same update twice is the same as sending it once. */
  lemma ApplyUpdateIdempotent(h: Habit, u: HabitUpdate)
    ensures ApplyUpdate(ApplyUpdate(h, u), u) == ApplyUpdate(h, u)
  {
  }

  /** One habit with its figures, as `get_habits` and `update_habit` report it. */
  function HabitView(h: Habit, completions: seq<Completion>, userId: UserId, today: int): (v: HabitWithStats)
    ensures v.habit == h && v.completionCount == |v.completedDates|
    ensures forall d :: d in v.completedDates <==>
      exists c :: c in completions && c.habitId == h.id && c.userId == userId && c.completionDate == d
    ensures (v.currentStreak, v.longestStreak) == StreaksOf(v.completedDates, today)
    ensures v.currentStreak <= v.longestStreak
  {
    var dates := HabitDates(UserCompletions(completions, userId), h.id);
    var streaks := StreaksOf(dates, today);
    HabitWithStats(h, streaks.0, streaks.1, |dates|, dates)
  }

  /** The listed habits' views, one per habit in order. */
  function Views(habits: seq<Habit>, completions: seq<Completion>, userId: UserId, today: int): (vs: seq<HabitWithStats>)
    ensures |vs| == |habits|
    ensures forall k :: 0 <= k < |habits| ==> vs[k].habit == habits[k]
  {
    seq(|habits|, k requires 0 <= k < |habits| => HabitView(habits[k], completions, userId, today))
  }

  class HabitStore {
    var habits: seq<Habit>
    var completions: seq<Completion>

    ghost predicate Valid()
      reads this
    {
      HabitIdsUnique(habits) && NoDuplicates(completions) && CompletionsOwned(habits, completions)
    }

    constructor()
      ensures Valid() && habits == [] && completions == []
    {
      habits := [];
      completions := [];
    }

    /** create_habit: appends the new habit and reports it with empty figures. */
    method CreateHabit(userId: UserId, id: HabitId, data: HabitCreate, createdAt: int) returns (r: HabitWithStats)
      requires Valid() && forall h :: h in habits ==> h.id != id
      modifies this
      ensures Valid()
      ensures habits == old(habits) + [NewHabit(id, userId, data, createdAt)]
      ensures completions == old(completions)
      ensures r == HabitWithStats(NewHabit(id, userId, data, createdAt), 0, 0, 0, [])
    {
      var habit := NewHabit(id, userId, data, createdAt);
      forall c | c in completions ensures Owns(habits + [habit], c.habitId, c.userId) {
        var h :| h in habits && h.id == c.habitId && h.userId == c.userId;
        assert h in habits + [habit];
      }
      habits := habits + [habit];
      r := HabitWithStats(habit, 0, 0, 0, []);
    }

    /** The figures of one habit, computed as the endpoints do. */
    method ViewOf(h: Habit, userId: UserId, today: Day) returns (v: HabitWithStats)
      ensures v == HabitView(h, completions, userId, today)
    {
      var completedDates := HabitDates(UserCompletions(completions, userId), h.id);
      var currentStreak, longestStreak := CalculateStreaks(completedDates, today);
      v := HabitWithStats(h, currentStreak, longestStreak, |completedDates|, completedDates);
    }

    /** update_habit: 404 unless the user owns the habit; otherwise sets the given fields and reports the habit. */
    method UpdateHabit(userId: UserId, habitId: HabitId, update: HabitUpdate, today: Day)
      returns (r: Result<HabitWithStats, Error>)
      requires Valid()
      modifies this
      ensures Valid()
      ensures completions == old(completions)
      ensures FindOwned(old(habits), habitId, userId).None? ==>
        r == Failure(HabitNotFound) && habits == old(habits)
      ensures FindOwned(old(habits), habitId, userId).Some? ==>
        var i := FindOwned(old(habits), habitId, userId).value;
        habits == old(habits)[i := ApplyUpdate(old(habits)[i], update)]
        && r == Success(HabitView(habits[i], completions, userId, today))
    {
      var found := FindOwned(habits, habitId, userId);
      if found.None? {
        return Failure(HabitNotFound);
      }
      var i := found.value;
      if HasChanges(update) {
        habits := habits[i := ApplyUpdate(habits[i], update)];
      } else {
        ApplyUpdateNothing(habits[i], update);
      }
      KeysKept(old(habits), habits);
      var v := ViewOf(habits[i], userId, today);
      r := Success(v);
    }

    /** delete_habit: 404 unless the user owns the habit; otherwise removes it and all its completions. */
    method DeleteHabit(userId: UserId, habitId: HabitId) returns (r: Result<(), Error>)
      requires Valid()
      modifies this
      ensures Valid()
      ensures FindOwned(old(habits), habitId, userId).None? ==>
        r == Failure(HabitNotFound) && habits == old(habits) && completions == old(completions)
      ensures FindOwned(old(habits), habitId, userId).Some? ==>
        r == Success(()) && habits == RemoveAt(old(habits), FindOwned(old(habits), habitId, userId).value)
        && completions == WithoutHabit(old(completions), habitId)
    {
      var found := FindOwned(habits, habitId, userId);
      if found.None? {
        return Failure(HabitNotFound);
      }
      var i := found.value;
      var remaining := RemoveAt(habits, i);
      var kept := WithoutHabit(completions, habitId);
      RemoveAtKeepsUnique(habits, i);
      RemoveAtKeeps(habits, i);
      WithoutHabitNoDuplicates(completions, habitId);
      forall c | c in kept ensures Owns(remaining, c.habitId, c.userId) {
        var h :| h in habits && h.id == c.habitId && h.userId == c.userId;
        assert h != habits[i];
      }
      habits := remaining;
      completions := kept;
      r := Success(());
    }

    /** complete_habit: 404 unless the user owns the habit, 400 if that day is already recorded, else records it. */
    method CompleteHabit(userId: UserId, habitId: HabitId, date: Day) returns (r: Result<(), Error>)
      requires Valid()
      modifies this
      ensures Valid()
      ensures habits == old(habits)
      ensures !Owns(old(habits), habitId, userId) ==>
        r == Failure(HabitNotFound) && completions == old(completions)
      ensures Owns(old(habits), habitId, userId) && Completion(habitId, userId, date) in old(completions) ==>
        r == Failure(AlreadyCompleted) && completions == old(completions)
      ensures Owns(old(habits), habitId, userId) && Completion(habitId, userId, date) !in old(completions) ==>
        r == Success(()) && completions == old(completions) + [Completion(habitId, userId, date)]
    {
      var found := FindOwned(habits, habitId, userId);
      if found.None? {
        return Failure(HabitNotFound);
      }
      var completion := Completion(habitId, userId, date);
      if completion in completions {
        return Failure(AlreadyCompleted);
      }
      NoDuplicatesAppend(completions, completion);
      completions := completions + [completion];
      r := Success(());
    }

    /** uncomplete_habit: 404 unless the user owns the habit, 404 if the day is not recorded, else removes that record. */
    method UncompleteHabit(userId: UserId, habitId: HabitId, date: Day) returns (r: Result<(), Error>)
      requires Valid()
      modifies this
      ensures Valid()
      ensures habits == old(habits)
      ensures !Owns(old(habits), habitId, userId) ==>
        r == Failure(HabitNotFound) && completions == old(completions)
      ensures Owns(old(habits), habitId, userId) && Completion(habitId, userId, date) !in old(completions) ==>
        r == Failure(CompletionNotFound) && completions == old(completions)
      ensures Owns(old(habits), habitId, userId) && Completion(habitId, userId, date) in old(completions) ==>
        r == Success(())
        && completions == RemoveAt(old(completions), IndexOf(old(completions), Completion(habitId, userId, date)).value)
    {
      var found := FindOwned(habits, habitId, userId);
      if found.None? {
        return Failure(HabitNotFound);
      }
      var index := IndexOf(completions, Completion(habitId, userId, date));
      if index.None? {
        return Failure(CompletionNotFound);
      }
      NoDuplicatesRemoveAt(completions, index.value);
      RemoveAtSubset(completions, index.value);
      completions := RemoveAt(completions, index.value);
      r := Success(());
    }

    /** Recording a new day and then removing it leaves the store as it was. */
    method CompleteThenUncomplete(userId: UserId, habitId: HabitId, date: Day)
      requires Valid() && Owns(habits, habitId, userId) && Completion(habitId, userId, date) !in completions
      modifies this
      ensures habits == old(habits) && completions == old(completions)
    {
      var first := CompleteHabit(userId, habitId, date);
      assert first == Success(());
      CompleteUncompleteRestores(old(completions), Completion(habitId, userId, date));
      var second := UncompleteHabit(userId, habitId, date);
      assert second == Success(());
    }

    /** get_habits: the user's habits, each with its figures. */
    method GetHabits(userId: UserId, today: Day) returns (views: seq<HabitWithStats>)
      ensures views == Views(UserHabits(habits, userId), completions, userId, today)
    {
      var mine := UserHabits(habits, userId);
      views := [];
      for i := 0 to |mine|
        invariant |views| == i
        invariant forall k :: 0 <= k < i ==> views[k] == HabitView(mine[k], completions, userId, today)
      {
        var v := ViewOf(mine[i], userId, today);
        views := views + [v];
      }
      ViewsMatch(views, mine, completions, userId, today);
    }

    /** get_stats_overview: the per-habit figures folded into totals, a maximum, counts and a mean. */
    method GetStatsOverview(userId: UserId, today: Day) returns (s: StatsOverview)
      requires UserHabits(habits, userId) != [] ==> today > 6
      ensures
        var mine := UserHabits(habits, userId);
        var vs := Views(mine, completions, userId, today);
        var all := UserCompletions(completions, userId);
        (mine == [] ==> s == StatsOverview(0, 0, 0, 0, 0, 0, 0.0, []))
        && (mine != [] ==>
              s == StatsOverview(|mine|, CountActive(vs), SumCurrent(vs), MaxLongest(vs), |all|,
                                 CountOn(all, today), RoundTenths(SumRates(vs) / |mine| as real), WeekOf(vs, today)))
    {
      var mine := UserHabits(habits, userId);
      if |mine| == 0 {
        return StatsOverview(0, 0, 0, 0, 0, 0, 0.0, []);
      }
      var all := UserCompletions(completions, userId);
      var todayCompletions := CountOn(all, today);
      var totalCurrentStreak, longestStreakOverall, activeStreaks, totalCompletionRate, habitsData :=
        FoldViews(mine, userId, today);
      var avgCompletionRate := totalCompletionRate / |mine| as real;
      var thisWeekPerformance := GetWeekPerformance(habitsData, today);
      WeekOfMatches(thisWeekPerformance, Views(mine, completions, userId, today), today);
      s := StatsOverview(|mine|, activeStreaks, totalCurrentStreak, longestStreakOverall, |all|,
                         todayCompletions, RoundTenths(avgCompletionRate), thisWeekPerformance);
    }

    /** The loop of get_stats_overview: one pass over the habits, computing each one's figures. */
    method FoldViews(mine: seq<Habit>, userId: UserId, today: Day)
      returns (totalCurrentStreak: nat, longestStreakOverall: nat, activeStreaks: nat,
               totalCompletionRate: real, habitsData: seq<Option<seq<Day>>>)
      ensures
        var vs := Views(mine, completions, userId, today);
        totalCurrentStreak == SumCurrent(vs) && longestStreakOverall == MaxLongest(vs)
        && activeStreaks == CountActive(vs) && totalCompletionRate == SumRates(vs)
        && habitsData == DateLists(vs, ViewDates)
    {
      totalCurrentStreak, longestStreakOverall, activeStreaks := 0, 0, 0;
      totalCompletionRate := 0.0;
      habitsData := [];
      ghost var vs := Views(mine, completions, userId, today);
      for i := 0 to |mine|
        invariant totalCurrentStreak == SumCurrent(vs[..i])
        invariant longestStreakOverall == MaxLongest(vs[..i])
        invariant activeStreaks == CountActive(vs[..i])
        invariant totalCompletionRate == SumRates(vs[..i])
        invariant habitsData == DateLists(vs[..i], ViewDates)
      {
        FoldsStep(vs, i);
        var v := ViewOf(mine[i], userId, today);
        assert v == vs[i];
        totalCurrentStreak := totalCurrentStreak + v.currentStreak;
        longestStreakOverall := Max(longestStreakOverall, v.longestStreak);
        if v.currentStreak > 0 {
          activeStreaks := activeStreaks + 1;
        }
        var completionRate := CompletionRate(|v.completedDates|, v.habit.targetDays);
        totalCompletionRate := totalCompletionRate + completionRate;
        habitsData := habitsData + [Some(v.completedDates)];
      }
      assert vs[..|mine|] == vs;
    }
  }

  // ----- the overview's folds -----

  /** The total of the current streaks: at least each one, and 0 for no habits. */
  function SumCurrent(vs: seq<HabitWithStats>): (total: nat)
    ensures forall v :: v in vs ==> v.currentStreak <= total
    ensures vs == [] ==> total == 0
  {
    if vs == [] then 0
    else
      var init := vs[..|vs| - 1];
      assert vs == init + [vs[|vs| - 1]];
      SumCurrent(init) + vs[|vs| - 1].currentStreak
  }

  /** The largest longest streak, 0 for no habits. */
  function MaxLongest(vs: seq<HabitWithStats>): (m: nat)
    ensures forall v :: v in vs ==> v.longestStreak <= m
    ensures vs == [] ==> m == 0
    ensures vs != [] ==> exists v :: v in vs && v.longestStreak == m
  {
    if vs == [] then 0
    else
      var init := vs[..|vs| - 1];
      assert vs == init + [vs[|vs| - 1]];
      Max(MaxLongest(init), vs[|vs| - 1].longestStreak)
  }

  /** How many habits have a current streak. */
  function CountActive(vs: seq<HabitWithStats>): (n: nat)
    ensures n <= |vs|
    ensures n == 0 <==> forall v :: v in vs ==> v.currentStreak == 0
  {
    if vs == [] then 0
    else
      var init := vs[..|vs| - 1];
      assert vs == init + [vs[|vs| - 1]];
      CountActive(init) + (if vs[|vs| - 1].currentStreak > 0 then 1 else 0)
  }

  /**
   * The total of the completion rates. With targets that are not negative it is
   * not negative, and when no habit is past a positive target it is at most 100
   * per habit, so the mean is a percentage.
   */
  function SumRates(vs: seq<HabitWithStats>): (total: real)
    ensures (forall v :: v in vs ==> v.habit.targetDays >= 0) ==> total >= 0.0
    ensures (forall v :: v in vs ==> 0 < v.habit.targetDays && |v.completedDates| <= v.habit.targetDays)
      ==> total <= 100.0 * |vs| as real
  {
    if vs == [] then 0.0
    else
      var init := vs[..|vs| - 1];
      var last := vs[|vs| - 1];
      assert vs == init + [last];
      var rate := CompletionRate(|last.completedDates|, last.habit.targetDays);
      assert last.habit.targetDays > 0 ==> 0.0 <= rate && (|last.completedDates| <= last.habit.targetDays ==> rate <= 100.0) by {
        if last.habit.targetDays > 0 {
          CompletionRateRange(|last.completedDates|, last.habit.targetDays);
        }
      }
      SumRates(init) + rate
  }

  /** A view's completion days, as the week count reads them. */
  function ViewDates(v: HabitWithStats): Option<seq<Day>> {
    Some(v.completedDates)
  }

  lemma FoldsStep(vs: seq<HabitWithStats>, i: nat)
    requires i < |vs|
    ensures SumCurrent(vs[..i + 1]) == SumCurrent(vs[..i]) + vs[i].currentStreak
    ensures MaxLongest(vs[..i + 1]) == Max(MaxLongest(vs[..i]), vs[i].longestStreak)
    ensures CountActive(vs[..i + 1]) == CountActive(vs[..i]) + (if vs[i].currentStreak > 0 then 1 else 0)
    ensures SumRates(vs[..i + 1]) == SumRates(vs[..i]) + CompletionRate(|vs[i].completedDates|, vs[i].habit.targetDays)
    ensures DateLists(vs[..i + 1], ViewDates) == DateLists(vs[..i], ViewDates) + [Some(vs[i].completedDates)]
  {
    assert vs[..i + 1][..i] == vs[..i];
  }

  /** The week chart of the overview: the seven days up to today, oldest first, each counting at most every habit. */
  function WeekOf(vs: seq<HabitWithStats>, today: int): (week: seq<WeekEntry>)
    requires today > 6
    ensures |week| == 7
    ensures forall k :: 0 <= k < 7 ==> week[k].date == today - 6 + k && week[k].completions <= |vs|
    ensures forall k :: 0 <= k < 6 ==> week[k + 1].date == week[k].date + 1
  {
    var lists := DateLists(vs, ViewDates);
    assert |lists| == |vs|;
    assert forall d: Day :: HabitsCompletedOn(lists, d) <= |vs|;
    seq(7, k requires 0 <= k < 7 => WeekEntry(today - 6 + k, HabitsCompletedOn(lists, today - 6 + k)))
  }

  lemma ViewsMatch(views: seq<HabitWithStats>, habits: seq<Habit>, completions: seq<Completion>, userId: UserId, today: int)
    requires |views| == |habits|
    requires forall k :: 0 <= k < |habits| ==> views[k] == HabitView(habits[k], completions, userId, today)
    ensures views == Views(habits, completions, userId, today)
  {
  }

  lemma WeekOfMatches(week: seq<WeekEntry>, vs: seq<HabitWithStats>, today: int)
    requires today > 6 && |week| == 7
    requires forall k :: 0 <= k < 7 ==>
      week[k].date == today - 6 + k && week[k].completions == HabitsCompletedOn(DateLists(vs, ViewDates), today - 6 + k)
    ensures week == WeekOf(vs, today)
  {
  }

  // ----- what the store guarantees -----

  /** Each active habit adds at least one day to the total current streak. */
  lemma {:induction false} ActiveAtMostTotalCurrent(vs: seq<HabitWithStats>)
    ensures CountActive(vs) <= SumCurrent(vs)
  {
    if vs != [] {
      ActiveAtMostTotalCurrent(vs[..|vs| - 1]);
    }
  }

  /** The overall longest streak is at least every habit's current streak. */
  lemma LongestOverallBoundsCurrent(habits: seq<Habit>, completions: seq<Completion>, userId: UserId, today: int)
    ensures forall v :: v in Views(habits, completions, userId, today) ==>
      v.currentStreak <= MaxLongest(Views(habits, completions, userId, today))
  {
    var vs := Views(habits, completions, userId, today);
    forall v | v in vs ensures v.currentStreak <= v.longestStreak {
      var k :| 0 <= k < |vs| && vs[k] == v;
      assert v == HabitView(habits[k], completions, userId, today);
    }
  }

  /** In a consistent store one habit never lists the same day twice, so the streak lemmas for distinct dates apply. */
  lemma {:induction false} OwnDatesDistinct(completions: seq<Completion>, userId: UserId, habitId: HabitId)
    requires NoDuplicates(completions)
    ensures NoDuplicates(HabitDates(UserCompletions(completions, userId), habitId))
  {
    var mine := UserCompletions(completions, userId);
    UserCompletionsNoDuplicates(completions, userId);
    assert forall c :: c in mine ==> c.userId == userId;
    SameUserDatesDistinct(mine, habitId);
  }

  lemma {:induction false} SameUserDatesDistinct(completions: seq<Completion>, habitId: HabitId)
    requires forall c1, c2 :: (c1 in completions && c2 in completions && c1.habitId == c2.habitId
      && c1.completionDate == c2.completionDate) ==> c1 == c2
    requires NoDuplicates(completions)
    ensures NoDuplicates(HabitDates(completions, habitId))
  {
    if completions != [] {
      var c0 := completions[0];
      var tail := completions[1..];
      assert NoDuplicates(tail) by {
        forall i, j | 0 <= i < j < |tail| ensures tail[i] != tail[j] {
          assert tail[i] == completions[i + 1] && tail[j] == completions[j + 1];
        }
      }
      SameUserDatesDistinct(tail, habitId);
      if c0.habitId == habitId {
        assert c0 !in tail;
        assert c0.completionDate !in HabitDates(tail, habitId);
      }
    }
  }

  /** A listed habit's completion count is the number of distinct days on which it was completed. */
  lemma CompletionCountIsDays(completions: seq<Completion>, h: Habit, userId: UserId, today: int)
    requires NoDuplicates(completions)
    ensures HabitView(h, completions, userId, today).completionCount
      == |set c | c in completions && c.habitId == h.id && c.userId == userId :: c.completionDate|
  {
    var dates := HabitDates(UserCompletions(completions, userId), h.id);
    OwnDatesDistinct(completions, userId, h.id);
    DaysAreDates(completions, h.id, userId);
    DistinctCardinality(dates);
    var days: set<Day> := set c | c in completions && c.habitId == h.id && c.userId == userId :: c.completionDate;
    var listed: set<Day> := set d | d in dates;
    assert days == listed;
    assert |listed| == |dates|;
    assert HabitView(h, completions, userId, today).completionCount == |dates|;
  }

  lemma DaysAreDates(completions: seq<Completion>, habitId: HabitId, userId: UserId)
    ensures (set c | c in completions && c.habitId == habitId && c.userId == userId :: c.completionDate)
      == set d | d in HabitDates(UserCompletions(completions, userId), habitId)
  {
    var mine := UserCompletions(completions, userId);
    var dates := HabitDates(mine, habitId);
    var days := set c | c in completions && c.habitId == habitId && c.userId == userId :: c.completionDate;
    forall d ensures d in days <==> d in dates {
      if d in days {
        var c :| c in completions && c.habitId == habitId && c.userId == userId && c.completionDate == d;
        assert c in mine;
      }
      if d in dates {
        var c :| c in mine && c.habitId == habitId && c.completionDate == d;
        assert c in completions && c.userId == userId;
      }
    }
  }

  /** A habit just created has no completions in a consistent store, so listing it gives empty figures too. */
  lemma CreatedHabitViewIsEmpty(habits: seq<Habit>, completions: seq<Completion>, h: Habit, userId: UserId, today: int)
    requires CompletionsOwned(habits, completions) && forall g :: g in habits ==> g.id != h.id
    ensures HabitView(h, completions, userId, today) == HabitWithStats(h, 0, 0, 0, [])
  {
    var mine := UserCompletions(completions, userId);
    forall c | c in mine ensures c.habitId != h.id {
      assert Owns(habits, c.habitId, c.userId);
    }
    HabitDatesEmpty(mine, h.id);
  }

  lemma {:induction false} HabitDatesEmpty(completions: seq<Completion>, habitId: HabitId)
    requires forall c :: c in completions ==> c.habitId != habitId
    ensures HabitDates(completions, habitId) == []
  {
    if completions != [] {
      HabitDatesEmpty(completions[1..], habitId);
    }
  }

  lemma {:induction false} UserCompletionsNoDuplicates(completions: seq<Completion>, userId: UserId)
    requires NoDuplicates(completions)
    ensures NoDuplicates(UserCompletions(completions, userId))
  {
    if completions != [] {
      var tail := completions[1..];
      assert NoDuplicates(tail) by {
        forall i, j | 0 <= i < j < |tail| ensures tail[i] != tail[j] {
          assert tail[i] == completions[i + 1] && tail[j] == completions[j + 1];
        }
      }
      UserCompletionsNoDuplicates(tail, userId);
      assert completions[0] !in tail;
    }
  }

  /** After recording a day that was not there, removing it finds exactly that record and restores the list. */
  lemma CompleteUncompleteRestores(completions: seq<Completion>, c: Completion)
    requires c !in completions
    ensures IndexOf(completions + [c], c) == Some(|completions|)
    ensures RemoveAt(completions + [c], |completions|) == completions
  {
    var s := completions + [c];
    assert forall k :: 0 <= k < |completions| ==> s[k] != c;
  }

  /** Uncompleting removes just the one record asked for: it is gone and nothing else is lost. */
  lemma UncompleteRemovesOnlyThat(completions: seq<Completion>, c: Completion)
    requires NoDuplicates(completions) && c in completions
    ensures var r := RemoveAt(completions, IndexOf(completions, c).value);
      c !in r && forall x :: x in r <==> x in completions && x != c
  {
    var i := IndexOf(completions, c).value;
    NoDuplicatesRemoveAt(completions, i);
    RemoveAtKeeps(completions, i);
    RemoveAtSubset(completions, i);
  }

  /** Changing fields other than id and owner keeps ids unique and ownership as it was. */
  lemma KeysKept(before: seq<Habit>, after: seq<Habit>)
    requires |before| == |after|
    requires forall k :: 0 <= k < |before| ==> after[k].id == before[k].id && after[k].userId == before[k].userId
    ensures HabitIdsUnique(before) ==> HabitIdsUnique(after)
    ensures forall id, u :: Owns(before, id, u) ==> Owns(after, id, u)
  {
    forall id, u | Owns(before, id, u) ensures Owns(after, id, u) {
      var h :| h in before && h.id == id && h.userId == u;
      var k :| 0 <= k < |before| && before[k] == h;
      assert after[k] in after;
    }
  }

  lemma RemoveAtKeepsUnique(habits: seq<Habit>, i: nat)
    requires HabitIdsUnique(habits) && i < |habits|
    ensures HabitIdsUnique(RemoveAt(habits, i))
  {
    var r := RemoveAt(habits, i);
    forall a, b | 0 <= a < b < |r| ensures r[a].id != r[b].id {
      var a' := if a < i then a else a + 1;
      var b' := if b < i then b else b + 1;
      assert r[a] == habits[a'] && r[b] == habits[b'];
    }
  }
}
