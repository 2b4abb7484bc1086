/**
 * The records the backend stores and returns (the pydantic shapes of
 * backend/models.py), with their defaults.
 */
module Entities {
  import opened Wrappers
  import opened Dates

  type HabitId = string
  type UserId = string

  /** A stored habit. `createdAt` is an opaque timestamp supplied by the caller. */
  datatype Habit = Habit(
    id: HabitId,
    userId: UserId,
    name: string,
    description: string,
    color: string,
    icon: string,
    targetDays: int,
    createdAt: int)

  /** The body of a create request, defaults already applied. */
  datatype HabitCreate = HabitCreate(
    name: string,
    description: string,
    color: string,
    icon: string,
    targetDays: int)

  /** The body of an update request: None leaves the field as it is. */
  datatype HabitUpdate = HabitUpdate(
    name: Option<string>,
    description: Option<string>,
    color: Option<string>,
    icon: Option<string>,
    targetDays: Option<int>)

  const DefaultDescription: string := ""
  const DefaultColor: string := "#3B82F6"
  const DefaultIcon: string := "brain"
  const DefaultTargetDays: int := 30

  /** A create request that names only the habit. */
  function CreateWithDefaults(name: string): (r: HabitCreate)
    ensures r.name == name && r.description == "" && r.color == "#3B82F6" && r.icon == "brain" && r.targetDays == 30
  {
    HabitCreate(name, DefaultDescription, DefaultColor, DefaultIcon, DefaultTargetDays)
  }

  /** A habit together with the figures derived from its completions. */
  datatype HabitWithStats = HabitWithStats(
    habit: Habit,
    currentStreak: nat,
    longestStreak: nat,
    completionCount: nat,
    completedDates: seq<Day>)

  /** One completion record: this habit was done by this user on this day. */
  datatype Completion = Completion(habitId: HabitId, userId: UserId, completionDate: Day)

  /** One day of the weekly chart. */
  datatype WeekEntry = WeekEntry(date: Day, completions: nat)

  datatype StatsOverview = StatsOverview(
    totalHabits: nat,
    activeStreaks: nat,
    totalCurrentStreak: nat,
    longestStreak: nat,
    totalCompletions: nat,
    todayCompletions: nat,
    avgCompletionRate: real,
    thisWeekPerformance: seq<WeekEntry>)
}
