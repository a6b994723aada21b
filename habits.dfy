/**
 * The habit record of `types/habit.ts`, the input `addHabit` takes, and the partial record
 * `updateHabit` merges in.
 */
module Habits {
  import opened Wrappers
  import opened Calendar

  /**
   * How often a habit is due. The record's `frequency.type` with the one field that type uses:
   * `timesPerWeek` for weekly habits, the weekday indices `days` (0 is Sunday) for custom ones.
   */
  datatype Frequency = Daily | Weekly(timesPerWeek: int) | Custom(days: seq<int>)

  /** A habit. `createdAt` is an opaque timestamp string; `completedDates` are the days marked done. */
  datatype Habit = Habit(
    id: string,
    name: string,
    description: Option<string>,
    frequency: Frequency,
    color: Option<string>,
    icon: Option<string>,
    createdAt: string,
    completedDates: seq<Day>,
    reminderTime: Option<string>,
    archived: bool)

  /** What `addHabit` takes: a habit without `id`, `createdAt`, `completedDates` and `archived`. */
  datatype HabitInput = HabitInput(
    name: string,
    description: Option<string>,
    frequency: Frequency,
    color: Option<string>,
    icon: Option<string>,
    reminderTime: Option<string>)

  /**
   * What `updateHabit` takes, a `Partial<Habit>`: per field, `None` when the key is absent, else
   * the value it carries. For an optional field that value may itself be `None`, a key present
   * with the value `undefined`, which the spread copies over.
   */
  datatype Patch = Patch(
    id: Option<string>,
    name: Option<string>,
    description: Option<Option<string>>,
    frequency: Option<Frequency>,
    color: Option<Option<string>>,
    icon: Option<Option<string>>,
    createdAt: Option<string>,
    completedDates: Option<seq<Day>>,
    reminderTime: Option<Option<string>>,
    archived: Option<bool>)

  /** The empty patch `{}`. */
  const NoChanges := Patch(None, None, None, None, None, None, None, None, None, None)

  /** The patch `{ archived: false }` with which the archived-habits screen restores a habit. */
  const Restore := NoChanges.(archived := Some(false))

  /** The caller-supplied fields of a habit. */
  function InputOf(h: Habit): (input: HabitInput) {
    HabitInput(h.name, h.description, h.frequency, h.color, h.icon, h.reminderTime)
  }

  /**
   * The record `addHabit` builds: the given id and timestamp, no completed days, not archived,
   * and the caller's fields spread over them.
   */
  function NewHabit(input: HabitInput, id: string, createdAt: string): (h: Habit)
    ensures InputOf(h) == input
    ensures h.id == id && h.createdAt == createdAt
    ensures h.completedDates == [] && !h.archived
  {
    Habit(id, input.name, input.description, input.frequency, input.color, input.icon,
          createdAt, [], input.reminderTime, false)
  }

  /**
   * `{ ...habit, ...updates }`: every field the patch carries replaces the habit's, and every
   * field it leaves out keeps the habit's value.
   */
  function Apply(h: Habit, p: Patch): (r: Habit)
    ensures p.id.Some? ==> r.id == p.id.value
    ensures p.id.None? ==> r.id == h.id
    ensures p.name.Some? ==> r.name == p.name.value
    ensures p.name.None? ==> r.name == h.name
    ensures p.description.Some? ==> r.description == p.description.value
    ensures p.description.None? ==> r.description == h.description
    ensures p.frequency.Some? ==> r.frequency == p.frequency.value
    ensures p.frequency.None? ==> r.frequency == h.frequency
    ensures p.color.Some? ==> r.color == p.color.value
    ensures p.color.None? ==> r.color == h.color
    ensures p.icon.Some? ==> r.icon == p.icon.value
    ensures p.icon.None? ==> r.icon == h.icon
    ensures p.createdAt.Some? ==> r.createdAt == p.createdAt.value
    ensures p.createdAt.None? ==> r.createdAt == h.createdAt
    ensures p.completedDates.Some? ==> r.completedDates == p.completedDates.value
    ensures p.completedDates.None? ==> r.completedDates == h.completedDates
    ensures p.reminderTime.Some? ==> r.reminderTime == p.reminderTime.value
    ensures p.reminderTime.None? ==> r.reminderTime == h.reminderTime
    ensures p.archived.Some? ==> r.archived == p.archived.value
    ensures p.archived.None? ==> r.archived == h.archived
  {
    Habit(
      p.id.GetOr(h.id),
      p.name.GetOr(h.name),
      p.description.GetOr(h.description),
      p.frequency.GetOr(h.frequency),
      p.color.GetOr(h.color),
      p.icon.GetOr(h.icon),
      p.createdAt.GetOr(h.createdAt),
      p.completedDates.GetOr(h.completedDates),
      p.reminderTime.GetOr(h.reminderTime),
      p.archived.GetOr(h.archived))
  }

  /** `{ ...p, ...q }`: the one patch whose effect is applying p and then q. */
  function Merge(p: Patch, q: Patch): (pq: Patch) {
    Patch(
      if q.id.Some? then q.id else p.id,
      if q.name.Some? then q.name else p.name,
      if q.description.Some? then q.description else p.description,
      if q.frequency.Some? then q.frequency else p.frequency,
      if q.color.Some? then q.color else p.color,
      if q.icon.Some? then q.icon else p.icon,
      if q.createdAt.Some? then q.createdAt else p.createdAt,
      if q.completedDates.Some? then q.completedDates else p.completedDates,
      if q.reminderTime.Some? then q.reminderTime else p.reminderTime,
      if q.archived.Some? then q.archived else p.archived)
  }

  /** The empty patch changes nothing. */
  lemma ApplyNoChanges(h: Habit)
    ensures Apply(h, NoChanges) == h
  {
  }

  /** Applying one patch and then another is applying their merge. */
  lemma ApplyMerge(h: Habit, p: Patch, q: Patch)
    ensures Apply(Apply(h, p), q) == Apply(h, Merge(p, q))
  {
  }

  /** Applying the same patch twice is applying it once. */
  lemma ApplyIdempotent(h: Habit, p: Patch)
    ensures Apply(Apply(h, p), p) == Apply(h, p)
  {
    ApplyMerge(h, p, p);
    assert Merge(p, p) == p;
  }

  /** A patch without `id` and `createdAt` keeps the habit's identity and timestamp. */
  lemma ApplyKeepsIdentity(h: Habit, p: Patch)
    requires p.id.None? && p.createdAt.None?
    ensures Apply(h, p).id == h.id && Apply(h, p).createdAt == h.createdAt
  {
  }

  /** Restoring clears the archived flag and touches nothing else. */
  lemma RestoreUnarchives(h: Habit)
    ensures Apply(h, Restore) == h.(archived := false)
  {
  }
}
