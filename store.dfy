/**
 * The habit store of `store/habitStore.ts`: one ordered list of habits that the mutators replace
 * and the queries read. The clock and the id generator are parameters.
 */
module Store {
  import opened Wrappers
  import opened Calendar
  import opened Seqs
  import opened Habits
  import opened HabitList

  /**
   * The number `getHabitCompletionRate` returns, kept as the quotient it is computed from:
   * `Zero` is the literal 0 returned for an unknown id, `Quotient(c, n)` is `c / n`.
   */
  datatype Rate = Zero | Quotient(completed: nat, days: int) {
    /** The quotient is 0 / 0, which JavaScript evaluates to NaN. */
    predicate IsNaN() {
      Quotient? && completed == 0 && days == 0
    }

    /** The number lies in [0, 1] (0 / n for a negative n is -0, which equals 0). */
    predicate InUnitInterval() {
      Zero? || (days > 0 && completed <= days) || (days < 0 && completed == 0)
    }
  }

  class HabitStore {
    /** The habits, in the order they were added. */
    var habits: seq<Habit>

    /** The store starts with no habits. */
    constructor()
      ensures habits == []
    {
      habits := [];
    }

    /**
     * `addHabit`: appends the new habit, built from the caller's fields with the given id and
     * timestamp, no completed days and not archived. The invariants survive a fresh id.
     */
    method AddHabit(input: HabitInput, id: string, createdAt: string)
      modifies this
      ensures habits == old(habits) + [NewHabit(input, id, createdAt)]
      ensures habits[|old(habits)|].completedDates == [] && !habits[|old(habits)|].archived
      ensures InputOf(habits[|old(habits)|]) == input
      ensures WellFormed(old(habits)) && !HasId(old(habits), id) ==> WellFormed(habits)
    {
      if WellFormed(habits) && !HasId(habits, id) {
        AddKeepsWellFormed(habits, input, id, createdAt);
      }
      habits := habits + [NewHabit(input, id, createdAt)];
    }

    /**
     * `updateHabit`: every habit with the id gets the patch's fields, the others are kept, and an
     * unknown id changes nothing.
     */
    method UpdateHabit(id: string, updates: Patch)
      modifies this
      ensures habits == WithUpdate(old(habits), id, updates)
      ensures !HasId(old(habits), id) ==> habits == old(habits)
      ensures WellFormed(old(habits)) && (updates.id.None? || updates.id == Some(id))
              && (updates.completedDates.None? || NoDup(updates.completedDates.value))
              ==> WellFormed(habits)
    {
      if !HasId(habits, id) {
        WithUpdateUnknownId(habits, id, updates);
      }
      if WellFormed(habits) && (updates.id.None? || updates.id == Some(id))
         && (updates.completedDates.None? || NoDup(updates.completedDates.value)) {
        UpdateKeepsWellFormed(habits, id, updates);
      }
      habits := UpdateWhere(habits, id, (h: Habit) => Apply(h, updates));
    }

    /** `deleteHabit`: removes every habit with the id, keeping the others in order. */
    method DeleteHabit(id: string)
      modifies this
      ensures habits == WithoutId(old(habits), id)
      ensures IsSubsequence(habits, old(habits)) && !HasId(habits, id)
      ensures !HasId(old(habits), id) ==> habits == old(habits)
      ensures WellFormed(old(habits)) ==> WellFormed(habits)
    {
      WithoutIdProperties(habits, id);
      if WellFormed(habits) {
        DeleteKeepsWellFormed(habits, id);
      }
      habits := Filter(habits, OtherId(id));
    }

    /** `archiveHabit`: marks every habit with the id archived; archiving again changes nothing. */
    method ArchiveHabit(id: string)
      modifies this
      ensures habits == WithArchive(old(habits), id)
      ensures WithArchive(habits, id) == habits
      ensures WellFormed(old(habits)) ==> WellFormed(habits)
    {
      WithArchiveIdempotent(habits, id);
      if WellFormed(habits) {
        ArchiveKeepsWellFormed(habits, id);
      }
      habits := UpdateWhere(habits, id, MarkArchived);
    }

    /**
     * `toggleHabitCompletion`: the date defaults to today. An unknown id changes nothing;
     * otherwise the first habit with the id decides whether the date is removed or appended.
     */
    method ToggleHabitCompletion(id: string, date: Option<Day>, today: Day)
      modifies this
      ensures habits == WithToggle(old(habits), id, date.GetOr(today))
      ensures !HasId(old(habits), id) ==> habits == old(habits)
      ensures WellFormed(old(habits)) ==> WellFormed(habits)
    {
      var d := date.GetOr(today);
      if WellFormed(habits) {
        ToggleKeepsWellFormed(habits, id, d);
      }
      var habit := FindById(habits, id);
      if habit.None? {
        return;
      }
      var completed := ToggledDates(habit.value.completedDates, d);
      habits := UpdateWhere(habits, id, (h: Habit) => h.(completedDates := completed));
    }

    /** `getHabitById`: the first habit with the id, or none when no habit has it. */
    function GetHabitById(id: string): (r: Option<Habit>)
      reads this
      ensures r.None? <==> !HasId(habits, id)
      ensures r.Some? ==> r.value.id == id && r.value in habits
      ensures forall i :: 0 <= i < |habits| && habits[i].id == id && (forall j :: 0 <= j < i ==> habits[j].id != id)
                ==> r == Some(habits[i])
      ensures UniqueIds(habits) ==> forall i :: 0 <= i < |habits| && habits[i].id == id ==> r == Some(habits[i])
    {
      assert forall i :: 0 <= i < |habits| && habits[i].id == id && (forall j :: 0 <= j < i ==> habits[j].id != id)
               ==> FindById(habits, id) == Some(habits[i]) by {
        forall i | 0 <= i < |habits| && habits[i].id == id && (forall j :: 0 <= j < i ==> habits[j].id != id) {
          FindByIdFirst(habits, i);
        }
      }
      FindById(habits, id)
    }

    /** `getActiveHabits`: the habits not archived, in list order. */
    function GetActiveHabits(): (r: seq<Habit>)
      reads this
      ensures IsSubsequence(r, habits)
      ensures forall i :: 0 <= i < |habits| ==> (habits[i] in r <==> !habits[i].archived)
    {
      ActiveArchivedPartition(habits);
      ActiveHabits(habits)
    }

    /** `getArchivedHabits`: the archived habits, in list order; with the active ones they make up the list. */
    function GetArchivedHabits(): (r: seq<Habit>)
      reads this
      ensures IsSubsequence(r, habits)
      ensures forall i :: 0 <= i < |habits| ==> (habits[i] in r <==> habits[i].archived)
      ensures multiset(GetActiveHabits()) + multiset(r) == multiset(habits)
    {
      ActiveArchivedPartition(habits);
      ArchivedHabits(habits)
    }

    /** `getCompletedHabitsForToday`: the active habits completed today, in list order. */
    function GetCompletedHabitsForToday(today: Day): (r: seq<Habit>)
      reads this
      ensures r == Filter(habits, ActiveAndDone(today))
      ensures IsSubsequence(r, habits)
    {
      CompletedTodayExactly(habits, today);
      Filter(GetActiveHabits(), DoneOn(today))
    }

    /**
     * `getHabitCompletionRate` as written: 0 for an unknown id, else the number of the last `days`
     * days (today included) on which the habit was completed, divided by `days`. For `days` 0
     * that is 0 / 0.
     */
    method GetHabitCompletionRate(id: string, days: int, today: Day) returns (rate: Rate)
      ensures !HasId(habits, id) ==> rate == Zero
      ensures HasId(habits, id) ==>
                rate == Quotient(WindowCount(FindById(habits, id).value.completedDates, today, days), days)
      ensures days != 0 ==> rate.InUnitInterval()
      ensures rate.IsNaN() <==> HasId(habits, id) && days == 0
    {
      var habit := FindById(habits, id);
      if habit.None? {
        return Zero;
      }
      var count := 0;
      var i := 0;
      while i < days
        invariant 0 <= i
        invariant days >= 0 ==> i <= days
        invariant days < 0 ==> i == 0
        invariant count == WindowCount(habit.value.completedDates, today, i)
        decreases days - i
      {
        if today - i in habit.value.completedDates {
          count := count + 1;
        }
        i := i + 1;
      }
      return Quotient(count, days);
    }

    /**
     * The completion rate with a guard against dividing by an empty window: 0 when `days` is not
     * positive, so the result is always a number in [0, 1]; otherwise the same quotient as above.
     */
    method GetHabitCompletionRateGuarded(id: string, days: int, today: Day) returns (rate: Rate)
      ensures !HasId(habits, id) || days <= 0 ==> rate == Zero
      ensures HasId(habits, id) && days > 0 ==>
                rate == Quotient(WindowCount(FindById(habits, id).value.completedDates, today, days), days)
      ensures rate.InUnitInterval() && !rate.IsNaN()
    {
      var habit := FindById(habits, id);
      if habit.None? || days <= 0 {
        return Zero;
      }
      var count := 0;
      for i := 0 to days
        invariant count == WindowCount(habit.value.completedDates, today, i)
      {
        if today - i in habit.value.completedDates {
          count := count + 1;
        }
      }
      return Quotient(count, days);
    }
  }
}
