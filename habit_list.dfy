/**
 * The lists the store's `set(...)` calls build and the lists its queries return
 * (`store/habitStore.ts`): `map`, `filter` and `find` over the ordered habit list.
 */
module HabitList {
  import opened Wrappers
  import opened Calendar
  import opened Seqs
  import opened Habits

  /** Filter conditions, named so that each one denotes the same function wherever it is used. */
  function OtherId(id: string): (p: Habit -> bool) { (h: Habit) => h.id != id }
  function SameId(id: string): (p: Habit -> bool) { (h: Habit) => h.id == id }
  predicate IsActive(h: Habit) { !h.archived }
  predicate IsArchived(h: Habit) { h.archived }
  function DoneOn(today: Day): (p: Habit -> bool) { (h: Habit) => today in h.completedDates }
  function ActiveAndDone(today: Day): (p: Habit -> bool) { (h: Habit) => !h.archived && today in h.completedDates }
  function MarkArchived(h: Habit): (r: Habit) { h.(archived := true) }
  function NotDate(date: Day): (p: Day -> bool) { (d: Day) => d != date }
  function IsDate(date: Day): (p: Day -> bool) { (d: Day) => d == date }

  /** Some habit in the list carries the id. */
  predicate HasId(hs: seq<Habit>, id: string) {
    exists i :: 0 <= i < |hs| && hs[i].id == id
  }

  /** No two habits share an id. */
  predicate UniqueIds(hs: seq<Habit>) {
    forall i, j :: 0 <= i < j < |hs| ==> hs[i].id != hs[j].id
  }

  /** The data-model invariants: ids are unique and no habit lists a completed day twice. */
  predicate WellFormed(hs: seq<Habit>) {
    UniqueIds(hs) && forall i :: 0 <= i < |hs| ==> NoDup(hs[i].completedDates)
  }

  /** `habits.map(h => h.id === id ? f(h) : h)`. */
  function UpdateWhere(hs: seq<Habit>, id: string, f: Habit -> Habit): (r: seq<Habit>)
    ensures |r| == |hs|
    ensures forall i :: 0 <= i < |hs| ==> r[i] == if hs[i].id == id then f(hs[i]) else hs[i]
  {
    if hs == [] then []
    else [if hs[0].id == id then f(hs[0]) else hs[0]] + UpdateWhere(hs[1..], id, f)
  }

  /** Mapping over an id no habit carries returns the list unchanged. */
  lemma UpdateWhereUnknownId(hs: seq<Habit>, id: string, f: Habit -> Habit)
    requires !HasId(hs, id)
    ensures UpdateWhere(hs, id, f) == hs
  {
    var r := UpdateWhere(hs, id, f);
    assert forall i :: 0 <= i < |hs| ==> r[i] == hs[i];
  }

  /** `getHabitById`: the first habit with the id, if any. */
  function FindById(hs: seq<Habit>, id: string): (r: Option<Habit>)
    ensures r.None? <==> !HasId(hs, id)
    ensures r.Some? ==> exists i :: 0 <= i < |hs| && hs[i] == r.value && hs[i].id == id
                                    && forall j :: 0 <= j < i ==> hs[j].id != id
  {
    if hs == [] then None
    else if hs[0].id == id then Some(hs[0])
    else
      var r := FindById(hs[1..], id);
      assert HasId(hs, id) ==> HasId(hs[1..], id) by {
        if HasId(hs, id) {
          var i :| 0 <= i < |hs| && hs[i].id == id;
          assert hs[1..][i - 1] == hs[i];
        }
      }
      assert r.Some? ==> exists i :: 0 <= i < |hs| && hs[i] == r.value && hs[i].id == id
                                       && forall j :: 0 <= j < i ==> hs[j].id != id by {
        if r.Some? {
          var i :| 0 <= i < |hs[1..]| && hs[1..][i] == r.value && hs[1..][i].id == id
                   && forall j :: 0 <= j < i ==> hs[1..][j].id != id;
          assert hs[i + 1] == r.value;
          assert forall j :: 0 <= j < i + 1 ==> hs[j].id != id by {
            forall j | 0 <= j < i + 1 ensures hs[j].id != id {
              if j > 0 { assert hs[j] == hs[1..][j - 1]; }
            }
          }
        }
      }
      r
  }

  /** With unique ids, looking up a habit's id finds that habit. */
  lemma FindByIdUnique(hs: seq<Habit>, i: nat)
    requires UniqueIds(hs) && i < |hs|
    ensures FindById(hs, hs[i].id) == Some(hs[i])
  {
  }

  /** Looking up the id of a habit no earlier habit shares finds that habit, unique ids or not. */
  lemma FindByIdFirst(hs: seq<Habit>, i: nat)
    requires i < |hs| && forall j :: 0 <= j < i ==> hs[j].id != hs[i].id
    ensures FindById(hs, hs[i].id) == Some(hs[i])
  {
    var r := FindById(hs, hs[i].id);
    var k :| 0 <= k < |hs| && hs[k] == r.value && hs[k].id == hs[i].id
             && forall j :: 0 <= j < k ==> hs[j].id != hs[i].id;
    assert k == i;
  }

  /** `updateHabit`: every habit with the id gets the patch merged in; the others stay as they were. */
  function WithUpdate(hs: seq<Habit>, id: string, p: Patch): (r: seq<Habit>)
    ensures |r| == |hs|
    ensures forall i :: 0 <= i < |hs| ==> r[i] == if hs[i].id == id then Apply(hs[i], p) else hs[i]
  {
    UpdateWhere(hs, id, (h: Habit) => Apply(h, p))
  }

  /** `updateHabit` on an unknown id leaves the list unchanged. */
  lemma WithUpdateUnknownId(hs: seq<Habit>, id: string, p: Patch)
    requires !HasId(hs, id)
    ensures WithUpdate(hs, id, p) == hs
  {
    UpdateWhereUnknownId(hs, id, (h: Habit) => Apply(h, p));
  }

  /**
   * Restoring a habit (`updateHabit(id, { archived: false })`) brings every habit with that id
   * back among the active ones and changes nothing else.
   */
  lemma RestoreMakesActive(hs: seq<Habit>, id: string)
    ensures var r := WithUpdate(hs, id, Restore);
      |r| == |hs|
      && (forall i :: 0 <= i < |hs| && hs[i].id == id ==> r[i] == hs[i].(archived := false) && r[i] in ActiveHabits(r))
      && (forall i :: 0 <= i < |hs| && hs[i].id != id ==> r[i] == hs[i])
  {
    var r := WithUpdate(hs, id, Restore);
    forall i | 0 <= i < |hs| && hs[i].id == id
      ensures r[i] == hs[i].(archived := false) && r[i] in ActiveHabits(r)
    {
      RestoreUnarchives(hs[i]);
    }
  }

  /** `deleteHabit`: the list without the habits carrying the id, the rest in their order. */
  function WithoutId(hs: seq<Habit>, id: string): (r: seq<Habit>)
    ensures forall i :: 0 <= i < |r| ==> r[i].id != id && r[i] in hs
    ensures forall i :: 0 <= i < |hs| && hs[i].id != id ==> hs[i] in r
    ensures !HasId(r, id)
  {
    Filter(hs, OtherId(id))
  }

  /**
   * Deleting keeps the order of what remains and removes exactly the habits with the id; an
   * unknown id is a no-op.
   */
  lemma WithoutIdProperties(hs: seq<Habit>, id: string)
    ensures IsSubsequence(WithoutId(hs, id), hs)
    ensures |WithoutId(hs, id)| == |hs| - |Filter(hs, SameId(id))|
    ensures !HasId(hs, id) ==> WithoutId(hs, id) == hs
  {
    FilterIsSubsequence(hs, OtherId(id));
    FilterPartition(hs, OtherId(id), SameId(id));
    if !HasId(hs, id) {
      FilterKeepsAll(hs, OtherId(id));
    }
  }

  /** `archiveHabit`: the habits with the id become archived; nothing else changes. */
  function WithArchive(hs: seq<Habit>, id: string): (r: seq<Habit>)
    ensures |r| == |hs|
    ensures forall i :: 0 <= i < |hs| ==> r[i] == if hs[i].id == id then hs[i].(archived := true) else hs[i]
  {
    UpdateWhere(hs, id, MarkArchived)
  }

  /** Archiving twice is archiving once, and an unknown id is a no-op. */
  lemma WithArchiveIdempotent(hs: seq<Habit>, id: string)
    ensures WithArchive(WithArchive(hs, id), id) == WithArchive(hs, id)
    ensures !HasId(hs, id) ==> WithArchive(hs, id) == hs
  {
    var once := WithArchive(hs, id);
    var twice := WithArchive(once, id);
    assert forall i :: 0 <= i < |hs| ==> twice[i] == once[i];
    if !HasId(hs, id) {
      UpdateWhereUnknownId(hs, id, MarkArchived);
    }
  }

  /** The completed days after a toggle: the date removed everywhere if present, else appended. */
  function ToggledDates(dates: seq<Day>, date: Day): (r: seq<Day>)
    ensures date in r <==> date !in dates
    ensures forall x :: x != date ==> (x in r <==> x in dates)
  {
    if date in dates then Filter(dates, NotDate(date)) else dates + [date]
  }

  /** A toggle keeps a duplicate-free list duplicate-free. */
  lemma ToggledDatesNoDup(dates: seq<Day>, date: Day)
    requires NoDup(dates)
    ensures NoDup(ToggledDates(dates, date))
  {
    if date in dates {
      FilterNoDup(dates, NotDate(date));
    }
  }

  /** Toggling an absent date in and out again gives back the list itself. */
  lemma ToggleAbsentTwice(dates: seq<Day>, date: Day)
    requires date !in dates
    ensures ToggledDates(ToggledDates(dates, date), date) == dates
  {
    FilterKeepsAll(dates, NotDate(date));
    FilterAppend(dates, [date], NotDate(date));
    assert Filter([date], NotDate(date)) == [] by {
      assert [date][1..] == [];
    }
  }

  /** On a duplicate-free list, the one removed occurrence is the singleton multiset of the date. */
  lemma RemovedOccurrence(dates: seq<Day>, date: Day)
    requires NoDup(dates) && date in dates
    ensures multiset(Filter(dates, IsDate(date))) == multiset{date}
  {
    var gone := Filter(dates, IsDate(date));
    FilterNoDup(dates, IsDate(date));
    NoDupMultiset(gone);
    forall x ensures multiset(gone)[x] == multiset{date}[x] {
      if x == date {
        assert x in gone;
      } else {
        assert x !in gone;
      }
    }
  }

  /** Toggling a present date out and in again moves it to the end of a duplicate-free list. */
  lemma TogglePresentTwice(dates: seq<Day>, date: Day)
    requires NoDup(dates) && date in dates
    ensures multiset(ToggledDates(ToggledDates(dates, date), date)) == multiset(dates)
  {
    var kept := Filter(dates, NotDate(date));
    assert ToggledDates(dates, date) == kept;
    assert date !in kept;
    assert ToggledDates(kept, date) == kept + [date];
    FilterPartition(dates, NotDate(date), IsDate(date));
    RemovedOccurrence(dates, date);
  }

  /**
   * Toggling the same date twice restores the set of completed days; when the date was absent
   * it restores the list itself, and on a duplicate-free list it restores the multiset (a
   * removed-then-added date moves to the end).
   */
  lemma ToggledDatesTwice(dates: seq<Day>, date: Day)
    ensures forall x :: x in ToggledDates(ToggledDates(dates, date), date) <==> x in dates
    ensures date !in dates ==> ToggledDates(ToggledDates(dates, date), date) == dates
    ensures NoDup(dates) ==> multiset(ToggledDates(ToggledDates(dates, date), date)) == multiset(dates)
  {
    if date !in dates {
      ToggleAbsentTwice(dates, date);
    } else if NoDup(dates) {
      TogglePresentTwice(dates, date);
    }
  }

  /**
   * `toggleHabitCompletion`: an unknown id leaves the list as it is. Otherwise the first habit
   * with the id supplies the completed days, and every habit with the id gets them toggled.
   */
  function WithToggle(hs: seq<Habit>, id: string, date: Day): (r: seq<Habit>)
    ensures |r| == |hs|
    ensures !HasId(hs, id) ==> r == hs
    ensures HasId(hs, id) ==>
      forall i :: 0 <= i < |hs| ==>
        r[i] == if hs[i].id == id
                then hs[i].(completedDates := ToggledDates(FindById(hs, id).value.completedDates, date))
                else hs[i]
  {
    match FindById(hs, id)
    case None => hs
    case Some(h) => UpdateWhere(hs, id, (g: Habit) => g.(completedDates := ToggledDates(h.completedDates, date)))
  }

  /** With unique ids, a toggle replaces the one habit with the id by its toggled copy. */
  lemma WithToggleAt(hs: seq<Habit>, k: nat, date: Day)
    requires UniqueIds(hs) && k < |hs|
    ensures WithToggle(hs, hs[k].id, date)
            == hs[k := hs[k].(completedDates := ToggledDates(hs[k].completedDates, date))]
  {
    FindByIdUnique(hs, k);
    var r := WithToggle(hs, hs[k].id, date);
    var e := hs[k := hs[k].(completedDates := ToggledDates(hs[k].completedDates, date))];
    forall i | 0 <= i < |hs| ensures r[i] == e[i] {
      if i != k {
        assert hs[i].id != hs[k].id;
      }
    }
  }

  /**
   * With unique ids, toggling the habit's completion of a date flips that date and keeps every
   * other date: membership of the date changes, membership of the others does not.
   */
  lemma WithToggleFlips(hs: seq<Habit>, i: nat, date: Day)
    requires UniqueIds(hs) && i < |hs|
    ensures var after := WithToggle(hs, hs[i].id, date)[i].completedDates;
      (date in after <==> date !in hs[i].completedDates)
      && forall x :: x != date ==> (x in after <==> x in hs[i].completedDates)
  {
    WithToggleAt(hs, i, date);
  }

  /**
   * With unique ids, two toggles of one date leave every habit as it was except the toggled
   * one, whose set of completed days is restored (its list too when the date was absent).
   */
  lemma WithToggleTwice(hs: seq<Habit>, k: nat, date: Day)
    requires UniqueIds(hs) && k < |hs|
    ensures var r := WithToggle(WithToggle(hs, hs[k].id, date), hs[k].id, date);
      |r| == |hs|
      && (forall i :: 0 <= i < |hs| && i != k ==> r[i] == hs[i])
      && r[k] == hs[k].(completedDates := r[k].completedDates)
      && (forall x :: x in r[k].completedDates <==> x in hs[k].completedDates)
      && (date !in hs[k].completedDates ==> r == hs)
  {
    var h := hs[k];
    var h1 := h.(completedDates := ToggledDates(h.completedDates, date));
    var h2 := h1.(completedDates := ToggledDates(h1.completedDates, date));
    WithToggleAt(hs, k, date);
    var once := hs[k := h1];
    ReplaceKeepsUniqueIds(hs, k, h1);
    WithToggleAt(once, k, date);
    assert WithToggle(once, h.id, date) == hs[k := h2];
    ToggledDatesTwice(h.completedDates, date);
    if date !in h.completedDates {
      assert h2 == h;
    }
  }

  /** Replacing one habit by one with the same id keeps the ids unique. */
  lemma ReplaceKeepsUniqueIds(hs: seq<Habit>, k: nat, h: Habit)
    requires UniqueIds(hs) && k < |hs| && h.id == hs[k].id
    ensures UniqueIds(hs[k := h])
  {
    var r := hs[k := h];
    forall i, j | 0 <= i < j < |r| ensures r[i].id != r[j].id {
      assert r[i].id == hs[i].id && r[j].id == hs[j].id;
    }
  }

  /**
   * For the first habit with its id, ids unique or not: a toggle gives it its own toggled dates
   * and leaves every habit's id as it was.
   */
  lemma WithToggleFirstAt(hs: seq<Habit>, i: nat, date: Day)
    requires i < |hs| && forall j :: 0 <= j < i ==> hs[j].id != hs[i].id
    ensures var r := WithToggle(hs, hs[i].id, date);
      |r| == |hs|
      && r[i] == hs[i].(completedDates := ToggledDates(hs[i].completedDates, date))
      && forall j :: 0 <= j < |hs| ==> r[j].id == hs[j].id
  {
    FindByIdFirst(hs, i);
  }

  /**
   * For the first habit with its id, ids unique or not: a toggle flips the date in its completed
   * days and keeps every other date.
   */
  lemma WithToggleFlipsFirst(hs: seq<Habit>, i: nat, date: Day)
    requires i < |hs| && forall j :: 0 <= j < i ==> hs[j].id != hs[i].id
    ensures var after := WithToggle(hs, hs[i].id, date)[i].completedDates;
      (date in after <==> date !in hs[i].completedDates)
      && forall x :: x != date ==> (x in after <==> x in hs[i].completedDates)
  {
    WithToggleFirstAt(hs, i, date);
  }

  /**
   * For the first habit with its id, ids unique or not: two toggles of one date restore its set
   * of completed days, and its list when the date was absent; its other fields stay.
   */
  lemma WithToggleTwiceFirst(hs: seq<Habit>, i: nat, date: Day)
    requires i < |hs| && forall j :: 0 <= j < i ==> hs[j].id != hs[i].id
    ensures var r := WithToggle(WithToggle(hs, hs[i].id, date), hs[i].id, date);
      |r| == |hs|
      && r[i] == hs[i].(completedDates := r[i].completedDates)
      && (forall x :: x in r[i].completedDates <==> x in hs[i].completedDates)
      && (date !in hs[i].completedDates ==> r[i] == hs[i])
  {
    var h := hs[i];
    var once := WithToggle(hs, h.id, date);
    WithToggleFirstAt(hs, i, date);
    var h1 := h.(completedDates := ToggledDates(h.completedDates, date));
    assert once[i] == h1;
    WithToggleFirstAt(once, i, date);
    var r := WithToggle(once, h.id, date);
    assert r[i] == h1.(completedDates := ToggledDates(h1.completedDates, date));
    ToggledDatesTwice(h.completedDates, date);
  }

  /** `getActiveHabits`: the habits not archived, in list order. */
  function ActiveHabits(hs: seq<Habit>): (r: seq<Habit>)
    ensures forall i :: 0 <= i < |r| ==> !r[i].archived && r[i] in hs
    ensures forall i :: 0 <= i < |hs| && !hs[i].archived ==> hs[i] in r
  {
    Filter(hs, IsActive)
  }

  /** `getArchivedHabits`: the archived habits, in list order. */
  function ArchivedHabits(hs: seq<Habit>): (r: seq<Habit>)
    ensures forall i :: 0 <= i < |r| ==> r[i].archived && r[i] in hs
    ensures forall i :: 0 <= i < |hs| && hs[i].archived ==> hs[i] in r
  {
    Filter(hs, IsArchived)
  }

  /** Active and archived habits partition the list, each keeping the list order. */
  lemma ActiveArchivedPartition(hs: seq<Habit>)
    ensures |ActiveHabits(hs)| + |ArchivedHabits(hs)| == |hs|
    ensures multiset(ActiveHabits(hs)) + multiset(ArchivedHabits(hs)) == multiset(hs)
    ensures IsSubsequence(ActiveHabits(hs), hs) && IsSubsequence(ArchivedHabits(hs), hs)
  {
    FilterPartition(hs, IsActive, IsArchived);
    FilterIsSubsequence(hs, IsActive);
    FilterIsSubsequence(hs, IsArchived);
  }

  /** An added habit, being active, goes to the end of the active list. */
  lemma ActiveHabitsAfterAdd(hs: seq<Habit>, input: HabitInput, id: string, createdAt: string)
    ensures ActiveHabits(hs + [NewHabit(input, id, createdAt)]) == ActiveHabits(hs) + [NewHabit(input, id, createdAt)]
  {
    var h := NewHabit(input, id, createdAt);
    FilterAppend(hs, [h], IsActive);
    assert Filter([h], IsActive) == [h] by {
      assert [h][1..] == [];
    }
  }

  /** `getCompletedHabitsForToday`: the active habits whose completed days include today. */
  function CompletedToday(hs: seq<Habit>, today: Day): (r: seq<Habit>)
    ensures forall i :: 0 <= i < |r| ==> !r[i].archived && today in r[i].completedDates && r[i] in hs
  {
    Filter(ActiveHabits(hs), DoneOn(today))
  }

  /** The habits completed today are exactly the active ones with today's date, in list order. */
  lemma CompletedTodayExactly(hs: seq<Habit>, today: Day)
    ensures CompletedToday(hs, today) == Filter(hs, ActiveAndDone(today))
    ensures forall i :: 0 <= i < |hs| && !hs[i].archived && today in hs[i].completedDates
              ==> hs[i] in CompletedToday(hs, today)
    ensures IsSubsequence(CompletedToday(hs, today), hs)
  {
    FilterFilter(hs, IsActive, DoneOn(today),
                 ActiveAndDone(today));
    FilterIsSubsequence(hs, ActiveAndDone(today));
  }

  /** A filter of a list with unique ids has unique ids. */
  lemma {:induction false} FilterUniqueIds(hs: seq<Habit>, p: Habit -> bool)
    requires UniqueIds(hs)
    ensures UniqueIds(Filter(hs, p))
  {
    if hs != [] {
      var rest := hs[1..];
      assert UniqueIds(rest) by {
        forall i, j | 0 <= i < j < |rest| ensures rest[i].id != rest[j].id {
          assert rest[i] == hs[i + 1] && rest[j] == hs[j + 1];
        }
      }
      FilterUniqueIds(rest, p);
      var fr := Filter(rest, p);
      var r := Filter(hs, p);
      if p(hs[0]) {
        assert r == [hs[0]] + fr;
        forall i, j | 0 <= i < j < |r| ensures r[i].id != r[j].id {
          if i == 0 {
            assert r[j] == fr[j - 1] && fr[j - 1] in rest;
            var k :| 0 <= k < |rest| && rest[k] == fr[j - 1];
            assert hs[k + 1] == rest[k];
          } else {
            assert r[i] == fr[i - 1] && r[j] == fr[j - 1];
          }
        }
      }
    }
  }

  /** Adding a habit with an id not yet in use keeps the invariants. */
  lemma AddKeepsWellFormed(hs: seq<Habit>, input: HabitInput, id: string, createdAt: string)
    requires WellFormed(hs) && !HasId(hs, id)
    ensures WellFormed(hs + [NewHabit(input, id, createdAt)])
  {
  }

  /** An update that changes neither the id nor brings duplicate completed days keeps the invariants. */
  lemma UpdateKeepsWellFormed(hs: seq<Habit>, id: string, p: Patch)
    requires WellFormed(hs)
    requires p.id.None? || p.id == Some(id)
    requires p.completedDates.None? || NoDup(p.completedDates.value)
    ensures WellFormed(WithUpdate(hs, id, p))
  {
  }

  /**
   * Without the condition on `id` the invariant can fail: renaming the first of two habits to
   * the second one's id leaves two habits with one id.
   */
  lemma UpdateCanBreakIds(h1: Habit, h2: Habit)
    requires h1.id != h2.id
    ensures UniqueIds([h1, h2])
    ensures var r := WithUpdate([h1, h2], h1.id, NoChanges.(id := Some(h2.id)));
      r[0].id == r[1].id == h2.id && !UniqueIds(r) && !WellFormed(r)
  {
    var r := WithUpdate([h1, h2], h1.id, NoChanges.(id := Some(h2.id)));
    assert r[0].id == h2.id && r[1] == h2;
  }

  /** Deleting keeps the invariants. */
  lemma DeleteKeepsWellFormed(hs: seq<Habit>, id: string)
    requires WellFormed(hs)
    ensures WellFormed(WithoutId(hs, id))
  {
    FilterUniqueIds(hs, OtherId(id));
  }

  /** Archiving keeps the invariants. */
  lemma ArchiveKeepsWellFormed(hs: seq<Habit>, id: string)
    requires WellFormed(hs)
    ensures WellFormed(WithArchive(hs, id))
  {
  }

  /** Toggling never introduces a duplicate completed day, so it keeps the invariants. */
  lemma ToggleKeepsWellFormed(hs: seq<Habit>, id: string, date: Day)
    requires WellFormed(hs)
    ensures WellFormed(WithToggle(hs, id, date))
  {
    if HasId(hs, id) {
      var h := FindById(hs, id).value;
      ToggledDatesNoDup(h.completedDates, date);
    }
  }

  /**
   * The completion count of `getHabitCompletionRate`: how many of today, today - 1, ...,
   * today - (n - 1) are among the completed days (none when n is not positive).
   */
  function WindowCount(dates: seq<Day>, today: Day, n: int): (c: nat)
    ensures c <= if n > 0 then n else 0
    decreases n
  {
    if n <= 0 then 0
    else WindowCount(dates, today, n - 1) + (if today - (n - 1) in dates then 1 else 0)
  }

  /** Every day of the window completed gives the full count; none completed gives 0. */
  lemma {:induction false} WindowCountExtremes(dates: seq<Day>, today: Day, n: int)
    ensures (forall x :: today - n < x <= today ==> x in dates) ==> WindowCount(dates, today, n) == (if n > 0 then n else 0)
    ensures (forall x :: today - n < x <= today ==> x !in dates) ==> WindowCount(dates, today, n) == 0
    decreases n
  {
    if n > 0 {
      WindowCountExtremes(dates, today, n - 1);
    }
  }
}
