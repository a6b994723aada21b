/**
 * `getCurrentStreak` and `getLongestStreak` of `utils/date.ts`, on completed days held as day
 * numbers (the keys `DayKey.FormatDay` gives them; see `DayKey.KeysMembership` and
 * `DayKey.DayKeyOrder` for why membership and sort order carry over).
 */
module Streak {
  import opened Calendar
  import opened Sorting
  import opened Seqs

  /** The earliest day in a non-empty list. */
  function Earliest(days: seq<Day>): (m: Day)
    requires |days| > 0
    ensures m in days && forall i :: 0 <= i < |days| ==> m <= days[i]
  {
    if |days| == 1 then days[0]
    else
      var rest := Earliest(days[1..]);
      if days[0] <= rest then days[0] else rest
  }

  /** The number of consecutive days d, d - 1, d - 2, ... that are all in `days`. */
  function Run(days: seq<Day>, d: Day): (r: nat)
    decreases if d in days then d - Earliest(days) + 1 else 0
  {
    if d in days then 1 + Run(days, d - 1) else 0
  }

  /** `Run` is the length of the unbroken stretch of present days ending at `d`. */
  lemma {:induction false} RunSpan(days: seq<Day>, d: Day)
    ensures forall x :: d - Run(days, d) < x <= d ==> x in days
    ensures d - Run(days, d) !in days
    decreases if d in days then d - Earliest(days) + 1 else 0
  {
    if d in days {
      RunSpan(days, d - 1);
    }
  }

  /** Characterisation of `Run`: it is k exactly when d - k + 1 .. d are present and d - k is not. */
  lemma RunIsMaximalSpan(days: seq<Day>, d: Day, k: nat)
    ensures Run(days, d) == k <==> (forall x :: d - k < x <= d ==> x in days) && d - k !in days
  {
    RunSpan(days, d);
    var r := Run(days, d);
    if (forall x :: d - k < x <= d ==> x in days) && d - k !in days && r < k {
      assert d - k < d - r <= d;
    }
  }

  /** `Run` depends only on which days are present. */
  lemma {:induction false} RunSameMembers(a: seq<Day>, b: seq<Day>, d: Day)
    requires forall x :: x in a <==> x in b
    ensures Run(a, d) == Run(b, d)
    decreases if d in a then d - Earliest(a) + 1 else 0
  {
    if d in a {
      RunSameMembers(a, b, d - 1);
    }
  }

  /** How many entries of `days` are at most `d`. */
  function CountUpTo(days: seq<Day>, d: Day): (c: nat)
    ensures c <= |days|
  {
    if days == [] then 0 else (if days[0] <= d then 1 else 0) + CountUpTo(days[1..], d)
  }

  /** A present day adds at least one to the count of entries up to it. */
  lemma {:induction false} CountUpToStep(days: seq<Day>, d: Day)
    requires d in days
    ensures CountUpTo(days, d) >= CountUpTo(days, d - 1) + 1
  {
    if days[0] != d {
      CountUpToMonotone(days[1..], d);
      CountUpToStep(days[1..], d);
    } else {
      CountUpToMonotone(days[1..], d);
    }
  }

  lemma {:induction false} CountUpToMonotone(days: seq<Day>, d: Day)
    ensures CountUpTo(days, d - 1) <= CountUpTo(days, d)
  {
    if days != [] {
      CountUpToMonotone(days[1..], d);
    }
  }

  /** A run ending at `d` is no longer than the number of entries up to `d`, so no longer than the list. */
  lemma {:induction false} RunBound(days: seq<Day>, d: Day)
    ensures Run(days, d) <= CountUpTo(days, d) <= |days|
    decreases if d in days then d - Earliest(days) + 1 else 0
  {
    if d in days {
      RunBound(days, d - 1);
      CountUpToStep(days, d);
    }
  }

  /**
   * What `getCurrentStreak` returns. An empty list gives 0. When today is present the count starts
   * at 1 with the cursor left on today, so the loop counts today again: 1 + the run ending today.
   * Otherwise the cursor starts at yesterday: the run ending yesterday.
   */
  function CurrentStreakOf(completed: seq<Day>, today: Day): (streak: nat) {
    if |completed| == 0 then 0
    else if today in completed then 1 + Run(completed, today)
    else Run(completed, today - 1)
  }

  /** `getCurrentStreak(completedDates)` with `today` for `new Date()`: the backward walk of the source. */
  method CurrentStreak(completed: seq<Day>, today: Day) returns (streak: nat)
    ensures streak == CurrentStreakOf(completed, today)
  {
    if |completed| == 0 {
      return 0;
    }
    streak := 0;
    var cursor := today;
    if today in completed {
      streak := 1;
    } else {
      cursor := today - 1;
    }
    while cursor in completed
      invariant streak + Run(completed, cursor) == CurrentStreakOf(completed, today)
      decreases cursor - Earliest(completed)
    {
      streak := streak + 1;
      cursor := cursor - 1;
    }
  }

  /** The cases of `getCurrentStreak`: empty, today absent (run ending yesterday), today present (counted twice). */
  lemma CurrentStreakCases(completed: seq<Day>, today: Day)
    ensures completed == [] ==> CurrentStreakOf(completed, today) == 0
    ensures today !in completed ==> CurrentStreakOf(completed, today) == Run(completed, today - 1)
    ensures today !in completed && today - 1 !in completed ==> CurrentStreakOf(completed, today) == 0
    ensures today in completed ==> CurrentStreakOf(completed, today) == 2 + Run(completed, today - 1)
    ensures today in completed ==> CurrentStreakOf(completed, today) >= 2
    ensures CurrentStreakOf([today], today) == 2
  {
    assert today - 1 !in [today];
    assert Run([today], today - 1) == 0;
    assert Run([today], today) == 1;
  }

  /** The current streak exceeds the list length by at most one, and only when today is present. */
  lemma CurrentStreakBound(completed: seq<Day>, today: Day)
    ensures CurrentStreakOf(completed, today) <= |completed| + 1
    ensures today !in completed ==> CurrentStreakOf(completed, today) <= |completed|
  {
    RunBound(completed, today);
    RunBound(completed, today - 1);
  }

  /** Three unbroken days before an uncompleted today give 3; a lone day two days back gives 0. */
  lemma CurrentStreakExamples(t: Day)
    ensures CurrentStreakOf([t - 3, t - 2, t - 1], t) == 3
    ensures CurrentStreakOf([t - 2], t) == 0
    ensures CurrentStreakOf([t, t - 1], t) == 3
  {
    var s := [t - 3, t - 2, t - 1];
    RunIsMaximalSpan(s, t - 1, 3);
    RunIsMaximalSpan([t, t - 1], t, 2);
  }

  /**
   * The current streak as evidently intended: consecutive completed days walking back from
   * today, where today counts once if it is completed and the walk starts at yesterday if not.
   */
  function IntendedCurrentStreakOf(completed: seq<Day>, today: Day): (streak: nat) {
    if today in completed then Run(completed, today) else Run(completed, today - 1)
  }

  /** `getCurrentStreak` with the cursor moved to yesterday after counting today, as the comment in its other branch implies. */
  method CurrentStreakCorrected(completed: seq<Day>, today: Day) returns (streak: nat)
    ensures streak == IntendedCurrentStreakOf(completed, today)
  {
    if |completed| == 0 {
      return 0;
    }
    streak := 0;
    var cursor := today - 1;
    if today in completed {
      streak := 1;
    }
    while cursor in completed
      invariant streak + Run(completed, cursor) == IntendedCurrentStreakOf(completed, today)
      decreases cursor - Earliest(completed)
    {
      streak := streak + 1;
      cursor := cursor - 1;
    }
  }

  /** As written, a completed today is counted once too often. */
  lemma CurrentStreakCountsTodayTwice(completed: seq<Day>, today: Day)
    requires today in completed
    ensures CurrentStreakOf(completed, today) == IntendedCurrentStreakOf(completed, today) + 1
  {
  }

  /** The intended streak agrees with the as-written one whenever today is not completed. */
  lemma CurrentStreakAgreesWithoutToday(completed: seq<Day>, today: Day)
    requires today !in completed
    ensures CurrentStreakOf(completed, today) == IntendedCurrentStreakOf(completed, today)
  {
  }

  /** The intended streak gives 1 for today alone, 2 for today and yesterday, and never exceeds the list. */
  lemma IntendedCurrentStreakExamples(t: Day)
    ensures IntendedCurrentStreakOf([t], t) == 1
    ensures IntendedCurrentStreakOf([t, t - 1], t) == 2
    ensures IntendedCurrentStreakOf([t - 3, t - 2, t - 1], t) == 3
    ensures IntendedCurrentStreakOf([t - 2], t) == 0
  {
    assert Run([t], t - 1) == 0;
    RunIsMaximalSpan([t, t - 1], t, 2);
    RunIsMaximalSpan([t - 3, t - 2, t - 1], t - 1, 3);
  }

  /** The intended streak is at most the number of completed entries. */
  lemma IntendedCurrentStreakBound(completed: seq<Day>, today: Day)
    ensures IntendedCurrentStreakOf(completed, today) <= |completed|
  {
    RunBound(completed, today);
    RunBound(completed, today - 1);
  }

  /**
   * The length of the `+1` chain ending at index j of a sorted list: it grows by one when the
   * previous entry is exactly the day before, and starts again at 1 otherwise (`currentStreak`).
   */
  function RunEnd(s: seq<Day>, j: nat): (r: nat)
    requires j < |s|
    ensures 1 <= r <= j + 1
  {
    if j == 0 || s[j - 1] + 1 != s[j] then 1 else RunEnd(s, j - 1) + 1
  }

  /** The longest chain ending among the first n entries. */
  function LongestUpTo(s: seq<Day>, n: nat): (r: nat)
    requires n <= |s|
    ensures r <= n && (n > 0 ==> r >= 1)
  {
    if n == 0 then 0
    else
      var prev := LongestUpTo(s, n - 1);
      var here := RunEnd(s, n - 1);
      if prev < here then here else prev
  }

  /** A chain of the longest length ends somewhere, and no chain is longer. */
  lemma {:induction false} LongestUpToIsMax(s: seq<Day>, n: nat)
    requires 0 < n <= |s|
    ensures exists j :: 0 <= j < n && RunEnd(s, j) == LongestUpTo(s, n)
    ensures forall j :: 0 <= j < n ==> RunEnd(s, j) <= LongestUpTo(s, n)
  {
    if n == 1 {
      assert RunEnd(s, 0) == LongestUpTo(s, 1);
    } else {
      LongestUpToIsMax(s, n - 1);
      var j :| 0 <= j < n - 1 && RunEnd(s, j) == LongestUpTo(s, n - 1);
      if LongestUpTo(s, n - 1) < RunEnd(s, n - 1) {
        assert RunEnd(s, n - 1) == LongestUpTo(s, n);
      } else {
        assert RunEnd(s, j) == LongestUpTo(s, n);
      }
    }
  }

  /** What `getLongestStreak` returns: 0 for no days, else the longest chain of the sorted copy. */
  function LongestStreakOf(completed: seq<Day>): (r: nat)
    ensures completed == [] ==> r == 0
    ensures |completed| > 0 ==> 1 <= r <= |completed|
  {
    if |completed| == 0 then 0 else LongestUpTo(Sort(completed), |completed|)
  }

  /** `getLongestStreak(completedDates)`: one pass over a sorted copy, as the source's for loop. */
  method LongestStreak(completed: seq<Day>) returns (longest: nat)
    ensures longest == LongestStreakOf(completed)
  {
    if |completed| == 0 {
      return 0;
    }
    var sorted := Sort(completed);
    longest := 1;
    var current := 1;
    for i := 1 to |sorted|
      invariant current == RunEnd(sorted, i - 1)
      invariant (if longest < current then current else longest) == LongestUpTo(sorted, i)
      invariant longest <= LongestUpTo(sorted, i)
    {
      if sorted[i - 1] + 1 == sorted[i] {
        current := current + 1;
      } else {
        longest := if longest < current then current else longest;
        current := 1;
      }
    }
    longest := if longest < current then current else longest;
  }

  /** A single completed day gives a longest streak of exactly 1. */
  lemma LongestStreakSingle(d: Day)
    ensures LongestStreakOf([d]) == 1
  {
  }

  /** The longest streak depends only on which keys occur how often, not on their order. */
  lemma LongestStreakIgnoresOrder(a: seq<Day>, b: seq<Day>)
    requires multiset(a) == multiset(b)
    ensures LongestStreakOf(a) == LongestStreakOf(b)
  {
    SortIgnoresOrder(a, b);
    assert |a| == |multiset(a)| == |multiset(b)| == |b|;
  }

  /** In a sorted list without duplicates, the chain ending at j is the run of days ending at s[j]. */
  lemma {:induction false} RunEndIsRun(s: seq<Day>, j: nat)
    requires Sorted(s) && NoDup(s) && j < |s|
    ensures RunEnd(s, j) == Run(s, s[j])
  {
    assert s[j] in s;
    if j == 0 || s[j - 1] + 1 != s[j] {
      assert s[j] - 1 !in s by {
        forall k | 0 <= k < |s| ensures s[k] != s[j] - 1 {
          if k < j {
            assert s[k] <= s[j - 1] < s[j];
          } else {
            assert s[j] <= s[k];
          }
        }
      }
    } else {
      RunEndIsRun(s, j - 1);
      assert s[j - 1] == s[j] - 1;
    }
  }

  /** The sorted copy of a duplicate-free list is duplicate-free. */
  lemma SortNoDup(s: seq<Day>)
    requires NoDup(s)
    ensures NoDup(Sort(s))
  {
    NoDupMultiset(s);
    NoDupMultiset(Sort(s));
  }

  /**
   * For duplicate-free input, `getLongestStreak` is the longest run of consecutive days: some
   * present day ends a run of that length, and no present day ends a longer one.
   */
  lemma LongestStreakIsLongestRun(completed: seq<Day>)
    requires NoDup(completed) && |completed| > 0
    ensures exists d :: d in completed && Run(completed, d) == LongestStreakOf(completed)
    ensures forall d :: d in completed ==> Run(completed, d) <= LongestStreakOf(completed)
  {
    var s := Sort(completed);
    var n := |completed|;
    SortNoDup(completed);
    assert forall x :: x in s <==> x in completed by {
      forall x ensures x in s <==> x in completed {
        assert x in s <==> x in multiset(s);
        assert x in completed <==> x in multiset(completed);
      }
    }
    LongestUpToIsMax(s, n);
    var j :| 0 <= j < n && RunEnd(s, j) == LongestUpTo(s, n);
    RunEndIsRun(s, j);
    RunSameMembers(s, completed, s[j]);
    assert s[j] in completed;
    forall d | d in completed ensures Run(completed, d) <= LongestStreakOf(completed) {
      assert d in s;
      var k :| 0 <= k < n && s[k] == d;
      RunEndIsRun(s, k);
      RunSameMembers(s, completed, d);
    }
  }

  /** The longest streak of a list that is already sorted is its longest chain. */
  lemma LongestStreakOfSorted(s: seq<Day>)
    requires Sorted(s) && |s| > 0
    ensures LongestStreakOf(s) == LongestUpTo(s, |s|)
  {
    SortOfSorted(s);
  }

  /** The chain lengths of d, d+1, d+2, d+9: 1, 2, 3, then 1 after the gap. */
  lemma ExampleChains(d: Day, s: seq<Day>)
    requires s == [d, d + 1, d + 2, d + 9]
    ensures Sorted(s)
    ensures RunEnd(s, 0) == 1 && RunEnd(s, 1) == 2 && RunEnd(s, 2) == 3 && RunEnd(s, 3) == 1
  {
    assert RunEnd(s, 1) == 2;
  }

  /** Three consecutive days and a later one give 3 (2024-01-01, -02, -03 and -10, say). */
  lemma LongestStreakExample(d: Day, s: seq<Day>)
    requires s == [d, d + 1, d + 2, d + 9]
    ensures LongestStreakOf(s) == 3
  {
    ExampleChains(d, s);
    LongestStreakOfSorted(s);
    assert LongestUpTo(s, 2) == 2;
    assert LongestUpTo(s, 3) == 3;
  }

  /** The chain lengths of d, d+1, d+1, d+2: the repeated day restarts the chain. */
  lemma DuplicateChains(d: Day, s: seq<Day>)
    requires s == [d, d + 1, d + 1, d + 2]
    ensures Sorted(s)
    ensures RunEnd(s, 0) == 1 && RunEnd(s, 1) == 2 && RunEnd(s, 2) == 1 && RunEnd(s, 3) == 2
  {
  }

  /**
   * A duplicated day following itself fails the "+1 day" test and restarts the chain: the days
   * d, d+1, d+1, d+2 form a run of three, but `getLongestStreak` answers 2.
   */
  lemma DuplicateBreaksChain(d: Day, s: seq<Day>)
    requires s == [d, d + 1, d + 1, d + 2]
    ensures Run(s, d + 2) == 3
    ensures LongestStreakOf(s) == 2
  {
    DuplicateChains(d, s);
    LongestStreakOfSorted(s);
    assert LongestUpTo(s, 2) == 2;
    assert LongestUpTo(s, 3) == 2;
    RunIsMaximalSpan(s, d + 2, 3);
  }
}
