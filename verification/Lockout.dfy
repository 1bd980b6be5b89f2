/**
 The persistent account lockout: one row per username, rewritten at every counted failure, deleted
 by a success, and restarted in place once its lock has expired. Times are nanoseconds. Counters
 wrap as 32-bit integers do in a release build.
 */
module Lockout {
  import opened Wrappers
  import opened Decimal

  /** What the inner backend answers: a user, wrong credentials, or an error of its own. */
  datatype InnerAnswer = Authenticated | WrongCredentials | InnerError

  /** What the database does: a failing write may have been applied, and only its reply lost. */
  datatype Store = Works | ReadFails | WriteFails(applied: bool)

  /** An attempt, and what the inner backend answers should it be asked. */
  datatype Attempt = Attempt(at: int, inner: InnerAnswer, store: Store)
  {
    /** A write of this attempt would leave the table as it was. */
    predicate Lost() {
      store == WriteFails(false)
    }
  }

  datatype Outcome = AccountLocked(retryAfterSecs: nat) | Answered(inner: InnerAnswer) | StoreError(asked: bool)
  {
    /** Was the inner backend called? */
    predicate Asked() {
      Answered? || (StoreError? && asked)
    }
  }

  datatype Config = Config(maxAttempts: nat, duration: nat)
  {
    /** Failures it takes to lock. */
    function Threshold(): (k: nat)
      ensures k > 0
    {
      if maxAttempts <= 1 then 1 else maxAttempts
    }
  }

  datatype Row = Row(failedAttempts: int, firstFailedAt: int, lockedUntil: Option<int>)

  /** `n % k`, counted up one at a time. */
  function Phase(n: nat, k: nat): (r: nat)
    requires k > 0
    ensures r < k && r <= n
  {
    if n == 0 || Phase(n - 1, k) == k - 1 then 0 else Phase(n - 1, k) + 1
  }

  const SECOND: nat := 1_000_000_000

  /** `failed_attempts += 1` on an `i32`. */
  function Increment(x: int): int {
    if x == I32_MAX then I32_MIN else x + 1
  }

  /** `failed_attempts as u32`. */
  function AsU32(x: int): int {
    if x < 0 then x + U32_MAX + 1 else x
  }

  /** The `i32` that reads as `streak`. */
  function CounterOf(streak: nat): int {
    if streak <= I32_MAX then streak else streak - U32_MAX - 1
  }

  /** The row after a failure with no active streak. */
  function FreshRow(now: int, c: Config): Row {
    Row(1, now, if c.maxAttempts <= 1 then Some(now + c.duration) else None)
  }

  /** What an attempt that is let through makes of the row, when the database does as it is told. */
  function Update(existing: Option<Row>, a: Attempt, c: Config): Option<Row> {
    var activeStreak := existing.Some?
      && (existing.value.lockedUntil.None? || existing.value.lockedUntil.value > a.at);
    match a.inner
    case Authenticated => None
    case WrongCredentials =>
      if activeStreak then
        var failed := Increment(existing.value.failedAttempts);
        var row := existing.value.(failedAttempts := failed);
        Some(if AsU32(failed) >= c.maxAttempts then row.(lockedUntil := Some(a.at + c.duration)) else row)
      else
        Some(FreshRow(a.at, c))
    case InnerError => existing
  }

  /** A success writes only if there is a row to delete. */
  predicate Writes(hasRow: bool, inner: InnerAnswer) {
    inner.WrongCredentials? || (inner.Authenticated? && hasRow)
  }

  /** `PersistentLockoutBackend::authenticate` for one username: the new row and the outcome. */
  function Step(existing: Option<Row>, a: Attempt, c: Config): (Option<Row>, Outcome) {
    if a.store.ReadFails? then (existing, StoreError(false))
    else if existing.Some? && existing.value.lockedUntil.Some? && existing.value.lockedUntil.value > a.at then
      (existing, AccountLocked((existing.value.lockedUntil.value - a.at) / SECOND))
    else if Writes(existing.Some?, a.inner) && a.store.WriteFails? then
      (if a.store.applied then Update(existing, a, c) else existing, StoreError(true))
    else
      (Update(existing, a, c), Answered(a.inner))
  }

  // ---------------------------------------------------------------------------------------------
  // The history the row summarises.

  /** Every counted failure so far is in `failures`: is the account locked at `t`? */
  predicate LockedAt(failures: seq<int>, t: int, c: Config) {
    && |failures| > 0 && Phase(|failures|, c.Threshold()) == 0
    && failures[|failures| - 1] + c.duration > t
  }

  /** What one more attempt makes of the failures that count. */
  function Counting(failures: seq<int>, a: Attempt, c: Config): seq<int> {
    if a.store.ReadFails? || LockedAt(failures, a.at, c) || a.Lost() then failures
    else match a.inner
      case Authenticated => []
      case WrongCredentials => failures + [a.at]
      case InnerError => failures
  }

  /**
   The times of the failures that count: wrong credentials on attempts that were not turned away and
   were stored, since the last success that was not turned away and was stored.
   */
  function Counted(history: seq<Attempt>, c: Config): seq<int> {
    if history == [] then []
    else
      Counting(Counted(history[..|history| - 1], c), history[|history| - 1], c)
  }

  /** The row that stands for a list of counted failures. */
  function RowOf(failures: seq<int>, c: Config): Option<Row> {
    if failures == [] then None
    else
      var n := |failures|;
      var streak := Phase(n - 1, c.Threshold()) + 1;
      Some(Row(CounterOf(streak), failures[n - streak],
               if Phase(n, c.Threshold()) == 0 then Some(failures[n - 1] + c.duration) else None))
  }

  /** The row after a whole history. */
  function Fold(history: seq<Attempt>, c: Config): Option<Row> {
    if history == [] then None
    else Step(Fold(history[..|history| - 1], c), history[|history| - 1], c).0
  }

  lemma RowOfOneMore(failures: seq<int>, t: int, c: Config)
    ensures var n, k := |failures|, c.Threshold();
      RowOf(failures + [t], c) == Some(Row(
        CounterOf(Phase(n, k) + 1), (failures + [t])[n - Phase(n, k)],
        if Phase(n + 1, k) == 0 then Some(t + c.duration) else None))
  {
  }

  lemma CounterCounts(streak: nat)
    requires streak < U32_MAX
    ensures Increment(CounterOf(streak)) == CounterOf(streak + 1)
    ensures AsU32(CounterOf(streak + 1)) == streak + 1
  {
  }

  lemma NextPhase(n: nat, k: nat)
    requires n > 0 && k > 0 && Phase(n, k) != 0
    ensures Phase(n - 1, k) + 1 == Phase(n, k) < k
    ensures Phase(n + 1, k) == if Phase(n, k) + 1 == k then 0 else Phase(n, k) + 1
  {
  }

  /** A failure during a streak counts one up, and locks at the limit. */
  lemma StreakGrows(before: Option<Row>, streak: nat, first: int, a: Attempt, c: Config)
    requires before == Some(Row(CounterOf(streak), first, None))
    requires 0 < streak < U32_MAX && a.inner.WrongCredentials?
    ensures Update(before, a, c) == Some(Row(
      CounterOf(streak + 1), first, if streak + 1 >= c.maxAttempts then Some(a.at + c.duration) else None))
  {
    CounterCounts(streak);
  }

  /** The row during a streak, and one failure later. */
  lemma StreakRows(failures: seq<int>, t: int, c: Config) returns (streak: nat, first: int)
    requires c.maxAttempts <= U32_MAX
    requires failures != [] && Phase(|failures|, c.Threshold()) != 0
    ensures 0 < streak < U32_MAX
    ensures RowOf(failures, c) == Some(Row(CounterOf(streak), first, None))
    ensures RowOf(failures + [t], c) == Some(Row(
      CounterOf(streak + 1), first, if streak + 1 >= c.maxAttempts then Some(t + c.duration) else None))
  {
    NextPhase(|failures|, c.Threshold());
    RowOfOneMore(failures, t, c);
    streak := Phase(|failures|, c.Threshold());
    first := failures[|failures| - streak];
  }

  lemma FailureFollows(failures: seq<int>, a: Attempt, c: Config)
    requires c.maxAttempts <= U32_MAX
    requires failures != [] && Phase(|failures|, c.Threshold()) != 0 && a.inner.WrongCredentials?
    ensures Update(RowOf(failures, c), a, c) == RowOf(failures + [a.at], c)
  {
    var streak, first := StreakRows(failures, a.at, c);
    StreakGrows(RowOf(failures, c), streak, first, a, c);
  }

  /** What the update does, in terms of the failures the row stands for. */
  lemma UpdateFollows(failures: seq<int>, a: Attempt, c: Config)
    requires c.maxAttempts <= U32_MAX && !LockedAt(failures, a.at, c)
    ensures Update(RowOf(failures, c), a, c) == match a.inner
      case Authenticated => None
      case WrongCredentials => RowOf(failures + [a.at], c)
      case InnerError => RowOf(failures, c)
  {
    if failures != [] && a.inner.WrongCredentials? {
      if Phase(|failures|, c.Threshold()) == 0 {
        FreshAfterLock(failures, a.at, c);
      } else {
        FailureFollows(failures, a, c);
      }
    }
  }

  lemma FreshAfterLock(failures: seq<int>, t: int, c: Config)
    requires Phase(|failures|, c.Threshold()) == 0
    ensures RowOf(failures + [t], c) == Some(FreshRow(t, c))
  {
    PhaseAfterZero(|failures|, c.Threshold());
    FirstOfStreak(failures + [t], c);
  }

  lemma FirstOfStreak(failures: seq<int>, c: Config)
    requires failures != [] && Phase(|failures| - 1, c.Threshold()) == 0
    requires Phase(|failures|, c.Threshold()) == if c.Threshold() == 1 then 0 else 1
    ensures RowOf(failures, c) == Some(FreshRow(failures[|failures| - 1], c))
  {
  }

  lemma PhaseAfterZero(n: nat, k: nat)
    requires k > 0 && Phase(n, k) == 0
    ensures Phase(n + 1, k) == if k == 1 then 0 else 1
  {
  }

  /** The lock in the row is the lock of the failures. */
  lemma LockReads(failures: seq<int>, t: int, c: Config)
    ensures var row := RowOf(failures, c);
      && (row.Some? <==> failures != [])
      && (LockedAt(failures, t, c) <==>
            row.Some? && row.value.lockedUntil.Some? && row.value.lockedUntil.value > t)
      && (LockedAt(failures, t, c) ==> row.value.lockedUntil.value == failures[|failures| - 1] + c.duration)
  {
  }

  /** The outcome in terms of the failures that count. */
  function OutcomeFor(failures: seq<int>, a: Attempt, c: Config): Outcome {
    if a.store.ReadFails? then StoreError(false)
    else if LockedAt(failures, a.at, c) then
      AccountLocked((failures[|failures| - 1] + c.duration - a.at) / SECOND)
    else if Writes(failures != [], a.inner) && a.store.WriteFails? then StoreError(true)
    else Answered(a.inner)
  }

  /** One attempt keeps the row in step with the history. */
  lemma StepFollows(failures: seq<int>, a: Attempt, c: Config)
    requires c.maxAttempts <= U32_MAX
    ensures Step(RowOf(failures, c), a, c) == (RowOf(Counting(failures, a, c), c), OutcomeFor(failures, a, c))
  {
    LockReads(failures, a.at, c);
    if !LockedAt(failures, a.at, c) { UpdateFollows(failures, a, c); }
  }

  /** The stored row is a closed form of the counted failures, after any history. */
  lemma {:induction false} FoldMatches(history: seq<Attempt>, c: Config)
    requires c.maxAttempts <= U32_MAX
    ensures Fold(history, c) == RowOf(Counted(history, c), c)
  {
    if history != [] {
      FoldMatches(history[..|history| - 1], c);
      StepFollows(Counted(history[..|history| - 1], c), history[|history| - 1], c);
    }
  }

  /** Without a lock the counter is below the limit; with one it is at it and dated by the last failure. */
  lemma RowShape(history: seq<Attempt>, c: Config)
    requires c.maxAttempts <= U32_MAX && Fold(history, c).Some?
    ensures var row, failures := Fold(history, c).value, Counted(history, c);
      && failures != []
      && (row.lockedUntil.None? ==> 1 <= AsU32(row.failedAttempts) < c.maxAttempts)
      && (row.lockedUntil.Some? ==> AsU32(row.failedAttempts) == c.Threshold()
                                    && row.lockedUntil.value == failures[|failures| - 1] + c.duration)
      && AsU32(row.failedAttempts) <= |failures|
      && row.firstFailedAt == failures[|failures| - AsU32(row.failedAttempts)]
  {
    FoldMatches(history, c);
    var n, k := |Counted(history, c)|, c.Threshold();
  }

  /**
   A success clears the row, and only wrong credentials that reach the inner backend count. An attempt
   that ends in a database error changes nothing, or what it would have changed.
   */
  lemma WhatCounts(history: seq<Attempt>, a: Attempt, c: Config)
    requires c.maxAttempts <= U32_MAX
    ensures var before := Fold(history, c);
      var (after, outcome) := Step(before, a, c);
      && Fold(history + [a], c) == after
      && (outcome.AccountLocked? || !outcome.Asked() || a.inner.InnerError? ==> after == before)
      && (outcome == Answered(Authenticated) ==> after == None)
      && (outcome == Answered(WrongCredentials) ==>
            after.Some? && Counted(history + [a], c) == Counted(history, c) + [a.at])
      && (outcome.StoreError? ==> after == before || after == Step(before, a.(store := Works), c).0)
  {
    assert (history + [a])[..|history|] == history;
    FoldMatches(history, c);
    StepFollows(Counted(history, c), a, c);
  }

  lemma HistoryStep(history: seq<Attempt>, a: Attempt, c: Config)
    requires c.maxAttempts <= U32_MAX
    ensures Step(RowOf(Counted(history, c), c), a, c)
         == (RowOf(Counted(history + [a], c), c), OutcomeFor(Counted(history, c), a, c))
  {
    assert (history + [a])[..|history|] == history;
    StepFollows(Counted(history, c), a, c);
  }

  // ---------------------------------------------------------------------------------------------
  // Time bounds over whole runs.

  /** Does an attempt made after `history` reach the inner backend? */
  predicate Reaches(history: seq<Attempt>, a: Attempt, c: Config) {
    Step(Fold(history, c), a, c).1.Asked()
  }

  /** How many attempts of `run`, made after `history`, reach the inner backend. */
  function InnerCalls(history: seq<Attempt>, run: seq<Attempt>, c: Config): nat {
    if run == [] then 0
    else
      InnerCalls(history, run[..|run| - 1], c)
      + (if Reaches(history + run[..|run| - 1], run[|run| - 1], c) then 1 else 0)
  }

  /** Those of them that were wrong credentials. */
  function FailingCalls(history: seq<Attempt>, run: seq<Attempt>, c: Config): nat {
    if run == [] then 0
    else
      FailingCalls(history, run[..|run| - 1], c)
      + (if Reaches(history + run[..|run| - 1], run[|run| - 1], c) && run[|run| - 1].inner.WrongCredentials?
         then 1 else 0)
  }

  /** Those of them that the database did not store. */
  function Unstored(history: seq<Attempt>, run: seq<Attempt>, c: Config): nat {
    if run == [] then 0
    else
      Unstored(history, run[..|run| - 1], c)
      + (if Reaches(history + run[..|run| - 1], run[|run| - 1], c) && run[|run| - 1].inner.WrongCredentials?
            && run[|run| - 1].Lost() then 1 else 0)
  }

  predicate SuccessFree(history: seq<Attempt>, run: seq<Attempt>, c: Config) {
    forall i :: 0 <= i < |run| ==> !(Reaches(history + run[..i], run[i], c) && run[i].inner.Authenticated?)
  }

  predicate InOrder(history: seq<Attempt>) {
    forall i, j :: 0 <= i < j < |history| ==> history[i].at <= history[j].at
  }

  /** While a lock lasts, nothing reaches the inner backend and nothing changes. */
  lemma {:induction false} LockShutsOut(history: seq<Attempt>, run: seq<Attempt>, c: Config)
    requires Fold(history, c).Some? && Fold(history, c).value.lockedUntil.Some?
    requires forall i :: 0 <= i < |run| ==> run[i].at < Fold(history, c).value.lockedUntil.value
    ensures InnerCalls(history, run, c) == 0 && Fold(history + run, c) == Fold(history, c)
  {
    if run == [] {
      assert history + run == history;
    } else {
      var front := run[..|run| - 1];
      LockShutsOut(history, front, c);
      assert (history + run)[..|history + run| - 1] == history + front;
    }
  }

  /** A stored failure that locks at `t` keeps every attempt before `t + duration` from the inner backend. */
  lemma LockingFailureShutsOut(history: seq<Attempt>, a: Attempt, run: seq<Attempt>, c: Config)
    requires c.maxAttempts <= U32_MAX
    requires Reaches(history, a, c) && a.inner.WrongCredentials? && !a.Lost()
    requires Phase(|Counted(history, c)| + 1, c.Threshold()) == 0
    requires forall i :: 0 <= i < |run| ==> run[i].at < a.at + c.duration
    ensures InnerCalls(history + [a], run, c) == 0
  {
    WhatCounts(history, a, c);
    FoldMatches(history + [a], c);
    LockShutsOut(history + [a], run, c);
  }

  /** Successive failures are in order, and each group of `Threshold` is a full lock after the last. */
  predicate Spaced(failures: seq<int>, c: Config) {
    && (forall i, j :: 0 <= i < j < |failures| ==> failures[i] <= failures[j])
    && (forall i :: 0 < i < |failures| && Phase(i, c.Threshold()) == 0 ==> failures[i - 1] + c.duration <= failures[i])
  }

  lemma InOrderBefore(history: seq<Attempt>, a: Attempt)
    requires InOrder(history + [a])
    ensures InOrder(history) && Before(history, a.at)
  {
    var all := history + [a];
    forall i, j | 0 <= i < j < |history| ensures history[i].at <= history[j].at {
      assert all[i].at <= all[j].at;
    }
    forall i | 0 <= i < |history| ensures history[i].at <= a.at {
      assert all[i].at <= all[|history|].at;
    }
  }

  predicate UpTo(failures: seq<int>, t: int) {
    forall i :: 0 <= i < |failures| ==> failures[i] <= t
  }

  lemma SpacedOneMore(failures: seq<int>, a: Attempt, c: Config, hi: int)
    requires Spaced(failures, c) && UpTo(failures, a.at) && a.at <= hi
    ensures Spaced(Counting(failures, a, c), c) && UpTo(Counting(failures, a, c), hi)
  {
  }

  predicate Before(history: seq<Attempt>, hi: int) {
    forall i :: 0 <= i < |history| ==> history[i].at <= hi
  }

  lemma {:induction false} CountedSpaced(history: seq<Attempt>, c: Config, hi: int)
    requires InOrder(history) && Before(history, hi)
    ensures Spaced(Counted(history, c), c) && UpTo(Counted(history, c), hi)
  {
    if history != [] {
      var front, a := history[..|history| - 1], history[|history| - 1];
      assert history == front + [a];
      InOrderBefore(front, a);
      CountedSpaced(front, c, a.at);
      SpacedOneMore(Counted(front, c), a, c, hi);
    }
  }

  lemma OneMore(history: seq<Attempt>, a: Attempt, c: Config)
    requires c.maxAttempts <= U32_MAX
    ensures Counted(history + [a], c) == Counting(Counted(history, c), a, c)
    ensures Reaches(history, a, c) <==> !a.store.ReadFails? && !LockedAt(Counted(history, c), a.at, c)
  {
    assert (history + [a])[..|history|] == history;
    FoldMatches(history, c);
    StepFollows(Counted(history, c), a, c);
  }

  lemma SuccessFreeBefore(history: seq<Attempt>, run: seq<Attempt>, a: Attempt, c: Config)
    requires SuccessFree(history, run + [a], c)
    ensures SuccessFree(history, run, c)
    ensures !(Reaches(history + run, a, c) && a.inner.Authenticated?)
  {
    var all := run + [a];
    assert all[..|run|] == run && all[|run|] == a;
    forall i | 0 <= i < |run| ensures !(Reaches(history + run[..i], run[i], c) && run[i].inner.Authenticated?) {
      assert all[..i] == run[..i] && all[i] == run[i];
    }
  }

  /** The counts of a run that goes on for one more attempt. */
  lemma CallsOneMore(history: seq<Attempt>, run: seq<Attempt>, a: Attempt, c: Config)
    ensures var guess := Reaches(history + run, a, c) && a.inner.WrongCredentials?;
      && FailingCalls(history, run + [a], c) == FailingCalls(history, run, c) + (if guess then 1 else 0)
      && Unstored(history, run + [a], c) == Unstored(history, run, c) + (if guess && a.Lost() then 1 else 0)
  {
    var all := run + [a];
    assert all[..|all| - 1] == run && all[|all| - 1] == a;
  }

  /** The failures past the first `n` are of this stretch of time. */
  predicate Tail(failures: seq<int>, n: nat, lo: int, hi: int) {
    n <= |failures| && forall i :: n <= i < |failures| ==> lo <= failures[i] <= hi
  }

  lemma TailOneMore(failures: seq<int>, a: Attempt, c: Config, n: nat, lo: int, hi: int)
    requires Tail(failures, n, lo, hi) && lo <= a.at <= hi
    requires a.inner.Authenticated? ==> a.store.ReadFails? || LockedAt(failures, a.at, c)
    ensures var more := Counting(failures, a, c);
      var counts := !a.store.ReadFails? && !LockedAt(failures, a.at, c) && a.inner.WrongCredentials? && !a.Lost();
      && Tail(more, n, lo, hi) && |more| == |failures| + (if counts then 1 else 0)
  {
  }

  predicate Within(run: seq<Attempt>, lo: int, hi: int) {
    forall i :: 0 <= i < |run| ==> lo <= run[i].at <= hi
  }

  /** The counted failures have grown by the failing calls that were stored. */
  predicate Grown(history: seq<Attempt>, run: seq<Attempt>, c: Config, lo: int, hi: int) {
    var before, after := Counted(history, c), Counted(history + run, c);
    && Tail(after, |before|, lo, hi)
    && |after| + Unstored(history, run, c) == |before| + FailingCalls(history, run, c)
  }

  lemma GrownOneMore(history: seq<Attempt>, run: seq<Attempt>, a: Attempt, c: Config, lo: int, hi: int)
    requires c.maxAttempts <= U32_MAX && Grown(history, run, c, lo, hi) && lo <= a.at <= hi
    requires !(Reaches(history + run, a, c) && a.inner.Authenticated?)
    ensures Grown(history, run + [a], c, lo, hi)
  {
    assert history + (run + [a]) == history + run + [a];
    OneMore(history + run, a, c);
    CallsOneMore(history, run, a, c);
    TailOneMore(Counted(history + run, c), a, c, |Counted(history, c)|, lo, hi);
  }

  /** Over a success-free run the counted failures only grow, by the stored failing calls of the run. */
  lemma {:induction false} CountedGrows(history: seq<Attempt>, run: seq<Attempt>, c: Config, lo: int, hi: int)
    requires c.maxAttempts <= U32_MAX && Within(run, lo, hi) && SuccessFree(history, run, c)
    ensures Grown(history, run, c, lo, hi)
  {
    if run == [] {
      assert history + run == history;
    } else {
      var front, a := run[..|run| - 1], run[|run| - 1];
      assert run == front + [a];
      SuccessFreeBefore(history, front, a, c);
      CountedGrows(history, front, c, lo, hi);
      GrownOneMore(history, front, a, c, lo, hi);
    }
  }

  lemma {:induction false} PhaseAdvances(i: nat, s: nat, k: nat)
    requires k > 0 && Phase(i, k) + s <= k
    ensures Phase(i + s, k) == if Phase(i, k) + s == k then 0 else Phase(i, k) + s
  {
    if s > 0 { PhaseAdvances(i, s - 1, k); }
  }

  /** Any `Threshold` consecutive steps through the failures cross a lock. */
  lemma OneLockApart(failures: seq<int>, i: nat, c: Config)
    requires Spaced(failures, c) && i + c.Threshold() < |failures|
    ensures failures[i] + c.duration <= failures[i + c.Threshold()]
  {
    var k := c.Threshold();
    var j := i + (k - Phase(i, k));
    PhaseAdvances(i, k - Phase(i, k), k);
    assert failures[j - 1] + c.duration <= failures[j];
    assert failures[i] <= failures[j - 1];
    assert failures[j] <= failures[i + k];
  }

  lemma {:induction false} LocksApart(failures: seq<int>, i: nat, m: nat, c: Config)
    requires Spaced(failures, c) && i + m * c.Threshold() < |failures|
    ensures failures[i] + m * c.duration <= failures[i + m * c.Threshold()]
  {
    if m > 0 {
      assert m * c.Threshold() == (m - 1) * c.Threshold() + c.Threshold();
      assert m * c.duration == (m - 1) * c.duration + c.duration;
      LocksApart(failures, i, m - 1, c);
      OneLockApart(failures, i + (m - 1) * c.Threshold(), c);
    }
  }

  lemma MulMonotone(k: nat, m: nat, q: nat)
    requires m <= q
    ensures k * m <= k * q
  {
  }

  lemma MulOrder(d: nat, a: nat, b: nat)
    ensures a < b ==> d * a + d <= d * b
  {
    if a < b {
      MulMonotone(d, a + 1, b);
      assert d * (a + 1) == d * a + d;
    }
  }

  lemma DivideBound(m: nat, d: nat, elapsed: nat)
    requires d > 0 && m * d <= elapsed
    ensures m <= elapsed / d
  {
    var q := elapsed / d;
    assert elapsed < d * q + d;
    MulOrder(d, q, m);
  }

  /** `n` failures past the first `from`, each `k` of them a lock of `d` apart, take this long. */
  lemma GroupBound(n: nat, k: nat, m: nat, d: nat, elapsed: nat)
    requires k > 0 && d > 0 && n <= k * (m + 1) && m * d <= elapsed
    ensures n <= k * (elapsed / d + 1)
  {
    DivideBound(m, d, elapsed);
    MulMonotone(k, m + 1, elapsed / d + 1);
  }

  lemma Groups(n: nat, k: nat) returns (m: nat)
    requires n > 0 && k > 0
    ensures m * k <= n - 1 && n <= k * (m + 1)
  {
    m := (n - 1) / k;
    assert n - 1 == m * k + (n - 1) % k;
  }

  lemma SpacedBound(failures: seq<int>, from: nat, first: int, last: int, c: Config)
    requires Spaced(failures, c) && c.duration > 0 && from < |failures|
    requires forall i :: from <= i < |failures| ==> first <= failures[i] <= last
    ensures |failures| - from <= c.Threshold() * ((last - first) / c.duration + 1)
  {
    var n := |failures| - from;
    var m := Groups(n, c.Threshold());
    LocksApart(failures, from, m, c);
    assert first <= failures[from] && failures[from + m * c.Threshold()] <= last;
    GroupBound(n, c.Threshold(), m, c.duration, last - first);
  }

  /**
   A run without a success lets at most `Threshold` stored wrong guesses through for each full lock it
   has time for, and `Threshold` more, whatever came before it.
   */
  lemma GuessBound(history: seq<Attempt>, run: seq<Attempt>, c: Config)
    requires c.maxAttempts <= U32_MAX && c.duration > 0 && run != []
    requires InOrder(history + run) && SuccessFree(history, run, c)
    ensures var elapsed := run[|run| - 1].at - run[0].at;
      && elapsed >= 0
      && FailingCalls(history, run, c) <= c.Threshold() * (elapsed / c.duration + 1) + Unstored(history, run, c)
  {
    var lo, hi := run[0].at, run[|run| - 1].at;
    RunInOrder(history, run);
    CountedGrows(history, run, c, lo, hi);
    CountedSpaced(history + run, c, hi);
    var from := |Counted(history, c)|;
    if from < |Counted(history + run, c)| {
      SpacedBound(Counted(history + run, c), from, lo, hi, c);
    } else {
      NoGuesses(c.Threshold(), hi - lo, c.duration);
    }
  }

  /** With a database that works the bound is on all guesses. */
  lemma {:induction false} NothingUnstored(history: seq<Attempt>, run: seq<Attempt>, c: Config)
    requires forall i :: 0 <= i < |run| ==> !run[i].Lost()
    ensures Unstored(history, run, c) == 0
  {
    if run != [] { NothingUnstored(history, run[..|run| - 1], c); }
  }

  /** `n` guesses at one moment, none of them stored. */
  function UnstoredGuesses(n: nat, t: int): seq<Attempt> {
    seq(n, _ => Attempt(t, WrongCredentials, WriteFails(false)))
  }

  /** Without the database the throttle is none: any number of such guesses reach the inner backend. */
  lemma {:induction false} UnstoredGuessesAreFree(n: nat, t: int, c: Config)
    requires c.maxAttempts <= U32_MAX
    ensures var run := UnstoredGuesses(n, t);
      Counted(run, c) == [] && FailingCalls([], run, c) == n && Unstored([], run, c) == n
  {
    if n > 0 {
      var front, a := UnstoredGuesses(n - 1, t), Attempt(t, WrongCredentials, WriteFails(false));
      UnstoredGuessesAreFree(n - 1, t, c);
      assert UnstoredGuesses(n, t) == front + [a];
      assert [] + front == front;
      OneMore(front, a, c);
      CallsOneMore([], front, a, c);
    }
  }

  // The bound is attained.

  function Burst(n: nat, at: int): seq<Attempt> {
    seq(n, _ => Attempt(at, WrongCredentials, Works))
  }

  /** `t + m * d`, step by step. */
  function Steps(m: nat, t: int, d: nat): int {
    if m == 0 then t else Steps(m - 1, t, d) + d
  }

  lemma {:induction false} StepsProduct(m: nat, t: int, d: nat)
    ensures Steps(m, t, d) == t + m * d
  {
    if m > 0 {
      StepsProduct(m - 1, t, d);
      assert m * d == (m - 1) * d + d;
    }
  }

  /** `Threshold` guesses at each of `m` moments, a lock apart. */
  function Bursts(m: nat, t: int, c: Config): seq<Attempt> {
    if m == 0 then [] else Bursts(m - 1, t, c) + Burst(c.Threshold(), Steps(m - 1, t, c.duration))
  }

  /** No streak is under way, and no lock is on at `at`. */
  predicate Ready(history: seq<Attempt>, at: int, c: Config) {
    Phase(|Counted(history, c)|, c.Threshold()) == 0 && !LockedAt(Counted(history, c), at, c)
  }

  lemma {:induction false} CallsConcat(history: seq<Attempt>, a: seq<Attempt>, b: seq<Attempt>, c: Config)
    ensures FailingCalls(history, a + b, c) == FailingCalls(history, a, c) + FailingCalls(history + a, b, c)
    ensures Unstored(history, a + b, c) == Unstored(history, a, c) + Unstored(history + a, b, c)
  {
    if b == [] {
      assert a + b == a;
    } else {
      var front, last := b[..|b| - 1], b[|b| - 1];
      CallsConcat(history, a, front, c);
      assert b == front + [last] && a + b == a + front + [last];
      assert history + (a + front) == history + a + front;
      CallsOneMore(history, a + front, last, c);
      CallsOneMore(history + a, front, last, c);
    }
  }

  /** During a burst the failures are those before it and the guesses so far, and every guess gets through. */
  lemma {:induction false} BurstRuns(history: seq<Attempt>, n: nat, at: int, c: Config)
    requires c.maxAttempts <= U32_MAX && Ready(history, at, c) && n <= c.Threshold()
    ensures Counted(history + Burst(n, at), c) == Counted(history, c) + seq(n, _ => at)
    ensures FailingCalls(history, Burst(n, at), c) == n && Unstored(history, Burst(n, at), c) == 0
  {
    if n == 0 {
      assert history + Burst(0, at) == history;
      assert Counted(history, c) + seq(0, _ => at) == Counted(history, c);
    } else {
      var front, a := Burst(n - 1, at), Attempt(at, WrongCredentials, Works);
      BurstRuns(history, n - 1, at, c);
      assert Burst(n, at) == front + [a];
      NotLockedInBurst(Counted(history, c), n - 1, at, c);
      OneMoreGuess(history, front, a, c);
      assert Counted(history, c) + seq(n, _ => at) == Counted(history, c) + seq(n - 1, _ => at) + [at];
    }
  }

  lemma OneMoreGuess(history: seq<Attempt>, run: seq<Attempt>, a: Attempt, c: Config)
    requires c.maxAttempts <= U32_MAX && a.inner.WrongCredentials? && a.store.Works?
    requires !LockedAt(Counted(history + run, c), a.at, c)
    ensures Counted(history + (run + [a]), c) == Counted(history + run, c) + [a.at]
    ensures FailingCalls(history, run + [a], c) == FailingCalls(history, run, c) + 1
    ensures Unstored(history, run + [a], c) == Unstored(history, run, c)
  {
    assert history + (run + [a]) == history + run + [a];
    OneMore(history + run, a, c);
    CallsOneMore(history, run, a, c);
  }

  lemma NotLockedInBurst(failures: seq<int>, n: nat, at: int, c: Config)
    requires Phase(|failures|, c.Threshold()) == 0 && !LockedAt(failures, at, c) && n < c.Threshold()
    ensures !LockedAt(failures + seq(n, _ => at), at, c)
  {
    PhaseAdvances(|failures|, n, c.Threshold());
    if n == 0 { assert failures + seq(0, _ => at) == failures; }
  }

  /** A whole burst locks, for one duration. */
  lemma BurstLocks(history: seq<Attempt>, at: int, c: Config)
    requires c.maxAttempts <= U32_MAX && Ready(history, at, c)
    ensures Ready(history + Burst(c.Threshold(), at), at + c.duration, c)
  {
    var k, failures := c.Threshold(), Counted(history, c);
    BurstRuns(history, k, at, c);
    PhaseAdvances(|failures|, k, k);
    assert (failures + seq(k, _ => at))[|failures| + k - 1] == at;
  }

  lemma OneMoreBurst(history: seq<Attempt>, run: seq<Attempt>, at: int, c: Config)
    requires c.maxAttempts <= U32_MAX && Ready(history + run, at, c)
    ensures var more := run + Burst(c.Threshold(), at);
      && Ready(history + more, at + c.duration, c)
      && FailingCalls(history, more, c) == FailingCalls(history, run, c) + c.Threshold()
      && Unstored(history, more, c) == Unstored(history, run, c)
  {
    var last := Burst(c.Threshold(), at);
    BurstRuns(history + run, c.Threshold(), at, c);
    BurstLocks(history + run, at, c);
    CallsConcat(history, run, last, c);
    assert history + (run + last) == history + run + last;
  }

  lemma {:induction false} BurstsRun(history: seq<Attempt>, m: nat, t: int, c: Config)
    requires c.maxAttempts <= U32_MAX && Ready(history, t, c)
    ensures Ready(history + Bursts(m, t, c), Steps(m, t, c.duration), c)
    ensures FailingCalls(history, Bursts(m, t, c), c) == Steps(m, 0, c.Threshold())
    ensures Unstored(history, Bursts(m, t, c), c) == 0
  {
    if m == 0 {
      assert history + Bursts(0, t, c) == history;
    } else {
      BurstsRun(history, m - 1, t, c);
      OneMoreBurst(history, Bursts(m - 1, t, c), Steps(m - 1, t, c.duration), c);
    }
  }

  /** In order, and none after the last moment. */
  lemma {:induction false} BurstsInOrder(m: nat, t: int, c: Config)
    ensures Sound(Bursts(m + 1, t, c), t, Steps(m, t, c.duration))
  {
    var at := Steps(m, t, c.duration);
    BurstIsSound(c.Threshold(), at);
    if m == 0 {
      assert Bursts(1, t, c) == Burst(c.Threshold(), at);
    } else {
      BurstsInOrder(m - 1, t, c);
      SoundConcat(Bursts(m, t, c), Burst(c.Threshold(), at), t, Steps(m - 1, t, c.duration), at, at);
    }
  }

  /** Guesses in order, the first at `lo` and the last at `hi`. */
  predicate Sound(run: seq<Attempt>, lo: int, hi: int) {
    && run != [] && run[0].at == lo && run[|run| - 1].at == hi
    && InOrder(run) && Within(run, lo, hi)
    && forall i :: 0 <= i < |run| ==> run[i].inner.WrongCredentials?
  }

  lemma SoundConcat(a: seq<Attempt>, b: seq<Attempt>, lo: int, mid: int, from: int, hi: int)
    requires Sound(a, lo, mid) && Sound(b, from, hi) && mid <= from
    ensures Sound(a + b, lo, hi)
  {
    InOrderConcat(a, b, mid);
    var all := a + b;
    assert a[0].at <= mid && from <= b[0].at <= hi;
    forall i | 0 <= i < |all| ensures lo <= all[i].at <= hi && all[i].inner.WrongCredentials? {
      assert all[i] == if i < |a| then a[i] else b[i - |a|];
    }
  }

  lemma BurstIsSound(n: nat, at: int)
    requires n > 0
    ensures Sound(Burst(n, at), at, at)
  {
  }

  lemma InOrderConcat(a: seq<Attempt>, b: seq<Attempt>, mid: int)
    requires InOrder(a) && InOrder(b) && Before(a, mid) && forall i :: 0 <= i < |b| ==> mid <= b[i].at
    ensures InOrder(a + b)
  {
    var all := a + b;
    forall i, j | 0 <= i < j < |all| ensures all[i].at <= all[j].at {
      if j < |a| {
        assert a[i].at <= a[j].at;
      } else if i >= |a| {
        assert b[i - |a|].at <= b[j - |a|].at;
      } else {
        assert a[i].at <= mid <= b[j - |a|].at;
      }
    }
  }

  /** `u` guesses that are not stored, then as many stored ones as the locks allow. */
  function Attack(u: nat, q: nat, t: int, c: Config): seq<Attempt> {
    UnstoredGuesses(u, t) + Bursts(q + 1, t, c)
  }

  lemma AttackInOrder(u: nat, q: nat, t: int, c: Config)
    ensures Sound(Attack(u, q, t, c), t, Steps(q, t, c.duration))
  {
    BurstsInOrder(q, t, c);
    var first, rest := UnstoredGuesses(u, t), Bursts(q + 1, t, c);
    if u == 0 {
      assert first + rest == rest;
    } else {
      SoundConcat(first, rest, t, t, t, Steps(q, t, c.duration));
    }
  }

  lemma AttackRuns(u: nat, q: nat, t: int, c: Config)
    requires c.maxAttempts <= U32_MAX
    ensures var run := Attack(u, q, t, c);
      && run != [] && InOrder([] + run) && SuccessFree([], run, c)
      && run[0].at == t && run[|run| - 1].at == Steps(q, t, c.duration)
      && Unstored([], run, c) == u && FailingCalls([], run, c) == Steps(q + 1, 0, c.Threshold()) + u
  {
    var run := Attack(u, q, t, c);
    AttackInOrder(u, q, t, c);
    AttackCalls(u, q, t, c);
    assert [] + run == run;
    NoSuccess([], run, c);
  }

  /**
   For any number of full locks and any number of lost writes there is a run that lets exactly as many
   guesses through as the bound says: it is attained, and without its second part it holds of no
   number of lost writes but zero.
   */
  lemma GuessBoundAttained(u: nat, q: nat, t: int, c: Config, k: nat, d: nat)
    requires c.maxAttempts <= U32_MAX && k == c.Threshold() && d == c.duration > 0
    ensures var run := Attack(u, q, t, c);
      && run != [] && InOrder([] + run) && SuccessFree([], run, c) && Unstored([], run, c) == u
      && run[|run| - 1].at - run[0].at == q * d && q * d / d == q
      && FailingCalls([], run, c) == k * (q + 1) + u
  {
    AttackRuns(u, q, t, c);
    StepsProduct(q, t, d);
    StepsTotal(q, k);
    Multiples(q, d);
  }

  /** Runs with `u` guesses that are not stored. */
  predicate LosesWrites(history: seq<Attempt>, run: seq<Attempt>, c: Config, u: nat) {
    run != [] && InOrder(history + run) && SuccessFree(history, run, c) && Unstored(history, run, c) == u
  }

  predicate PlainBound(history: seq<Attempt>, run: seq<Attempt>, c: Config)
    requires c.duration > 0
  {
    run != [] && run[0].at <= run[|run| - 1].at
    && FailingCalls(history, run, c) <= c.Threshold() * ((run[|run| - 1].at - run[0].at) / c.duration + 1)
  }

  /** The bound without its second part holds of the runs that lose `u` writes exactly when `u` is zero. */
  lemma PlainBoundExactly(u: nat, c: Config)
    requires c.maxAttempts <= U32_MAX && c.duration > 0
    ensures (forall history, run :: LosesWrites(history, run, c, u) ==> PlainBound(history, run, c)) <==> u == 0
  {
    if u == 0 {
      forall history, run | LosesWrites(history, run, c, u) ensures PlainBound(history, run, c) {
        GuessBound(history, run, c);
      }
    } else {
      AttackExceeds(u, c);
    }
  }

  lemma AttackExceeds(u: nat, c: Config)
    requires c.maxAttempts <= U32_MAX && c.duration > 0 && u > 0
    ensures LosesWrites([], Attack(u, 0, 0, c), c, u) && !PlainBound([], Attack(u, 0, 0, c), c)
  {
    AttackRuns(u, 0, 0, c);
    assert Steps(1, 0, c.Threshold()) == Steps(0, 0, c.Threshold()) + c.Threshold() == c.Threshold();
    assert 0 / c.duration == 0;
  }

  lemma StepsTotal(q: nat, k: nat)
    ensures Steps(q + 1, 0, k) == k * (q + 1)
  {
    StepsProduct(q + 1, 0, k);
  }

  lemma NoSuccess(history: seq<Attempt>, run: seq<Attempt>, c: Config)
    requires forall i :: 0 <= i < |run| ==> run[i].inner.WrongCredentials?
    ensures SuccessFree(history, run, c)
  {
  }

  lemma AttackCalls(u: nat, q: nat, t: int, c: Config)
    requires c.maxAttempts <= U32_MAX
    ensures var run := Attack(u, q, t, c);
      FailingCalls([], run, c) == Steps(q + 1, 0, c.Threshold()) + u && Unstored([], run, c) == u
  {
    var first, rest := UnstoredGuesses(u, t), Bursts(q + 1, t, c);
    UnstoredGuessesAreFree(u, t, c);
    NothingCounted(first, t, c);
    BurstsRun(first, q + 1, t, c);
    AfterNothing(first, rest, c);
  }

  lemma NothingCounted(history: seq<Attempt>, t: int, c: Config)
    requires Counted(history, c) == []
    ensures Ready(history, t, c)
  {
  }

  lemma AfterNothing(first: seq<Attempt>, rest: seq<Attempt>, c: Config)
    ensures FailingCalls([], first + rest, c) == FailingCalls([], first, c) + FailingCalls(first, rest, c)
    ensures Unstored([], first + rest, c) == Unstored([], first, c) + Unstored(first, rest, c)
  {
    CallsConcat([], first, rest, c);
    assert [] + first == first;
  }

  lemma Multiples(q: nat, d: nat)
    requires d > 0
    ensures q * d / d == q
  {
    var r := q * d / d;
    assert d * r <= d * q < d * r + d;
    MulOrder(d, q, r);
    MulOrder(d, r, q);
  }

  lemma RunInOrder(history: seq<Attempt>, run: seq<Attempt>)
    requires InOrder(history + run)
    ensures InOrder(run)
    ensures run != [] ==> Within(run, run[0].at, run[|run| - 1].at) && Before(history + run, run[|run| - 1].at)
  {
    var all := history + run;
    forall i, j | 0 <= i < j < |run| ensures run[i].at <= run[j].at {
      assert all[|history| + i].at <= all[|history| + j].at;
    }
    forall i | 0 <= i < |all| && run != [] ensures all[i].at <= run[|run| - 1].at {
      assert all[|all| - 1] == run[|run| - 1];
      assert i == |all| - 1 || all[i].at <= all[|all| - 1].at;
    }
  }

  lemma NoGuesses(k: nat, elapsed: nat, d: nat)
    requires d > 0
    ensures 0 <= k * (elapsed / d + 1)
  {
  }

  // ---------------------------------------------------------------------------------------------

  function RowFor(rows: map<string, Row>, username: string): Option<Row> {
    if username in rows then Some(rows[username]) else None
  }

  function History(histories: map<string, seq<Attempt>>, username: string): seq<Attempt> {
    if username in histories then histories[username] else []
  }

  /** Each username's row, or lack of one, stands for its own history. */
  ghost predicate InStep(rows: map<string, Row>, histories: map<string, seq<Attempt>>, c: Config) {
    forall u :: RowFor(rows, u) == RowOf(Counted(History(histories, u), c), c)
  }

  /** An attempt that changes one username's row as `Step` does keeps all rows in step. */
  lemma OneUsername(rows: map<string, Row>, histories: map<string, seq<Attempt>>, c: Config,
                    username: string, a: Attempt, after: map<string, Row>)
    requires c.maxAttempts <= U32_MAX && InStep(rows, histories, c)
    requires RowFor(after, username) == Step(RowFor(rows, username), a, c).0
    requires forall u :: u != username ==> RowFor(after, u) == RowFor(rows, u)
    ensures InStep(after, histories[username := History(histories, username) + [a]], c)
    ensures Step(RowFor(rows, username), a, c).1 == OutcomeFor(Counted(History(histories, username), c), a, c)
  {
    HistoryStep(History(histories, username), a, c);
    var extended := histories[username := History(histories, username) + [a]];
    forall u ensures RowFor(after, u) == RowOf(Counted(History(extended, u), c), c) {
      assert u != username ==> History(extended, u) == History(histories, u);
    }
  }

  class PersistentLockoutBackend {
    var rows: map<string, Row>
    const config: Config
    ghost var histories: map<string, seq<Attempt>>

    ghost predicate Valid()
      reads this
    {
      config.maxAttempts <= U32_MAX && InStep(rows, histories, config)
    }

    constructor (config: Config)
      requires config.maxAttempts <= U32_MAX
      ensures Valid() && rows == map[] && histories == map[] && this.config == config
    {
      this.config := config;
      rows := map[];
      histories := map[];
    }

    /** The table after the statement that follows the inner backend's answer, if one does. */
    method Statement(username: string, now: int, inner: InnerAnswer) returns (statement: Option<map<string, Row>>)
      ensures var (existing, a) := (RowFor(rows, username), Attempt(now, inner, Works));
        && (statement.Some? <==> Writes(existing.Some?, inner))
        && (statement.Some? ==> RowFor(statement.value, username) == Update(existing, a, config))
      ensures statement.Some? ==> forall u :: u != username ==> RowFor(statement.value, u) == RowFor(rows, u)
    {
      var existing := if username in rows then Some(rows[username]) else None;
      var activeStreak := existing.Some?
        && (existing.value.lockedUntil.None? || existing.value.lockedUntil.value > now);
      statement := None;
      match inner {
        case Authenticated =>
          if existing.Some? {
            statement := Some(rows - {username});
          }
        case WrongCredentials =>
          if activeStreak {
            var row := existing.value.(failedAttempts := Increment(existing.value.failedAttempts));
            if AsU32(row.failedAttempts) >= config.maxAttempts {
              row := row.(lockedUntil := Some(now + config.duration));
            }
            statement := Some(rows[username := row]);
          } else if existing.Some? {
            statement := Some(rows[username := existing.value.(
              failedAttempts := 1, firstFailedAt := now,
              lockedUntil := if config.maxAttempts <= 1 then Some(now + config.duration) else None)]);
          } else {
            statement := Some(rows[username :=
              Row(1, now, if config.maxAttempts <= 1 then Some(now + config.duration) else None)]);
          }
        case InnerError =>
      }
    }

    /** `inner` is what the inner backend answers if it is called, and `store` how the database fares. */
    method Authenticate(username: string, now: int, inner: InnerAnswer, store: Store) returns (outcome: Outcome)
      requires Valid()
      modifies this
      ensures Valid()
      ensures var a := Attempt(now, inner, store);
        && histories == old(histories[username := History(histories, username) + [a]])
        && outcome == OutcomeFor(Counted(History(old(histories), username), config), a, config)
      ensures forall u :: u != username ==> RowFor(rows, u) == RowFor(old(rows), u)
      ensures !outcome.Asked() ==> rows == old(rows)
      ensures outcome == StoreError(false) <==> store.ReadFails?
      ensures var existing := RowFor(old(rows), username);
        !store.ReadFails? && existing.Some?
        && existing.value.lockedUntil.Some? && existing.value.lockedUntil.value > now
        ==> outcome == AccountLocked((existing.value.lockedUntil.value - now) / 1_000_000_000)
    {
      ghost var a := Attempt(now, inner, store);
      var existing := if username in rows then Some(rows[username]) else None;
      if store.ReadFails? {
        outcome := StoreError(false);
      } else if existing.Some? && existing.value.lockedUntil.Some? && existing.value.lockedUntil.value > now {
        outcome := AccountLocked((existing.value.lockedUntil.value - now) / SECOND);
      } else {
        var statement := Statement(username, now, inner);
        if statement.Some? && (store.WriteFails? ==> store.applied) {
          rows := statement.value;
        }
        outcome := if statement.Some? && store.WriteFails? then StoreError(true) else Answered(inner);
      }
      assert (RowFor(rows, username), outcome) == Step(RowFor(old(rows), username), a, config);
      OneUsername(old(rows), histories, config, username, a, rows);
      histories := histories[username := History(histories, username) + [a]];
    }
  }
}
