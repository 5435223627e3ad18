/** Staged login lockout of auth-service (auth/auth.service.ts), for logins one after another on one credential. */
module Lockout {
  import opened Wrappers
  import opened Rows

  const MINUTE := 60 * 1000

  datatype Stage = Stage(threshold: nat, durationMs: nat)

  const LOCKOUT_STAGES := [Stage(5, 5 * MINUTE), Stage(10, 15 * MINUTE), Stage(15, 60 * MINUTE)]

  const FAILURE_COUNTER_TTL_MS := 24 * 60 * MINUTE

  /** The Redis counter; `since` and `last` record its first and latest failure. */
  datatype Counter = Counter(count: nat, expiresAt: int, since: int, last: int)

  datatype Guard = Guard(lockedUntil: Option<int>, counter: Option<Counter>)

  /** One login: the lock is checked, then a failure is counted, then the new lock is saved. */
  datatype Attempt = Attempt(active: bool, valid: bool, checkedAt: int, countedAt: int, savedAt: int)

  datatype Outcome = LoggedIn | AccountLocked | InvalidCredentials

  predicate IsLocked(g: Guard, at: int) { g.lockedUntil.Some? && at < g.lockedUntil.value }

  /** INCR starts again at 1 once the key ran out; every failure renews the 24 hours. */
  function Counted(c: Option<Counter>, at: int): Counter {
    if c.Some? && at < c.value.expiresAt
    then Counter(c.value.count + 1, at + FAILURE_COUNTER_TTL_MS, c.value.since, at)
    else Counter(1, at + FAILURE_COUNTER_TTL_MS, at, at)
  }

  function Reverse<T>(s: seq<T>): seq<T> {
    if s == [] then [] else Reverse(s[1..]) + [s[0]]
  }

  /** How long `count` failures lock the account; None when they do not. */
  function LockFor(count: nat): Option<nat> {
    var stages := Reverse(LOCKOUT_STAGES);
    match Find((s: Stage) => s.threshold <= count, stages)
    case None => None
    case Some(i) => Some(stages[i].durationMs)
  }

  function Next(g: Guard, a: Attempt): (Guard, Outcome) {
    if a.active && IsLocked(g, a.checkedAt) then (g, AccountLocked)
    else if !a.active then (g, InvalidCredentials)
    else if a.valid then (Guard(None, None), LoggedIn)
    else
      var c := Counted(g.counter, a.countedAt);
      var lockedUntil := match LockFor(c.count)
                         case None => g.lockedUntil
                         case Some(d) => Some(a.savedAt + d);
      (Guard(lockedUntil, Some(c)), InvalidCredentials)
  }

  function Run(g: Guard, attempts: seq<Attempt>): Guard {
    if attempts == [] then g else Next(Run(g, attempts[..|attempts| - 1]), attempts[|attempts| - 1]).0
  }

  /** The credential row and its Redis counter, updated in place. */
  class LoginGuard {
    var lockedUntil: Option<int>
    var counter: Option<Counter>

    constructor ()
      ensures Snapshot() == Guard(None, None)
    {
      lockedUntil, counter := None, None;
    }

    function Snapshot(): Guard
      reads this
    {
      Guard(lockedUntil, counter)
    }

    /**
     One login. While the lock lasts nothing is counted; the right password clears counter and lock;
     a wrong one counts for 24 hours and locks for 5, 15 or 60 minutes from 5, 10 or 15 failures on.
     */
    method Login(a: Attempt) returns (r: Outcome)
      modifies this
      ensures (Snapshot(), r) == Next(old(Snapshot()), a)
      ensures r == AccountLocked <==> a.active && old(lockedUntil).Some? && a.checkedAt < old(lockedUntil).value
      ensures r == LoggedIn <==> r != AccountLocked && a.active && a.valid
      ensures r == AccountLocked || !a.active ==> Snapshot() == old(Snapshot())
      ensures r == LoggedIn ==> counter.None? && lockedUntil.None?
      ensures r == InvalidCredentials && a.active ==>
                && counter.Some?
                && counter.value.count == (if old(counter).Some? && a.countedAt < old(counter).value.expiresAt
                                           then old(counter).value.count + 1 else 1)
                && counter.value.expiresAt == a.countedAt + 24 * 60 * 60 * 1000
                && lockedUntil == if counter.value.count < 5 then old(lockedUntil)
                                  else if counter.value.count < 10 then Some(a.savedAt + 5 * 60 * 1000)
                                  else if counter.value.count < 15 then Some(a.savedAt + 15 * 60 * 1000)
                                  else Some(a.savedAt + 60 * 60 * 1000)
    {
      if a.active && lockedUntil.Some? && a.checkedAt < lockedUntil.value {
        return AccountLocked;
      }
      if !a.active || !a.valid {
        if a.active && !a.valid {
          RecordFailedAttempt(a);
          LockForIsDuration(counter.value.count);
        }
        return InvalidCredentials;
      }
      counter := None;
      if lockedUntil.Some? {
        lockedUntil := None;
      }
      return LoggedIn;
    }

    method RecordFailedAttempt(a: Attempt)
      modifies this
      ensures counter == Some(Counted(old(counter), a.countedAt))
      ensures lockedUntil == match LockFor(counter.value.count)
                             case None => old(lockedUntil)
                             case Some(d) => Some(a.savedAt + d)
    {
      var running := counter.Some? && a.countedAt < counter.value.expiresAt;
      var count := if running then counter.value.count + 1 else 1;
      counter := Some(Counter(count, a.countedAt + FAILURE_COUNTER_TTL_MS,
                              if running then counter.value.since else a.countedAt, a.countedAt));
      var stages := Reverse(LOCKOUT_STAGES);
      var stage := Find((s: Stage) => s.threshold <= count, stages);
      if stage.Some? {
        lockedUntil := Some(a.savedAt + stages[stage.value].durationMs);
      }
    }
  }

  // Which stage

  lemma ReversedStages()
    ensures Reverse(LOCKOUT_STAGES) == [Stage(15, 60 * MINUTE), Stage(10, 15 * MINUTE), Stage(5, 5 * MINUTE)]
  {
    var s := LOCKOUT_STAGES;
    assert s[1..] == [Stage(10, 15 * MINUTE), Stage(15, 60 * MINUTE)];
    assert s[1..][1..] == [Stage(15, 60 * MINUTE)];
    assert s[1..][1..][1..] == [];
    assert Reverse(s[1..][1..]) == [Stage(15, 60 * MINUTE)];
    assert Reverse(s[1..]) == [Stage(15, 60 * MINUTE), Stage(10, 15 * MINUTE)];
  }

  /** The lock is that of the highest threshold reached: 5 min from 5, 15 min from 10, 60 min from 15. */
  lemma HighestStageWins(count: nat)
    ensures LockFor(count).None? <==> count < 5
    ensures forall s | s in LOCKOUT_STAGES && s.threshold <= count ::
              LockFor(count).Some? && s.durationMs <= LockFor(count).value
    ensures LockFor(count).Some? ==>
              exists s :: s in LOCKOUT_STAGES && s.threshold <= count && s.durationMs == LockFor(count).value
  {
    ReversedStages();
    var stages := Reverse(LOCKOUT_STAGES);
    assert stages[2].threshold == 5 && stages[1].threshold == 10 && stages[0].threshold == 15;
    assert LOCKOUT_STAGES[0] == stages[2] && LOCKOUT_STAGES[1] == stages[1] && LOCKOUT_STAGES[2] == stages[0];
  }

  /** The lock after `count` failures, as a table. */
  function Duration(count: nat): nat {
    if count < 5 then 0 else if count < 10 then 5 * MINUTE else if count < 15 then 15 * MINUTE else 60 * MINUTE
  }

  /** The reverse search over the stages finds the row of that table. */
  lemma LockForIsDuration(count: nat)
    ensures LockFor(count) == if count < 5 then None else Some(Duration(count))
  {
    ReversedStages();
    var stages := Reverse(LOCKOUT_STAGES);
    assert stages[0].threshold == 15 && stages[1].threshold == 10 && stages[2].threshold == 5;
  }

  /** The time that `n` failures in a row must at least span. */
  function LeastSpan(n: nat): nat {
    if n <= 1 then 0 else LeastSpan(n - 1) + Duration(n - 1)
  }

  // The bound

  /** Each login starts after the one before ended. */
  ghost predicate Sequential(attempts: seq<Attempt>) {
    && (forall i :: 0 <= i < |attempts| ==> attempts[i].checkedAt <= attempts[i].countedAt <= attempts[i].savedAt)
    && (forall i :: 0 < i < |attempts| ==> attempts[i - 1].savedAt <= attempts[i].checkedAt)
  }

  ghost predicate Spaced(g: Guard, now: int) {
    g.counter.Some? ==>
      var c := g.counter.value;
      && 1 <= c.count && c.since + LeastSpan(c.count) <= c.last <= now
      && (c.count >= 5 ==> g.lockedUntil.Some? && c.last + Duration(c.count) <= g.lockedUntil.value)
  }

  lemma NextKeepsSpaced(g: Guard, a: Attempt, now: int)
    requires Spaced(g, now) && now <= a.checkedAt <= a.countedAt <= a.savedAt
    ensures Spaced(Next(g, a).0, a.savedAt)
  {
    if a.active && !IsLocked(g, a.checkedAt) && !a.valid {
      var c := Counted(g.counter, a.countedAt);
      LockForIsDuration(c.count);
      assert c.count > 1 ==> LeastSpan(c.count) == LeastSpan(c.count - 1) + Duration(c.count - 1);
    }
  }

  lemma {:induction false} RunKeepsSpaced(attempts: seq<Attempt>)
    requires Sequential(attempts) && attempts != []
    ensures Spaced(Run(Guard(None, None), attempts), attempts[|attempts| - 1].savedAt)
  {
    var before, a := attempts[..|attempts| - 1], attempts[|attempts| - 1];
    if before == [] {
      NextKeepsSpaced(Guard(None, None), a, a.checkedAt);
    } else {
      RunKeepsSpaced(before);
      NextKeepsSpaced(Run(Guard(None, None), before), a, before[|before| - 1].savedAt);
    }
  }

  /** Whatever is tried, a counter that reads n spans at least the locks of 5, ..., n - 1 failures. */
  lemma FailuresTakeTime(attempts: seq<Attempt>)
    requires Sequential(attempts)
    ensures var g := Run(Guard(None, None), attempts);
            g.counter.Some? ==> LeastSpan(g.counter.value.count) <= g.counter.value.last - g.counter.value.since
  {
    if attempts != [] { RunKeepsSpaced(attempts); }
  }

  /** In closed form: nothing for 5 failures, 5 minutes each up to 10, 15 each up to 15, an hour each beyond. */
  lemma {:induction false} LeastSpanIs(n: nat)
    ensures LeastSpan(n) == (if n <= 5 then 0
                             else if n <= 10 then (n - 5) * 5 * MINUTE
                             else if n <= 15 then 25 * MINUTE + (n - 10) * 15 * MINUTE
                             else 100 * MINUTE + (n - 15) * 60 * MINUTE)
  {
    if n > 1 {
      LeastSpanIs(n - 1);
    }
  }

  /** So the password of a credential is checked and rejected at most 15 + k times in less than 160 + 60k minutes. */
  lemma GuessesAreFew(attempts: seq<Attempt>, k: nat)
    requires Sequential(attempts)
    ensures var g := Run(Guard(None, None), attempts);
            g.counter.Some? && g.counter.value.last - g.counter.value.since < (160 + 60 * k) * MINUTE ==>
              g.counter.value.count <= 15 + k
  {
    FailuresTakeTime(attempts);
    var g := Run(Guard(None, None), attempts);
    if g.counter.Some? { LeastSpanIs(g.counter.value.count); }
  }

  // The bound is reached

  /** Wrong passwords, each as early as the locks allow. */
  function Hurried(n: nat): seq<Attempt> {
    if n == 0 then [] else Hurried(n - 1) + [Attempt(true, false, LeastSpan(n), LeastSpan(n), LeastSpan(n))]
  }

  /** The guard after n hurried failures. */
  function HurriedGuard(n: nat): Guard {
    if n == 0 then Guard(None, None)
    else Guard(if n < 5 then None else Some(LeastSpan(n) + Duration(n)),
               Some(Counter(n, LeastSpan(n) + FAILURE_COUNTER_TTL_MS, 0, LeastSpan(n))))
  }

  lemma HurriedNext(n: nat)
    requires n >= 1
    ensures Next(HurriedGuard(n - 1), Attempt(true, false, LeastSpan(n), LeastSpan(n), LeastSpan(n))).0
              == HurriedGuard(n)
  {
    LockForIsDuration(n);
    assert n > 1 ==> LeastSpan(n) == LeastSpan(n - 1) + Duration(n - 1);
  }

  lemma {:induction false} HurriedRun(n: nat)
    ensures |Hurried(n)| == n && (n > 0 ==> Hurried(n)[n - 1].savedAt == LeastSpan(n))
    ensures Sequential(Hurried(n)) && Run(Guard(None, None), Hurried(n)) == HurriedGuard(n)
  {
    if n > 0 {
      HurriedRun(n - 1);
      HurriedNext(n);
      assert Hurried(n)[..n - 1] == Hurried(n - 1);
      assert n > 1 ==> LeastSpan(n - 1) <= LeastSpan(n);
    }
  }

  /** No larger bound holds: for every n some run of logins reaches it exactly. */
  lemma BoundIsReached(n: nat)
    requires n >= 1
    ensures exists attempts :: Sequential(attempts) &&
              var g := Run(Guard(None, None), attempts);
              g.counter.Some? && g.counter.value.count == n
              && g.counter.value.last - g.counter.value.since == LeastSpan(n)
  {
    HurriedRun(n);
  }
}
