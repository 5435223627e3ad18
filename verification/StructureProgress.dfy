/**
 The lock protocol never deadlocks, even when the database serves each row's lock queue
 strictly in order, so that a request also waits behind every earlier conflicting request.
 */
module StructureProgress {
  import opened StructureProtocol
  import opened StructureSafety

  /** `u` keeps `t` from being granted row `n`: it holds the row, or queued for it earlier. */
  ghost predicate Blocks(u: Txn, t: Txn, n: Node) {
    && Waits(t, n) && Conflict(t, u)
    && (Holds(u, n) || (Waits(u, n) && u.phase.ticket.value < t.phase.ticket.value))
  }

  ghost predicate Blocked(s: State, tid: nat)
    requires tid in s.txns
  {
    exists v, n | v in s.txns && v != tid :: Blocks(s.txns[v], s.txns[tid], n)
  }

  /** Locks are asked for departamento first, then area, then cargo. */
  ghost function Level(n: Node): nat {
    match n.kind
    case Dept => 0
    case Area => 1
    case Cargo => 2
  }

  lemma PlansGoDown(p: Program, i: nat, j: nat)
    requires i < j < |Plan(p)|
    ensures Level(Plan(p)[i]) < Level(Plan(p)[j]) && !IsRemove(p)
  {
  }

  /** Follow the blockers: each one waits further down the tree, or earlier in the same queue. */
  lemma {:induction false} FindRunnable(s: State, tid: nat) returns (r: nat)
    requires Inv(s) && tid in s.txns
    ensures r in s.txns && !Blocked(s, r)
    decreases if s.txns[tid].phase.Locking? then 3 - Level(Plan(s.txns[tid].prog)[s.txns[tid].phase.k]) else 0,
              if s.txns[tid].phase.Locking? && s.txns[tid].phase.ticket.Some? then s.txns[tid].phase.ticket.value else 0
  {
    r := tid;
    if Blocked(s, tid) {
      var v, n :| v in s.txns && v != tid && Blocks(s.txns[v], s.txns[tid], n);
      var t, u := s.txns[tid], s.txns[v];
      assert TxnOk(u, s.rows);
      if Holds(u, n) {
        if u.phase.Locking? {
          var i :| 0 <= i < |Plan(u.prog)| && i < Held(u) && Plan(u.prog)[i] == n;
          PlansGoDown(u.prog, i, u.phase.k);
        }
      }
      r := FindRunnable(s, v);
    }
  }

  /** The statement a transaction executes next. */
  ghost function NextEvent(s: State, tid: nat): Event
    requires tid in s.txns
  {
    var t := s.txns[tid];
    match t.phase
    case Checking => CountRefs(tid, if t.typologiesAt.None? then Typologies else Users)
    case Locking(_, None) => Request(tid)
    case Locking(_, Some(_)) => Grant(tid)
    case Working(next) => if next < |Statements(t.prog)| then Exec(tid, 0) else Commit(tid)
  }

  /** A remove leaves the counting phase as soon as both counts were taken. */
  ghost predicate ChecksOk(s: State) {
    forall v | v in s.txns :: s.txns[v].phase == Checking ==> s.txns[v].typologiesAt.None? || s.txns[v].usersAt.None?
  }

  lemma StepKeepsChecks(b: Bounds, s: State, e: Event)
    requires ChecksOk(s)
    ensures ChecksOk(Step(b, s, e))
  {
  }

  /** How many statements a transaction still has before it, counting lock requests and grants. */
  function Work(t: Txn): nat {
    var rest := |Statements(t.prog)| + 1;
    match t.phase
    case Checking =>
      rest + 2 * |Plan(t.prog)| + (if t.typologiesAt.None? then 1 else 0) + (if t.usersAt.None? then 1 else 0)
    case Locking(k, ticket) =>
      if k < |Plan(t.prog)| then rest + 2 * (|Plan(t.prog)| - k) - (if ticket.Some? then 1 else 0) else 0
    case Working(next) => if next < rest then rest - next else 0
  }

  /** Its next statement ends the transaction or leaves it less to do, and concerns no other transaction. */
  ghost predicate Advances(b: Bounds, s: State, tid: nat)
    requires tid in s.txns
  {
    var txns := Step(b, s, NextEvent(s, tid)).txns;
    txns == s.txns - {tid} || (tid in txns && txns == s.txns[tid := txns[tid]] && Work(txns[tid]) < Work(s.txns[tid]))
  }

  /** Unblocked, the next statement takes effect: it moves the transaction on or ends it. */
  lemma UnblockedAdvances(b: Bounds, s: State, tid: nat)
    requires Inv(s) && ChecksOk(s) && tid in s.txns && !Blocked(s, tid)
    ensures Advances(b, s, tid)
  {
    var t := s.txns[tid];
    assert TxnOk(t, s.rows);
    match t.phase
    case Checking => CountAdvances(b, s, tid);
    case Locking(_, None) =>
    case Locking(_, Some(_)) =>
      assert CanGrant(s, tid) by { UnblockedIsGranted(s, tid); }
    case Working(next) =>
      if next < |Statements(t.prog)| { ExecAdvances(b, s, tid); } else { CommitAdvances(b, s, tid); }
  }

  lemma UnblockedIsGranted(s: State, tid: nat)
    requires tid in s.txns && !Blocked(s, tid) && WellPhased(s.txns[tid])
    requires s.txns[tid].phase.Locking? && s.txns[tid].phase.ticket.Some?
    ensures CanGrant(s, tid)
  {
    var t := s.txns[tid];
    var n := Plan(t.prog)[t.phase.k];
    assert Waits(t, n);
    forall v | v in s.txns && v != tid && Holds(s.txns[v], n) ensures !Conflict(t, s.txns[v]) {
      assert !Blocks(s.txns[v], t, n);
    }
  }

  lemma CountAdvances(b: Bounds, s: State, tid: nat)
    requires ChecksOk(s) && tid in s.txns && s.txns[tid].phase == Checking
    ensures Advances(b, s, tid)
  {
  }

  lemma ExecAdvances(b: Bounds, s: State, tid: nat)
    requires tid in s.txns && s.txns[tid].phase.Working? && s.txns[tid].phase.next < |Statements(s.txns[tid].prog)|
    ensures Advances(b, s, tid)
  {
  }

  lemma CommitAdvances(b: Bounds, s: State, tid: nat)
    requires tid in s.txns && s.txns[tid].phase == Working(|Statements(s.txns[tid].prog)|)
    ensures Advances(b, s, tid)
  {
  }

  lemma {:induction false} RunKeepsChecks(b: Bounds, s: State, es: seq<Event>)
    requires ChecksOk(s)
    ensures ChecksOk(Run(b, s, es))
    decreases |es|
  {
    if es != [] {
      StepKeepsChecks(b, s, es[0]);
      RunKeepsChecks(b, Step(b, s, es[0]), es[1..]);
    }
  }

  /** After every run, if a transaction is unfinished then the next statement of some transaction can run. */
  lemma NoRunDeadlocks(b: Bounds, s: State, es: seq<Event>)
    requires Initial(s)
    ensures var t := Run(b, s, es);
            t.txns != map[] ==>
              exists tid | tid in t.txns :: !Blocked(t, tid) && Advances(b, t, tid)
  {
    RunKeeps(b, s, es);
    RunKeepsChecks(b, s, es);
    var t := Run(b, s, es);
    if t.txns != map[] {
      var tid := SomeAdvances(b, t);
    }
  }

  lemma SomeAdvances(b: Bounds, s: State) returns (tid: nat)
    requires Inv(s) && ChecksOk(s) && s.txns != map[]
    ensures tid in s.txns && !Blocked(s, tid) && Advances(b, s, tid)
  {
    var start :| start in s.txns;
    tid := FindRunnable(s, start);
    UnblockedAdvances(b, s, tid);
  }

  // Finishing

  /** What is left to do for the transactions with numbers below n. */
  function WorkBelow(txns: map<nat, Txn>, n: nat): nat {
    if n == 0 then 0 else WorkBelow(txns, n - 1) + (if n - 1 in txns then Work(txns[n - 1]) + 1 else 0)
  }

  lemma {:induction false} Bounded(ids: set<nat>) returns (n: nat)
    ensures forall i | i in ids :: i < n
  {
    n := 0;
    if ids != {} {
      var i :| i in ids;
      var rest := Bounded(ids - {i});
      n := if i < rest then rest else i + 1;
      assert forall k | k in ids :: k == i || k in ids - {i};
    }
  }

  lemma {:induction false} LessIsLess(before: map<nat, Txn>, after: map<nat, Txn>, tid: nat, n: nat)
    requires tid in before
    requires after == before - {tid}
             || (tid in after && after == before[tid := after[tid]] && Work(after[tid]) < Work(before[tid]))
    ensures tid < n ==> WorkBelow(after, n) < WorkBelow(before, n)
    ensures n <= tid ==> WorkBelow(after, n) == WorkBelow(before, n)
  {
    if n > 0 {
      var k := n - 1;
      LessIsLess(before, after, tid, k);
      assert k != tid ==> WorkBelow(after, n) - WorkBelow(after, k) == WorkBelow(before, n) - WorkBelow(before, k);
      assert k == tid ==> WorkBelow(after, n) - WorkBelow(after, k) < WorkBelow(before, n) - WorkBelow(before, k);
    }
  }

  /** Only transactions that have begun are advanced, and none is rolled back from outside. */
  ghost predicate OnlyAdvances(es: seq<Event>) {
    forall e | e in es :: e.CountRefs? || e.Request? || e.Grant? || e.Exec? || e.Commit?
  }

  /** Every run can be continued, without rolling anything back, until every transaction has ended. */
  lemma EveryRunCanFinish(b: Bounds, s: State, es: seq<Event>) returns (fs: seq<Event>)
    requires Initial(s)
    ensures OnlyAdvances(fs) && Run(b, s, es + fs).txns == map[]
  {
    RunKeeps(b, s, es);
    RunKeepsChecks(b, s, es);
    var t := Run(b, s, es);
    var n := Bounded(t.txns.Keys);
    fs := Finish(b, t, n);
    RunAppend(b, s, es, fs);
  }

  lemma {:induction false} Finish(b: Bounds, s: State, n: nat) returns (fs: seq<Event>)
    requires Inv(s) && ChecksOk(s) && forall i | i in s.txns :: i < n
    ensures OnlyAdvances(fs) && |fs| <= WorkBelow(s.txns, n) && Run(b, s, fs).txns == map[]
    decreases WorkBelow(s.txns, n)
  {
    fs := [];
    if s.txns != map[] {
      var tid := SomeAdvances(b, s);
      var e := NextEvent(s, tid);
      LessIsLess(s.txns, Step(b, s, e).txns, tid, n);
      StepKeeps(b, s, e);
      StepKeepsChecks(b, s, e);
      var rest := Finish(b, Step(b, s, e), n);
      fs := [e] + rest;
      assert fs[1..] == rest;
    }
  }
}
