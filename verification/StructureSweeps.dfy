/** The opportunistic purge of expired leases changes nothing that a transaction or a caller can see. */
module StructureSweeps {
  import opened Wrappers
  import opened StructureProtocol

  function NoSweeps(es: seq<Event>): seq<Event> {
    if es == [] then [] else (if es[0].Sweep? then [] else [es[0]]) + NoSweeps(es[1..])
  }

  function Plain(t: Txn): Txn { t.(purged := {}) }

  function AllPlain(txns: map<nat, Txn>): map<nat, Txn> { map v | v in txns :: Plain(txns[v]) }

  /** `t` is `s` without its sweeps: everything is the same, and `t` may still hold leases that ran out. */
  ghost predicate Unswept(s: State, t: State) {
    && t == s.(txns := AllPlain(s.txns), leases := t.leases)
    && s.leases <= t.leases
    && (forall l | l in t.leases && l !in s.leases :: l.expiresAt <= s.clock)
    && (forall v, l | v in s.txns && l in s.txns[v].purged :: l.expiresAt <= s.clock)
  }

  /** No node has more or fewer active leases, now or later. */
  lemma SameCounts(s: State, t: State, node: Node, now: int)
    requires Unswept(s, t) && s.clock <= now
    ensures ActiveLeases(s.leases, node, now) == ActiveLeases(t.leases, node, now)
  {
  }

  lemma PutPlain(s: State, t: State, s': State, t': State, tid: nat, u: Txn)
    requires Unswept(s, t) && u.purged <= (if tid in s.txns then s.txns[tid].purged else {})
    requires s' == Put(s, tid, u).(onTime := s'.onTime, nextLease := s'.nextLease, nextTicket := s'.nextTicket)
    requires t' == Put(t, tid, Plain(u)).(onTime := s'.onTime, nextLease := s'.nextLease, nextTicket := s'.nextTicket)
    ensures Unswept(s', t')
  {
    assert AllPlain(s.txns[tid := u]) == AllPlain(s.txns)[tid := Plain(u)];
  }

  lemma DropPlain(s: State, t: State, tid: nat)
    requires Unswept(s, t)
    ensures Unswept(Drop(s, tid), Drop(t, tid))
  {
    assert AllPlain(s.txns - {tid}) == AllPlain(s.txns) - {tid};
  }

  lemma GrantPlain(s: State, t: State, tid: nat)
    requires Unswept(s, t) && tid in s.txns
    ensures Unswept(DoGrant(s, tid), DoGrant(t, tid))
  {
    var u := s.txns[tid];
    assert forall v | v in s.txns :: forall n :: Holds(s.txns[v], n) <==> Holds(t.txns[v], n);
    assert CanGrant(s, tid) <==> CanGrant(t, tid);
    if CanGrant(s, tid) {
      var n := Plan(u.prog)[u.phase.k];
      if n !in s.rows || !Matches(u.prog, n, s.rows[n]) {
        DropPlain(s, t, tid);
      } else {
        PutPlain(s, t, DoGrant(s, tid), DoGrant(t, tid), tid, DoGrant(s, tid).txns[tid]);
      }
    }
  }

  lemma CountRefsPlain(s: State, t: State, tid: nat, service: Service)
    requires Unswept(s, t) && tid in s.txns
    ensures Unswept(DoCountRefs(s, tid, service), DoCountRefs(t, tid, service))
  {
    var u := s.txns[tid];
    if u.phase == Checking {
      if Referenced(s.refs, service, Plan(u.prog)[0]) {
        DropPlain(s, t, tid);
      } else {
        PutPlain(s, t, DoCountRefs(s, tid, service), DoCountRefs(t, tid, service),
                 tid, DoCountRefs(s, tid, service).txns[tid]);
      }
    }
  }

  lemma StatementPlain(s: State, t: State, u: Txn, newId: nat)
    requires Unswept(s, t) && u.phase.Working? && u.phase.next < |Statements(u.prog)|
    ensures AfterStatement(t, Plain(u), newId)
            == match AfterStatement(s, u, newId) case None => None case Some(u1) => Some(Plain(u1))
    ensures AfterStatement(s, u, newId).Some? ==> AfterStatement(s, u, newId).value.purged == u.purged
  {
    SameCounts(s, t, Plan(u.prog)[0], s.clock);
  }

  lemma ExecPlain(b: Bounds, s: State, t: State, tid: nat, newId: nat)
    requires Unswept(s, t) && tid in s.txns
    ensures Unswept(DoExec(b, s, tid, newId), DoExec(b, t, tid, newId))
  {
    var u := s.txns[tid];
    if u.phase.Working? && u.phase.next < |Statements(u.prog)| {
      StatementPlain(s, t, u, newId);
      if AfterStatement(s, u, newId).None? {
        DropPlain(s, t, tid);
      } else {
        PutPlain(s, t, DoExec(b, s, tid, newId), DoExec(b, t, tid, newId), tid, AfterStatement(s, u, newId).value);
      }
    }
  }

  lemma CommitPlain(s: State, t: State, tid: nat)
    requires Unswept(s, t) && tid in s.txns
    ensures Unswept(DoCommit(s, tid), DoCommit(t, tid))
  {
    DropPlain(s, t, tid);
  }

  lemma SweepPlain(b: Bounds, s: State, t: State, e: Event)
    requires Unswept(s, t) && e.Sweep?
    ensures Unswept(Step(b, s, e), t)
  {
    var s' := Step(b, s, e);
    if s' != s {
      assert AllPlain(s'.txns) == AllPlain(s.txns);
    }
  }

  lemma StepPlain(b: Bounds, s: State, t: State, e: Event)
    requires Unswept(s, t) && !e.Sweep?
    ensures Unswept(Step(b, s, e), Step(b, t, e))
  {
    match e
    case Begin(tid, p) => if tid !in s.txns { PutPlain(s, t, Step(b, s, e), Step(b, t, e), tid, Fresh(p)); }
    case CountRefs(tid, service) => if tid in s.txns { CountRefsPlain(s, t, tid, service); }
    case Request(tid) =>
      if tid in s.txns && s.txns[tid].phase.Locking? && s.txns[tid].phase.ticket.None? {
        PutPlain(s, t, Step(b, s, e), Step(b, t, e), tid, Step(b, s, e).txns[tid]);
      }
    case Grant(tid) => if tid in s.txns { GrantPlain(s, t, tid); }
    case Exec(tid, newId) => if tid in s.txns { ExecPlain(b, s, t, tid, newId); }
    case Commit(tid) => if tid in s.txns { CommitPlain(s, t, tid); }
    case Abort(tid) => DropPlain(s, t, tid);
    case _ =>
  }

  lemma {:induction false} RunPlain(b: Bounds, s: State, t: State, es: seq<Event>)
    requires Unswept(s, t)
    ensures Unswept(Run(b, s, es), Run(b, t, NoSweeps(es)))
    decreases |es|
  {
    if es != [] {
      if es[0].Sweep? {
        SweepPlain(b, s, t, es[0]);
        RunPlain(b, Step(b, s, es[0]), t, es[1..]);
        assert NoSweeps(es) == NoSweeps(es[1..]);
      } else {
        StepPlain(b, s, t, es[0]);
        RunPlain(b, Step(b, s, es[0]), Step(b, t, es[0]), es[1..]);
        assert NoSweeps(es)[0] == es[0] && NoSweeps(es)[1..] == NoSweeps(es[1..]);
      }
    }
  }

  /**
   Leaving every sweep out of a run changes neither the rows, the locks and phases of the
   transactions, the claims and the references, nor any count of active leases from then on.
   */
  lemma SweepsChangeNothing(b: Bounds, s: State, es: seq<Event>)
    requires Initial(s)
    ensures var swept, plain := Run(b, s, es), Run(b, s, NoSweeps(es));
            && plain == swept.(txns := AllPlain(swept.txns), leases := plain.leases)
            && forall node, now | swept.clock <= now ::
                 ActiveLeases(swept.leases, node, now) == ActiveLeases(plain.leases, node, now)
  {
    assert AllPlain(s.txns) == s.txns;
    RunPlain(b, s, s, es);
    forall node, now | Run(b, s, es).clock <= now
      ensures ActiveLeases(Run(b, s, es).leases, node, now) == ActiveLeases(Run(b, s, NoSweeps(es)).leases, node, now)
    {
      SameCounts(Run(b, s, es), Run(b, s, NoSweeps(es)), node, now);
    }
  }
}
