/**
 Leases close the gap between validating a structure node and persisting a reference to it
 in another service. P bounds how long a caller takes to persist after its lease, G how far a
 remove's external counts may lie before its lease count; P + G below the lease time is
 exactly what the protocol needs.
 */
module StructureLeases {
  import opened Wrappers
  import opened StructureProtocol
  import opened StructureSafety

  /** A claim is backed by a lease for as long as its time has not run out. */
  ghost predicate Covered(s: State, c: Claim) {
    || c.claimedAt + LEASE_TTL_MS <= s.clock
    || exists l | l in s.leases :: l.node == c.node && l.expiresAt == c.claimedAt + LEASE_TTL_MS
  }

  ghost predicate TxnLeases(t: Txn, clock: int) {
    && (t.reserved != {} ==> t.prog.Resolve? && t.phase.Working?)
    && (forall l | l in t.reserved :: Holds(t, l.node) && l.expiresAt <= clock + LEASE_TTL_MS)
    && (forall l | l in t.purged :: l.expiresAt <= clock)
  }

  /** No reference to the target is older than the count that found none. */
  ghost predicate CountedAt(s: State, node: Node, service: Service, at: Option<int>) {
    at.Some? ==>
      && at.value <= s.clock
      && forall r | r in s.refs && r.service == service && r.node == node :: at.value <= r.persistedAt
  }

  ghost predicate TxnChecks(b: Bounds, s: State, t: Txn) {
    var n := Plan(t.prog)[0];
    && CountedAt(s, n, Typologies, t.typologiesAt)
    && CountedAt(s, n, Users, t.usersAt)
    && (t.leasesAt.Some? ==>
          && IsRemove(t.prog) && t.phase.Working?
          && t.leasesAt.value <= s.clock
          && (forall c | c in s.claims && c.node == n :: c.claimedAt + LEASE_TTL_MS <= t.leasesAt.value)
          && (s.onTime ==> CountsInTime(t, t.leasesAt.value, b.gap)))
    && (IsRemove(t.prog) && t.phase.Working? && t.phase.next >= |Statements(t.prog)| - 1 ==> t.leasesAt.Some?)
  }

  ghost predicate ClaimsOk(s: State) {
    forall c | c in s.claims :: c.node in s.rows && c.claimedAt <= s.clock && Covered(s, c)
  }

  ghost predicate RefsOk(b: Bounds, s: State) {
    s.onTime ==>
      forall r | r in s.refs ::
        Claim(r.node, r.claimedAt) in s.claims && r.persistedAt <= r.claimedAt + b.persist
  }

  /** Nothing refers, or still may refer, to a deleted node. */
  ghost predicate DeadOk(s: State) {
    forall n | n in s.rows && !s.rows[n].live ::
      && (forall c | c in s.claims && c.node == n :: c.claimedAt + LEASE_TTL_MS <= s.clock)
      && (s.onTime ==> forall r | r in s.refs :: r.node != n)
  }

  ghost predicate LeaseInv(b: Bounds, s: State) {
    && ClaimsOk(s) && RefsOk(b, s) && DeadOk(s)
    && forall v | v in s.txns :: TxnLeases(s.txns[v], s.clock) && TxnChecks(b, s, s.txns[v])
  }

  ghost predicate Tight(b: Bounds) { b.persist + b.gap < LEASE_TTL_MS }

  /** Steps that end a transaction without committing anything. */
  lemma DropKeepsLeases(b: Bounds, s: State, tid: nat)
    requires LeaseInv(b, s)
    ensures LeaseInv(b, Drop(s, tid))
  {
    var s' := Drop(s, tid);
    forall c | c in s.claims ensures Covered(s', c) {
      assert Covered(s, c);
    }
    forall v | v in s'.txns ensures TxnChecks(b, s', s'.txns[v]) && TxnLeases(s'.txns[v], s'.clock) {
      assert TxnChecks(b, s, s.txns[v]) && TxnLeases(s.txns[v], s.clock);
    }
  }

  /** Steps that change one transaction and nothing committed. */
  lemma PutKeepsLeases(b: Bounds, s: State, s': State, tid: nat, t: Txn)
    requires LeaseInv(b, s) && s'.txns == s.txns[tid := t]
    requires s'.rows == s.rows && s'.leases == s.leases && s'.claims == s.claims && s'.refs == s.refs
    requires s'.clock == s.clock && (s'.onTime ==> s.onTime)
    requires TxnLeases(t, s.clock) && TxnChecks(b, s', t)
    ensures LeaseInv(b, s')
  {
    forall c | c in s.claims ensures Covered(s', c) {
      assert Covered(s, c);
    }
    forall v | v in s'.txns && v != tid ensures TxnChecks(b, s', s'.txns[v]) && TxnLeases(s'.txns[v], s'.clock) {
      assert TxnChecks(b, s, s.txns[v]) && TxnLeases(s.txns[v], s.clock);
    }
  }

  lemma CountRefsKeepsLeases(b: Bounds, s: State, tid: nat, service: Service)
    requires Inv(s) && LeaseInv(b, s) && tid in s.txns
    ensures LeaseInv(b, DoCountRefs(s, tid, service))
  {
    var s' := DoCountRefs(s, tid, service);
    var t := s.txns[tid];
    assert TxnChecks(b, s, t) && TxnLeases(t, s.clock);
    if t.phase == Checking {
      if tid in s'.txns {
        PutKeepsLeases(b, s, s', tid, s'.txns[tid]);
      } else {
        DropKeepsLeases(b, s, tid);
      }
    }
  }

  lemma RequestKeepsLeases(b: Bounds, s: State, tid: nat)
    requires Inv(s) && LeaseInv(b, s)
    ensures LeaseInv(b, Step(b, s, Request(tid)))
  {
    var s' := Step(b, s, Request(tid));
    if s' != s {
      assert TxnChecks(b, s, s.txns[tid]) && TxnLeases(s.txns[tid], s.clock);
      PutKeepsLeases(b, s, s', tid, s'.txns[tid]);
    }
  }

  lemma GrantKeepsLeases(b: Bounds, s: State, tid: nat)
    requires Inv(s) && LeaseInv(b, s) && tid in s.txns
    ensures LeaseInv(b, DoGrant(s, tid))
  {
    var s' := DoGrant(s, tid);
    assert TxnChecks(b, s, s.txns[tid]) && TxnLeases(s.txns[tid], s.clock);
    if CanGrant(s, tid) {
      if tid in s'.txns {
        PutKeepsLeases(b, s, s', tid, s'.txns[tid]);
      } else {
        DropKeepsLeases(b, s, tid);
      }
    }
  }

  /** A lease count of zero means that every claim on the node has run out. */
  lemma ZeroLeasesMeansNoClaim(s: State, node: Node)
    requires ClaimsOk(s) && ActiveLeases(s.leases, node, s.clock) == {}
    ensures forall c | c in s.claims && c.node == node :: c.claimedAt + LEASE_TTL_MS <= s.clock
  {
    forall l | l in s.leases && l.node == node ensures l.expiresAt <= s.clock {
      assert l !in ActiveLeases(s.leases, node, s.clock);
    }
    forall c | c in s.claims && c.node == node ensures c.claimedAt + LEASE_TTL_MS <= s.clock {
      assert Covered(s, c);
    }
  }

  lemma LeaseCountKeepsLeases(b: Bounds, s: State, tid: nat, newId: nat)
    requires Inv(s) && LeaseInv(b, s) && tid in s.txns
    requires var t := s.txns[tid];
             t.phase.Working? && t.phase.next < |Statements(t.prog)| && Statements(t.prog)[t.phase.next].CountLeases?
    ensures LeaseInv(b, DoExec(b, s, tid, newId))
  {
    var s' := DoExec(b, s, tid, newId);
    assert TxnChecks(b, s, s.txns[tid]) && TxnLeases(s.txns[tid], s.clock);
    if tid in s'.txns {
      ZeroLeasesMeansNoClaim(s, Plan(s.txns[tid].prog)[0]);
      PutKeepsLeases(b, s, s', tid, s'.txns[tid]);
    } else {
      DropKeepsLeases(b, s, tid);
    }
  }

  lemma ReserveKeepsLeases(b: Bounds, s: State, tid: nat, newId: nat)
    requires Inv(s) && LeaseInv(b, s) && tid in s.txns
    requires var t := s.txns[tid];
             t.phase.Working? && t.phase.next < |Statements(t.prog)| && Statements(t.prog)[t.phase.next].Reserve?
    ensures LeaseInv(b, DoExec(b, s, tid, newId))
  {
    var s' := DoExec(b, s, tid, newId);
    var t := s.txns[tid];
    assert TxnChecks(b, s, t) && TxnLeases(t, s.clock);
    assert Holds(s'.txns[tid], Plan(t.prog)[t.phase.next]);
    forall l | l in t.reserved ensures Holds(s'.txns[tid], l.node) {
      assert Holds(t, l.node);
    }
    PutKeepsLeases(b, s, s', tid, s'.txns[tid]);
  }

  /** The lease count is the statement right before the soft delete. */
  lemma LeaseCountPrecedesDelete(p: Program, i: nat)
    requires IsRemove(p) && i < |Statements(p)| && !Statements(p)[i].CountLeases?
    ensures i + 1 != |Statements(p)| - 1
  {
  }

  lemma AdvanceKeepsLeases(b: Bounds, s: State, tid: nat, newId: nat)
    requires LeaseInv(b, s) && tid in s.txns
    requires var t := s.txns[tid];
             && t.phase.Working? && t.phase.next < |Statements(t.prog)|
             && !Statements(t.prog)[t.phase.next].CountLeases? && !Statements(t.prog)[t.phase.next].Reserve?
             && AfterStatement(s, t, newId).Some?
    ensures LeaseInv(b, DoExec(b, s, tid, newId))
  {
    var t := s.txns[tid];
    var t' := AfterStatement(s, t, newId).value;
    assert TxnChecks(b, s, t) && TxnLeases(t, s.clock);
    if IsRemove(t.prog) {
      LeaseCountPrecedesDelete(t.prog, t.phase.next);
    }
    // Every statement of a resolve is a reservation, so this one holds no lease.
    assert !t.prog.Resolve? && t'.reserved == {};
    PutKeepsLeases(b, s, DoExec(b, s, tid, newId), tid, t');
  }

  lemma ExecKeepsLeases(b: Bounds, s: State, tid: nat, newId: nat)
    requires Inv(s) && LeaseInv(b, s) && tid in s.txns
    ensures LeaseInv(b, DoExec(b, s, tid, newId))
  {
    var t := s.txns[tid];
    if t.phase.Working? && t.phase.next < |Statements(t.prog)| {
      if AfterStatement(s, t, newId).None? {
        DropKeepsLeases(b, s, tid);
      } else {
        match Statements(t.prog)[t.phase.next]
        case CountLeases => LeaseCountKeepsLeases(b, s, tid, newId);
        case Reserve(_) => ReserveKeepsLeases(b, s, tid, newId);
        case _ => AdvanceKeepsLeases(b, s, tid, newId);
      }
    }
  }

  /** A resolve's claims fall on locked nodes, so under no remove's count. */
  lemma ResolveKeepsLeases(b: Bounds, s: State, tid: nat)
    requires Inv(s) && LeaseInv(b, s) && tid in s.txns && s.txns[tid].prog.Resolve?
    ensures LeaseInv(b, DoCommit(s, tid))
  {
    var s' := DoCommit(s, tid);
    var t := s.txns[tid];
    assert TxnOk(t, s.rows) && TxnLeases(t, s.clock);
    if s' != s {
      forall c | c in s'.claims && c !in s.claims
        ensures Holds(t, c.node) && c.claimedAt <= s.clock && Covered(s', c) && IsLive(s.rows, c.node)
      {
        var l :| l in t.reserved && c == Claim(l.node, l.expiresAt - LEASE_TTL_MS);
        assert l in s'.leases;
      }
      forall c | c in s.claims ensures Covered(s', c) {
        assert Covered(s, c);
        if c.claimedAt + LEASE_TTL_MS > s.clock {
          var l :| l in s.leases && l.node == c.node && l.expiresAt == c.claimedAt + LEASE_TTL_MS;
          assert l in s'.leases;
        }
      }
      forall v | v in s'.txns ensures TxnChecks(b, s', s'.txns[v]) && TxnLeases(s'.txns[v], s'.clock) {
        var u := s.txns[v];
        assert TxnChecks(b, s, u) && TxnLeases(u, s.clock) && Compatible(t, u);
        if u.leasesAt.Some? {
          assert Holds(u, Plan(u.prog)[0]);
          assert !Holds(t, Plan(u.prog)[0]);
        }
      }
    }
  }

  lemma InsertKeepsLeases(b: Bounds, s: State, tid: nat)
    requires Inv(s) && LeaseInv(b, s) && tid in s.txns
    requires s.txns[tid].prog.CreateArea? || s.txns[tid].prog.CreateCargo?
    ensures LeaseInv(b, CommitInsert(s, tid))
  {
    var s' := CommitInsert(s, tid);
    forall c | c in s.claims ensures Covered(s', c) {
      assert Covered(s, c);
    }
    forall v | v in s'.txns ensures TxnChecks(b, s', s'.txns[v]) && TxnLeases(s'.txns[v], s'.clock) {
      assert TxnChecks(b, s, s.txns[v]) && TxnLeases(s.txns[v], s.clock);
    }
  }

  /** The timing argument: a reference found by neither count would have been persisted too late. */
  lemma NoRefSlipsThrough(b: Bounds, s: State, tid: nat, r: Ref)
    requires Tight(b) && LeaseInv(b, s) && s.onTime
    requires tid in s.txns && s.txns[tid].leasesAt.Some? && r in s.refs
    ensures r.node != Plan(s.txns[tid].prog)[0]
  {
    var t := s.txns[tid];
    assert TxnChecks(b, s, t);
    assert Claim(r.node, r.claimedAt) in s.claims && r.persistedAt <= r.claimedAt + b.persist;
  }

  lemma DeleteKeepsLeases(b: Bounds, s: State, tid: nat)
    requires Tight(b) && Inv(s) && LeaseInv(b, s) && tid in s.txns && IsRemove(s.txns[tid].prog)
    requires s.txns[tid].phase == Working(|Statements(s.txns[tid].prog)|)
    ensures LeaseInv(b, DoCommit(s, tid))
  {
    var s' := DoCommit(s, tid);
    var t := s.txns[tid];
    var n := Plan(t.prog)[0];
    assert TxnChecks(b, s, t);
    if s.onTime {
      forall r | r in s.refs ensures r.node != n {
        NoRefSlipsThrough(b, s, tid, r);
      }
    }
    forall c | c in s.claims ensures Covered(s', c) {
      assert Covered(s, c);
    }
    forall v | v in s'.txns ensures TxnChecks(b, s', s'.txns[v]) && TxnLeases(s'.txns[v], s'.clock) {
      assert TxnChecks(b, s, s.txns[v]) && TxnLeases(s.txns[v], s.clock);
    }
  }

  /** A reference to a deleted node can only be persisted after its time. */
  lemma PersistKeepsLeases(b: Bounds, s: State, c: Claim, service: Service)
    requires Tight(b) && LeaseInv(b, s)
    ensures LeaseInv(b, Step(b, s, Persist(c, service)))
  {
    var s' := Step(b, s, Persist(c, service));
    forall d | d in s.claims ensures Covered(s', d) {
      assert Covered(s, d);
    }
    forall v | v in s'.txns ensures TxnChecks(b, s', s'.txns[v]) && TxnLeases(s'.txns[v], s'.clock) {
      assert TxnChecks(b, s, s.txns[v]) && TxnLeases(s.txns[v], s.clock);
    }
  }

  lemma SweepKeepsLeases(b: Bounds, s: State, e: Event)
    requires LeaseInv(b, s) && e.Sweep?
    ensures LeaseInv(b, Step(b, s, e))
  {
    var s' := Step(b, s, e);
    if s' != s {
      assert TxnChecks(b, s, s.txns[e.tid]) && TxnLeases(s.txns[e.tid], s.clock);
      PutKeepsLeases(b, s, s', e.tid, s'.txns[e.tid]);
    }
  }

  lemma OtherKeepsLeases(b: Bounds, s: State, e: Event)
    requires LeaseInv(b, s) && (e.DropRef? || e.NewDept? || e.Tick?)
    ensures LeaseInv(b, Step(b, s, e))
  {
    var s' := Step(b, s, e);
    forall c | c in s.claims ensures Covered(s', c) {
      assert Covered(s, c);
    }
    forall v | v in s'.txns ensures TxnChecks(b, s', s'.txns[v]) && TxnLeases(s'.txns[v], s'.clock) {
      assert TxnChecks(b, s, s.txns[v]) && TxnLeases(s.txns[v], s.clock);
    }
  }

  lemma StepKeepsLeases(b: Bounds, s: State, e: Event)
    requires Tight(b) && Inv(s) && LeaseInv(b, s)
    ensures LeaseInv(b, Step(b, s, e))
  {
    match e
    case CountRefs(tid, service) => if tid in s.txns { CountRefsKeepsLeases(b, s, tid, service); }
    case Begin(tid, p) => if tid !in s.txns { PutKeepsLeases(b, s, Step(b, s, e), tid, Fresh(p)); }
    case Request(tid) => RequestKeepsLeases(b, s, tid);
    case Grant(tid) => if tid in s.txns { GrantKeepsLeases(b, s, tid); }
    case Sweep(_, _) => SweepKeepsLeases(b, s, e);
    case Abort(tid) => DropKeepsLeases(b, s, tid);
    case Exec(tid, newId) => if tid in s.txns { ExecKeepsLeases(b, s, tid, newId); }
    case Commit(tid) =>
      if tid in s.txns && s.txns[tid].phase == Working(|Statements(s.txns[tid].prog)|) {
        match s.txns[tid].prog
        case Resolve(_, _, _) => ResolveKeepsLeases(b, s, tid);
        case CreateArea(_) => InsertKeepsLeases(b, s, tid);
        case CreateCargo(_, _) => InsertKeepsLeases(b, s, tid);
        case _ => DeleteKeepsLeases(b, s, tid);
      }
    case Persist(c, service) => PersistKeepsLeases(b, s, c, service);
    case _ => OtherKeepsLeases(b, s, e);
  }

  lemma {:induction false} RunKeepsLeases(b: Bounds, s: State, es: seq<Event>)
    requires Tight(b) && Inv(s) && LeaseInv(b, s)
    ensures Inv(Run(b, s, es)) && LeaseInv(b, Run(b, s, es))
    decreases |es|
  {
    if es != [] {
      StructureSafety.StepKeeps(b, s, es[0]);
      StepKeepsLeases(b, s, es[0]);
      RunKeepsLeases(b, Step(b, s, es[0]), es[1..]);
    }
  }

  /** With P + G below the lease time, every reference of every timely run names a live node. */
  lemma NoDanglingReference(b: Bounds, s: State, es: seq<Event>)
    requires Initial(s) && b.persist + b.gap < LEASE_TTL_MS && Run(b, s, es).onTime
    ensures var t := Run(b, s, es); forall r | r in t.refs :: IsLive(t.rows, r.node)
  {
    RunKeepsLeases(b, s, es);
    var t := Run(b, s, es);
    forall r | r in t.refs ensures IsLive(t.rows, r.node) {
      assert Claim(r.node, r.claimedAt) in t.claims;
    }
  }
}
