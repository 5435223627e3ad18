/**
 What the transactions on the structure achieve: the rows, leases and claims that a commit leaves
 behind, in any interleaving, and what each request does when nothing runs beside it.
 */
module StructureResults {
  import opened Wrappers
  import opened StructureProtocol
  import opened StructureSafety

  // Commits

  ghost predicate Leased(leases: set<Lease>, n: Node) { exists l | l in leases :: l.node == n }

  /** A create past its insert has a node, a resolve has leases on the nodes it came to, and on no other. */
  ghost predicate Progressed(t: Txn) {
    t.phase.Working? ==>
      match t.prog
      case CreateArea(_) => t.phase.next >= 1 ==> t.inserted.Some?
      case CreateCargo(_, _) => t.phase.next >= 1 ==> t.inserted.Some?
      case Resolve(_, _, _) =>
        && (forall i :: 0 <= i < t.phase.next && i < |Plan(t.prog)| ==> Leased(t.reserved, Plan(t.prog)[i]))
        && (forall l | l in t.reserved :: l.node in Plan(t.prog))
      case _ => true
  }

  ghost predicate AllProgressed(s: State) {
    forall v | v in s.txns :: Progressed(s.txns[v]) && (!s.txns[v].phase.Working? ==> s.txns[v].reserved == {})
  }

  lemma StepKeepsProgress(b: Bounds, s: State, e: Event)
    requires AllProgressed(s)
    ensures AllProgressed(Step(b, s, e))
  {
    if e.Exec? {
      ExecKeepsProgress(b, s, e.tid, e.newId);
    } else {
      var t := Step(b, s, e);
      forall v | v in t.txns ensures Progressed(t.txns[v]) && (!t.txns[v].phase.Working? ==> t.txns[v].reserved == {}) {
        assert v in s.txns ==> Progressed(s.txns[v]);
      }
    }
  }

  lemma ExecKeepsProgress(b: Bounds, s: State, tid: nat, newId: nat)
    requires AllProgressed(s)
    ensures AllProgressed(Step(b, s, Exec(tid, newId)))
  {
    if tid in s.txns && s.txns[tid].phase.Working? && s.txns[tid].phase.next < |Statements(s.txns[tid].prog)| {
      var t := s.txns[tid];
      var after := AfterStatement(s, t, newId);
      if after.Some? && t.prog.Resolve? {
        var lease := Lease(s.nextLease, Plan(t.prog)[t.phase.next], s.clock + LEASE_TTL_MS);
        assert after.value.reserved == t.reserved + {lease};
        forall i | 0 <= i < t.phase.next + 1 && i < |Plan(t.prog)|
          ensures Leased(after.value.reserved, Plan(t.prog)[i])
        {
          if i == t.phase.next {
            assert lease in after.value.reserved;
          } else {
            assert Leased(t.reserved, Plan(t.prog)[i]);
            var l :| l in t.reserved && l.node == Plan(t.prog)[i];
            assert l in after.value.reserved;
          }
        }
        assert Progressed(after.value);
      }
    }
  }

  lemma {:induction false} RunKeepsProgress(b: Bounds, s: State, es: seq<Event>)
    requires AllProgressed(s)
    ensures AllProgressed(Run(b, s, es))
    decreases |es|
  {
    if es != [] {
      StepKeepsProgress(b, s, es[0]);
      RunKeepsProgress(b, Step(b, s, es[0]), es[1..]);
    }
  }

  /** The transaction has done all its statements. */
  ghost predicate AtEnd(s: State, tid: nat) {
    tid in s.txns && s.txns[tid].phase == Working(|Statements(s.txns[tid].prog)|)
  }

  /** A cargo is created under the departamento and the area asked for, or not at all if its id is taken. */
  lemma CreateCargoCommits(b: Bounds, s: State, tid: nat, dept: nat, area: Option<nat>)
    requires Inv(s) && AllProgressed(s) && AtEnd(s, tid) && s.txns[tid].prog == CreateCargo(dept, area)
    ensures s.txns[tid].inserted.Some? && s.txns[tid].inserted.value.kind == Cargo
    ensures var n := s.txns[tid].inserted.value;
            Step(b, s, Commit(tid)) == s.(txns := s.txns - {tid},
                                          rows := if n in s.rows then s.rows
                                                  else s.rows[n := Row(Some(dept), area, true)])
  {
    assert TxnOk(s.txns[tid], s.rows);
  }

  /** An area is created under the departamento asked for, or not at all if its id is taken. */
  lemma CreateAreaCommits(b: Bounds, s: State, tid: nat, dept: nat)
    requires Inv(s) && AllProgressed(s) && AtEnd(s, tid) && s.txns[tid].prog == CreateArea(dept)
    ensures s.txns[tid].inserted.Some? && s.txns[tid].inserted.value.kind == Area
    ensures var n := s.txns[tid].inserted.value;
            Step(b, s, Commit(tid)) == s.(txns := s.txns - {tid},
                                          rows := if n in s.rows then s.rows
                                                  else s.rows[n := Row(Some(dept), None, true)])
  {
    assert TxnOk(s.txns[tid], s.rows);
  }

  /** The row that a remove is about. */
  ghost function Target(p: Program): Node
    requires IsRemove(p)
  {
    match p
    case RemoveDept(d) => Node(Dept, d)
    case RemoveArea(_, a) => Node(Area, a)
    case RemoveCargo(_, _, c) => Node(Cargo, c)
  }

  /** A remove ends the life of its target, which was alive, and touches no other row or column. */
  lemma RemoveCommits(b: Bounds, s: State, tid: nat)
    requires Inv(s) && AtEnd(s, tid) && IsRemove(s.txns[tid].prog)
    ensures var n := Target(s.txns[tid].prog);
            && n in s.rows && s.rows[n].live
            && Step(b, s, Commit(tid)) == s.(txns := s.txns - {tid},
                                             rows := s.rows[n := Row(s.rows[n].dept, s.rows[n].area, false)])
  {
    var t := s.txns[tid];
    assert TxnOk(t, s.rows);
    assert Plan(t.prog)[0] == Target(t.prog);
  }

  /** The nodes that a resolve answers for. */
  ghost function Asked(dept: nat, area: Option<nat>, cargo: Option<nat>): set<Node> {
    {Node(Dept, dept)} + (if area.Some? then {Node(Area, area.value)} else {})
    + (if cargo.Some? then {Node(Cargo, cargo.value)} else {})
  }

  /** A resolve leaves on every node it answers for a lease and, from the same moment, a claim; it changes no row. */
  lemma ResolveCommits(b: Bounds, s: State, tid: nat, dept: nat, area: Option<nat>, cargo: Option<nat>)
    requires AllProgressed(s) && AtEnd(s, tid) && s.txns[tid].prog == Resolve(dept, area, cargo)
    ensures var t := Step(b, s, Commit(tid));
            && t == s.(txns := s.txns - {tid}, leases := t.leases, claims := t.claims)
            && s.claims <= t.claims
            && (forall n | n in Asked(dept, area, cargo) ::
                  exists l | l in t.leases :: l.node == n && Claim(n, l.expiresAt - 30_000) in t.claims)
            && (forall c | c in t.claims && c !in s.claims :: c.node in Asked(dept, area, cargo))
  {
    var t := s.txns[tid];
    var after := Step(b, s, Commit(tid));
    assert forall n :: n in Asked(dept, area, cargo) <==> n in Plan(t.prog);
    forall n | n in Asked(dept, area, cargo)
      ensures exists l | l in after.leases :: l.node == n && Claim(n, l.expiresAt - 30_000) in after.claims
    {
      var i :| 0 <= i < |Plan(t.prog)| && Plan(t.prog)[i] == n;
      assert Leased(t.reserved, Plan(t.prog)[i]);
      var l :| l in t.reserved && l.node == Plan(t.prog)[i];
      assert l in after.leases && Claim(l.node, l.expiresAt - LEASE_TTL_MS) in after.claims;
    }
  }

  // Rows over a run

  /** Rows are never dropped, moved to another parent or brought back. */
  ghost predicate RowsOnlyDie(before: map<Node, Row>, after: map<Node, Row>) {
    forall n | n in before ::
      && n in after && after[n].dept == before[n].dept && after[n].area == before[n].area
      && (after[n].live ==> before[n].live)
  }

  lemma StepOnlyKills(b: Bounds, s: State, e: Event)
    ensures RowsOnlyDie(s.rows, Step(b, s, e).rows)
  {
  }

  lemma {:induction false} RunOnlyKills(b: Bounds, s: State, es: seq<Event>)
    ensures RowsOnlyDie(s.rows, Run(b, s, es).rows)
    decreases |es|
  {
    if es != [] {
      StepOnlyKills(b, s, es[0]);
      RunOnlyKills(b, Step(b, s, es[0]), es[1..]);
    }
  }

  /**
   A cargo created in an area stops every remove of that area, whatever happened since, for as long
   as the cargo is not removed itself.
   */
  lemma CreatedCargoStopsRemove(b: Bounds, s: State, es: seq<Event>, tid: nat, dept: nat, area: nat,
                                fs: seq<Event>, remover: nat, newId: nat)
    requires Initial(s)
    requires var t := Run(b, s, es);
             && AtEnd(t, tid) && t.txns[tid].prog == CreateCargo(dept, Some(area))
             && t.txns[tid].inserted.Some? && t.txns[tid].inserted.value !in t.rows
    requires var n := Run(b, s, es).txns[tid].inserted.value;
             var u := Run(b, Step(b, Run(b, s, es), Commit(tid)), fs);
             && (n in u.rows ==> u.rows[n].live)
             && remover in u.txns && u.txns[remover].prog == RemoveArea(dept, area)
             && u.txns[remover].phase == Working(0)
    ensures var u := Run(b, Step(b, Run(b, s, es), Commit(tid)), fs);
            remover !in Step(b, u, Exec(remover, newId)).txns
  {
    RunKeeps(b, s, es);
    RunKeepsProgress(b, s, es);
    var t := Run(b, s, es);
    var n := t.txns[tid].inserted.value;
    CreateCargoCommits(b, t, tid, dept, Some(area));
    RunOnlyKills(b, Step(b, t, Commit(tid)), fs);
    var u := Run(b, Step(b, t, Commit(tid)), fs);
    assert u.rows[n].live && u.rows[n].area == Some(area) && n.kind == Cargo;
    assert HasLiveCargosOfArea(u.rows, area);
  }
}
