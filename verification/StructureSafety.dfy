/** No interleaving of creates, removes and resolves orphans a node. */
module StructureSafety {
  import opened Wrappers
  import opened StructureProtocol

  ghost predicate WellPhased(t: Txn) {
    match t.phase
    case Checking => IsRemove(t.prog)
    case Locking(k, _) => k < |Plan(t.prog)|
    case Working(next) => next <= |Statements(t.prog)|
  }

  /** A locked row still is what the locking read found. */
  ghost predicate HeldOk(t: Txn, rows: map<Node, Row>) {
    forall i :: 0 <= i < |Plan(t.prog)| && i < Held(t) ==>
      Plan(t.prog)[i] in rows && Matches(t.prog, Plan(t.prog)[i], rows[Plan(t.prog)[i]])
  }

  /** A dependent count of zero stays zero until the remove ends. */
  ghost predicate CountsOk(t: Txn, rows: map<Node, Row>) {
    t.phase.Working? ==>
      match t.prog
      case RemoveDept(d) =>
        && (t.phase.next >= 1 ==> !HasLiveAreas(rows, d))
        && (t.phase.next >= 2 ==> !HasLiveCargosOfDept(rows, d))
      case RemoveArea(_, a) => t.phase.next >= 1 ==> !HasLiveCargosOfArea(rows, a)
      case _ => true
  }

  ghost predicate TxnOk(t: Txn, rows: map<Node, Row>) {
    && WellPhased(t) && HeldOk(t, rows) && CountsOk(t, rows)
    && (t.inserted.Some? ==> t.inserted.value.kind == ChildKind(t.prog))
  }

  ghost predicate Compatible(t: Txn, u: Txn) {
    forall n | Holds(t, n) && Holds(u, n) :: !Conflict(t, u)
  }

  ghost predicate Inv(s: State) {
    && NoOrphans(s.rows)
    && (forall v | v in s.txns :: TxnOk(s.txns[v], s.rows))
    && (forall v, w | v in s.txns && w in s.txns && v != w :: Compatible(s.txns[v], s.txns[w]))
  }

  /** Steps that end a transaction or change nothing the invariant reads. */
  lemma DropKeeps(s: State, t: State)
    requires Inv(s) && t.rows == s.rows
    requires forall v | v in t.txns :: v in s.txns && t.txns[v] == s.txns[v]
    ensures Inv(t)
  {
  }

  /** Steps that change one transaction and no row. */
  lemma PutKeeps(s: State, s': State, tid: nat, t: Txn)
    requires Inv(s) && s'.rows == s.rows && s'.txns == s.txns[tid := t]
    requires TxnOk(t, s.rows)
    requires forall v | v in s.txns && v != tid :: Compatible(t, s.txns[v])
    ensures Inv(s')
  {
    forall v, w | v in s'.txns && w in s'.txns && v != w ensures Compatible(s'.txns[v], s'.txns[w]) {
      if v == tid {
        assert Compatible(t, s.txns[w]);
      } else if w == tid {
        assert Compatible(t, s.txns[v]);
      } else {
        assert Compatible(s.txns[v], s.txns[w]);
      }
    }
  }

  /** As long as no lock is added, a transaction goes together with whatever it went with. */
  lemma SameLocksKeep(s: State, tid: nat, t: Txn)
    requires Inv(s) && tid in s.txns && t.prog == s.txns[tid].prog && Held(t) <= Held(s.txns[tid])
    ensures forall v | v in s.txns && v != tid :: Compatible(t, s.txns[v])
  {
    forall v | v in s.txns && v != tid ensures Compatible(t, s.txns[v]) {
      forall n | Holds(t, n) && Holds(s.txns[v], n) ensures !Conflict(t, s.txns[v]) {
        assert Holds(s.txns[tid], n);
        assert Compatible(s.txns[tid], s.txns[v]);
      }
    }
  }

  lemma BeginKeeps(s: State, tid: nat, p: Program)
    requires Inv(s) && tid !in s.txns
    ensures Inv(Put(s, tid, Fresh(p)))
  {
    forall v | v in s.txns ensures Compatible(Fresh(p), s.txns[v]) {}
    PutKeeps(s, Put(s, tid, Fresh(p)), tid, Fresh(p));
  }

  lemma CountRefsKeeps(s: State, tid: nat, service: Service)
    requires Inv(s) && tid in s.txns
    ensures Inv(DoCountRefs(s, tid, service))
  {
    var s' := DoCountRefs(s, tid, service);
    assert TxnOk(s.txns[tid], s.rows);
    if tid in s'.txns && s' != s {
      SameLocksKeep(s, tid, s'.txns[tid]);
      PutKeeps(s, s', tid, s'.txns[tid]);
    }
  }

  lemma RequestKeeps(s: State, b: Bounds, tid: nat)
    requires Inv(s)
    ensures Inv(Step(b, s, Request(tid)))
  {
    var s' := Step(b, s, Request(tid));
    if tid in s.txns && s' != s {
      assert TxnOk(s.txns[tid], s.rows);
      SameLocksKeep(s, tid, s'.txns[tid]);
      PutKeeps(s, s', tid, s'.txns[tid]);
    }
  }

  lemma GrantKeeps(s: State, tid: nat)
    requires Inv(s) && tid in s.txns
    ensures Inv(DoGrant(s, tid))
  {
    var s' := DoGrant(s, tid);
    var t := s.txns[tid];
    assert TxnOk(t, s.rows);
    if CanGrant(s, tid) && tid in s'.txns {
      var t' := s'.txns[tid];
      var n0 := Plan(t.prog)[t.phase.k];
      forall v | v in s.txns && v != tid ensures Compatible(t', s.txns[v]) {
        var u := s.txns[v];
        forall n | Holds(t', n) && Holds(u, n) ensures !Conflict(t', u) {
          if n != n0 {
            assert Holds(t, n);
            assert Compatible(t, u);
          }
        }
      }
      PutKeeps(s, s', tid, t');
    }
  }

  /** A statement that passes leaves its transaction in order. */
  lemma StatementKeepsTxn(s: State, t: Txn, newId: nat)
    requires TxnOk(t, s.rows) && t.phase.Working? && t.phase.next < |Statements(t.prog)|
    requires AfterStatement(s, t, newId).Some?
    ensures TxnOk(AfterStatement(s, t, newId).value, s.rows)
  {
    match Statements(t.prog)[t.phase.next]
    case InsertChild =>
    case Reserve(_) =>
    case _ =>
  }

  lemma ExecKeeps(b: Bounds, s: State, tid: nat, newId: nat)
    requires Inv(s) && tid in s.txns
    ensures Inv(DoExec(b, s, tid, newId))
  {
    var s' := DoExec(b, s, tid, newId);
    var t := s.txns[tid];
    if t.phase.Working? && t.phase.next < |Statements(t.prog)| {
      match AfterStatement(s, t, newId)
      case None => DropKeeps(s, s');
      case Some(t') =>
        StatementKeepsTxn(s, t, newId);
        SameLocksKeep(s, tid, t');
        PutKeeps(s, s', tid, t');
    }
  }

  // Commits

  /**
   A child row goes under a parent whose lock keeps it alive; an area's own departamento is kept
   alive by the area.
   */
  lemma InsertHasParents(s: State, tid: nat)
    requires Inv(s) && tid in s.txns
    requires var t := s.txns[tid];
             (t.prog.CreateArea? || t.prog.CreateCargo?) && t.phase.Working? && t.inserted.Some?
             && t.inserted.value !in s.rows
    ensures NoOrphans(CommitInsert(s, tid).rows)
    ensures var t := s.txns[tid];
            CommitInsert(s, tid).rows
            == s.rows[t.inserted.value :=
                        Row(Some(t.prog.dept), if t.prog.CreateCargo? then t.prog.area else None, true)]
  {
    var t := s.txns[tid];
    var n := t.inserted.value;
    var parent := Plan(t.prog)[0];
    var rows' := CommitInsert(s, tid).rows;
    assert TxnOk(t, s.rows) && Holds(t, parent);
    assert Matches(t.prog, parent, s.rows[parent]);
    if parent.kind == Area {
      assert HasLiveParents(s.rows, parent);
    }
    forall m | m in rows' && rows'[m].live ensures HasLiveParents(rows', m) {
      if m != n {
        assert HasLiveParents(s.rows, m);
      }
    }
  }

  /** The new child falls under no count that a concurrent remove already made. */
  lemma InsertKeepsCounts(s: State, tid: nat, v: nat)
    requires Inv(s) && tid in s.txns && v in s.txns && v != tid
    requires var t := s.txns[tid];
             (t.prog.CreateArea? || t.prog.CreateCargo?) && t.phase.Working? && t.inserted.Some?
             && t.inserted.value !in s.rows
    ensures TxnOk(s.txns[v], CommitInsert(s, tid).rows)
  {
    var t, u := s.txns[tid], s.txns[v];
    var parent := Plan(t.prog)[0];
    assert TxnOk(t, s.rows) && TxnOk(u, s.rows);
    assert Holds(t, parent) && Compatible(t, u);
    assert Matches(t.prog, parent, s.rows[parent]);
    if u.phase.Working? && IsRemove(u.prog) {
      assert Holds(u, Plan(u.prog)[0]);
      assert parent != Plan(u.prog)[0];
    }
  }

  lemma InsertKeeps(s: State, tid: nat)
    requires Inv(s) && tid in s.txns
    requires (s.txns[tid].prog.CreateArea? || s.txns[tid].prog.CreateCargo?) && s.txns[tid].phase.Working?
    ensures Inv(CommitInsert(s, tid))
  {
    var t := s.txns[tid];
    var s' := CommitInsert(s, tid);
    if t.inserted.None? || t.inserted.value in s.rows {
      DropKeeps(s, s');
    } else {
      InsertHasParents(s, tid);
      forall v | v in s'.txns ensures TxnOk(s'.txns[v], s'.rows) {
        InsertKeepsCounts(s, tid, v);
      }
    }
  }

  /** Whatever a remove deletes has no live child left. */
  lemma DeleteKeepsParents(s: State, tid: nat)
    requires Inv(s) && tid in s.txns && IsRemove(s.txns[tid].prog)
    requires s.txns[tid].phase == Working(|Statements(s.txns[tid].prog)|)
    ensures NoOrphans(DoCommit(s, tid).rows)
  {
    var t := s.txns[tid];
    var n := Plan(t.prog)[0];
    var rows' := DoCommit(s, tid).rows;
    assert TxnOk(t, s.rows);
    forall m | m in rows' && rows'[m].live ensures HasLiveParents(rows', m) {
      assert HasLiveParents(s.rows, m);
    }
  }

  lemma DeleteKeepsOthers(s: State, tid: nat, v: nat)
    requires Inv(s) && tid in s.txns && v in s.txns && v != tid && IsRemove(s.txns[tid].prog)
    requires s.txns[tid].phase == Working(|Statements(s.txns[tid].prog)|)
    ensures TxnOk(s.txns[v], DoCommit(s, tid).rows)
  {
    var t, u := s.txns[tid], s.txns[v];
    var n := Plan(t.prog)[0];
    assert TxnOk(u, s.rows) && Compatible(t, u) && Holds(t, n);
    assert !Holds(u, n);
  }

  lemma DeleteKeeps(s: State, tid: nat)
    requires Inv(s) && tid in s.txns && IsRemove(s.txns[tid].prog)
    requires s.txns[tid].phase == Working(|Statements(s.txns[tid].prog)|)
    ensures Inv(DoCommit(s, tid))
  {
    var s' := DoCommit(s, tid);
    DeleteKeepsParents(s, tid);
    forall v | v in s'.txns ensures TxnOk(s'.txns[v], s'.rows) {
      DeleteKeepsOthers(s, tid, v);
    }
  }

  lemma NewDeptKeeps(b: Bounds, s: State, id: nat)
    requires Inv(s)
    ensures Inv(Step(b, s, NewDept(id)))
  {
    var s' := Step(b, s, NewDept(id));
    forall m | m in s'.rows && s'.rows[m].live ensures HasLiveParents(s'.rows, m) {
      if m in s.rows {
        assert HasLiveParents(s.rows, m);
      }
    }
    forall v | v in s'.txns ensures TxnOk(s'.txns[v], s'.rows) {
      assert TxnOk(s.txns[v], s.rows);
    }
  }

  lemma StepKeeps(b: Bounds, s: State, e: Event)
    requires Inv(s)
    ensures Inv(Step(b, s, e))
  {
    match e
    case Begin(tid, p) => if tid !in s.txns { BeginKeeps(s, tid, p); }
    case CountRefs(tid, service) => if tid in s.txns { CountRefsKeeps(s, tid, service); }
    case Request(tid) => RequestKeeps(s, b, tid);
    case Grant(tid) => if tid in s.txns { GrantKeeps(s, tid); }
    case Exec(tid, newId) => if tid in s.txns { ExecKeeps(b, s, tid, newId); }
    case Sweep(tid, batch) =>
      var s' := Step(b, s, e);
      if s' != s {
        assert TxnOk(s.txns[tid], s.rows);
        SameLocksKeep(s, tid, s'.txns[tid]);
        PutKeeps(s, s', tid, s'.txns[tid]);
      }
    case Commit(tid) =>
      if tid in s.txns && s.txns[tid].phase == Working(|Statements(s.txns[tid].prog)|) {
        match s.txns[tid].prog
        case Resolve(_, _, _) => DropKeeps(s, Step(b, s, e));
        case CreateArea(_) => InsertKeeps(s, tid);
        case CreateCargo(_, _) => InsertKeeps(s, tid);
        case _ => DeleteKeeps(s, tid);
      }
    case NewDept(id) => NewDeptKeeps(b, s, id);
    case _ => DropKeeps(s, Step(b, s, e));
  }

  lemma {:induction false} RunKeeps(b: Bounds, s: State, es: seq<Event>)
    requires Inv(s)
    ensures Inv(Run(b, s, es))
    decreases |es|
  {
    if es != [] {
      StepKeeps(b, s, es[0]);
      RunKeeps(b, Step(b, s, es[0]), es[1..]);
    }
  }

  /** In every run no live area or cargo ever hangs under a deleted node. */
  lemma NoRunOrphansANode(b: Bounds, s: State, es: seq<Event>)
    requires Initial(s)
    ensures NoOrphans(Run(b, s, es).rows)
  {
    RunKeeps(b, s, es);
  }
}
