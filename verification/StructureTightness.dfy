/** Where the org-structure guarantees end: the lease bound is exact, and one restore path orphans. */
module StructureTightness {
  import opened Wrappers
  import opened StructureProtocol
  import opened StructureLeases
  import StructureSafety

  lemma RunOne(b: Bounds, s: State, e: Event)
    ensures Run(b, s, [e]) == Step(b, s, e)
  {
    assert [e][1..] == [];
  }

  /** Appends one event to a run. */
  lemma Extend(b: Bounds, s: State, es: seq<Event>, e: Event)
    ensures Run(b, s, es + [e]) == Step(b, Run(b, s, es), e)
  {
    RunAppend(b, s, es, [e]);
    RunOne(b, Run(b, s, es), e);
  }

  const D := Node(Dept, 0)

  ghost function OneDept(): State {
    State(map[D := Row(None, None, true)], map[], {}, {}, {}, 0, 0, 0, true)
  }

  /** A caller resolves the departamento at time 0. */
  lemma ResolvedRun(b: Bounds) returns (es: seq<Event>)
    ensures Run(b, OneDept(), es)
            == OneDept().(leases := {Lease(0, D, LEASE_TTL_MS)}, claims := {Claim(D, 0)},
                          nextTicket := 1, nextLease := 1)
  {
    var s, p := OneDept(), Resolve(0, None, None);
    assert Plan(p) == [D];
    es := [Begin(1, p)];
    RunOne(b, s, es[0]);
    var t := Fresh(p);
    assert Run(b, s, es).txns == map[1 := t];
    Extend(b, s, es, Request(1));
    es := es + [Request(1)];
    t := t.(phase := Locking(0, Some(0)));
    assert Run(b, s, es).txns == map[1 := t];
    Extend(b, s, es, Grant(1));
    es := es + [Grant(1)];
    t := t.(phase := Working(0));
    assert Run(b, s, es).txns == map[1 := t];
    Extend(b, s, es, Exec(1, 0));
    es := es + [Exec(1, 0)];
    var l := Lease(0, D, LEASE_TTL_MS);
    assert t.reserved + {l} == {l};
    t := t.(phase := Working(1), reserved := {l});
    assert Run(b, s, es).txns == map[1 := t];
    Extend(b, s, es, Commit(1));
    es := es + [Commit(1)];
    assert (set m | m in t.reserved :: Claim(m.node, m.expiresAt - LEASE_TTL_MS)) == {Claim(D, 0)};
    assert Run(b, s, es).claims == {Claim(D, 0)} && Run(b, s, es).leases == {l};
    assert Run(b, s, es).txns == map[];
  }

  /** At time `w` a remove counts no reference, and the caller persists right after. */
  lemma PersistedRun(b: Bounds, w: nat) returns (es: seq<Event>)
    requires w <= b.persist
    ensures Run(b, OneDept(), es)
            == OneDept().(leases := {Lease(0, D, LEASE_TTL_MS)}, claims := {Claim(D, 0)},
                          nextTicket := 1, nextLease := 1,
                          clock := w, refs := {Ref(Typologies, D, 0, w)},
                          txns := map[2 := Fresh(RemoveDept(0)).(phase := Locking(0, None),
                                                                 typologiesAt := Some(w), usersAt := Some(w))])
  {
    var s := OneDept();
    es := ResolvedRun(b);
    Extend(b, s, es, Tick(w));
    es := es + [Tick(w)];
    Extend(b, s, es, Begin(2, RemoveDept(0)));
    es := es + [Begin(2, RemoveDept(0))];
    var t := Fresh(RemoveDept(0));
    assert Run(b, s, es).txns == map[2 := t];
    Extend(b, s, es, CountRefs(2, Typologies));
    es := es + [CountRefs(2, Typologies)];
    t := t.(typologiesAt := Some(w));
    assert Run(b, s, es).txns == map[2 := t];
    Extend(b, s, es, CountRefs(2, Users));
    es := es + [CountRefs(2, Users)];
    t := t.(phase := Locking(0, None), usersAt := Some(w));
    assert Run(b, s, es).txns == map[2 := t];
    Extend(b, s, es, Persist(Claim(D, 0), Typologies));
    es := es + [Persist(Claim(D, 0), Typologies)];
  }

  /** When the lease has just run out, the remove takes its lock and finds no dependent. */
  lemma CountedRun(b: Bounds, w: nat) returns (es: seq<Event>)
    requires w <= b.persist && w <= LEASE_TTL_MS
    ensures var t := Fresh(RemoveDept(0)).(phase := Working(2), typologiesAt := Some(w), usersAt := Some(w));
            Run(b, OneDept(), es)
            == OneDept().(leases := {Lease(0, D, LEASE_TTL_MS)}, claims := {Claim(D, 0)},
                          nextTicket := 2, nextLease := 1,
                          clock := LEASE_TTL_MS, refs := {Ref(Typologies, D, 0, w)}, txns := map[2 := t])
  {
    var s := OneDept();
    es := PersistedRun(b, w);
    var t := Run(b, s, es).txns[2];
    var rest: nat := LEASE_TTL_MS - w;
    Extend(b, s, es, Tick(rest));
    es := es + [Tick(rest)];
    Extend(b, s, es, Request(2));
    es := es + [Request(2)];
    t := t.(phase := Locking(0, Some(1)));
    assert Run(b, s, es).txns == map[2 := t];
    Extend(b, s, es, Grant(2));
    es := es + [Grant(2)];
    t := t.(phase := Working(0));
    assert Run(b, s, es).txns == map[2 := t];
    Extend(b, s, es, Exec(2, 0));
    es := es + [Exec(2, 0)];
    t := t.(phase := Working(1));
    assert Run(b, s, es).txns == map[2 := t];
    Extend(b, s, es, Exec(2, 0));
    es := es + [Exec(2, 0)];
    t := t.(phase := Working(2));
    assert Run(b, s, es).txns == map[2 := t];
  }

  /** If P + G reaches the lease time, some timely run leaves a reference to a deleted node. */
  lemma BoundIsExact(b: Bounds) returns (es: seq<Event>)
    requires b.persist + b.gap >= LEASE_TTL_MS
    ensures Initial(OneDept())
    ensures var t := Run(b, OneDept(), es);
            t.onTime && exists r | r in t.refs :: !IsLive(t.rows, r.node)
  {
    var s := OneDept();
    var w: nat := if b.gap >= LEASE_TTL_MS then 0 else LEASE_TTL_MS - b.gap;
    es := CountedRun(b, w);
    var t := Run(b, s, es).txns[2];
    assert ActiveLeases(Run(b, s, es).leases, D, LEASE_TTL_MS) == {};
    Extend(b, s, es, Exec(2, 0));
    es := es + [Exec(2, 0)];
    t := t.(phase := Working(3), leasesAt := Some(LEASE_TTL_MS));
    assert Run(b, s, es).txns == map[2 := t] && Run(b, s, es).onTime;
    Extend(b, s, es, Exec(2, 0));
    es := es + [Exec(2, 0)];
    t := t.(phase := Working(4));
    assert Run(b, s, es).txns == map[2 := t];
    Extend(b, s, es, Commit(2));
    es := es + [Commit(2)];
    assert Ref(Typologies, D, 0, w) in Run(b, s, es).refs;
  }

  ghost predicate NoDangling(s: State) {
    forall r | r in s.refs :: IsLive(s.rows, r.node)
  }

  /** Timely runs are safe exactly when P + G stays below the lease time. */
  lemma TimelyRunsAreSafeExactly(b: Bounds)
    ensures (forall s, es | Initial(s) && Run(b, s, es).onTime :: NoDangling(Run(b, s, es)))
            <==> b.persist + b.gap < 30_000
  {
    if b.persist + b.gap < LEASE_TTL_MS {
      forall s, es | Initial(s) && Run(b, s, es).onTime ensures NoDangling(Run(b, s, es)) {
        NoDanglingReference(b, s, es);
      }
    } else {
      var es := BoundIsExact(b);
      assert !NoDangling(Run(b, OneDept(), es));
    }
  }

  /** The restore of a department-level cargo (restoreDept), which looks at the cargo row only. */
  ghost function RestoreDept(rows: map<Node, Row>, dept: nat, cargo: nat): map<Node, Row> {
    var n := Node(Cargo, cargo);
    if n in rows && !rows[n].live && rows[n].dept == Some(dept) && rows[n].area.None?
    then rows[n := rows[n].(live := true)] else rows
  }

  /** A restore that takes effect keeps the structure free of orphans exactly when the departamento is live. */
  lemma RestoreDeptKeepsExactly(rows: map<Node, Row>, dept: nat, cargo: nat)
    requires NoOrphans(rows) && RestoreDept(rows, dept, cargo) != rows
    ensures NoOrphans(RestoreDept(rows, dept, cargo)) <==> IsLive(rows, Node(Dept, dept))
  {
    var n := Node(Cargo, cargo);
    var rows' := RestoreDept(rows, dept, cargo);
    if IsLive(rows, Node(Dept, dept)) {
      forall m | m in rows' && rows'[m].live ensures HasLiveParents(rows', m) {
        if m != n {
          assert HasLiveParents(rows, m);
        }
      }
    } else {
      assert rows'[n].live && !HasLiveParents(rows', n);
    }
  }

  // A run after which that restore orphans a cargo

  const C := Node(Cargo, 0)

  const NO_BOUNDS := Bounds(0, 0)

  ghost function Nothing(): State { State(map[], map[], {}, {}, {}, 0, 0, 0, true) }

  /** The state in which `next` requests were queued and the rows are `rows`. */
  ghost function Quiet(rows: map<Node, Row>, tickets: nat): State { Nothing().(rows := rows, nextTicket := tickets) }

  /** One transaction from its begin until it holds its only lock. */
  lemma Locked(s: State, tid: nat, p: Program) returns (es: seq<Event>)
    requires s == Quiet(s.rows, s.nextTicket) && !p.Resolve?
    requires Plan(p)[0] in s.rows && Matches(p, Plan(p)[0], s.rows[Plan(p)[0]])
    ensures Run(NO_BOUNDS, s, es) == s.(nextTicket := s.nextTicket + 1, txns := map[tid := Locker(p)])
  {
    var b, t := NO_BOUNDS, Fresh(p);
    es := [Begin(tid, p)];
    RunOne(b, s, es[0]);
    assert Run(b, s, es).txns == map[tid := t];
    if IsRemove(p) {
      Extend(b, s, es, CountRefs(tid, Typologies));
      es := es + [CountRefs(tid, Typologies)];
      t := t.(typologiesAt := Some(0));
      assert Run(b, s, es).txns == map[tid := t];
      Extend(b, s, es, CountRefs(tid, Users));
      es := es + [CountRefs(tid, Users)];
      t := t.(phase := Locking(0, None), usersAt := Some(0));
      assert Run(b, s, es).txns == map[tid := t];
    }
    Extend(b, s, es, Request(tid));
    es := es + [Request(tid)];
    t := t.(phase := Locking(0, Some(s.nextTicket)));
    assert Run(b, s, es).txns == map[tid := t];
    Extend(b, s, es, Grant(tid));
    es := es + [Grant(tid)];
    assert Run(b, s, es).txns == map[tid := Locker(p)];
  }

  ghost function Locker(p: Program): Txn {
    var t := Fresh(p).(phase := Working(0));
    if IsRemove(p) then t.(typologiesAt := Some(0), usersAt := Some(0)) else t
  }

  /** A remove of a node without dependents, references or leases, from begin to commit. */
  lemma Removed(s: State, tid: nat, p: Program) returns (es: seq<Event>)
    requires s == Quiet(s.rows, s.nextTicket) && p in {RemoveCargo(0, None, 0), RemoveDept(0)}
    requires Plan(p)[0] in s.rows && Matches(p, Plan(p)[0], s.rows[Plan(p)[0]])
    requires p.RemoveDept? ==> !HasLiveAreas(s.rows, 0) && !HasLiveCargosOfDept(s.rows, 0)
    ensures var n := Plan(p)[0];
            Run(NO_BOUNDS, s, es) == Quiet(s.rows[n := s.rows[n].(live := false)], s.nextTicket + 1)
  {
    var b, t := NO_BOUNDS, Locker(p);
    es := Locked(s, tid, p);
    if p.RemoveDept? {
      Extend(b, s, es, Exec(tid, 0));
      es := es + [Exec(tid, 0)];
      t := t.(phase := Working(1));
      assert Run(b, s, es).txns == map[tid := t];
      Extend(b, s, es, Exec(tid, 0));
      es := es + [Exec(tid, 0)];
      t := t.(phase := Working(2));
      assert Run(b, s, es).txns == map[tid := t];
    }
    Extend(b, s, es, Exec(tid, 0));
    es := es + [Exec(tid, 0)];
    assert ActiveLeases({}, Plan(p)[0], 0) == {};
    t := t.(phase := Working(t.phase.next + 1), leasesAt := Some(0));
    assert Run(b, s, es).txns == map[tid := t] && Run(b, s, es).onTime;
    Extend(b, s, es, Exec(tid, 0));
    es := es + [Exec(tid, 0)];
    t := t.(phase := Working(t.phase.next + 1));
    assert Run(b, s, es).txns == map[tid := t];
    Extend(b, s, es, Commit(tid));
    es := es + [Commit(tid)];
    assert Run(b, s, es).txns == map[];
  }

  /** A departamento and a cargo directly under it. */
  lemma CargoCreated() returns (es: seq<Event>)
    ensures Run(NO_BOUNDS, Nothing(), es)
            == Quiet(map[D := Row(None, None, true), C := Row(Some(0), None, true)], 1)
  {
    var b, s, p := NO_BOUNDS, Nothing(), CreateCargo(0, None);
    var dept := Quiet(map[D := Row(None, None, true)], 0);
    RunOne(b, s, NewDept(0));
    assert Run(b, s, [NewDept(0)]) == dept;
    var fs := Locked(dept, 1, p);
    RunAppend(b, s, [NewDept(0)], fs);
    es := [NewDept(0)] + fs;
    Extend(b, s, es, Exec(1, 0));
    es := es + [Exec(1, 0)];
    var t := Locker(p).(phase := Working(1), inserted := Some(C));
    assert Run(b, s, es).txns == map[1 := t];
    Extend(b, s, es, Commit(1));
    es := es + [Commit(1)];
    assert Run(b, s, es).txns == map[];
  }

  /**
   Create a departamento and a cargo under it, remove both, restore the cargo: it is live under a
   deleted departamento.
   */
  lemma RestoreDeptCanOrphan() returns (es: seq<Event>)
    ensures Initial(Nothing())
    ensures var rows := Run(NO_BOUNDS, Nothing(), es).rows;
            NoOrphans(rows) && RestoreDept(rows, 0, 0) != rows && !NoOrphans(RestoreDept(rows, 0, 0))
  {
    var b := NO_BOUNDS;
    es := CargoCreated();
    var s := Run(b, Nothing(), es);
    var fs := Removed(s, 2, RemoveCargo(0, None, 0));
    var s' := Run(b, s, fs);
    var gs := Removed(s', 3, RemoveDept(0));
    RunAppend(b, Nothing(), es, fs);
    RunAppend(b, Nothing(), es + fs, gs);
    es := es + fs + gs;
    StructureSafety.NoRunOrphansANode(b, Nothing(), es);
    var rows := Run(b, Nothing(), es).rows;
    assert rows == map[D := Row(None, None, false), C := Row(Some(0), None, false)];
    RestoreDeptKeepsExactly(rows, 0, 0);
  }
}
