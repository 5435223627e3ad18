/**
 Every request on the structure by itself, from first statement to commit: exactly when it takes
 effect, and what it then does.
 */
module StructureAlone {
  import opened Wrappers
  import opened StructureProtocol
  import opened StructureResults

  // The statements of a request in order

  function Locks(n: nat): seq<Event> { if n == 0 then [] else [Request(0), Grant(0)] + Locks(n - 1) }

  function Execs(n: nat, newId: nat): seq<Event> { if n == 0 then [] else [Exec(0, newId)] + Execs(n - 1, newId) }

  function Opening(p: Program): seq<Event> {
    [Begin(0, p)] + if IsRemove(p) then [CountRefs(0, Typologies), CountRefs(0, Users)] else []
  }

  function Script(p: Program, newId: nat): seq<Event> {
    Opening(p) + Locks(|Plan(p)|) + Execs(|Statements(p)|, newId) + [Commit(0)]
  }

  lemma RunFirst(b: Bounds, s: State, e: Event, es: seq<Event>)
    ensures Run(b, s, [e] + es) == Run(b, Step(b, s, e), es)
  {
    assert ([e] + es)[1..] == es;
  }

  lemma RunTwo(b: Bounds, s: State, e: Event, f: Event, es: seq<Event>)
    ensures Run(b, s, [e, f] + es) == Run(b, Step(b, Step(b, s, e), f), es)
  {
    assert [e, f] + es == [e] + ([f] + es);
    RunFirst(b, s, e, [f] + es);
    RunFirst(b, Step(b, s, e), f, es);
  }

  /** A transaction that has ended takes no further step. */
  lemma {:induction false} GoneStays(b: Bounds, s: State, n: nat, newId: nat)
    requires 0 !in s.txns
    ensures Run(b, s, Locks(n)) == s && Run(b, s, Execs(n, newId)) == s
  {
    if n > 0 {
      GoneStays(b, s, n - 1, newId);
      RunTwo(b, s, Request(0), Grant(0), Locks(n - 1));
      RunFirst(b, s, Exec(0, newId), Execs(n - 1, newId));
    }
  }

  ghost predicate MatchFrom(p: Program, rows: map<Node, Row>, k: nat) {
    forall i :: k <= i < |Plan(p)| ==> Plan(p)[i] in rows && Matches(p, Plan(p)[i], rows[Plan(p)[i]])
  }

  /** Alone, a transaction gets all its locks exactly when every locking read finds its row. */
  lemma {:induction false} LocksRun(b: Bounds, s: State, t: Txn, k: nat)
    requires s.txns == map[0 := t] && t.phase == Locking(k, None) && k < |Plan(t.prog)|
    ensures var r := Run(b, s, Locks(|Plan(t.prog)| - k));
            r == s.(nextTicket := r.nextTicket,
                    txns := if MatchFrom(t.prog, s.rows, k) then map[0 := t.(phase := Working(0))] else map[])
    decreases |Plan(t.prog)| - k
  {
    var n := |Plan(t.prog)| - k;
    var queued := Step(b, s, Request(0));
    var granted := Step(b, queued, Grant(0));
    RunTwo(b, s, Request(0), Grant(0), Locks(n - 1));
    assert queued.txns == map[0 := t.(phase := Locking(k, Some(s.nextTicket)))];
    assert CanGrant(queued, 0);
    var row := Plan(t.prog)[k];
    if row !in s.rows || !Matches(t.prog, row, s.rows[row]) {
      assert granted.txns == map[];
      GoneStays(b, granted, n - 1, 0);
    } else if k + 1 < |Plan(t.prog)| {
      var t1 := t.(phase := Locking(k + 1, None));
      assert granted.txns == map[0 := t1];
      LocksRun(b, granted, t1, k + 1);
      assert t1.(phase := Working(0)) == t.(phase := Working(0));
    } else {
      assert granted.txns == map[0 := t.(phase := Working(0))];
    }
  }

  ghost predicate Unreferenced(s: State, p: Program) {
    IsRemove(p) ==> forall r | r in s.refs :: r.node != Plan(p)[0]
  }

  lemma OpeningRun(b: Bounds, s: State, p: Program)
    requires s.txns == map[]
    ensures var r := Run(b, s, Opening(p));
            && r == s.(txns := r.txns)
            && if !Unreferenced(s, p) then r.txns == map[]
               else
                 var at := if IsRemove(p) then Some(s.clock) else None;
                 r.txns == map[0 := Fresh(p).(phase := Locking(0, None), typologiesAt := at, usersAt := at)]
  {
    var begun := Step(b, s, Begin(0, p));
    assert begun.txns == map[0 := Fresh(p)];
    if IsRemove(p) {
      assert Opening(p) == [Begin(0, p)] + ([CountRefs(0, Typologies), CountRefs(0, Users)] + []);
      RunFirst(b, s, Begin(0, p), [CountRefs(0, Typologies), CountRefs(0, Users)] + []);
      RunTwo(b, begun, CountRefs(0, Typologies), CountRefs(0, Users), []);
      CountsRun(b, begun, p);
    } else {
      assert Opening(p) == [Begin(0, p)] + [];
      RunFirst(b, s, Begin(0, p), []);
    }
  }

  lemma CountsRun(b: Bounds, s: State, p: Program)
    requires IsRemove(p) && s.txns == map[0 := Fresh(p)]
    ensures var r := Step(b, Step(b, s, CountRefs(0, Typologies)), CountRefs(0, Users));
            && r == s.(txns := r.txns)
            && r.txns == if !Unreferenced(s, p) then map[]
                         else map[0 := Fresh(p).(phase := Locking(0, None),
                                                 typologiesAt := Some(s.clock), usersAt := Some(s.clock))]
  {
    var one := Step(b, s, CountRefs(0, Typologies));
    var n := Plan(p)[0];
    if Unreferenced(s, p) {
      assert !Referenced(s.refs, Typologies, n) && !Referenced(s.refs, Users, n);
      assert one.txns == map[0 := Fresh(p).(typologiesAt := Some(s.clock))];
    } else {
      var r :| r in s.refs && r.node == n;
      assert r.service == Typologies || r.service == Users;
      assert Referenced(s.refs, r.service, n);
      assert Referenced(s.refs, Typologies, n) ==> one.txns == map[];
      assert !Referenced(s.refs, Typologies, n) ==> one.txns == map[0 := Fresh(p).(typologiesAt := Some(s.clock))];
    }
  }

  /** The transaction as it starts working: it holds its locks and has counted external references. */
  ghost function Ready(p: Program, clock: int): Txn {
    var at := if IsRemove(p) then Some(clock) else None;
    Txn(p, Working(0), at, at, None, None, {}, {})
  }

  /** Up to its locks. */
  lemma LockedRun(b: Bounds, s: State, p: Program)
    requires s.txns == map[]
    ensures var r := Run(b, s, Opening(p) + Locks(|Plan(p)|));
            r == s.(nextTicket := r.nextTicket,
                    txns := if Unreferenced(s, p) && MatchFrom(p, s.rows, 0)
                            then map[0 := Ready(p, s.clock)] else map[])
  {
    OpeningRun(b, s, p);
    RunAppend(b, s, Opening(p), Locks(|Plan(p)|));
    var begun := Run(b, s, Opening(p));
    if Unreferenced(s, p) {
      var t := begun.txns[0];
      LocksRun(b, begun, t, 0);
      assert t.(phase := Working(0)) == Ready(p, s.clock);
    } else {
      GoneStays(b, begun, |Plan(p)|, 0);
    }
  }

  /** The whole script, once its first part has got the locks or ended. */
  lemma ScriptRun(b: Bounds, s: State, p: Program, newId: nat)
    requires s.txns == map[]
    ensures var r := Run(b, s, Opening(p) + Locks(|Plan(p)|));
            Run(b, s, Script(p, newId))
            == if Unreferenced(s, p) && MatchFrom(p, s.rows, 0)
               then Step(b, Run(b, r, Execs(|Statements(p)|, newId)), Commit(0)) else r
  {
    LockedRun(b, s, p);
    var r := Run(b, s, Opening(p) + Locks(|Plan(p)|));
    RunAppend(b, s, Opening(p) + Locks(|Plan(p)|) + Execs(|Statements(p)|, newId), [Commit(0)]);
    RunAppend(b, s, Opening(p) + Locks(|Plan(p)|), Execs(|Statements(p)|, newId));
    var worked := Run(b, r, Execs(|Statements(p)|, newId));
    assert [Commit(0)][1..] == [];
    assert Run(b, worked, [Commit(0)]) == Step(b, worked, Commit(0));
    if 0 !in r.txns { GoneStays(b, r, |Statements(p)|, newId); }
  }

  // Creating

  /** An area is created exactly under a live departamento, if its id is free. */
  lemma CreateAreaAlone(b: Bounds, s: State, dept: nat, newId: nat)
    requires s.txns == map[]
    ensures var r := Run(b, s, Script(CreateArea(dept), newId));
            r == s.(nextTicket := r.nextTicket,
                    rows := if IsLive(s.rows, Node(Dept, dept)) && Node(Area, newId) !in s.rows
                            then s.rows[Node(Area, newId) := Row(Some(dept), None, true)] else s.rows)
  {
    CreateAlone(b, s, CreateArea(dept), newId);
  }

  /** A cargo is created exactly under a live area of the departamento, or else the live departamento itself. */
  lemma CreateCargoAlone(b: Bounds, s: State, dept: nat, area: Option<nat>, newId: nat)
    requires s.txns == map[]
    ensures var r := Run(b, s, Script(CreateCargo(dept, area), newId));
            var parent := if area.Some?
                          then IsLive(s.rows, Node(Area, area.value))
                               && s.rows[Node(Area, area.value)].dept == Some(dept)
                          else IsLive(s.rows, Node(Dept, dept));
            r == s.(nextTicket := r.nextTicket,
                    rows := if parent && Node(Cargo, newId) !in s.rows
                            then s.rows[Node(Cargo, newId) := Row(Some(dept), area, true)] else s.rows)
  {
    var p := CreateCargo(dept, area);
    CreateAlone(b, s, p, newId);
    assert MatchFrom(p, s.rows, 0) <==> Plan(p)[0] in s.rows && Matches(p, Plan(p)[0], s.rows[Plan(p)[0]]);
  }

  lemma CreateAlone(b: Bounds, s: State, p: Program, newId: nat)
    requires s.txns == map[] && (p.CreateArea? || p.CreateCargo?)
    ensures var r := Run(b, s, Script(p, newId));
            var n := Node(if p.CreateArea? then Area else Cargo, newId);
            r == s.(nextTicket := r.nextTicket,
                    rows := if MatchFrom(p, s.rows, 0) && n !in s.rows then s.rows[n := ChildRow(p)] else s.rows)
  {
    LockedRun(b, s, p);
    ScriptRun(b, s, p, newId);
    if MatchFrom(p, s.rows, 0) {
      var r := Run(b, s, Opening(p) + Locks(|Plan(p)|));
      assert Execs(1, newId) == [Exec(0, newId)] + [] by { assert Execs(0, newId) == []; }
      RunFirst(b, r, Exec(0, newId), []);
      var t := r.txns[0];
      var worked := Step(b, r, Exec(0, newId));
      assert worked.txns == map[0 := t.(phase := Working(1), inserted := Some(Node(ChildKind(p), newId)))];
      assert Step(b, worked, Commit(0)).txns == map[];
    }
  }

  // Removing

  /** The target is there, as the request places it. */
  ghost predicate InPlace(p: Program, rows: map<Node, Row>)
    requires IsRemove(p)
  {
    && IsLive(rows, Target(p))
    && var row := rows[Target(p)];
       match p
       case RemoveArea(d, _) => row.dept == Some(d)
       case RemoveCargo(d, a, _) => row.dept == Some(d) && row.area == a
       case _ => true
  }

  /** Nothing alive stands below the target. */
  ghost predicate NothingBelow(p: Program, rows: map<Node, Row>)
    requires IsRemove(p)
  {
    forall n | n in rows && rows[n].live ::
      match p
      case RemoveDept(d) => n.kind in {Area, Cargo} ==> rows[n].dept != Some(d)
      case RemoveArea(_, a) => n.kind == Cargo ==> rows[n].area != Some(a)
      case _ => true
  }

  /** No other service names the target or is about to. */
  ghost predicate NothingRefers(s: State, n: Node) {
    && (forall r | r in s.refs :: r.node != n)
    && (forall l | l in s.leases && l.node == n :: l.expiresAt <= s.clock)
  }

  /** A remove takes effect exactly if the target is there and nothing depends on it, refers to it or is about to. */
  lemma RemoveAlone(b: Bounds, s: State, p: Program, newId: nat)
    requires s.txns == map[] && IsRemove(p)
    ensures var r := Run(b, s, Script(p, newId));
            var n := Target(p);
            r == s.(nextTicket := r.nextTicket, onTime := r.onTime,
                    rows := if InPlace(p, s.rows) && NothingBelow(p, s.rows) && NothingRefers(s, n)
                            then s.rows[n := Row(s.rows[n].dept, s.rows[n].area, false)] else s.rows)
  {
    LockedRun(b, s, p);
    ScriptRun(b, s, p, newId);
    assert Plan(p) == [Target(p)];
    assert MatchFrom(p, s.rows, 0) <==> InPlace(p, s.rows) by {
      assert MatchFrom(p, s.rows, 0) <==> Target(p) in s.rows && Matches(p, Target(p), s.rows[Target(p)]);
    }
    if Unreferenced(s, p) && MatchFrom(p, s.rows, 0) {
      var r := Run(b, s, Opening(p) + Locks(|Plan(p)|));
      CountsPass(b, r, r.txns[0], 0, newId);
      PassesExactly(r, p);
      var worked := Run(b, r, Execs(|Statements(p)|, newId));
      assert PassesFrom(r, p, 0) ==> worked.txns - {0} == map[];
    }
  }

  ghost predicate Unleased(s: State, n: Node) { forall l | l in s.leases && l.node == n :: l.expiresAt <= s.clock }

  /** The count that is statement i finds nothing; the deletion counts nothing. */
  ghost predicate Passes(s: State, p: Program, i: nat)
    requires IsRemove(p) && i < |Statements(p)|
  {
    match Statements(p)[i]
    case CountAreas => !HasLiveAreas(s.rows, p.dept)
    case CountCargos =>
      if p.RemoveArea? then !HasLiveCargosOfArea(s.rows, p.target) else !HasLiveCargosOfDept(s.rows, p.dept)
    case CountLeases => ActiveLeases(s.leases, Plan(p)[0], s.clock) == {}
    case _ => true
  }

  ghost predicate PassesFrom(s: State, p: Program, k: nat)
    requires IsRemove(p)
  {
    forall i :: k <= i < |Statements(p)| ==> Passes(s, p, i)
  }

  lemma {:induction false} CountsPass(b: Bounds, s: State, t: Txn, k: nat, newId: nat)
    requires IsRemove(t.prog) && s.txns == map[0 := t] && t.phase == Working(k) && k <= |Statements(t.prog)|
    ensures var r := Run(b, s, Execs(|Statements(t.prog)| - k, newId));
            && r == s.(txns := r.txns, onTime := r.onTime)
            && if PassesFrom(s, t.prog, k)
               then r.txns.Keys == {0} && r.txns[0].prog == t.prog && r.txns[0].phase == Working(|Statements(t.prog)|)
               else r.txns == map[]
    decreases |Statements(t.prog)| - k
  {
    var n := |Statements(t.prog)| - k;
    if n > 0 {
      var next := Step(b, s, Exec(0, newId));
      RunFirst(b, s, Exec(0, newId), Execs(n - 1, newId));
      OneCount(b, s, t, k, newId);
      if Passes(s, t.prog, k) {
        CountsPass(b, next, next.txns[0], k + 1, newId);
        assert PassesFrom(s, t.prog, k) <==> PassesFrom(next, t.prog, k + 1) by {
          assert forall i :: k < i < |Statements(t.prog)| ==> (Passes(s, t.prog, i) <==> Passes(next, t.prog, i));
        }
      } else {
        GoneStays(b, next, n - 1, newId);
      }
    }
  }

  lemma OneCount(b: Bounds, s: State, t: Txn, k: nat, newId: nat)
    requires IsRemove(t.prog) && s.txns == map[0 := t] && t.phase == Working(k) && k < |Statements(t.prog)|
    ensures var r := Step(b, s, Exec(0, newId));
            && r == s.(txns := r.txns, onTime := r.onTime)
            && if Passes(s, t.prog, k)
               then r.txns.Keys == {0} && r.txns[0].prog == t.prog && r.txns[0].phase == Working(k + 1)
               else r.txns == map[]
  {
  }

  /** All counts find nothing exactly when nothing is below the target and no lease on it runs. */
  lemma PassesExactly(s: State, p: Program)
    requires IsRemove(p)
    ensures PassesFrom(s, p, 0) <==> NothingBelow(p, s.rows) && Unleased(s, Target(p))
  {
    assert ActiveLeases(s.leases, Target(p), s.clock) == {} <==> Unleased(s, Target(p)) by {
      if !Unleased(s, Target(p)) {
        var l :| l in s.leases && l.node == Target(p) && s.clock < l.expiresAt;
        assert l in ActiveLeases(s.leases, Target(p), s.clock);
      }
    }
    assert Plan(p)[0] == Target(p);
    match p
    case RemoveDept(d) =>
      assert PassesFrom(s, p, 0) <==> Passes(s, p, 0) && Passes(s, p, 1) && Passes(s, p, 2) && Passes(s, p, 3);
    case RemoveArea(d, a) =>
      assert PassesFrom(s, p, 0) <==> Passes(s, p, 0) && Passes(s, p, 1) && Passes(s, p, 2);
    case RemoveCargo(d, a, c) =>
      assert PassesFrom(s, p, 0) <==> Passes(s, p, 0) && Passes(s, p, 1);
  }

  // Resolving

  /** The nodes asked for are live, each under the one before it. */
  ghost predicate Chain(rows: map<Node, Row>, dept: nat, area: Option<nat>, cargo: Option<nat>) {
    && IsLive(rows, Node(Dept, dept))
    && (area.Some? ==> IsLive(rows, Node(Area, area.value)) && rows[Node(Area, area.value)].dept == Some(dept))
    && (cargo.Some? ==>
          && IsLive(rows, Node(Cargo, cargo.value)) && rows[Node(Cargo, cargo.value)].area == area
          && (area.None? ==> rows[Node(Cargo, cargo.value)].dept == Some(dept)))
  }

  /** Fresh leases, one on each of the nodes, running for 30 seconds. */
  ghost predicate LeasesFor(nodes: set<Node>, leases: set<Lease>, clock: int) {
    && (forall l | l in leases :: l.node in nodes && l.expiresAt == clock + 30_000)
    && (forall n | n in nodes :: exists l | l in leases :: l.node == n)
  }

  /** A resolve claims exactly the nodes asked for, if they are live and below each other, and otherwise nothing. */
  lemma ResolveAlone(b: Bounds, s: State, dept: nat, area: Option<nat>, cargo: Option<nat>, newId: nat)
    returns (leases: set<Lease>)
    requires s.txns == map[]
    ensures var r := Run(b, s, Script(Resolve(dept, area, cargo), newId));
            var nodes := Asked(dept, area, cargo);
            if Chain(s.rows, dept, area, cargo) then
              && r == s.(nextTicket := r.nextTicket, nextLease := r.nextLease, onTime := r.onTime,
                         leases := s.leases + leases, claims := s.claims + set n | n in nodes :: Claim(n, s.clock))
              && LeasesFor(nodes, leases, s.clock)
            else r == s.(nextTicket := r.nextTicket)
  {
    var p := Resolve(dept, area, cargo);
    leases := {};
    LockedRun(b, s, p);
    ScriptRun(b, s, p, newId);
    ChainIsPlanned(s.rows, dept, area, cargo);
    if Chain(s.rows, dept, area, cargo) {
      var r := Run(b, s, Opening(p) + Locks(|Plan(p)|));
      leases := ReservesRun(b, r, r.txns[0], 0, newId);
      ReservedCommits(b, r, Run(b, r, Execs(|Statements(p)|, newId)), dept, area, cargo, leases);
    }
  }

  lemma ChainIsPlanned(rows: map<Node, Row>, dept: nat, area: Option<nat>, cargo: Option<nat>)
    ensures MatchFrom(Resolve(dept, area, cargo), rows, 0) <==> Chain(rows, dept, area, cargo)
  {
    var p := Resolve(dept, area, cargo);
    var plan := Plan(p);
    if MatchFrom(p, rows, 0) {
      assert plan[0] == Node(Dept, dept);
      assert area.Some? ==> plan[1] == Node(Area, area.value);
      assert cargo.Some? ==> plan[|plan| - 1] == Node(Cargo, cargo.value);
    }
  }

  /** The leases of the statements from k on. */
  lemma {:induction false} ReservesRun(b: Bounds, s: State, t: Txn, k: nat, newId: nat) returns (leases: set<Lease>)
    requires t.prog.Resolve? && s.txns == map[0 := t] && t.phase == Working(k) && k <= |Plan(t.prog)|
    ensures var n := |Plan(t.prog)|;
            var r := Run(b, s, Execs(n - k, newId));
            && r == s.(txns := map[0 := t.(phase := Working(n), reserved := t.reserved + leases)],
                       nextLease := r.nextLease, onTime := r.onTime)
            && (forall l | l in leases :: l.node in Plan(t.prog)[k..] && l.expiresAt == s.clock + 30_000)
            && (forall node | node in Plan(t.prog)[k..] :: exists l | l in leases :: l.node == node)
    decreases |Plan(t.prog)| - k
  {
    var n := |Plan(t.prog)|;
    leases := {};
    if k == n {
      assert t.reserved + leases == t.reserved;
    } else {
      var lease := Lease(s.nextLease, Plan(t.prog)[k], s.clock + LEASE_TTL_MS);
      var t1 := t.(phase := Working(k + 1), reserved := t.reserved + {lease});
      var next := Step(b, s, Exec(0, newId));
      RunFirst(b, s, Exec(0, newId), Execs(n - k - 1, newId));
      assert next.txns == map[0 := t1];
      var rest := ReservesRun(b, next, t1, k + 1, newId);
      leases := {lease} + rest;
      assert t1.reserved + rest == t.reserved + leases;
      assert Plan(t.prog)[k..] == [Plan(t.prog)[k]] + Plan(t.prog)[k + 1..];
      forall node | node in Plan(t.prog)[k..] ensures exists l | l in leases :: l.node == node {
        if node == Plan(t.prog)[k] {
          assert lease in leases;
        } else {
          var l :| l in rest && l.node == node;
          assert l in leases;
        }
      }
    }
  }

  lemma ReservedCommits(b: Bounds, s: State, r: State, dept: nat, area: Option<nat>, cargo: Option<nat>,
                        leases: set<Lease>)
    requires var p := Resolve(dept, area, cargo);
             && s.txns == map[0 := Ready(p, s.clock)]
             && r == s.(txns := map[0 := Ready(p, s.clock).(phase := Working(|Plan(p)|), reserved := {} + leases)],
                        nextLease := r.nextLease, onTime := r.onTime)
             && (forall l | l in leases :: l.node in Plan(p) && l.expiresAt == s.clock + 30_000)
             && (forall node | node in Plan(p) :: exists l | l in leases :: l.node == node)
    ensures var t := Step(b, r, Commit(0));
            var nodes := Asked(dept, area, cargo);
            && t == s.(txns := map[], nextLease := r.nextLease, onTime := r.onTime, leases := s.leases + leases,
                       claims := s.claims + set n | n in nodes :: Claim(n, s.clock))
            && LeasesFor(nodes, leases, s.clock)
  {
    var p, nodes := Resolve(dept, area, cargo), Asked(dept, area, cargo);
    assert forall n :: n in nodes <==> n in Plan(p);
    var made := set l | l in leases :: Claim(l.node, l.expiresAt - LEASE_TTL_MS);
    var asked := set n | n in nodes :: Claim(n, s.clock);
    forall c ensures c in made <==> c in asked {
      if c in asked {
        var l :| l in leases && l.node == c.node;
        assert Claim(l.node, l.expiresAt - LEASE_TTL_MS) in made;
      }
    }
    assert made == asked;
    var t := Step(b, r, Commit(0));
    assert t.leases == s.leases + leases;
  }
}
