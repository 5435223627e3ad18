/**
 The org-structure lock and lease protocol (org-service/src/org-structure).

 Departamentos, areas and cargos are rows with a soft-delete flag. Creates take a shared lock
 on their parent, removes an exclusive lock on their target, and resolveStructureById shared
 locks from the top down before it inserts leases. Transactions run interleaved, statement by
 statement: a statement sees what others committed, its own writes stay private until commit.
 `Step` is one such statement; a statement that is not possible leaves the state alone, and a
 transaction may roll back at any time. Restores and bulk upserts are not among the programs.
 */
module StructureProtocol {
  import opened Wrappers

  datatype Kind = Dept | Area | Cargo

  datatype Node = Node(kind: Kind, id: nat)

  /** `dept` and `area` are the parent columns of a row. */
  datatype Row = Row(dept: Option<nat>, area: Option<nat>, live: bool)

  datatype Program =
    | CreateArea(dept: nat)
    | CreateCargo(dept: nat, area: Option<nat>)
    | RemoveDept(dept: nat)
    | RemoveArea(dept: nat, target: nat)
    | RemoveCargo(dept: nat, area: Option<nat>, target: nat)
    | Resolve(dept: nat, area: Option<nat>, cargo: Option<nat>)

  /** The services whose records name structure nodes. */
  datatype Service = Typologies | Users

  datatype Statement = InsertChild | CountAreas | CountCargos | CountLeases | SoftDelete | Reserve(node: Node)

  const LEASE_TTL_MS := 30_000

  const SWEEP_BATCH_SIZE := 500

  datatype Lease = Lease(id: nat, node: Node, expiresAt: int)

  /** What a caller of a committed resolve may still do: persist a reference to the node it claimed. */
  datatype Claim = Claim(node: Node, claimedAt: int)

  datatype Ref = Ref(service: Service, node: Node, claimedAt: int, persistedAt: int)

  datatype Phase =
    | Checking                                  // a remove, before its transaction: external reference counts
    | Locking(k: nat, ticket: Option<nat>)      // needs its k-th lock; queued once it holds a ticket
    | Working(next: nat)                        // holds all its locks

  datatype Txn = Txn(prog: Program, phase: Phase,
                     typologiesAt: Option<int>, usersAt: Option<int>, leasesAt: Option<int>,
                     inserted: Option<Node>, reserved: set<Lease>, purged: set<Lease>)

  datatype State = State(rows: map<Node, Row>, txns: map<nat, Txn>, leases: set<Lease>,
                         claims: set<Claim>, refs: set<Ref>,
                         clock: int, nextTicket: nat, nextLease: nat, onTime: bool)

  /** P: how long a caller may take to persist after its lease; G: from an external count to the lease count. */
  datatype Bounds = Bounds(persist: nat, gap: nat)

  function OptNode(kind: Kind, id: Option<nat>): seq<Node> {
    match id
    case None => []
    case Some(i) => [Node(kind, i)]
  }

  predicate IsRemove(p: Program) { p.RemoveDept? || p.RemoveArea? || p.RemoveCargo? }

  /** The rows a program locks, in order. */
  function Plan(p: Program): (r: seq<Node>)
    ensures |r| > 0
  {
    match p
    case CreateArea(d) => [Node(Dept, d)]
    case CreateCargo(d, a) => if a.Some? then [Node(Area, a.value)] else [Node(Dept, d)]
    case RemoveDept(d) => [Node(Dept, d)]
    case RemoveArea(_, a) => [Node(Area, a)]
    case RemoveCargo(_, _, c) => [Node(Cargo, c)]
    case Resolve(d, a, c) => [Node(Dept, d)] + OptNode(Area, a) + OptNode(Cargo, c)
  }

  /** The where-clause of the locking read of row `n`. */
  predicate Matches(p: Program, n: Node, row: Row) {
    && row.live
    && match p
       case CreateArea(_) => true
       case CreateCargo(d, a) => a.Some? ==> row.dept == Some(d)
       case RemoveDept(_) => true
       case RemoveArea(d, _) => row.dept == Some(d)
       case RemoveCargo(d, a, _) => row.dept == Some(d) && row.area == a
       case Resolve(d, a, _) =>
         && (n.kind == Area ==> row.dept == Some(d))
         && (n.kind == Cargo ==> row.area == a && (a.None? ==> row.dept == Some(d)))
  }

  /** What a program does once it holds its locks. */
  function Statements(p: Program): seq<Statement> {
    match p
    case CreateArea(_) => [InsertChild]
    case CreateCargo(_, _) => [InsertChild]
    case RemoveDept(_) => [CountAreas, CountCargos, CountLeases, SoftDelete]
    case RemoveArea(_, _) => [CountCargos, CountLeases, SoftDelete]
    case RemoveCargo(_, _, _) => [CountLeases, SoftDelete]
    case Resolve(d, a, c) =>
      var nodes := Plan(p);
      seq(|nodes|, i requires 0 <= i < |nodes| => Reserve(nodes[i]))
  }

  function ChildKind(p: Program): Kind { if p.CreateArea? then Area else Cargo }

  function ChildRow(p: Program): Row
    requires p.CreateArea? || p.CreateCargo?
  {
    if p.CreateArea? then Row(Some(p.dept), None, true) else Row(Some(p.dept), p.area, true)
  }

  // Locks

  function Held(t: Txn): nat {
    match t.phase
    case Checking => 0
    case Locking(k, _) => k
    case Working(_) => |Plan(t.prog)|
  }

  predicate Holds(t: Txn, n: Node) {
    exists i :: 0 <= i < |Plan(t.prog)| && i < Held(t) && Plan(t.prog)[i] == n
  }

  /** The row a queued transaction waits for. */
  predicate Waits(t: Txn, n: Node) {
    t.phase.Locking? && t.phase.ticket.Some? && t.phase.k < |Plan(t.prog)| && Plan(t.prog)[t.phase.k] == n
  }

  /** Shared locks go together, an exclusive lock goes with nothing. */
  predicate Conflict(t: Txn, u: Txn) { IsRemove(t.prog) || IsRemove(u.prog) }

  predicate CanGrant(s: State, tid: nat)
    requires tid in s.txns
  {
    var t := s.txns[tid];
    && t.phase.Locking? && t.phase.ticket.Some? && t.phase.k < |Plan(t.prog)|
    && forall v | v in s.txns && v != tid :: Holds(s.txns[v], Plan(t.prog)[t.phase.k]) ==> !Conflict(t, s.txns[v])
  }

  // Reads of committed state

  predicate HasLiveAreas(rows: map<Node, Row>, dept: nat) {
    exists n | n in rows :: n.kind == Area && rows[n].live && rows[n].dept == Some(dept)
  }

  predicate HasLiveCargosOfDept(rows: map<Node, Row>, dept: nat) {
    exists n | n in rows :: n.kind == Cargo && rows[n].live && rows[n].dept == Some(dept)
  }

  predicate HasLiveCargosOfArea(rows: map<Node, Row>, area: nat) {
    exists n | n in rows :: n.kind == Cargo && rows[n].live && rows[n].area == Some(area)
  }

  function ActiveLeases(leases: set<Lease>, node: Node, now: int): set<Lease> {
    set l | l in leases && l.node == node && l.expiresAt > now
  }

  predicate Referenced(refs: set<Ref>, service: Service, node: Node) {
    exists r | r in refs :: r.service == service && r.node == node
  }

  // Steps

  datatype Event =
    | Begin(tid: nat, prog: Program)
    | CountRefs(tid: nat, service: Service)
    | Request(tid: nat)
    | Grant(tid: nat)
    | Exec(tid: nat, newId: nat)
    | Sweep(tid: nat, batch: set<Lease>)
    | Commit(tid: nat)
    | Abort(tid: nat)
    | Persist(claim: Claim, service: Service)
    | DropRef(ref: Ref)
    | NewDept(id: nat)
    | Tick(ms: nat)

  function Put(s: State, tid: nat, t: Txn): State { s.(txns := s.txns[tid := t]) }

  function Drop(s: State, tid: nat): State { s.(txns := s.txns - {tid}) }

  function Fresh(p: Program): Txn {
    Txn(p, if IsRemove(p) then Checking else Locking(0, None), None, None, None, None, {}, {})
  }

  /** One of the two external counts of ExternalReferencesGuard; a positive count ends the remove. */
  function DoCountRefs(s: State, tid: nat, service: Service): State
    requires tid in s.txns
  {
    var t := s.txns[tid];
    if t.phase != Checking then s
    else if Referenced(s.refs, service, Plan(t.prog)[0]) then Drop(s, tid)
    else
      var t1 := if service == Typologies then t.(typologiesAt := Some(s.clock)) else t.(usersAt := Some(s.clock));
      Put(s, tid, if t1.typologiesAt.Some? && t1.usersAt.Some? then t1.(phase := Locking(0, None)) else t1)
  }

  function DoGrant(s: State, tid: nat): State
    requires tid in s.txns
  {
    var t := s.txns[tid];
    if !CanGrant(s, tid) then s
    else
      var n := Plan(t.prog)[t.phase.k];
      if n !in s.rows || !Matches(t.prog, n, s.rows[n]) then Drop(s, tid)
      else Put(s, tid, t.(phase := if t.phase.k + 1 == |Plan(t.prog)| then Working(0)
                                  else Locking(t.phase.k + 1, None)))
  }

  /** An external count and the lease count are at most `gap` apart. */
  predicate CountsInTime(t: Txn, now: int, gap: nat) {
    && t.typologiesAt.Some? && now <= t.typologiesAt.value + gap
    && t.usersAt.Some? && now <= t.usersAt.value + gap
  }

  /** The transaction after its next statement, or nothing when a count finds something and it rolls back. */
  function AfterStatement(s: State, t: Txn, newId: nat): (r: Option<Txn>)
    requires t.phase.Working? && t.phase.next < |Statements(t.prog)|
    ensures r.Some? ==> && r.value.prog == t.prog && r.value.phase == Working(t.phase.next + 1)
                        && r.value.typologiesAt == t.typologiesAt && r.value.usersAt == t.usersAt
  {
    var t1 := t.(phase := Working(t.phase.next + 1));
    match Statements(t.prog)[t.phase.next]
    case InsertChild => Some(t1.(inserted := Some(Node(ChildKind(t.prog), newId))))
    case CountAreas => if HasLiveAreas(s.rows, t.prog.dept) then None else Some(t1)
    case CountCargos =>
      if t.prog.RemoveArea? && HasLiveCargosOfArea(s.rows, t.prog.target) then None
      else if !t.prog.RemoveArea? && HasLiveCargosOfDept(s.rows, t.prog.dept) then None
      else Some(t1)
    case CountLeases =>
      if ActiveLeases(s.leases, Plan(t.prog)[0], s.clock) != {} then None else Some(t1.(leasesAt := Some(s.clock)))
    case SoftDelete => Some(t1)
    case Reserve(n) => Some(t1.(reserved := t.reserved + {Lease(s.nextLease, n, s.clock + LEASE_TTL_MS)}))
  }

  function DoExec(b: Bounds, s: State, tid: nat, newId: nat): State
    requires tid in s.txns
  {
    var t := s.txns[tid];
    if !t.phase.Working? || t.phase.next >= |Statements(t.prog)| then s
    else match AfterStatement(s, t, newId)
      case None => Drop(s, tid)
      case Some(t1) =>
        var statement := Statements(t.prog)[t.phase.next];
        Put(s, tid, t1).(onTime := s.onTime && (statement.CountLeases? ==> CountsInTime(t, s.clock, b.gap)),
                         nextLease := if statement.Reserve? then s.nextLease + 1 else s.nextLease)
  }

  function DoCommit(s: State, tid: nat): State
    requires tid in s.txns
  {
    var t := s.txns[tid];
    if t.phase != Working(|Statements(t.prog)|) then s
    else match t.prog
      case Resolve(_, _, _) =>
        Drop(s, tid).(leases := s.leases - t.purged + t.reserved,
                      claims := s.claims + set l | l in t.reserved :: Claim(l.node, l.expiresAt - LEASE_TTL_MS))
      case CreateArea(_) => CommitInsert(s, tid)
      case CreateCargo(_, _) => CommitInsert(s, tid)
      case _ =>
        var n := Plan(t.prog)[0];
        if n in s.rows then Drop(s, tid).(rows := s.rows[n := s.rows[n].(live := false)]) else Drop(s, tid)
  }

  /** The primary key refuses an id that is already taken. */
  function CommitInsert(s: State, tid: nat): State
    requires tid in s.txns && (s.txns[tid].prog.CreateArea? || s.txns[tid].prog.CreateCargo?)
  {
    var t := s.txns[tid];
    if t.inserted.None? || t.inserted.value in s.rows then Drop(s, tid)
    else Drop(s, tid).(rows := s.rows[t.inserted.value := ChildRow(t.prog)])
  }

  function Step(b: Bounds, s: State, e: Event): State {
    match e
    case Begin(tid, p) => if tid in s.txns then s else Put(s, tid, Fresh(p))
    case CountRefs(tid, service) => if tid in s.txns then DoCountRefs(s, tid, service) else s
    case Request(tid) =>
      if tid in s.txns && s.txns[tid].phase.Locking? && s.txns[tid].phase.ticket.None?
      then Put(s, tid, s.txns[tid].(phase := Locking(s.txns[tid].phase.k, Some(s.nextTicket))))
             .(nextTicket := s.nextTicket + 1)
      else s
    case Grant(tid) => if tid in s.txns then DoGrant(s, tid) else s
    case Exec(tid, newId) => if tid in s.txns then DoExec(b, s, tid, newId) else s
    case Sweep(tid, batch) =>
      if tid in s.txns && s.txns[tid].prog.Resolve? && s.txns[tid].phase.Working?
         && |batch| <= SWEEP_BATCH_SIZE && (forall l | l in batch :: l in s.leases && l.expiresAt < s.clock)
      then Put(s, tid, s.txns[tid].(purged := s.txns[tid].purged + batch))
      else s
    case Commit(tid) => if tid in s.txns then DoCommit(s, tid) else s
    case Abort(tid) => Drop(s, tid)
    case Persist(c, service) =>
      if c in s.claims
      then s.(refs := s.refs + {Ref(service, c.node, c.claimedAt, s.clock)},
              onTime := s.onTime && s.clock <= c.claimedAt + b.persist)
      else s
    case DropRef(r) => s.(refs := s.refs - {r})
    case NewDept(id) =>
      if Node(Dept, id) in s.rows then s else s.(rows := s.rows[Node(Dept, id) := Row(None, None, true)])
    case Tick(ms) => s.(clock := s.clock + ms)
  }

  function Run(b: Bounds, s: State, es: seq<Event>): State
    decreases |es|
  {
    if es == [] then s else Run(b, Step(b, s, es[0]), es[1..])
  }

  lemma {:induction false} RunAppend(b: Bounds, s: State, es: seq<Event>, fs: seq<Event>)
    ensures Run(b, s, es + fs) == Run(b, Run(b, s, es), fs)
    decreases |es|
  {
    if es == [] {
      assert es + fs == fs;
    } else {
      assert (es + fs)[1..] == es[1..] + fs;
      RunAppend(b, Step(b, s, es[0]), es[1..], fs);
    }
  }

  /** No transaction, lease or reference yet; the structure itself may hold anything free of orphans. */
  ghost predicate Initial(s: State) {
    s.txns == map[] && s.leases == {} && s.claims == {} && s.refs == {} && s.onTime && NoOrphans(s.rows)
  }

  /**
   Every live area has a live departamento; every live cargo a live departamento and, if it names
   one, a live area of it.
   */
  ghost predicate NoOrphans(rows: map<Node, Row>) {
    forall n | n in rows && rows[n].live :: HasLiveParents(rows, n)
  }

  ghost predicate IsLive(rows: map<Node, Row>, n: Node) { n in rows && rows[n].live }

  ghost predicate HasLiveParents(rows: map<Node, Row>, n: Node)
    requires n in rows
  {
    match n.kind
    case Dept => true
    case Area => rows[n].dept.Some? && IsLive(rows, Node(Dept, rows[n].dept.value))
    case Cargo =>
      && rows[n].dept.Some? && IsLive(rows, Node(Dept, rows[n].dept.value))
      && (rows[n].area.Some? ==>
            && IsLive(rows, Node(Area, rows[n].area.value))
            && rows[Node(Area, rows[n].area.value)].dept == rows[n].dept)
  }
}
