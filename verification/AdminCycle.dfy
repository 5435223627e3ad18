/**
 The administrative review cycle of one workflow (workflow-admin-cycle.service.ts).

 Every operation of the service is one transaction that locks the workflow row first, so
 each is one atomic step on the rows of that workflow: the workflow itself, its cycles and
 the steps of each cycle. `State` is a snapshot of those rows; the functions below say what
 each transaction does to the snapshot, and class `WorkflowRows` performs it in place.
 */
module AdminCycle {
  import opened Wrappers
  import opened Rows
  import opened WorkflowStateMachine

  datatype StepStatus = Waiting | Pending | Done

  datatype Step = Step(id: nat, userId: nat, order: int, status: StepStatus,
                       isOptional: bool, insertedBy: Option<nat>)

  datatype CycleStatus = InProgress | Completed

  /** `steps` lists the step rows in table order, which says nothing about `order`. */
  datatype Cycle = Cycle(id: nat, number: int, initiatedBy: nat, status: CycleStatus,
                         currentStepOrder: Option<int>, allowedOptional: seq<nat>, steps: seq<Step>)

  datatype State = State(status: Status, activeCycle: Option<nat>, assignedUser: Option<nat>,
                         finalUserIds: seq<nat>, reviewCycleEnabled: bool, createdBy: nat,
                         closedBy: Option<nat>, cancelledBy: Option<nat>,
                         cycles: seq<Cycle>, nextId: nat)

  datatype StepInput = StepInput(userId: nat, stepOrder: int)

  datatype Error =
    | OrdersNotConsecutive
    | DuplicateOrders
    | InvalidTransition
    | ReviewCycleDisabled
    | ActiveCycleExists
    | NotAFinalUser
    | CycleNotFound
    | CycleNotInProgress
    | StepNotFound
    | NotAssigned
    | StepNotPending
    | OptionalCannotForward
    | ReviewerNotAllowed
    | NextReviewerIsTheSame
    | StepOrderTaken

  // Row access

  function ByOrder(s: Step): int { s.order }

  function ByInputOrder(s: StepInput): int { s.stepOrder }

  /** The steps of a cycle from first to last. */
  function Line(steps: seq<Step>): seq<Step> { SortBy(ByOrder, steps) }

  function FindCycle(cycles: seq<Cycle>, id: nat): (r: Option<nat>)
    ensures r.Some? ==> r.value < |cycles| && cycles[r.value].id == id
    ensures r.None? ==> forall j :: 0 <= j < |cycles| ==> cycles[j].id != id
  {
    Find((c: Cycle) => c.id == id, cycles)
  }

  function FindStep(steps: seq<Step>, id: nat): (r: Option<nat>)
    ensures r.Some? ==> r.value < |steps| && steps[r.value].id == id
    ensures r.None? ==> forall j :: 0 <= j < |steps| ==> steps[j].id != id
  {
    Find((x: Step) => x.id == id, steps)
  }

  /** The first step of a sorted line whose order exceeds `order`. */
  function FindAfter(line: seq<Step>, order: int): (r: Option<nat>)
    ensures r.Some? ==> r.value < |line| && line[r.value].order > order
                        && forall j :: 0 <= j < r.value ==> line[j].order <= order
    ensures r.None? ==> forall j :: 0 <= j < |line| ==> line[j].order <= order
  {
    Find((x: Step) => x.order > order, line)
  }

  function FindAt(steps: seq<Step>, order: int): (r: Option<nat>)
    ensures r.Some? ==> r.value < |steps| && steps[r.value].order == order
    ensures r.None? ==> forall j :: 0 <= j < |steps| ==> steps[j].order != order
  {
    Find((x: Step) => x.order == order, steps)
  }

  function WithStatus(id: nat, status: StepStatus): Step -> Step {
    (x: Step) => if x.id == id then x.(status := status) else x
  }

  function ShiftedFrom(order: int): Step -> Step {
    (x: Step) => if x.order >= order then x.(order := x.order + 1) else x
  }

  function LastNumber(cycles: seq<Cycle>): int {
    if cycles == [] then 0
    else
      var rest := LastNumber(cycles[..|cycles| - 1]);
      var n := cycles[|cycles| - 1].number;
      if n > rest then n else rest
  }

  // The transactions

  predicate HasGap(orders: seq<StepInput>) {
    exists i :: 0 < i < |orders| && orders[i].stepOrder != orders[i - 1].stepOrder + 1
  }

  predicate HasDuplicates(orders: seq<StepInput>) {
    exists i, j :: 0 <= i < j < |orders| && orders[i].stepOrder == orders[j].stepOrder
  }

  function NewSteps(sorted: seq<StepInput>, firstId: nat): seq<Step> {
    seq(|sorted|, k requires 0 <= k < |sorted| =>
      Step(firstId + k, sorted[k].userId, sorted[k].stepOrder,
           if sorted[k].stepOrder == 1 then Pending else Waiting, false, None))
  }

  /** The new cycle and its steps, the first of them pending. */
  function Started(s: State, userId: nat, sorted: seq<StepInput>, allowed: seq<nat>): State
    requires sorted != []
  {
    var cycle := Cycle(s.nextId, LastNumber(s.cycles) + 1, userId, InProgress, Some(1), allowed,
                       NewSteps(sorted, s.nextId + 1));
    s.(status := AdminCycleInProgress, activeCycle := Some(cycle.id), assignedUser := Some(sorted[0].userId),
       cycles := s.cycles + [cycle], nextId := s.nextId + 1 + |sorted|)
  }

  function CreateCycle(s: State, userId: nat, steps: seq<StepInput>, allowed: seq<nat>): Result<State, Error> {
    var sorted := SortBy(ByInputOrder, steps);
    if HasGap(sorted) || sorted == [] || sorted[0].stepOrder != 1 then Failure(OrdersNotConsecutive)
    else if HasDuplicates(sorted) then Failure(DuplicateOrders)
    else if !IsValidTransition(s.status, AdminCycleInProgress) then Failure(InvalidTransition)
    else if !s.reviewCycleEnabled then Failure(ReviewCycleDisabled)
    else if s.activeCycle.Some? then Failure(ActiveCycleExists)
    else if userId !in s.finalUserIds then Failure(NotAFinalUser)
    else
      Success(Started(s, userId, sorted, allowed))
  }

  /** The checks that completing and forwarding share: the caller's own pending step of an open cycle. */
  function OwnPendingStep(cycles: seq<Cycle>, cycleId: nat, stepId: nat, userId: nat)
    : (r: Result<(nat, nat), Error>)
    ensures r.Success? ==> && FindCycle(cycles, cycleId) == Some(r.value.0)
                           && FindStep(cycles[r.value.0].steps, stepId) == Some(r.value.1)
  {
    match FindCycle(cycles, cycleId)
    case None => Failure(CycleNotFound)
    case Some(ci) =>
      var cycle := cycles[ci];
      if cycle.status != InProgress then Failure(CycleNotInProgress)
      else match FindStep(cycle.steps, stepId)
        case None => Failure(StepNotFound)
        case Some(si) =>
          if cycle.steps[si].userId != userId then Failure(NotAssigned)
          else if cycle.steps[si].status != Pending then Failure(StepNotPending)
          else Success((ci, si))
  }

  /** The last step is done and the cycle with it. */
  function Finished(c: Cycle, stepId: nat): Cycle {
    c.(status := Completed, currentStepOrder := None, steps := Map(WithStatus(stepId, Done), c.steps))
  }

  /** One step is done and the next becomes pending. */
  function Advanced(c: Cycle, stepId: nat, next: Step): Cycle {
    c.(currentStepOrder := Some(next.order),
       steps := Map(WithStatus(next.id, Pending), Map(WithStatus(stepId, Done), c.steps)))
  }

  function CompleteStep(s: State, cycleId: nat, stepId: nat, userId: nat): Result<State, Error> {
    if !IsValidTransition(s.status, AvailableForFinalUsers) then Failure(InvalidTransition)
    else match OwnPendingStep(s.cycles, cycleId, stepId, userId)
      case Failure(e) => Failure(e)
      case Success((ci, si)) =>
        var cycle := s.cycles[ci];
        var line := Line(cycle.steps);
        match FindAfter(line, cycle.steps[si].order)
        case None =>
          Success(s.(status := AvailableForFinalUsers,
                     activeCycle := None,
                     assignedUser := Some(cycle.initiatedBy),
                     cycles := s.cycles[ci := Finished(cycle, stepId)]))
        case Some(ni) =>
          Success(s.(assignedUser := Some(line[ni].userId),
                     cycles := s.cycles[ci := Advanced(cycle, stepId, line[ni])]))
  }

  // The bulk shift of a forward

  /** The rows that the bulk update touches, in the order in which the database comes across them. */
  function Visited(steps: seq<Step>, order: int, visit: nat -> int): seq<Step> {
    SortBy(ByVisit(visit), Filter(FromOrder(order), steps))
  }

  function ByVisit(visit: nat -> int): Step -> int { (x: Step) => visit(x.id) }

  function FromOrder(order: int): Step -> bool { (x: Step) => x.order >= order }

  function Raised(id: nat): Step -> Step {
    (x: Step) => if x.id == id then x.(order := x.order + 1) else x
  }

  predicate IsTaken(steps: seq<Step>, order: int) { exists x | x in steps :: x.order == order }

  /** The key on cycle and order is not deferrable: it is checked after every row, not after the statement. */
  function ShiftRowByRow(steps: seq<Step>, visited: seq<Step>): Option<seq<Step>>
    decreases |visited|
  {
    if visited == [] then Some(steps)
    else if IsTaken(steps, visited[0].order + 1) then None
    else ShiftRowByRow(Map(Raised(visited[0].id), steps), visited[1..])
  }

  /** After the shift: the inserted row is added and the forwarding step finished. */
  function WithInserted(c: Cycle, stepId: nat, shifted: seq<Step>, inserted: Step): Cycle {
    c.(currentStepOrder := Some(inserted.order), steps := Map(WithStatus(stepId, Done), shifted + [inserted]))
  }

  /** A forward whose shift went through: every later step moved by one. */
  function Forwarded(c: Cycle, stepId: nat, inserted: Step): Cycle {
    WithInserted(c, stepId, Map(ShiftedFrom(inserted.order), c.steps), inserted)
  }

  /** `visit` ranks the step rows by when the bulk update comes across them; the statement does not fix it. */
  function ForwardStep(s: State, cycleId: nat, stepId: nat, userId: nat, reviewer: nat, visit: nat -> int)
    : Result<State, Error>
  {
    if s.status != AdminCycleInProgress then Failure(InvalidTransition)
    else match OwnPendingStep(s.cycles, cycleId, stepId, userId)
      case Failure(e) => Failure(e)
      case Success((ci, si)) =>
        match ForwardRefusal(s.cycles[ci], si, reviewer)
        case Some(e) => Failure(e)
        case None => InsertOptional(s, ci, si, reviewer, visit)
  }

  /** Why the caller's own pending step cannot go to this reviewer. */
  function ForwardRefusal(c: Cycle, si: nat, reviewer: nat): Option<Error>
    requires si < |c.steps|
  {
    var next := FindAt(c.steps, c.steps[si].order + 1);
    if c.steps[si].isOptional then Some(OptionalCannotForward)
    else if reviewer !in c.allowedOptional then Some(ReviewerNotAllowed)
    else if next.Some? && c.steps[next.value].userId == reviewer then Some(NextReviewerIsTheSame)
    else None
  }

  /** Shifts the later steps and puts the reviewer's step behind the forwarding one. */
  function InsertOptional(s: State, ci: nat, si: nat, reviewer: nat, visit: nat -> int): Result<State, Error>
    requires ci < |s.cycles| && si < |s.cycles[ci].steps|
  {
    var cycle := s.cycles[ci];
    var step := cycle.steps[si];
    var insertOrder := step.order + 1;
    var inserted := Step(s.nextId, reviewer, insertOrder, Pending, true, Some(step.id));
    match ShiftRowByRow(cycle.steps, Visited(cycle.steps, insertOrder, visit))
    case None => Failure(StepOrderTaken)
    case Some(shifted) =>
      Success(s.(assignedUser := Some(reviewer),
                 cycles := s.cycles[ci := WithInserted(cycle, step.id, shifted, inserted)],
                 nextId := s.nextId + 1))
  }

  function SkipReviewCycle(s: State, userId: nat): Result<State, Error> {
    if s.status != PendingReviewCycle then Failure(InvalidTransition)
    else if userId !in s.finalUserIds then Failure(NotAFinalUser)
    else Success(s.(status := AvailableForFinalUsers, assignedUser := Some(userId)))
  }

  function CloseWorkflow(s: State, userId: nat): Result<State, Error> {
    if !IsValidTransition(s.status, Closed) then Failure(InvalidTransition)
    else if userId !in s.finalUserIds then Failure(NotAFinalUser)
    else Success(s.(status := Closed, closedBy := Some(userId),
                    assignedUser := Some(s.createdBy), activeCycle := None))
  }

  function CancelWorkflow(s: State, userId: nat): Result<State, Error> {
    if !IsValidTransition(s.status, Cancelled) then Failure(InvalidTransition)
    else if userId !in s.finalUserIds then Failure(NotAFinalUser)
    else Success(s.(status := Cancelled, cancelledBy := Some(userId),
                    assignedUser := Some(s.createdBy), activeCycle := None))
  }

  /** One request to the service. */
  datatype Op =
    | OpCreate(userId: nat, steps: seq<StepInput>, allowed: seq<nat>)
    | OpComplete(cycleId: nat, stepId: nat, userId: nat)
    | OpForward(cycleId: nat, stepId: nat, userId: nat, reviewer: nat, visit: nat -> int)
    | OpSkip(userId: nat)
    | OpClose(userId: nat)
    | OpCancel(userId: nat)

  function Apply(s: State, op: Op): Result<State, Error> {
    match op
    case OpCreate(u, steps, allowed) => CreateCycle(s, u, steps, allowed)
    case OpComplete(c, st, u) => CompleteStep(s, c, st, u)
    case OpForward(c, st, u, v, visit) => ForwardStep(s, c, st, u, v, visit)
    case OpSkip(u) => SkipReviewCycle(s, u)
    case OpClose(u) => CloseWorkflow(s, u)
    case OpCancel(u) => CancelWorkflow(s, u)
  }

  /** A rejected request rolls its transaction back. */
  function Next(s: State, op: Op): State {
    match Apply(s, op)
    case Success(t) => t
    case Failure(_) => s
  }

  function Run(s: State, ops: seq<Op>): State
    decreases |ops|
  {
    if ops == [] then s else Run(Next(s, ops[0]), ops[1..])
  }
}
