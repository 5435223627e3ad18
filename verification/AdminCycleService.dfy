/** The transactions of workflow-admin-cycle.service.ts, updating the rows in place. */
module AdminCycleService {
  import opened Wrappers
  import opened Rows
  import opened WorkflowStateMachine
  import opened AdminCycle
  import opened AdminCycleInvariant
  import opened AdminCycleShift
  import opened AdminCycleTheorems
  import opened AdminCycleResults

  lemma Kept(s: State, op: Op)
    requires Inv(s)
    ensures Apply(s, op).Success? ==> Inv(Apply(s, op).value)
  {
    NextKeeps(s, op);
  }

  lemma CreateResults(s: State, userId: nat, steps: seq<StepInput>, allowed: seq<nat>)
    requires Inv(s)
    ensures match CreateCycle(s, userId, steps, allowed)
            case Success(t) => StartedFrom(s, t, userId, steps, allowed)
            case Failure(e) =>
              e == if steps == [] || multiset(Map(ByInputOrder, steps)) != multiset(UpTo(|steps|))
                   then OrdersNotConsecutive
                   else if s.status !in {PendingReviewCycle, AvailableForFinalUsers} then InvalidTransition
                   else if !s.reviewCycleEnabled then ReviewCycleDisabled
                   else NotAFinalUser
  {
    match CreateCycle(s, userId, steps, allowed)
    case Success(_) => CreateMeans(s, userId, steps, allowed);
    case Failure(e) => CreateRefusals(s, userId, steps, allowed, e);
  }

  lemma CompleteResults(s: State, cycleId: nat, stepId: nat, userId: nat)
    requires Inv(s)
    ensures match AdminCycle.CompleteStep(s, cycleId, stepId, userId)
            case Success(t) => CompletedFrom(s, t, cycleId)
            case Failure(e) =>
              if s.status in {PendingApproval, PendingReviewCycle, AdminCycleInProgress}
              then RefusedAs(s, cycleId, stepId, userId, e) else e == InvalidTransition
  {
    match AdminCycle.CompleteStep(s, cycleId, stepId, userId)
    case Success(_) => CompleteMeans(s, cycleId, stepId, userId);
    case Failure(e) => CompleteRefusals(s, cycleId, stepId, userId, e);
  }

  lemma ForwardResults(s: State, cycleId: nat, stepId: nat, userId: nat, reviewer: nat, visit: nat -> int)
    requires Inv(s)
    ensures match AdminCycle.ForwardStep(s, cycleId, stepId, userId, reviewer, visit)
            case Success(t) => ForwardedFrom(s, t, cycleId, reviewer)
            case Failure(e) => ForwardRefusedAs(s, cycleId, stepId, userId, reviewer, visit, e)
  {
    match AdminCycle.ForwardStep(s, cycleId, stepId, userId, reviewer, visit)
    case Success(_) => ForwardMeans(s, cycleId, stepId, userId, reviewer, visit);
    case Failure(e) => ForwardRefusals(s, cycleId, stepId, userId, reviewer, visit, e);
  }

  /** The rows of one workflow. Ids are handed out by the database and never reused. */
  class WorkflowRows {
    var status: Status
    var activeCycle: Option<nat>
    var assignedUser: Option<nat>
    const finalUserIds: seq<nat>
    const reviewCycleEnabled: bool
    const createdBy: nat
    var closedBy: Option<nat>
    var cancelledBy: Option<nat>
    var cycles: seq<Cycle>
    var nextId: nat

    constructor (status: Status, finalUserIds: seq<nat>, reviewCycleEnabled: bool, createdBy: nat)
      requires status != AdminCycleInProgress
      ensures Valid() && Initial(Snapshot())
      ensures Snapshot() == State(status, None, None, finalUserIds, reviewCycleEnabled, createdBy, None, None, [], 0)
    {
      this.status := status;
      this.activeCycle, this.assignedUser, this.closedBy, this.cancelledBy := None, None, None, None;
      this.finalUserIds := finalUserIds;
      this.reviewCycleEnabled := reviewCycleEnabled;
      this.createdBy := createdBy;
      this.cycles, this.nextId := [], 0;
    }

    ghost function Snapshot(): State
      reads this
    {
      State(status, activeCycle, assignedUser, finalUserIds, reviewCycleEnabled, createdBy,
            closedBy, cancelledBy, cycles, nextId)
    }

    /** What every request keeps. */
    ghost predicate Valid()
      reads this
    {
      Inv(Snapshot())
    }

    /** What a request answered and left behind, against the transaction that specifies it. */
    ghost predicate Did(before: State, outcome: Result<State, Error>, r: Result<nat, Error>)
      reads this
    {
      && (outcome.Success? ==> r.Success? && Snapshot() == outcome.value)
      && (outcome.Failure? ==> r == Failure(outcome.error) && Snapshot() == before)
    }

    /** Starts a cycle; the caller gets its id, under which it is the one open cycle. */
    method CreateCycle(userId: nat, inputs: seq<StepInput>, allowed: seq<nat>) returns (r: Result<nat, Error>)
      requires Valid()
      modifies this
      ensures Valid()
      ensures Did(old(Snapshot()), AdminCycle.CreateCycle(old(Snapshot()), userId, inputs, allowed), r)
      ensures r.Success? ==> activeCycle == Some(r.value) && r.value == old(nextId)
      ensures r.Success? ==> StartedFrom(old(Snapshot()), Snapshot(), userId, inputs, allowed)
      ensures r.Failure? ==>
                && Snapshot() == old(Snapshot())
                && r.error == if inputs == [] || multiset(Map(ByInputOrder, inputs)) != multiset(UpTo(|inputs|))
                              then OrdersNotConsecutive
                              else if status !in {PendingReviewCycle, AvailableForFinalUsers} then InvalidTransition
                              else if !reviewCycleEnabled then ReviewCycleDisabled
                              else NotAFinalUser
    {
      CreateResults(Snapshot(), userId, inputs, allowed);
      Kept(Snapshot(), OpCreate(userId, inputs, allowed));
      r := CreateInTransaction(userId, inputs, allowed);
    }

    method CreateInTransaction(userId: nat, inputs: seq<StepInput>, allowed: seq<nat>) returns (r: Result<nat, Error>)
      modifies this
      ensures Did(old(Snapshot()), AdminCycle.CreateCycle(old(Snapshot()), userId, inputs, allowed), r)
      ensures r.Success? ==> activeCycle == Some(r.value) && r.value == old(nextId)
    {
      var sorted := SortBy(ByInputOrder, inputs);
      if HasGap(sorted) || |sorted| == 0 || sorted[0].stepOrder != 1 {
        return Failure(OrdersNotConsecutive);
      }
      if HasDuplicates(sorted) {
        return Failure(DuplicateOrders);
      }
      if !IsValidTransition(status, AdminCycleInProgress) {
        return Failure(InvalidTransition);
      }
      if !reviewCycleEnabled {
        return Failure(ReviewCycleDisabled);
      }
      if activeCycle.Some? {
        return Failure(ActiveCycleExists);
      }
      if userId !in finalUserIds {
        return Failure(NotAFinalUser);
      }
      r := Success(nextId);
      InsertCycle(userId, sorted, allowed);
    }

    /** Inserts the cycle row and its steps and points the workflow at them. */
    method InsertCycle(userId: nat, sorted: seq<StepInput>, allowed: seq<nat>)
      requires sorted != []
      modifies this
      ensures Snapshot() == Started(old(Snapshot()), userId, sorted, allowed)
    {
      var firstStep := sorted[0];
      var cycleId, cycleNumber := nextId, LastNumber(cycles) + 1;
      var steps := NewSteps(sorted, cycleId + 1);
      nextId := nextId + 1 + |steps|;
      cycles := cycles + [Cycle(cycleId, cycleNumber, userId, InProgress, Some(1), allowed, steps)];
      status := AdminCycleInProgress;
      activeCycle := Some(cycleId);
      assignedUser := Some(firstStep.userId);
    }

    /** Finishes the current step of the active cycle, if it is the caller's. */
    method CompleteStep(cycleId: nat, stepId: nat, userId: nat) returns (r: Result<nat, Error>)
      requires Valid()
      modifies this
      ensures Valid()
      ensures r.Success? <==>
                old(status) == AdminCycleInProgress && IsCurrentStep(old(Snapshot()), cycleId, stepId, userId)
      ensures r.Success? ==> r.value == stepId && CompletedFrom(old(Snapshot()), Snapshot(), cycleId)
      ensures r.Failure? ==>
                && Snapshot() == old(Snapshot())
                && if old(status) in {PendingApproval, PendingReviewCycle, AdminCycleInProgress}
                   then RefusedAs(Snapshot(), cycleId, stepId, userId, r.error) else r.error == InvalidTransition
      ensures Did(old(Snapshot()), AdminCycle.CompleteStep(old(Snapshot()), cycleId, stepId, userId), r)
    {
      CompleteResults(Snapshot(), cycleId, stepId, userId);
      CompleteSucceedsExactly(Snapshot(), cycleId, stepId, userId);
      Kept(Snapshot(), OpComplete(cycleId, stepId, userId));
      r := CompleteInTransaction(cycleId, stepId, userId);
    }

    method CompleteInTransaction(cycleId: nat, stepId: nat, userId: nat) returns (r: Result<nat, Error>)
      modifies this
      ensures Did(old(Snapshot()), AdminCycle.CompleteStep(old(Snapshot()), cycleId, stepId, userId), r)
      ensures r.Success? ==> r.value == stepId
    {
      if !IsValidTransition(status, AvailableForFinalUsers) {
        return Failure(InvalidTransition);
      }
      var own := OwnPendingStep(cycles, cycleId, stepId, userId);
      if own.Failure? {
        return Failure(own.error);
      }
      var (ci, si) := own.value;
      var cycle := cycles[ci];
      var step := cycle.steps[si];
      var sortedSteps := Line(cycle.steps);
      var ni := FindAfter(sortedSteps, step.order);
      cycle := cycle.(steps := Map(WithStatus(stepId, Done), cycle.steps));
      if ni.None? {
        cycles := cycles[ci := cycle.(status := Completed, currentStepOrder := None)];
        status := AvailableForFinalUsers;
        activeCycle := None;
        assignedUser := Some(cycle.initiatedBy);
      } else {
        var nextStep := sortedSteps[ni.value];
        cycle := cycle.(steps := Map(WithStatus(nextStep.id, Pending), cycle.steps));
        cycles := cycles[ci := cycle.(currentStepOrder := Some(nextStep.order))];
        assignedUser := Some(nextStep.userId);
      }
      return Success(stepId);
    }

    /**
     One UPDATE over the rows from `order` on, visited in the order of `visit`; the unique key on
     cycle and order is checked after each row, and a hit rolls the statement back.
     */
    method ShiftLater(steps: seq<Step>, order: int, visit: nat -> int) returns (r: Option<seq<Step>>)
      ensures r == ShiftRowByRow(steps, Visited(steps, order, visit))
    {
      var visited := Visited(steps, order, visit);
      var rows := steps;
      var i := 0;
      while i < |visited|
        invariant 0 <= i <= |visited|
        invariant ShiftRowByRow(rows, visited[i..]) == ShiftRowByRow(steps, visited)
      {
        assert visited[i..][0] == visited[i] && visited[i..][1..] == visited[i + 1..];
        if IsTaken(rows, visited[i].order + 1) {
          return None;
        }
        rows := Map(Raised(visited[i].id), rows);
        i := i + 1;
      }
      return Some(rows);
    }

    /** Hands the current step to an optional reviewer, who gets a step of their own right behind it. */
    method ForwardStep(cycleId: nat, stepId: nat, userId: nat, reviewer: nat, visit: nat -> int)
      returns (r: Result<nat, Error>)
      requires Valid()
      modifies this
      ensures Valid()
      ensures Did(old(Snapshot()), AdminCycle.ForwardStep(old(Snapshot()), cycleId, stepId, userId, reviewer, visit), r)
      ensures r.Success? ==> r.value == old(nextId) && ForwardedFrom(old(Snapshot()), Snapshot(), cycleId, reviewer)
      ensures r.Failure? ==>
                && Snapshot() == old(Snapshot())
                && ForwardRefusedAs(Snapshot(), cycleId, stepId, userId, reviewer, visit, r.error)
    {
      ForwardResults(Snapshot(), cycleId, stepId, userId, reviewer, visit);
      Kept(Snapshot(), OpForward(cycleId, stepId, userId, reviewer, visit));
      r := ForwardInTransaction(cycleId, stepId, userId, reviewer, visit);
    }

    method ForwardInTransaction(cycleId: nat, stepId: nat, userId: nat, reviewer: nat, visit: nat -> int)
      returns (r: Result<nat, Error>)
      modifies this
      ensures Did(old(Snapshot()), AdminCycle.ForwardStep(old(Snapshot()), cycleId, stepId, userId, reviewer, visit), r)
      ensures r.Success? ==> r.value == old(nextId)
    {
      if status != AdminCycleInProgress {
        return Failure(InvalidTransition);
      }
      var own := OwnPendingStep(cycles, cycleId, stepId, userId);
      if own.Failure? {
        return Failure(own.error);
      }
      var (ci, si) := own.value;
      var cycle := cycles[ci];
      var step := cycle.steps[si];
      if step.isOptional {
        return Failure(OptionalCannotForward);
      }
      if reviewer !in cycle.allowedOptional {
        return Failure(ReviewerNotAllowed);
      }
      var ni := FindAt(cycle.steps, step.order + 1);
      if ni.Some? && cycle.steps[ni.value].userId == reviewer {
        return Failure(NextReviewerIsTheSame);
      }
      r := InsertOptional(ci, si, reviewer, visit);
    }

    /** The shift, the reviewer's step and the finished one. */
    method InsertOptional(ci: nat, si: nat, reviewer: nat, visit: nat -> int) returns (r: Result<nat, Error>)
      requires ci < |cycles| && si < |cycles[ci].steps|
      modifies this
      ensures Did(old(Snapshot()), AdminCycle.InsertOptional(old(Snapshot()), ci, si, reviewer, visit), r)
      ensures r.Success? ==> r.value == old(nextId)
    {
      var cycle := cycles[ci];
      var step := cycle.steps[si];
      var insertOrder := step.order + 1;
      var shifted := ShiftLater(cycle.steps, insertOrder, visit);
      if shifted.None? {
        return Failure(StepOrderTaken);
      }
      var insertedId := nextId;
      nextId := nextId + 1;
      Place(ci, step.id, shifted.value, Step(insertedId, reviewer, insertOrder, Pending, true, Some(step.id)));
      assignedUser := Some(reviewer);
      return Success(insertedId);
    }

    method Place(ci: nat, stepId: nat, shifted: seq<Step>, inserted: Step)
      requires ci < |cycles|
      modifies this`cycles
      ensures cycles == old(cycles)[ci := WithInserted(old(cycles)[ci], stepId, shifted, inserted)]
    {
      var rows := Map(WithStatus(stepId, Done), shifted + [inserted]);
      cycles := cycles[ci := cycles[ci].(currentStepOrder := Some(inserted.order), steps := rows)];
    }

    /** No row of the workflow changed except those named in the arguments. */
    ghost predicate Became(before: State, status: Status, user: nat, closedBy: Option<nat>, cancelledBy: Option<nat>)
      reads this
    {
      Snapshot() == before.(status := status, assignedUser := Some(user), closedBy := closedBy,
                            cancelledBy := cancelledBy)
    }

    /**
     Passes the review cycle by. The cycles stay as they are and none is open, and every final
     user can at once close or cancel the workflow, which nobody could before.
     */
    method SkipReviewCycle(userId: nat) returns (r: Result<nat, Error>)
      requires Valid()
      modifies this
      ensures Valid()
      ensures r.Success? <==> old(status) == PendingReviewCycle && userId in finalUserIds
      ensures r.Success? ==> Became(old(Snapshot()), AvailableForFinalUsers, userId, old(closedBy), old(cancelledBy))
      ensures r.Success? ==> forall i :: 0 <= i < |cycles| ==> cycles[i].status == Completed
      ensures r.Success? ==>
                forall u | u in finalUserIds ::
                  && Apply(Snapshot(), OpClose(u)).Success? && Apply(Snapshot(), OpCancel(u)).Success?
                  && Apply(old(Snapshot()), OpClose(u)).Failure? && Apply(old(Snapshot()), OpCancel(u)).Failure?
      ensures r.Failure? ==>
                && Snapshot() == old(Snapshot())
                && r.error == if status == PendingReviewCycle then NotAFinalUser else InvalidTransition
      ensures Did(old(Snapshot()), AdminCycle.SkipReviewCycle(old(Snapshot()), userId), r)
    {
      if status != PendingReviewCycle {
        return Failure(InvalidTransition);
      }
      if userId !in finalUserIds {
        return Failure(NotAFinalUser);
      }
      status := AvailableForFinalUsers;
      assignedUser := Some(userId);
      return Success(userId);
    }

    /** Nothing is left to do and nothing can be done any more: no request whatever changes the workflow again. */
    ghost predicate Ended()
      reads this
    {
      && activeCycle.None?
      && (forall i :: 0 <= i < |cycles| ==> cycles[i].status == Completed && AllDone(Line(cycles[i].steps)))
      && (forall ops :: Run(Snapshot(), ops) == Snapshot())
    }

    lemma TerminalMeansEnded()
      requires Valid() && status in {Closed, Cancelled, Rejected}
      ensures Ended()
    {
      forall ops ensures Run(Snapshot(), ops) == Snapshot() {
        TerminalIsFinal(Snapshot(), ops);
      }
      TerminalIsFinal(Snapshot(), []);
    }

    /** Ends the workflow: a final user may do so exactly while no cycle is open and none is due. */
    method CloseWorkflow(userId: nat) returns (r: Result<nat, Error>)
      requires Valid()
      modifies this
      ensures Valid()
      ensures r.Success? <==> old(status) == AvailableForFinalUsers && userId in finalUserIds
      ensures r.Success? ==> Became(old(Snapshot()), Closed, createdBy, Some(userId), old(cancelledBy)) && Ended()
      ensures r.Failure? ==>
                && Snapshot() == old(Snapshot())
                && r.error == if status == AvailableForFinalUsers then NotAFinalUser else InvalidTransition
      ensures Did(old(Snapshot()), AdminCycle.CloseWorkflow(old(Snapshot()), userId), r)
    {
      if !IsValidTransition(status, Closed) {
        return Failure(InvalidTransition);
      }
      if userId !in finalUserIds {
        return Failure(NotAFinalUser);
      }
      status := Closed;
      closedBy := Some(userId);
      assignedUser := Some(createdBy);
      activeCycle := None;
      TerminalMeansEnded();
      return Success(userId);
    }

    /** Ends the workflow like closing, but records a cancellation. */
    method CancelWorkflow(userId: nat) returns (r: Result<nat, Error>)
      requires Valid()
      modifies this
      ensures Valid()
      ensures r.Success? <==> old(status) == AvailableForFinalUsers && userId in finalUserIds
      ensures r.Success? ==> Became(old(Snapshot()), Cancelled, createdBy, old(closedBy), Some(userId)) && Ended()
      ensures r.Failure? ==>
                && Snapshot() == old(Snapshot())
                && r.error == if status == AvailableForFinalUsers then NotAFinalUser else InvalidTransition
      ensures Did(old(Snapshot()), AdminCycle.CancelWorkflow(old(Snapshot()), userId), r)
    {
      if !IsValidTransition(status, Cancelled) {
        return Failure(InvalidTransition);
      }
      if userId !in finalUserIds {
        return Failure(NotAFinalUser);
      }
      status := Cancelled;
      cancelledBy := Some(userId);
      assignedUser := Some(createdBy);
      activeCycle := None;
      TerminalMeansEnded();
      return Success(userId);
    }
  }
}
