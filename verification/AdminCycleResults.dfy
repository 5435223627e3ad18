/** What each request leaves behind and why it is refused, on the rows themselves. */
module AdminCycleResults {
  import opened Wrappers
  import opened Rows
  import opened WorkflowStateMachine
  import opened AdminCycle
  import opened AdminCycleShift
  import opened AdminCycleInvariant
  import opened AdminCycleTheorems

  /** Nothing changed but the cycle at `ci`, the status, active cycle and user of the workflow, and the ids in use. */
  ghost predicate OnlyCycle(s: State, t: State, ci: nat)
    requires ci < |s.cycles|
  {
    && |t.cycles| == |s.cycles|
    && t == s.(status := t.status, activeCycle := t.activeCycle, assignedUser := t.assignedUser,
               cycles := s.cycles[ci := t.cycles[ci]], nextId := t.nextId)
    && t.cycles[ci] == s.cycles[ci].(status := t.cycles[ci].status, steps := t.cycles[ci].steps,
                                     currentStepOrder := t.cycles[ci].currentStepOrder)
  }

  // Completing

  /** The step after the one completed is pending and its user has the workflow. */
  ghost predicate MovedOn(s: State, t: State, ci: nat)
    requires ci < |s.cycles| == |t.cycles| && s.cycles[ci].currentStepOrder.Some?
  {
    var line, cur := Line(s.cycles[ci].steps), s.cycles[ci].currentStepOrder.value;
    && 1 <= cur < |line|
    && t.status == AdminCycleInProgress && t.activeCycle == Some(s.cycles[ci].id)
    && t.assignedUser == Some(line[cur].userId)
    && t.cycles[ci].status == InProgress && t.cycles[ci].currentStepOrder == Some(cur + 1)
    && Line(t.cycles[ci].steps)
       == line[cur - 1 := line[cur - 1].(status := Done)][cur := line[cur].(status := Pending)]
  }

  /** No step is left: the cycle is over and the workflow goes back to whoever started it. */
  ghost predicate WentBack(s: State, t: State, ci: nat)
    requires ci < |s.cycles| == |t.cycles| && s.cycles[ci].currentStepOrder.Some?
  {
    var line, cur := Line(s.cycles[ci].steps), s.cycles[ci].currentStepOrder.value;
    && 1 <= cur == |line|
    && t.status == AvailableForFinalUsers && t.activeCycle.None?
    && t.assignedUser == Some(s.cycles[ci].initiatedBy)
    && t.cycles[ci].status == Completed && t.cycles[ci].currentStepOrder.None?
    && Line(t.cycles[ci].steps) == line[cur - 1 := line[cur - 1].(status := Done)]
  }

  ghost predicate CompletedFrom(s: State, t: State, cycleId: nat) {
    exists ci: nat :: ci < |s.cycles| && s.cycles[ci].id == cycleId && CompletedAt(s, t, ci)
  }

  ghost predicate CompletedAt(s: State, t: State, ci: nat)
    requires ci < |s.cycles|
  {
    && s.cycles[ci].currentStepOrder.Some? && OnlyCycle(s, t, ci) && t.nextId == s.nextId
    && (MovedOn(s, t, ci) || WentBack(s, t, ci))
  }

  lemma CompleteMeans(s: State, cycleId: nat, stepId: nat, userId: nat)
    requires Inv(s) && CompleteStep(s, cycleId, stepId, userId).Success?
    ensures CompletedFrom(s, CompleteStep(s, cycleId, stepId, userId).value, cycleId)
  {
    var t := CompleteStep(s, cycleId, stepId, userId).value;
    var ci := FindCycle(s.cycles, cycleId).value;
    var c := s.cycles[ci];
    var si := FindStep(c.steps, stepId).value;
    assert CycleInv(c, s.nextId);
    PendingIsCurrent(c, s.nextId, si);
    AfterIsNext(Line(c.steps), c.currentStepOrder.value);
    if c.currentStepOrder.value == |c.steps| {
      FinishedMeans(s, t, ci, si);
    } else {
      AdvancedMeans(s, t, ci, si);
    }
    assert CompletedAt(s, t, ci);
  }

  lemma FinishedMeans(s: State, t: State, ci: nat, si: nat)
    requires ci < |s.cycles| && CycleInv(s.cycles[ci], s.nextId) && s.cycles[ci].status == InProgress
    requires si < |s.cycles[ci].steps| && s.cycles[ci].steps[si].status == Pending
    requires s.cycles[ci].currentStepOrder.value == |s.cycles[ci].steps|
    requires t == s.(status := AvailableForFinalUsers, activeCycle := None,
                     assignedUser := Some(s.cycles[ci].initiatedBy),
                     cycles := s.cycles[ci := Finished(s.cycles[ci], s.cycles[ci].steps[si].id)])
    ensures CompletedAt(s, t, ci)
  {
    CompletedLine(s.cycles[ci], s.nextId, si);
    assert WentBack(s, t, ci);
  }

  lemma AdvancedMeans(s: State, t: State, ci: nat, si: nat)
    requires Inv(s) && ci < |s.cycles| && s.cycles[ci].status == InProgress
    requires si < |s.cycles[ci].steps| && s.cycles[ci].steps[si].status == Pending
    requires s.cycles[ci].currentStepOrder.Some? && 1 <= s.cycles[ci].currentStepOrder.value < |s.cycles[ci].steps|
    requires var c := s.cycles[ci];
             var next := Line(c.steps)[c.currentStepOrder.value];
             t == s.(cycles := s.cycles[ci := Advanced(c, c.steps[si].id, next)], assignedUser := Some(next.userId))
    ensures CompletedAt(s, t, ci)
  {
    assert CycleInv(s.cycles[ci], s.nextId);
    OpenCycleIsActive(s, ci);
    CompletedLine(s.cycles[ci], s.nextId, si);
    var line, cur := Line(s.cycles[ci].steps), s.cycles[ci].currentStepOrder.value;
    assert line[cur].order == cur + 1;
    assert MovedOn(s, t, ci);
  }

  // Forwarding

  /** The reviewer has a step of their own right behind the finished one; all later ones moved by one. */
  ghost predicate ForwardedFrom(s: State, t: State, cycleId: nat, reviewer: nat) {
    exists ci: nat :: ci < |s.cycles| && s.cycles[ci].id == cycleId && ForwardedAt(s, t, ci, reviewer)
  }

  ghost predicate ForwardedAt(s: State, t: State, ci: nat, reviewer: nat)
    requires ci < |s.cycles|
  {
    && s.cycles[ci].currentStepOrder.Some? && OnlyCycle(s, t, ci) && t.nextId == s.nextId + 1
    && t.status == s.status && t.activeCycle == s.activeCycle && t.assignedUser == Some(reviewer)
    && t.cycles[ci].status == InProgress
    && t.cycles[ci].currentStepOrder == Some(s.cycles[ci].currentStepOrder.value + 1)
    && Widened(Line(s.cycles[ci].steps), Line(t.cycles[ci].steps), s.cycles[ci].currentStepOrder.value,
               s.nextId, reviewer)
  }

  ghost predicate Widened(line: seq<Step>, line': seq<Step>, cur: int, id: nat, reviewer: nat) {
    && 1 <= cur <= |line| && |line'| == |line| + 1
    && (forall k :: 0 <= k < cur - 1 ==> line'[k] == line[k])
    && line'[cur - 1] == line[cur - 1].(status := Done)
    && line'[cur] == Step(id, reviewer, cur + 1, Pending, true, Some(line[cur - 1].id))
    && (forall k :: cur < k < |line'| ==> line'[k] == line[k - 1].(order := k + 1))
  }

  lemma ForwardMeans(s: State, cycleId: nat, stepId: nat, userId: nat, reviewer: nat, visit: nat -> int)
    requires Inv(s) && ForwardStep(s, cycleId, stepId, userId, reviewer, visit).Success?
    ensures ForwardedFrom(s, ForwardStep(s, cycleId, stepId, userId, reviewer, visit).value, cycleId, reviewer)
  {
    var ci, si := ForwardShifts(s, cycleId, stepId, userId, reviewer, visit);
    InsertedMeans(s, ci, si, reviewer);
  }

  lemma InsertedMeans(s: State, ci: nat, si: nat, reviewer: nat)
    requires Inv(s) && ci < |s.cycles| && s.cycles[ci].status == InProgress
    requires si < |s.cycles[ci].steps| && s.cycles[ci].steps[si].status == Pending
    ensures ForwardedAt(s, Inserted(s, ci, si, reviewer), ci, reviewer)
  {
    var c := s.cycles[ci];
    var cur := c.currentStepOrder.value;
    assert CycleInv(c, s.nextId);
    PendingIsCurrent(c, s.nextId, si);
    var inserted := Step(s.nextId, reviewer, cur + 1, Pending, true, Some(c.steps[si].id));
    ForwardedRows(c, s.nextId, si, inserted);
    ForwardedIsWidened(Line(c.steps), cur, inserted, reviewer);
  }

  lemma ForwardedIsWidened(line: seq<Step>, cur: int, inserted: Step, reviewer: nat)
    requires Consecutive(line) && 1 <= cur <= |line|
    requires inserted == Step(inserted.id, reviewer, cur + 1, Pending, true, Some(line[cur - 1].id))
    ensures Widened(line, ForwardedLine(line, cur, inserted), cur, inserted.id, reviewer)
  {
  }

  // Starting

  /** One more cycle: its line holds the requested users at the requested places, the first of them has the workflow. */
  ghost predicate StartedFrom(s: State, t: State, userId: nat, steps: seq<StepInput>, allowed: seq<nat>) {
    && t == s.(status := AdminCycleInProgress, activeCycle := Some(s.nextId), assignedUser := t.assignedUser,
               cycles := t.cycles, nextId := t.nextId)
    && |t.cycles| == |s.cycles| + 1 && t.cycles[..|s.cycles|] == s.cycles
    && (forall x | x in steps && x.stepOrder == 1 :: t.assignedUser == Some(x.userId))
    && var c := t.cycles[|s.cycles|];
       && c == Cycle(s.nextId, |t.cycles|, userId, InProgress, Some(1), allowed, c.steps)
       && Lined(Line(c.steps), steps)
  }

  ghost predicate Lined(line: seq<Step>, steps: seq<StepInput>) {
    && |line| == |steps|
    && (forall x | x in steps :: 1 <= x.stepOrder <= |line| && line[x.stepOrder - 1].userId == x.userId)
    && (forall k :: 0 <= k < |line| ==>
          line[k] == Step(line[k].id, line[k].userId, k + 1, if k == 0 then Pending else Waiting, false, None))
  }

  lemma CreateMeans(s: State, userId: nat, steps: seq<StepInput>, allowed: seq<nat>)
    requires Inv(s) && CreateCycle(s, userId, steps, allowed).Success?
    ensures StartedFrom(s, CreateCycle(s, userId, steps, allowed).value, userId, steps, allowed)
  {
    var t := CreateCycle(s, userId, steps, allowed).value;
    var sorted := SortBy(ByInputOrder, steps);
    var c := t.cycles[|s.cycles|];
    FreshCycleInv(c, sorted);
    LastNumberIsCount(s.cycles);
    forall k | 0 <= k < |sorted| ensures sorted[k].stepOrder == k + 1 {
      NoGapMeansConsecutive(sorted, k);
    }
    forall x | x in steps
      ensures 1 <= x.stepOrder <= |sorted| && c.steps[x.stepOrder - 1].userId == x.userId
    {
      SortHasSameRows(ByInputOrder, steps, x);
      var k :| 0 <= k < |sorted| && sorted[k] == x;
    }
    assert t.cycles[..|s.cycles|] == s.cycles;
  }

  // Refusals

  ghost predicate NoCycle(s: State, cycleId: nat) { forall c | c in s.cycles :: c.id != cycleId }

  ghost predicate CycleOver(s: State, cycleId: nat) {
    exists c | c in s.cycles :: c.id == cycleId && c.status == Completed
  }

  ghost predicate NoStep(s: State, cycleId: nat, stepId: nat) {
    exists c | c in s.cycles ::
      c.id == cycleId && c.status == InProgress && forall x | x in c.steps :: x.id != stepId
  }

  /** The open cycle named holds the step named, in state `x`. */
  ghost predicate HasStep(s: State, cycleId: nat, stepId: nat, x: Step) {
    x.id == stepId && exists c | c in s.cycles :: c.id == cycleId && c.status == InProgress && x in c.steps
  }

  /** Why a request to complete or forward a step is refused before anything else is looked at. */
  ghost predicate RefusedAs(s: State, cycleId: nat, stepId: nat, userId: nat, e: Error) {
    match e
    case CycleNotFound => NoCycle(s, cycleId)
    case CycleNotInProgress => CycleOver(s, cycleId)
    case StepNotFound => NoStep(s, cycleId, stepId)
    case NotAssigned => exists x :: HasStep(s, cycleId, stepId, x) && x.userId != userId
    case StepNotPending => exists x :: HasStep(s, cycleId, stepId, x) && x.userId == userId && x.status != Pending
    case _ => false
  }

  lemma OwnStepRefusals(s: State, cycleId: nat, stepId: nat, userId: nat)
    requires Inv(s)
    ensures var own := OwnPendingStep(s.cycles, cycleId, stepId, userId);
            forall e :: own == Failure(e) <==> RefusedAs(s, cycleId, stepId, userId, e)
  {
    var own := OwnPendingStep(s.cycles, cycleId, stepId, userId);
    var fc := FindCycle(s.cycles, cycleId);
    if fc.Some? {
      var c := s.cycles[fc.value];
      OneCycle(s, fc.value);
      var f := FindStep(c.steps, stepId);
      if f.Some? {
        OneStep(c, s.nextId, f.value);
        if c.status == InProgress {
          assert HasStep(s, cycleId, stepId, c.steps[f.value]);
          assert forall x :: HasStep(s, cycleId, stepId, x) ==> x == c.steps[f.value];
        }
      }
    }
  }

  lemma OneCycle(s: State, ci: nat)
    requires Inv(s) && ci < |s.cycles|
    ensures forall c | c in s.cycles && c.id == s.cycles[ci].id :: c == s.cycles[ci]
  {
  }

  lemma OneStep(c: Cycle, nextId: nat, si: nat)
    requires CycleInv(c, nextId) && si < |c.steps|
    ensures forall x | x in c.steps && x.id == c.steps[si].id :: x == c.steps[si]
  {
    RowsAreKeyed(c, nextId);
  }

  lemma CompleteRefusals(s: State, cycleId: nat, stepId: nat, userId: nat, e: Error)
    requires Inv(s)
    ensures CompleteStep(s, cycleId, stepId, userId) == Failure(e) <==>
              if s.status in {PendingApproval, PendingReviewCycle, AdminCycleInProgress}
              then RefusedAs(s, cycleId, stepId, userId, e) else e == InvalidTransition
  {
    OwnStepRefusals(s, cycleId, stepId, userId);
  }

  /** Why the caller's own current step cannot be handed to the reviewer. */
  ghost predicate CannotForward(c: Cycle, reviewer: nat, visit: nat -> int, e: Error)
    requires c.currentStepOrder.Some? && 1 <= c.currentStepOrder.value <= |c.steps|
  {
    var line, cur := Line(c.steps), c.currentStepOrder.value;
    if line[cur - 1].isOptional then e == OptionalCannotForward
    else if reviewer !in c.allowedOptional then e == ReviewerNotAllowed
    else if cur < |line| && line[cur].userId == reviewer then e == NextReviewerIsTheSame
    else !LastFirst(c, visit) && e == StepOrderTaken
  }

  ghost predicate ForwardRefusedAs(s: State, cycleId: nat, stepId: nat, userId: nat, reviewer: nat,
                                   visit: nat -> int, e: Error) {
    if s.status != AdminCycleInProgress then e == InvalidTransition
    else if IsCurrentStep(s, cycleId, stepId, userId) then
      exists c | c in s.cycles :: c.id == cycleId && c.currentStepOrder.Some?
        && 1 <= c.currentStepOrder.value <= |c.steps| && CannotForward(c, reviewer, visit, e)
    else RefusedAs(s, cycleId, stepId, userId, e)
  }

  lemma ForwardRefusals(s: State, cycleId: nat, stepId: nat, userId: nat, reviewer: nat, visit: nat -> int, e: Error)
    requires Inv(s)
    ensures ForwardStep(s, cycleId, stepId, userId, reviewer, visit) == Failure(e)
            <==> ForwardRefusedAs(s, cycleId, stepId, userId, reviewer, visit, e)
  {
    OwnStepRefusals(s, cycleId, stepId, userId);
    OwnStepIsCurrent(s, cycleId, stepId, userId);
    var own := OwnPendingStep(s.cycles, cycleId, stepId, userId);
    if own.Success? && s.status == AdminCycleInProgress {
      var (ci, si) := own.value;
      OneCycle(s, ci);
      OwnStepCannotForward(s, ci, si, reviewer, visit, e);
    }
  }

  lemma OwnStepIsCurrent(s: State, cycleId: nat, stepId: nat, userId: nat)
    requires Inv(s)
    ensures OwnPendingStep(s.cycles, cycleId, stepId, userId).Success? <==> IsCurrentStep(s, cycleId, stepId, userId)
  {
    var fc := FindCycle(s.cycles, cycleId);
    if fc.Some? {
      PendingOrNot(s, fc.value, stepId, userId);
    }
    if IsCurrentStep(s, cycleId, stepId, userId) {
      CurrentIsFound(s, cycleId, stepId, userId);
    }
  }

  lemma OwnStepCannotForward(s: State, ci: nat, si: nat, reviewer: nat, visit: nat -> int, e: Error)
    requires Inv(s) && ci < |s.cycles| && s.cycles[ci].status == InProgress
    requires si < |s.cycles[ci].steps| && s.cycles[ci].steps[si].status == Pending
    ensures var c := s.cycles[ci];
            && c.currentStepOrder.Some? && 1 <= c.currentStepOrder.value <= |c.steps|
            && (CannotForward(c, reviewer, visit, e) <==>
                  match ForwardRefusal(c, si, reviewer)
                  case Some(f) => e == f
                  case None => InsertOptional(s, ci, si, reviewer, visit) == Failure(e))
  {
    assert CycleInv(s.cycles[ci], s.nextId);
    OwnShifts(s, ci, si, reviewer, visit);
    RefusalOnLine(s.cycles[ci], s.nextId, si, reviewer);
  }

  lemma RefusalOnLine(c: Cycle, nextId: nat, si: nat, reviewer: nat)
    requires CycleInv(c, nextId) && c.status == InProgress && si < |c.steps| && c.steps[si].status == Pending
    ensures c.currentStepOrder.Some? && 1 <= c.currentStepOrder.value <= |c.steps|
    ensures var line, cur := Line(c.steps), c.currentStepOrder.value;
            ForwardRefusal(c, si, reviewer)
            == if line[cur - 1].isOptional then Some(OptionalCannotForward)
               else if reviewer !in c.allowedOptional then Some(ReviewerNotAllowed)
               else if cur < |line| && line[cur].userId == reviewer then Some(NextReviewerIsTheSame)
               else None
  {
    NextInLine(c, nextId);
    PendingIsCurrent(c, nextId, si);
  }

  lemma CreateRefusals(s: State, userId: nat, steps: seq<StepInput>, allowed: seq<nat>, e: Error)
    requires Inv(s)
    ensures CreateCycle(s, userId, steps, allowed) == Failure(e) <==>
              if steps == [] || multiset(Map(ByInputOrder, steps)) != multiset(UpTo(|steps|))
              then e == OrdersNotConsecutive
              else if s.status !in {PendingReviewCycle, AvailableForFinalUsers} then e == InvalidTransition
              else if !s.reviewCycleEnabled then e == ReviewCycleDisabled
              else e == NotAFinalUser && userId !in s.finalUserIds
  {
    AcceptedOrders(steps);
    CreateSucceedsExactly(s, userId, steps, allowed);
  }
}
