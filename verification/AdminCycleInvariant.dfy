/** What every reachable workflow satisfies, and why each transaction keeps it. */
module AdminCycleInvariant {
  import opened Wrappers
  import opened Rows
  import opened WorkflowStateMachine
  import opened AdminCycle
  import opened AdminCycleShift

  ghost predicate Consecutive(line: seq<Step>) {
    forall k :: 0 <= k < |line| ==> line[k].order == k + 1
  }

  ghost predicate DistinctIds(line: seq<Step>) {
    forall i, j :: 0 <= i < j < |line| ==> line[i].id != line[j].id
  }

  /** Step `cur` is the only pending one; those before it are done, those after it wait. */
  ghost predicate Front(line: seq<Step>, cur: int) {
    && 1 <= cur <= |line|
    && forall k :: 0 <= k < |line| ==>
         line[k].status == (if k + 1 < cur then Done else if k + 1 == cur then Pending else Waiting)
  }

  ghost predicate AllDone(line: seq<Step>) {
    forall k :: 0 <= k < |line| ==> line[k].status == Done
  }

  /** An optional step directly follows the finished mandatory step that inserted it. */
  ghost predicate OptionalAt(line: seq<Step>, allowed: seq<nat>, k: int)
    requires 0 <= k < |line|
  {
    && k > 0
    && !line[k - 1].isOptional && line[k - 1].status == Done
    && line[k].insertedBy == Some(line[k - 1].id)
    && line[k].userId in allowed
    && (k + 1 < |line| ==> line[k].userId != line[k + 1].userId)
  }

  ghost predicate Optionals(line: seq<Step>, allowed: seq<nat>) {
    forall k :: 0 <= k < |line| && line[k].isOptional ==> OptionalAt(line, allowed, k)
  }

  ghost predicate LineInv(line: seq<Step>, c: Cycle) {
    && line != []
    && Consecutive(line)
    && DistinctIds(line)
    && Optionals(line, c.allowedOptional)
    && match c.status
       case InProgress => c.currentStepOrder.Some? && Front(line, c.currentStepOrder.value)
       case Completed => c.currentStepOrder.None? && AllDone(line)
  }

  ghost predicate CycleInv(c: Cycle, nextId: nat) {
    && c.id < nextId
    && LineInv(Line(c.steps), c)
    && forall k :: 0 <= k < |c.steps| ==> c.steps[k].id < nextId
  }

  ghost predicate Inv(s: State) {
    && (s.status == AdminCycleInProgress <==> s.activeCycle.Some?)
    && (forall i :: 0 <= i < |s.cycles| ==> CycleInv(s.cycles[i], s.nextId))
    && (forall i :: 0 <= i < |s.cycles| ==> s.cycles[i].number == i + 1)
    && (forall i, j :: 0 <= i < j < |s.cycles| ==> s.cycles[i].id != s.cycles[j].id)
    && (forall i :: 0 <= i < |s.cycles| ==>
          (s.cycles[i].status == InProgress <==> s.activeCycle == Some(s.cycles[i].id)))
    && (s.activeCycle.Some? ==> exists i :: 0 <= i < |s.cycles| && ActiveAt(s, i))
  }

  /** Cycle `i` is the active one and the workflow is assigned to its current step's user. */
  ghost predicate ActiveAt(s: State, i: int)
    requires 0 <= i < |s.cycles|
  {
    var c := s.cycles[i];
    && s.activeCycle == Some(c.id)
    && c.currentStepOrder.Some?
    && 1 <= c.currentStepOrder.value <= |c.steps|
    && s.assignedUser == Some(Line(c.steps)[c.currentStepOrder.value - 1].userId)
  }

  /** A workflow as the approval phase hands it over: no cycle was ever started. */
  ghost predicate Initial(s: State) {
    s.status != AdminCycleInProgress && s.activeCycle.None? && s.cycles == []
  }

  // The rows of a cycle and its sorted line

  lemma StatusKeepsOrder(id: nat, status: StepStatus, steps: seq<Step>)
    ensures Line(Map(WithStatus(id, status), steps)) == Map(WithStatus(id, status), Line(steps))
  {
    SortMap(ByOrder, ByOrder, WithStatus(id, status), steps);
  }

  lemma ShiftKeepsOrder(order: int, steps: seq<Step>)
    ensures Line(Map(ShiftedFrom(order), steps)) == Map(ShiftedFrom(order), Line(steps))
  {
    SortMap(ByOrder, ByOrder, ShiftedFrom(order), steps);
  }

  lemma StatusAt(line: seq<Step>, k: nat, status: StepStatus)
    requires k < |line| && DistinctIds(line)
    ensures Map(WithStatus(line[k].id, status), line) == line[k := line[k].(status := status)]
  {
  }

  /** A row of the table stands at the position its order says. */
  lemma RowInLine(steps: seq<Step>, si: nat)
    requires si < |steps| && Consecutive(Line(steps))
    ensures 1 <= steps[si].order <= |steps| && Line(steps)[steps[si].order - 1] == steps[si]
  {
    SortHasSameRows(ByOrder, steps, steps[si]);
  }

  /** Ids and orders are keys of the table, and no order is missing. */
  lemma RowsAreKeyed(c: Cycle, nextId: nat)
    requires CycleInv(c, nextId)
    ensures Keyed(c.steps) && Ranks(c.steps, Line(c.steps))
  {
    var steps, line := c.steps, Line(c.steps);
    forall x ensures x in steps <==> x in line {
      SortHasSameRows(ByOrder, steps, x);
    }
    forall i, j | 0 <= i < |steps| && 0 <= j < |steps|
        && (steps[i].id == steps[j].id || steps[i].order == steps[j].order)
      ensures i == j
    {
      RowInLine(steps, i);
      RowInLine(steps, j);
      assert steps[i] == steps[j];
      if i < j { SortedOnceMeansOnce(ByOrder, steps, i, j); }
      if j < i { SortedOnceMeansOnce(ByOrder, steps, j, i); }
    }
  }

  /** The pending step of an open cycle is the one at `currentStepOrder`. */
  lemma PendingIsCurrent(c: Cycle, nextId: nat, si: nat)
    requires CycleInv(c, nextId) && c.status == InProgress
    requires si < |c.steps| && c.steps[si].status == Pending
    ensures c.steps[si].order == c.currentStepOrder.value
    ensures Line(c.steps)[c.currentStepOrder.value - 1] == c.steps[si]
  {
    RowInLine(c.steps, si);
  }

  /** The database comes across the steps behind the current one from the last to the first. */
  ghost predicate LastFirst(c: Cycle, visit: nat -> int) {
    c.currentStepOrder.Some? && Descending(Visited(c.steps, c.currentStepOrder.value + 1, visit))
  }

  /** The bulk shift behind the pending step, row by row, is the shift of every later row or a refusal. */
  lemma ShiftOfCycle(c: Cycle, nextId: nat, si: nat, visit: nat -> int)
    requires CycleInv(c, nextId) && c.status == InProgress
    requires si < |c.steps| && c.steps[si].status == Pending
    ensures var order := c.steps[si].order + 1;
            ShiftRowByRow(c.steps, Visited(c.steps, order, visit))
            == if LastFirst(c, visit) then Some(Map(ShiftedFrom(order), c.steps)) else None
  {
    PendingIsCurrent(c, nextId, si);
    RowsAreKeyed(c, nextId);
    ShiftPassesExactly(c.steps, Line(c.steps), c.steps[si].order + 1, visit);
  }

  lemma OwnShifts(s: State, ci: nat, si: nat, reviewer: nat, visit: nat -> int)
    requires ci < |s.cycles| && CycleInv(s.cycles[ci], s.nextId) && s.cycles[ci].status == InProgress
    requires si < |s.cycles[ci].steps| && s.cycles[ci].steps[si].status == Pending
    ensures InsertOptional(s, ci, si, reviewer, visit)
            == if LastFirst(s.cycles[ci], visit) then Success(Inserted(s, ci, si, reviewer))
               else Failure(StepOrderTaken)
  {
    ShiftOfCycle(s.cycles[ci], s.nextId, si, visit);
  }

  /** The state after a forward whose shift went through. */
  function Inserted(s: State, ci: nat, si: nat, reviewer: nat): State
    requires ci < |s.cycles| && si < |s.cycles[ci].steps|
  {
    var c := s.cycles[ci];
    var inserted := Step(s.nextId, reviewer, c.steps[si].order + 1, Pending, true, Some(c.steps[si].id));
    s.(assignedUser := Some(reviewer), cycles := s.cycles[ci := Forwarded(c, c.steps[si].id, inserted)],
       nextId := s.nextId + 1)
  }

  /** The step that a successful forward was asked for. */
  lemma ForwardFacts(s: State, cycleId: nat, stepId: nat, userId: nat, reviewer: nat, visit: nat -> int)
    returns (ci: nat, si: nat)
    requires ForwardStep(s, cycleId, stepId, userId, reviewer, visit).Success?
    ensures FindCycle(s.cycles, cycleId) == Some(ci) && s.cycles[ci].status == InProgress
    ensures FindStep(s.cycles[ci].steps, stepId) == Some(si) && s.cycles[ci].steps[si].status == Pending
    ensures ForwardRefusal(s.cycles[ci], si, reviewer).None?
    ensures ForwardStep(s, cycleId, stepId, userId, reviewer, visit) == InsertOptional(s, ci, si, reviewer, visit)
  {
    var own := OwnPendingStep(s.cycles, cycleId, stepId, userId);
    ci, si := own.value.0, own.value.1;
  }

  /** A forward that succeeds has shifted every later row by one. */
  lemma ForwardShifts(s: State, cycleId: nat, stepId: nat, userId: nat, reviewer: nat, visit: nat -> int)
    returns (ci: nat, si: nat)
    requires Inv(s) && ForwardStep(s, cycleId, stepId, userId, reviewer, visit).Success?
    ensures FindCycle(s.cycles, cycleId) == Some(ci) && s.cycles[ci].status == InProgress
    ensures FindStep(s.cycles[ci].steps, stepId) == Some(si) && s.cycles[ci].steps[si].status == Pending
    ensures ForwardRefusal(s.cycles[ci], si, reviewer).None?
    ensures ForwardStep(s, cycleId, stepId, userId, reviewer, visit).value == Inserted(s, ci, si, reviewer)
  {
    ci, si := ForwardFacts(s, cycleId, stepId, userId, reviewer, visit);
    assert CycleInv(s.cycles[ci], s.nextId);
    OwnShifts(s, ci, si, reviewer, visit);
  }

  lemma AfterIsNext(line: seq<Step>, cur: int)
    requires Consecutive(line) && 1 <= cur <= |line|
    ensures FindAfter(line, cur) == if cur < |line| then Some(cur) else None
  {
    if cur < |line| {
      assert line[cur].order == cur + 1;
    }
  }

  /** Completing the current step moves the front by one, or finishes the line. */
  lemma CompletedLine(c: Cycle, nextId: nat, si: nat)
    requires CycleInv(c, nextId) && c.status == InProgress
    requires si < |c.steps| && c.steps[si].status == Pending
    ensures var line := Line(c.steps);
            var cur := c.currentStepOrder.value;
            var done := Map(WithStatus(c.steps[si].id, Done), c.steps);
            && Line(done) == line[cur - 1 := line[cur - 1].(status := Done)]
            && (cur < |line| ==>
                  Line(Map(WithStatus(line[cur].id, Pending), done))
                  == line[cur - 1 := line[cur - 1].(status := Done)][cur := line[cur].(status := Pending)])
  {
    var line := Line(c.steps);
    var cur := c.currentStepOrder.value;
    PendingIsCurrent(c, nextId, si);
    StatusKeepsOrder(c.steps[si].id, Done, c.steps);
    StatusAt(line, cur - 1, Done);
    if cur < |line| {
      var done := Map(WithStatus(c.steps[si].id, Done), c.steps);
      StatusKeepsOrder(line[cur].id, Pending, done);
      StatusAt(Line(done), cur, Pending);
    }
  }

  /** The line that a forward leaves behind: the suffix is shifted, nothing is reordered. */
  ghost function ForwardedLine(line: seq<Step>, cur: int, inserted: Step): seq<Step>
    requires 1 <= cur <= |line|
  {
    line[..cur - 1] + [line[cur - 1].(status := Done)] + [inserted] + Map(ShiftedFrom(cur + 1), line[cur..])
  }

  /** The shift leaves the first `cur` positions alone and opens the one after them. */
  lemma InsertedRow(steps: seq<Step>, cur: int, inserted: Step)
    requires Consecutive(Line(steps)) && 1 <= cur <= |steps| && inserted.order == cur + 1
    ensures var line := Line(steps);
            Line(Map(ShiftedFrom(cur + 1), steps) + [inserted])
            == line[..cur] + [inserted] + Map(ShiftedFrom(cur + 1), line[cur..])
  {
    var line := Line(steps);
    var shifted := Map(ShiftedFrom(cur + 1), steps);
    var rows := shifted + [inserted];
    ShiftKeepsOrder(cur + 1, steps);
    assert rows[..|rows| - 1] == shifted;
    InsertAt(ByOrder, inserted, Line(shifted), cur);
    assert Line(shifted)[..cur] == line[..cur];
    assert Line(shifted)[cur..] == Map(ShiftedFrom(cur + 1), line[cur..]);
  }

  lemma ForwardedRows(c: Cycle, nextId: nat, si: nat, inserted: Step)
    requires CycleInv(c, nextId) && c.status == InProgress
    requires si < |c.steps| && c.steps[si].status == Pending
    requires inserted.order == c.steps[si].order + 1 && inserted.id == nextId
    ensures Line(Forwarded(c, c.steps[si].id, inserted).steps)
            == ForwardedLine(Line(c.steps), c.currentStepOrder.value, inserted)
  {
    var line := Line(c.steps);
    var cur := c.currentStepOrder.value;
    PendingIsCurrent(c, nextId, si);
    InsertedRow(c.steps, cur, inserted);
    StatusKeepsOrder(c.steps[si].id, Done, Map(ShiftedFrom(cur + 1), c.steps) + [inserted]);
    IdsBelow(c, nextId);
    WideDone(line, cur, inserted);
  }

  /** Finishing the current step of the widened line. */
  lemma WideDone(line: seq<Step>, cur: int, inserted: Step)
    requires DistinctIds(line) && 1 <= cur <= |line|
    requires forall k :: 0 <= k < |line| ==> line[k].id < inserted.id
    ensures var wide := line[..cur] + [inserted] + Map(ShiftedFrom(cur + 1), line[cur..]);
            Map(WithStatus(line[cur - 1].id, Done), wide) == ForwardedLine(line, cur, inserted)
  {
    var wide := line[..cur] + [inserted] + Map(ShiftedFrom(cur + 1), line[cur..]);
    WideIds(line, cur, inserted);
    assert wide[cur - 1] == line[cur - 1];
    StatusAt(wide, cur - 1, Done);
  }

  lemma IdsBelow(c: Cycle, nextId: nat)
    requires CycleInv(c, nextId)
    ensures forall k :: 0 <= k < |c.steps| ==> Line(c.steps)[k].id < nextId
  {
    forall k | 0 <= k < |c.steps| ensures Line(c.steps)[k].id < nextId {
      SortHasSameRows(ByOrder, c.steps, Line(c.steps)[k]);
    }
  }

  lemma WideIds(line: seq<Step>, cur: int, inserted: Step)
    requires DistinctIds(line) && 1 <= cur <= |line|
    requires forall k :: 0 <= k < |line| ==> line[k].id < inserted.id
    ensures DistinctIds(line[..cur] + [inserted] + Map(ShiftedFrom(cur + 1), line[cur..]))
  {
    var wide := line[..cur] + [inserted] + Map(ShiftedFrom(cur + 1), line[cur..]);
    forall i | 0 <= i < |wide|
      ensures wide[i].id == (if i < cur then line[i].id else if i == cur then inserted.id else line[i - 1].id) {
    }
  }

  lemma ForwardedOptionals(line: seq<Step>, cur: int, allowed: seq<nat>, inserted: Step)
    requires Front(line, cur) && Optionals(line, allowed)
    requires !line[cur - 1].isOptional && inserted.isOptional && inserted.insertedBy == Some(line[cur - 1].id)
    requires inserted.userId in allowed && (cur < |line| ==> line[cur].userId != inserted.userId)
    ensures Optionals(ForwardedLine(line, cur, inserted), allowed)
  {
    var line' := ForwardedLine(line, cur, inserted);
    forall k | cur <= k < |line| ensures !line[k].isOptional {
      assert line[k - 1].status != Done;
    }
    forall k | 0 <= k < |line'| && line'[k].isOptional ensures OptionalAt(line', allowed, k) {
      if k < cur - 1 {
        assert OptionalAt(line, allowed, k);
      }
    }
  }

  lemma ForwardedLineInv(line: seq<Step>, c: Cycle, nextId: nat, inserted: Step)
    requires c.status == InProgress && LineInv(line, c)
    requires forall k :: 0 <= k < |line| ==> line[k].id < nextId
    requires var cur := c.currentStepOrder.value;
             && inserted == Step(nextId, inserted.userId, cur + 1, Pending, true, Some(line[cur - 1].id))
             && !line[cur - 1].isOptional
             && inserted.userId in c.allowedOptional
             && (cur < |line| ==> line[cur].userId != inserted.userId)
    ensures var cur := c.currentStepOrder.value;
            LineInv(ForwardedLine(line, cur, inserted), c.(currentStepOrder := Some(cur + 1)))
  {
    ForwardedOptionals(line, c.currentStepOrder.value, c.allowedOptional, inserted);
  }

  // Each transaction keeps the invariant

  lemma OptionalsSurviveStatus(line: seq<Step>, allowed: seq<nat>, k: nat, status: StepStatus)
    requires k < |line| && Optionals(line, allowed)
    requires status == Done || line[k].status != Done
    ensures Optionals(line[k := line[k].(status := status)], allowed)
  {
    var line' := line[k := line[k].(status := status)];
    forall i | 0 <= i < |line'| && line'[i].isOptional ensures OptionalAt(line', allowed, i) {
      assert OptionalAt(line, allowed, i);
    }
  }

  lemma FinishKeepsCycle(c: Cycle, nextId: nat, si: nat)
    requires CycleInv(c, nextId) && c.status == InProgress
    requires si < |c.steps| && c.steps[si].status == Pending && c.currentStepOrder.value == |Line(c.steps)|
    ensures CycleInv(Finished(c, c.steps[si].id), nextId)
  {
    CompletedLine(c, nextId, si);
    OptionalsSurviveStatus(Line(c.steps), c.allowedOptional, c.currentStepOrder.value - 1, Done);
  }

  lemma AdvanceKeepsCycle(c: Cycle, nextId: nat, si: nat)
    requires CycleInv(c, nextId) && c.status == InProgress
    requires si < |c.steps| && c.steps[si].status == Pending && c.currentStepOrder.value < |Line(c.steps)|
    ensures var line := Line(c.steps);
            var cur := c.currentStepOrder.value;
            var c' := Advanced(c, c.steps[si].id, line[cur]);
            && CycleInv(c', nextId) && c'.currentStepOrder == Some(cur + 1)
            && Line(c'.steps)[cur].userId == line[cur].userId
  {
    var line := Line(c.steps);
    var cur := c.currentStepOrder.value;
    CompletedLine(c, nextId, si);
    OptionalsSurviveStatus(line, c.allowedOptional, cur - 1, Done);
    OptionalsSurviveStatus(line[cur - 1 := line[cur - 1].(status := Done)], c.allowedOptional, cur, Pending);
  }

  /** An open cycle is found under the active id only. */
  lemma OpenCycleIsActive(s: State, ci: nat)
    requires Inv(s) && ci < |s.cycles| && s.cycles[ci].status == InProgress
    ensures s.status == AdminCycleInProgress && s.activeCycle == Some(s.cycles[ci].id)
    ensures ActiveAt(s, ci)
  {
    var i :| 0 <= i < |s.cycles| && ActiveAt(s, i);
    assert i == ci;
  }

  /** Rewriting the open cycle keeps the invariant when the workflow row agrees with it. */
  lemma ReplaceKeeps(s: State, t: State, ci: nat, c: Cycle)
    requires Inv(s) && ci < |s.cycles| && s.activeCycle == Some(s.cycles[ci].id)
    requires t.cycles == s.cycles[ci := c] && s.nextId <= t.nextId
    requires c.id == s.cycles[ci].id && c.number == s.cycles[ci].number && CycleInv(c, t.nextId)
    requires t.status == AdminCycleInProgress <==> t.activeCycle.Some?
    requires if c.status == InProgress then t.activeCycle == Some(c.id) && ActiveAt(t, ci) else t.activeCycle.None?
    ensures Inv(t)
  {
    forall i | 0 <= i < |t.cycles| ensures CycleInv(t.cycles[i], t.nextId) {
      if i != ci {
        assert t.cycles[i] == s.cycles[i];
        assert CycleInv(s.cycles[i], s.nextId);
      }
    }
  }

  lemma CompleteKeeps(s: State, cycleId: nat, stepId: nat, userId: nat)
    requires Inv(s) && CompleteStep(s, cycleId, stepId, userId).Success?
    ensures Inv(CompleteStep(s, cycleId, stepId, userId).value)
  {
    var t := CompleteStep(s, cycleId, stepId, userId).value;
    var ci := FindCycle(s.cycles, cycleId).value;
    var c := s.cycles[ci];
    var si := FindStep(c.steps, stepId).value;
    assert CycleInv(c, s.nextId);
    PendingIsCurrent(c, s.nextId, si);
    AfterIsNext(Line(c.steps), c.currentStepOrder.value);
    if c.currentStepOrder.value == |Line(c.steps)| {
      FinishedKeeps(s, t, ci, si);
    } else {
      AdvancedKeeps(s, t, ci, si);
    }
  }

  lemma FinishedKeeps(s: State, t: State, ci: nat, si: nat)
    requires Inv(s) && ci < |s.cycles| && s.cycles[ci].status == InProgress
    requires si < |s.cycles[ci].steps| && s.cycles[ci].steps[si].status == Pending
    requires s.cycles[ci].currentStepOrder.Some? && s.cycles[ci].currentStepOrder.value == |Line(s.cycles[ci].steps)|
    requires t.cycles == s.cycles[ci := Finished(s.cycles[ci], s.cycles[ci].steps[si].id)] && t.nextId == s.nextId
    requires t.status != AdminCycleInProgress && t.activeCycle.None?
    ensures Inv(t)
  {
    OpenCycleIsActive(s, ci);
    FinishKeepsCycle(s.cycles[ci], s.nextId, si);
    ReplaceKeeps(s, t, ci, t.cycles[ci]);
  }

  lemma AdvancedKeeps(s: State, t: State, ci: nat, si: nat)
    requires Inv(s) && ci < |s.cycles| && s.cycles[ci].status == InProgress
    requires si < |s.cycles[ci].steps| && s.cycles[ci].steps[si].status == Pending
    requires s.cycles[ci].currentStepOrder.Some?
             && 0 <= s.cycles[ci].currentStepOrder.value < |Line(s.cycles[ci].steps)|
    requires var c := s.cycles[ci];
             var next := Line(c.steps)[c.currentStepOrder.value];
             t == s.(cycles := s.cycles[ci := Advanced(c, c.steps[si].id, next)], assignedUser := Some(next.userId))
    ensures Inv(t)
  {
    OpenCycleIsActive(s, ci);
    AdvanceKeepsCycle(s.cycles[ci], s.nextId, si);
    ReplaceKeeps(s, t, ci, t.cycles[ci]);
  }

  /** The step found right after the current one is the next of the line. */
  lemma NextInLine(c: Cycle, nextId: nat)
    requires CycleInv(c, nextId) && c.status == InProgress
    ensures var cur := c.currentStepOrder.value;
            var next := FindAt(c.steps, cur + 1);
            if cur < |c.steps| then next.Some? && c.steps[next.value] == Line(c.steps)[cur] else next.None?
  {
    var cur := c.currentStepOrder.value;
    var line := Line(c.steps);
    var next := FindAt(c.steps, cur + 1);
    if cur < |line| {
      SortHasSameRows(ByOrder, c.steps, line[cur]);
      assert line[cur].order == cur + 1;
    }
    if next.Some? {
      RowInLine(c.steps, next.value);
    }
  }

  lemma ForwardKeepsCycle(c: Cycle, nextId: nat, si: nat, inserted: Step)
    requires CycleInv(c, nextId) && c.status == InProgress
    requires si < |c.steps| && c.steps[si].status == Pending && !c.steps[si].isOptional
    requires inserted == Step(nextId, inserted.userId, c.steps[si].order + 1, Pending, true, Some(c.steps[si].id))
    requires inserted.userId in c.allowedOptional
    requires var next := FindAt(c.steps, c.steps[si].order + 1);
             next.Some? ==> c.steps[next.value].userId != inserted.userId
    ensures var c' := Forwarded(c, c.steps[si].id, inserted);
            CycleInv(c', nextId + 1) && Line(c'.steps)[inserted.order - 1] == inserted
  {
    PendingIsCurrent(c, nextId, si);
    ForwardedRows(c, nextId, si, inserted);
    IdsBelow(c, nextId);
    NextInLine(c, nextId);
    ForwardedLineInv(Line(c.steps), c, nextId, inserted);
  }

  lemma ForwardKeeps(s: State, cycleId: nat, stepId: nat, userId: nat, reviewer: nat, visit: nat -> int)
    requires Inv(s) && ForwardStep(s, cycleId, stepId, userId, reviewer, visit).Success?
    ensures Inv(ForwardStep(s, cycleId, stepId, userId, reviewer, visit).value)
  {
    var ci, si := ForwardShifts(s, cycleId, stepId, userId, reviewer, visit);
    ForwardedKeeps(s, Inserted(s, ci, si, reviewer), ci, si, reviewer);
  }

  lemma ForwardedKeeps(s: State, t: State, ci: nat, si: nat, reviewer: nat)
    requires Inv(s) && ci < |s.cycles| && s.cycles[ci].status == InProgress
    requires si < |s.cycles[ci].steps| && s.cycles[ci].steps[si].status == Pending
    requires ForwardRefusal(s.cycles[ci], si, reviewer).None? && t == Inserted(s, ci, si, reviewer)
    ensures Inv(t)
  {
    var c := s.cycles[ci];
    var inserted := Step(s.nextId, reviewer, c.steps[si].order + 1, Pending, true, Some(c.steps[si].id));
    OpenCycleIsActive(s, ci);
    PendingIsCurrent(c, s.nextId, si);
    ForwardKeepsCycle(c, s.nextId, si, inserted);
    ReplaceKeeps(s, t, ci, t.cycles[ci]);
  }

  lemma {:induction false} AscendingIsSorted(steps: seq<Step>)
    requires Consecutive(steps)
    ensures Line(steps) == steps
  {
    if steps != [] {
      AscendingIsSorted(steps[..|steps| - 1]);
      InsertAt(ByOrder, steps[|steps| - 1], steps[..|steps| - 1], |steps| - 1);
    }
  }

  lemma {:induction false} LastNumberIsCount(cycles: seq<Cycle>)
    requires forall i :: 0 <= i < |cycles| ==> cycles[i].number == i + 1
    ensures LastNumber(cycles) == |cycles|
  {
    if cycles != [] {
      LastNumberIsCount(cycles[..|cycles| - 1]);
    }
  }

  lemma {:induction false} NoGapMeansConsecutive(sorted: seq<StepInput>, k: nat)
    requires k < |sorted| && !HasGap(sorted) && sorted[0].stepOrder == 1
    ensures sorted[k].stepOrder == k + 1
  {
    if k > 0 {
      NoGapMeansConsecutive(sorted, k - 1);
    }
  }

  lemma FreshCycleInv(c: Cycle, sorted: seq<StepInput>)
    requires sorted != [] && !HasGap(sorted) && sorted[0].stepOrder == 1
    requires c.steps == NewSteps(sorted, c.id + 1) && c.status == InProgress && c.currentStepOrder == Some(1)
    ensures CycleInv(c, c.id + 1 + |sorted|) && Line(c.steps) == c.steps
  {
    forall k | 0 <= k < |sorted| ensures sorted[k].stepOrder == k + 1 {
      NoGapMeansConsecutive(sorted, k);
    }
    AscendingIsSorted(c.steps);
  }

  /** A new open cycle joins a table without one. */
  lemma AppendKeeps(s: State, t: State, c: Cycle)
    requires Inv(s) && s.activeCycle.None? && t.cycles == s.cycles + [c] && s.nextId <= t.nextId
    requires CycleInv(c, t.nextId) && c.id == s.nextId && c.number == |s.cycles| + 1 && c.status == InProgress
    requires t.status == AdminCycleInProgress && t.activeCycle == Some(c.id) && ActiveAt(t, |s.cycles|)
    ensures Inv(t)
  {
    forall i | 0 <= i < |s.cycles| ensures CycleInv(t.cycles[i], t.nextId) && t.cycles[i].id < c.id {
      assert CycleInv(s.cycles[i], s.nextId);
    }
  }

  lemma CreateKeeps(s: State, userId: nat, steps: seq<StepInput>, allowed: seq<nat>)
    requires Inv(s) && CreateCycle(s, userId, steps, allowed).Success?
    ensures Inv(CreateCycle(s, userId, steps, allowed).value)
  {
    var t := CreateCycle(s, userId, steps, allowed).value;
    var c := t.cycles[|s.cycles|];
    FreshCycleInv(c, SortBy(ByInputOrder, steps));
    LastNumberIsCount(s.cycles);
    AppendKeeps(s, t, c);
  }

  lemma NextKeeps(s: State, op: Op)
    requires Inv(s)
    ensures Inv(Next(s, op))
  {
    if Apply(s, op).Success? {
      match op
      case OpCreate(u, steps, allowed) => CreateKeeps(s, u, steps, allowed);
      case OpComplete(c, st, u) => CompleteKeeps(s, c, st, u);
      case OpForward(c, st, u, v, visit) => ForwardKeeps(s, c, st, u, v, visit);
      case _ =>
    }
  }

  lemma {:induction false} RunKeeps(s: State, ops: seq<Op>)
    requires Inv(s)
    ensures Inv(Run(s, ops))
    decreases |ops|
  {
    if ops != [] {
      NextKeeps(s, ops[0]);
      RunKeeps(Next(s, ops[0]), ops[1..]);
    }
  }

  /** The invariant holds at the end of every run of the service. */
  lemma EveryRunKeepsInvariant(s: State, ops: seq<Op>)
    requires Initial(s)
    ensures Inv(Run(s, ops))
  {
    RunKeeps(s, ops);
  }
}
