/** What the invariant means for callers of the administrative cycle. */
module AdminCycleTheorems {
  import opened Wrappers
  import opened Rows
  import opened WorkflowStateMachine
  import opened AdminCycle
  import opened AdminCycleInvariant
  import opened AdminCycleShift

  // Shape of a cycle

  /** Each order 1..n is held by exactly one row. */
  lemma OrdersAreOneToN(s: State, ci: nat)
    requires Inv(s) && ci < |s.cycles|
    ensures var steps := s.cycles[ci].steps;
            && (forall i :: 0 <= i < |steps| ==> 1 <= steps[i].order <= |steps|)
            && (forall i, j :: 0 <= i < |steps| && 0 <= j < |steps| && steps[i].order == steps[j].order ==> i == j)
            && (forall k :: 1 <= k <= |steps| ==> FindAt(steps, k).Some?)
  {
    var steps := s.cycles[ci].steps;
    RowsAreKeyed(s.cycles[ci], s.nextId);
    forall i | 0 <= i < |steps| ensures 1 <= steps[i].order <= |steps| && Line(steps)[steps[i].order - 1] == steps[i] {
      RowInLine(steps, i);
    }
    forall k | 1 <= k <= |steps| ensures FindAt(steps, k).Some? {
      SortHasSameRows(ByOrder, steps, Line(steps)[k - 1]);
    }
  }

  /**
   In an open cycle, rows before the current order are done, later ones wait, and the workflow is
   assigned to the current one.
   */
  lemma OpenCycleFront(s: State, ci: nat, si: nat)
    requires Inv(s) && ci < |s.cycles| && s.cycles[ci].status == InProgress && si < |s.cycles[ci].steps|
    ensures var c := s.cycles[ci];
            var step := c.steps[si];
            && (step.status == Done <==> step.order < c.currentStepOrder.value)
            && (step.status == Pending <==> step.order == c.currentStepOrder.value)
            && (step.status == Waiting <==> step.order > c.currentStepOrder.value)
            && (step.status == Pending ==> s.assignedUser == Some(step.userId))
  {
    RowInLine(s.cycles[ci].steps, si);
    OpenCycleIsActive(s, ci);
  }

  ghost function Ids(line: seq<Step>): seq<nat> {
    Map((x: Step) => x.id, line)
  }

  lemma ForwardedIds(line: seq<Step>, cur: int, inserted: Step)
    requires 1 <= cur <= |line|
    ensures Ids(ForwardedLine(line, cur, inserted)) == Ids(line)[..cur] + [inserted.id] + Ids(line)[cur..]
  {
  }

  /** A forward inserts one id behind the current step and moves no other step past another. */
  lemma ForwardKeepsRelativeOrder(s: State, cycleId: nat, stepId: nat, userId: nat, reviewer: nat, visit: nat -> int)
    requires Inv(s) && ForwardStep(s, cycleId, stepId, userId, reviewer, visit).Success?
    ensures var t := ForwardStep(s, cycleId, stepId, userId, reviewer, visit).value;
            var ci := FindCycle(s.cycles, cycleId).value;
            var before := Ids(Line(s.cycles[ci].steps));
            var cur := s.cycles[ci].currentStepOrder.value;
            Ids(Line(t.cycles[ci].steps)) == before[..cur] + [s.nextId] + before[cur..]
  {
    var ci, si := ForwardShifts(s, cycleId, stepId, userId, reviewer, visit);
    InsertedIds(s, ci, si, reviewer);
  }

  lemma InsertedIds(s: State, ci: nat, si: nat, reviewer: nat)
    requires Inv(s) && ci < |s.cycles| && s.cycles[ci].status == InProgress
    requires si < |s.cycles[ci].steps| && s.cycles[ci].steps[si].status == Pending
    ensures var before := Ids(Line(s.cycles[ci].steps));
            var cur := s.cycles[ci].currentStepOrder.value;
            1 <= cur <= |before|
            && Ids(Line(Inserted(s, ci, si, reviewer).cycles[ci].steps)) == before[..cur] + [s.nextId] + before[cur..]
  {
    var c := s.cycles[ci];
    assert CycleInv(c, s.nextId);
    ForwardedCycleIds(c, s.nextId, si,
                      Step(s.nextId, reviewer, c.steps[si].order + 1, Pending, true, Some(c.steps[si].id)));
  }

  lemma ForwardedCycleIds(c: Cycle, nextId: nat, si: nat, inserted: Step)
    requires CycleInv(c, nextId) && c.status == InProgress
    requires si < |c.steps| && c.steps[si].status == Pending
    requires inserted.order == c.steps[si].order + 1 && inserted.id == nextId
    ensures var before := Ids(Line(c.steps));
            var cur := c.currentStepOrder.value;
            1 <= cur <= |before|
            && Ids(Line(Forwarded(c, c.steps[si].id, inserted).steps)) == before[..cur] + [nextId] + before[cur..]
  {
    PendingIsCurrent(c, nextId, si);
    ForwardedRows(c, nextId, si, inserted);
    ForwardedIds(Line(c.steps), c.currentStepOrder.value, inserted);
  }

  /** The neighbours of an optional step, in any reachable cycle. */
  lemma OptionalFollowsItsForwarder(s: State, ops: seq<Op>, ci: nat, k: nat)
    requires Initial(s)
    requires var t := Run(s, ops); ci < |t.cycles| && k < |t.cycles[ci].steps| && Line(t.cycles[ci].steps)[k].isOptional
    ensures var c := Run(s, ops).cycles[ci];
            OptionalAt(Line(c.steps), c.allowedOptional, k)
  {
    EveryRunKeepsInvariant(s, ops);
  }

  ghost function OptionalWeight(x: Step): int { if x.isOptional then 1 else 0 }

  ghost function MandatoryWeight(x: Step): int { if x.isOptional then 0 else 1 }

  ghost function Sum(w: Step -> int, s: seq<Step>): int {
    if s == [] then 0 else Sum(w, s[..|s| - 1]) + w(s[|s| - 1])
  }

  lemma {:induction false} InsertSum(w: Step -> int, x: Step, s: seq<Step>)
    ensures Sum(w, Insert(ByOrder, x, s)) == w(x) + Sum(w, s)
  {
    if s == [] || ByOrder(x) < ByOrder(s[0]) {
      SumConcat(w, [x], s);
    } else {
      InsertSum(w, x, s[1..]);
      SumConcat(w, [s[0]], s[1..]);
      assert s == [s[0]] + s[1..];
      SumConcat(w, [s[0]], Insert(ByOrder, x, s[1..]));
    }
  }

  lemma {:induction false} SumConcat(w: Step -> int, a: seq<Step>, b: seq<Step>)
    ensures Sum(w, a + b) == Sum(w, a) + Sum(w, b)
  {
    if b == [] {
      assert a + b == a;
    } else {
      SumConcat(w, a, b[..|b| - 1]);
      assert (a + b)[..|a + b| - 1] == a + b[..|b| - 1];
    }
  }

  /** Totals do not depend on the table order. */
  lemma {:induction false} SumOfLine(w: Step -> int, s: seq<Step>)
    ensures Sum(w, Line(s)) == Sum(w, s)
  {
    if s != [] {
      SumOfLine(w, s[..|s| - 1]);
      InsertSum(w, s[|s| - 1], Line(s[..|s| - 1]));
    }
  }

  lemma {:induction false} SumUpdate(w: Step -> int, s: seq<Step>, k: nat, x: Step)
    requires k < |s|
    ensures Sum(w, s[k := x]) == Sum(w, s) - w(s[k]) + w(x)
  {
    assert s == s[..k] + [s[k]] + s[k + 1..];
    assert s[k := x] == s[..k] + [x] + s[k + 1..];
    SumConcat(w, s[..k] + [s[k]], s[k + 1..]);
    SumConcat(w, s[..k] + [x], s[k + 1..]);
    SumConcat(w, s[..k], [s[k]]);
    SumConcat(w, s[..k], [x]);
  }

  lemma {:induction false} SumMap(w: Step -> int, f: Step -> Step, s: seq<Step>)
    requires forall x | x in s :: w(f(x)) == w(x)
    ensures Sum(w, Map(f, s)) == Sum(w, s)
  {
    if s != [] {
      SumMap(w, f, s[..|s| - 1]);
      assert Map(f, s)[..|s| - 1] == Map(f, s[..|s| - 1]);
    }
  }

  lemma {:induction false} OptionalsPaired(line: seq<Step>, allowed: seq<nat>, k: nat)
    requires k <= |line| && Optionals(line, allowed)
    ensures Sum(OptionalWeight, line[..k]) <= Sum(MandatoryWeight, line[..k])
  {
    if k == 0 {
    } else if line[k - 1].isOptional {
      assert OptionalAt(line, allowed, k - 1);
      OptionalsPaired(line, allowed, k - 2);
      assert line[..k][..k - 1] == line[..k - 1];
      assert line[..k - 1][..k - 2] == line[..k - 2];
    } else {
      OptionalsPaired(line, allowed, k - 1);
      assert line[..k][..k - 1] == line[..k - 1];
    }
  }

  /** Optional steps never outnumber mandatory ones. */
  lemma OptionalsNeverOutnumber(s: State, ci: nat)
    requires Inv(s) && ci < |s.cycles|
    ensures Sum(OptionalWeight, s.cycles[ci].steps) <= Sum(MandatoryWeight, s.cycles[ci].steps)
  {
    var c := s.cycles[ci];
    var line := Line(c.steps);
    OptionalsPaired(line, c.allowedOptional, |line|);
    assert line[..|line|] == line;
    SumOfLine(OptionalWeight, c.steps);
    SumOfLine(MandatoryWeight, c.steps);
  }

  // Status, active cycle and open cycle agree

  /** Over every run: in progress iff a cycle is active iff exactly that one is open. */
  lemma StatusMatchesOpenCycle(s: State, ops: seq<Op>)
    requires Initial(s)
    ensures var t := Run(s, ops);
            && (t.status == AdminCycleInProgress <==> t.activeCycle.Some?)
            && (t.activeCycle.Some? <==> exists i :: 0 <= i < |t.cycles| && t.cycles[i].status == InProgress)
            && (forall i, j | 0 <= i < |t.cycles| && 0 <= j < |t.cycles| ::
                  t.cycles[i].status == InProgress && t.cycles[j].status == InProgress ==> i == j)
            && (forall i :: 0 <= i < |t.cycles| && t.cycles[i].status == InProgress ==>
                  t.activeCycle == Some(t.cycles[i].id))
  {
    EveryRunKeepsInvariant(s, ops);
    var t := Run(s, ops);
    if t.activeCycle.Some? {
      var i :| 0 <= i < |t.cycles| && ActiveAt(t, i);
      assert t.cycles[i].status == InProgress;
    }
  }

  /** Closing or cancelling never leaves a cycle open, and is final. */
  lemma {:induction false} TerminalIsFinal(s: State, ops: seq<Op>)
    requires Inv(s) && s.status in {Closed, Cancelled, Rejected}
    ensures forall i :: 0 <= i < |s.cycles| ==> s.cycles[i].status == Completed && AllDone(Line(s.cycles[i].steps))
    ensures Run(s, ops) == s
    decreases |ops|
  {
    if ops != [] {
      assert Next(s, ops[0]) == s;
      TerminalIsFinal(s, ops[1..]);
    }
  }

  /** Every status write follows an edge of the transition table, in any state at all. */
  lemma StatusWritesFollowTheTable(s: State, op: Op)
    requires Apply(s, op).Success?
    ensures var t := Apply(s, op).value; t.status == s.status || IsValidTransition(s.status, t.status)
    ensures Next(s, op).status == AdminCycleInProgress && s.status != AdminCycleInProgress ==> op.OpCreate?
  {
  }

  /** The row that a complete or forward request names is the active cycle's current step, the caller's own. */
  ghost predicate IsCurrentStep(s: State, cycleId: nat, stepId: nat, userId: nat) {
    && s.activeCycle == Some(cycleId)
    && exists ci :: 0 <= ci < |s.cycles| && s.cycles[ci].id == cycleId && IsCurrentRow(s.cycles[ci], stepId, userId)
  }

  ghost predicate IsCurrentRow(c: Cycle, stepId: nat, userId: nat) {
    && c.currentStepOrder.Some? && 1 <= c.currentStepOrder.value <= |c.steps|
    && var step := Line(c.steps)[c.currentStepOrder.value - 1];
       step.id == stepId && step.userId == userId
  }

  /** Ids are unique in the table as well as in the line. */
  lemma FindsLineStep(c: Cycle, nextId: nat, k: nat)
    requires CycleInv(c, nextId) && k < |c.steps|
    ensures var f := FindStep(c.steps, Line(c.steps)[k].id); f.Some? && c.steps[f.value] == Line(c.steps)[k]
  {
    var line := Line(c.steps);
    SortHasSameRows(ByOrder, c.steps, line[k]);
    RowInLine(c.steps, FindStep(c.steps, line[k].id).value);
  }

  lemma FindsCycle(s: State, ci: nat)
    requires Inv(s) && ci < |s.cycles|
    ensures FindCycle(s.cycles, s.cycles[ci].id) == Some(ci)
  {
  }

  lemma PendingRowIsCurrent(c: Cycle, nextId: nat, stepId: nat, userId: nat)
    requires CycleInv(c, nextId) && c.status == InProgress
    ensures var f := FindStep(c.steps, stepId);
            (f.Some? && c.steps[f.value].userId == userId && c.steps[f.value].status == Pending)
            <==> IsCurrentRow(c, stepId, userId)
  {
    var f := FindStep(c.steps, stepId);
    if f.Some? && c.steps[f.value].status == Pending {
      PendingIsCurrent(c, nextId, f.value);
    }
    if IsCurrentRow(c, stepId, userId) {
      FindsLineStep(c, nextId, c.currentStepOrder.value - 1);
    }
  }

  /** Although its guard also admits other statuses, completing succeeds exactly on the active cycle's current step. */
  lemma CompleteSucceedsExactly(s: State, cycleId: nat, stepId: nat, userId: nat)
    requires Inv(s)
    ensures CompleteStep(s, cycleId, stepId, userId).Success?
            <==> s.status == AdminCycleInProgress && IsCurrentStep(s, cycleId, stepId, userId)
  {
    var fc := FindCycle(s.cycles, cycleId);
    if fc.Some? {
      PendingOrNot(s, fc.value, stepId, userId);
    }
    if s.status == AdminCycleInProgress && IsCurrentStep(s, cycleId, stepId, userId) {
      CurrentIsFound(s, cycleId, stepId, userId);
    }
  }

  lemma PendingOrNot(s: State, ci: nat, stepId: nat, userId: nat)
    requires Inv(s) && ci < |s.cycles|
    ensures s.cycles[ci].status == InProgress ==>
              && s.status == AdminCycleInProgress && s.activeCycle == Some(s.cycles[ci].id)
              && var c := s.cycles[ci];
                 var f := FindStep(c.steps, stepId);
                 (f.Some? && c.steps[f.value].userId == userId && c.steps[f.value].status == Pending)
                 <==> IsCurrentRow(c, stepId, userId)
  {
    if s.cycles[ci].status == InProgress {
      OpenCycleIsActive(s, ci);
      PendingRowIsCurrent(s.cycles[ci], s.nextId, stepId, userId);
    }
  }

  lemma CurrentIsFound(s: State, cycleId: nat, stepId: nat, userId: nat)
    requires Inv(s) && IsCurrentStep(s, cycleId, stepId, userId)
    ensures var f := FindCycle(s.cycles, cycleId);
            f.Some? && s.cycles[f.value].status == InProgress && IsCurrentRow(s.cycles[f.value], stepId, userId)
  {
    var ci :| 0 <= ci < |s.cycles| && s.cycles[ci].id == cycleId && IsCurrentRow(s.cycles[ci], stepId, userId);
    FindsCycle(s, ci);
  }

  /** The current step may be forwarded: it is mandatory, and the reviewer is allowed and not the next one anyway. */
  ghost predicate MayForward(c: Cycle, reviewer: nat) {
    && c.currentStepOrder.Some? && 1 <= c.currentStepOrder.value <= |c.steps|
    && var line, cur := Line(c.steps), c.currentStepOrder.value;
       && !line[cur - 1].isOptional
       && reviewer in c.allowedOptional
       && (cur < |line| ==> line[cur].userId != reviewer)
  }

  /**
   Beyond the current step, a forward needs a mandatory step, an allowed reviewer, a different
   next reviewer, and that the bulk shift visits the later rows from the last to the first.
   */
  lemma ForwardSucceedsExactly(s: State, cycleId: nat, stepId: nat, userId: nat, reviewer: nat, visit: nat -> int)
    requires Inv(s)
    ensures ForwardStep(s, cycleId, stepId, userId, reviewer, visit).Success?
            <==> && IsCurrentStep(s, cycleId, stepId, userId)
                 && var c := s.cycles[FindCycle(s.cycles, cycleId).value];
                    MayForward(c, reviewer) && LastFirst(c, visit)
  {
    var fc := FindCycle(s.cycles, cycleId);
    if fc.Some? {
      PendingOrNot(s, fc.value, stepId, userId);
      var f := FindStep(s.cycles[fc.value].steps, stepId);
      if s.cycles[fc.value].status == InProgress && f.Some? && s.cycles[fc.value].steps[f.value].status == Pending {
        OwnStepForwards(s.cycles[fc.value], s.nextId, f.value, reviewer);
        OwnShifts(s, fc.value, f.value, reviewer, visit);
      }
    }
    if IsCurrentStep(s, cycleId, stepId, userId) {
      CurrentIsFound(s, cycleId, stepId, userId);
    }
  }

  /** The checks of a forward, on the row the request names, against those on the line. */
  lemma OwnStepForwards(c: Cycle, nextId: nat, si: nat, reviewer: nat)
    requires CycleInv(c, nextId) && c.status == InProgress && si < |c.steps| && c.steps[si].status == Pending
    ensures ForwardRefusal(c, si, reviewer).None? <==> MayForward(c, reviewer)
  {
    NextInLine(c, nextId);
    PendingIsCurrent(c, nextId, si);
  }

  /** With at most one step behind the current one there is nothing to run into. */
  lemma ShortTailForwards(c: Cycle, nextId: nat, visit: nat -> int)
    requires CycleInv(c, nextId) && c.status == InProgress && |c.steps| <= c.currentStepOrder.value + 1
    ensures LastFirst(c, visit)
  {
    var line, order := Line(c.steps), c.currentStepOrder.value + 1;
    assert Keyed(c.steps) && Ranks(c.steps, line) by { RowsAreKeyed(c, nextId); }
    OneIsDescending(c.steps, line, order, visit);
    assert Descending(Visited(c.steps, order, visit));
  }

  /** Coming across some later step before the one behind it is not last first. */
  lemma FirstFirstIsNot(c: Cycle, nextId: nat, k: nat, visit: nat -> int)
    requires CycleInv(c, nextId) && c.status == InProgress && c.currentStepOrder.value <= k && k + 1 < |c.steps|
    requires visit(Line(c.steps)[k].id) < visit(Line(c.steps)[k + 1].id)
    ensures !LastFirst(c, visit)
  {
    RowsAreKeyed(c, nextId);
    assert Line(c.steps)[k] in Line(c.steps) && Line(c.steps)[k + 1] in Line(c.steps);
    LowerFirst(c.steps, c.currentStepOrder.value + 1, visit, Line(c.steps)[k], Line(c.steps)[k + 1]);
  }

  /** So visiting the rows in the order of the line makes every forward with two later steps fail. */
  lemma FirstFirstFails(s: State, cycleId: nat, stepId: nat, userId: nat, reviewer: nat, visit: nat -> int, k: nat)
    requires Inv(s) && FindCycle(s.cycles, cycleId).Some?
    requires var c := s.cycles[FindCycle(s.cycles, cycleId).value];
             && c.status == InProgress && c.currentStepOrder.value <= k && k + 1 < |c.steps|
             && visit(Line(c.steps)[k].id) < visit(Line(c.steps)[k + 1].id)
    ensures ForwardStep(s, cycleId, stepId, userId, reviewer, visit).Failure?
  {
    FirstFirstIsNot(s.cycles[FindCycle(s.cycles, cycleId).value], s.nextId, k, visit);
    ForwardSucceedsExactly(s, cycleId, stepId, userId, reviewer, visit);
  }

  /**
   A reachable request that does everything right and is refused: three steps, the first one
   forwarded, and the rows visited in the order in which they were inserted.
   */
  lemma RightForwardRefused()
    ensures var start := State(PendingReviewCycle, None, None, [9], true, 9, None, None, [], 0);
            var steps := [StepInput(1, 1), StepInput(2, 2), StepInput(3, 3)];
            var s := Run(start, [OpCreate(9, steps, [7])]);
            && Initial(start) && Inv(s) && IsCurrentStep(s, 0, 1, 1) && MayForward(s.cycles[0], 7)
            && ForwardStep(s, 0, 1, 1, 7, id => id) == Failure(StepOrderTaken)
  {
    var start := State(PendingReviewCycle, None, None, [9], true, 9, None, None, [], 0);
    var steps := [StepInput(1, 1), StepInput(2, 2), StepInput(3, 3)];
    var s := ThreeSteps();
    EveryRunKeepsInvariant(start, [OpCreate(9, steps, [7])]);
    FirstFirstFails(s, 0, 1, 1, 7, id => id, 1);
    CurrentIsFound(s, 0, 1, 1);
  }

  lemma ThreeSteps() returns (s: State)
    ensures var start := State(PendingReviewCycle, None, None, [9], true, 9, None, None, [], 0);
            s == Run(start, [OpCreate(9, [StepInput(1, 1), StepInput(2, 2), StepInput(3, 3)], [7])])
    ensures var rows := [Step(1, 1, 1, Pending, false, None), Step(2, 2, 2, Waiting, false, None),
                         Step(3, 3, 3, Waiting, false, None)];
            && s == State(AdminCycleInProgress, Some(0), Some(1), [9], true, 9, None, None,
                          [Cycle(0, 1, 9, InProgress, Some(1), [7], rows)], 4)
            && Line(rows) == rows
  {
    var start := State(PendingReviewCycle, None, None, [9], true, 9, None, None, [], 0);
    var steps := [StepInput(1, 1), StepInput(2, 2), StepInput(3, 3)];
    var rows := [Step(1, 1, 1, Pending, false, None), Step(2, 2, 2, Waiting, false, None),
                 Step(3, 3, 3, Waiting, false, None)];
    var op := OpCreate(9, steps, [7]);
    AscendingIsSorted(rows);
    SortOfThree(steps);
    assert NewSteps(steps, 1) == rows;
    s := Next(start, op);
    assert s.cycles == [Cycle(0, 1, 9, InProgress, Some(1), [7], rows)];
    assert [op][1..] == [] && Run(start, [op]) == s;
  }

  lemma SortOfThree(steps: seq<StepInput>)
    requires |steps| == 3 && steps[0].stepOrder < steps[1].stepOrder < steps[2].stepOrder
    ensures SortBy(ByInputOrder, steps) == steps
  {
    var one, two := steps[..1], steps[..2];
    assert two[..1] == one && steps[..2] == two && two == one + [steps[1]] && steps == two + [steps[2]];
    assert SortBy(ByInputOrder, one[..0]) == [];
    assert SortBy(ByInputOrder, one) == one;
    InsertAt(ByInputOrder, steps[1], one, 1);
    assert SortBy(ByInputOrder, two) == two;
    InsertAt(ByInputOrder, steps[2], two, 2);
  }

  /** The guard of completeStep alone is too weak: outside the reachable states it lets a workflow skip its approval. */
  lemma CompleteGuardAloneIsLoose() returns (s: State)
    ensures s.status == PendingApproval && !Inv(s)
    ensures CompleteStep(s, 0, 1, 7).Success? && CompleteStep(s, 0, 1, 7).value.status == AvailableForFinalUsers
  {
    var step := Step(1, 7, 1, Pending, false, None);
    var c := Cycle(0, 1, 9, InProgress, Some(1), [], [step]);
    s := State(PendingApproval, None, None, [], true, 9, None, None, [c], 2);
    assert s.cycles[0].status == InProgress;
    assert Line([step]) == [step];
  }

  // Starting a cycle

  ghost function UpTo(n: nat): seq<int> { seq(n, i => i + 1) }

  ghost function Identity(x: int): int { x }

  ghost predicate Sorted(a: seq<int>) {
    forall i, j :: 0 <= i < j < |a| ==> a[i] <= a[j]
  }

  lemma LastIsLargest(a: seq<int>, x: int)
    requires Sorted(a) && x in multiset(a)
    ensures a != [] && x <= a[|a| - 1]
  {
    assert x in a;
  }

  lemma LastIn(a: seq<int>)
    requires a != []
    ensures a[|a| - 1] in multiset(a)
    ensures multiset(a[..|a| - 1]) == multiset(a) - multiset{a[|a| - 1]}
  {
    assert a == a[..|a| - 1] + [a[|a| - 1]];
  }

  lemma {:induction false} SortedIsUnique(a: seq<int>, b: seq<int>)
    requires Sorted(a) && Sorted(b) && multiset(a) == multiset(b)
    ensures a == b
    decreases |a|
  {
    assert |a| == |multiset(a)| == |multiset(b)| == |b|;
    if a != [] {
      SameLast(a, b);
      SortedIsUnique(a[..|a| - 1], b[..|b| - 1]);
      assert a == a[..|a| - 1] + [a[|a| - 1]] && b == b[..|b| - 1] + [b[|b| - 1]];
    }
  }

  lemma SameLast(a: seq<int>, b: seq<int>)
    requires Sorted(a) && Sorted(b) && multiset(a) == multiset(b) && a != [] && b != []
    ensures a[|a| - 1] == b[|b| - 1]
    ensures multiset(a[..|a| - 1]) == multiset(b[..|b| - 1])
  {
    LastIn(a);
    LastIn(b);
    LastIsLargest(a, b[|b| - 1]);
    LastIsLargest(b, a[|a| - 1]);
  }

  /** The orders read off the sorted request are the sorted orders. */
  lemma SortedOrders(steps: seq<StepInput>)
    ensures var orders := Map(ByInputOrder, SortBy(ByInputOrder, steps));
            Sorted(orders) && multiset(orders) == multiset(Map(ByInputOrder, steps))
  {
    var orders := Map(ByInputOrder, steps);
    SortMap(ByInputOrder, Identity, ByInputOrder, steps);
    SortIsSorted(Identity, orders);
    var line := SortBy(Identity, orders);
    forall i, j | 0 <= i < j < |line| ensures line[i] <= line[j] {
      assert Identity(line[i]) <= Identity(line[j]);
    }
  }

  ghost predicate PassesOrderCheck(sorted: seq<StepInput>) {
    sorted != [] && !HasGap(sorted) && sorted[0].stepOrder == 1
  }

  lemma PassingMeansUpTo(sorted: seq<StepInput>)
    ensures PassesOrderCheck(sorted) <==> sorted != [] && Map(ByInputOrder, sorted) == UpTo(|sorted|)
  {
    if PassesOrderCheck(sorted) {
      forall k | 0 <= k < |sorted| ensures sorted[k].stepOrder == k + 1 {
        NoGapMeansConsecutive(sorted, k);
      }
    } else if sorted != [] && Map(ByInputOrder, sorted) == UpTo(|sorted|) {
      forall k | 0 <= k < |sorted| ensures sorted[k].stepOrder == k + 1 {
        assert UpTo(|sorted|)[k] == k + 1;
      }
    }
  }

  /** The requested orders are accepted exactly when they are 1..n in some arrangement. */
  lemma AcceptedOrders(steps: seq<StepInput>)
    ensures PassesOrderCheck(SortBy(ByInputOrder, steps))
            <==> steps != [] && multiset(Map(ByInputOrder, steps)) == multiset(UpTo(|steps|))
  {
    var sorted := SortBy(ByInputOrder, steps);
    PassingMeansUpTo(sorted);
    SortedOrders(steps);
    if multiset(Map(ByInputOrder, steps)) == multiset(UpTo(|steps|)) {
      SortedIsUnique(Map(ByInputOrder, sorted), UpTo(|steps|));
    }
  }

  /** When a cycle can start; the duplicate and active-cycle checks never decide it. */
  lemma CreateSucceedsExactly(s: State, userId: nat, steps: seq<StepInput>, allowed: seq<nat>)
    requires Inv(s)
    ensures CreateCycle(s, userId, steps, allowed).Success?
            <==> && steps != [] && multiset(Map(ByInputOrder, steps)) == multiset(UpTo(|steps|))
                 && s.status in {PendingReviewCycle, AvailableForFinalUsers}
                 && s.reviewCycleEnabled && userId in s.finalUserIds
    ensures CreateCycle(s, userId, steps, allowed) !in {Failure(DuplicateOrders), Failure(ActiveCycleExists)}
  {
    var sorted := SortBy(ByInputOrder, steps);
    AcceptedOrders(steps);
    if PassesOrderCheck(sorted) {
      forall k | 0 <= k < |sorted| ensures sorted[k].stepOrder == k + 1 {
        NoGapMeansConsecutive(sorted, k);
      }
    }
  }
}
