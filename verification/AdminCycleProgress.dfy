/** How many requests an administrative cycle takes. */
module AdminCycleProgress {
  import opened Wrappers
  import opened Rows
  import opened AdminCycle
  import opened AdminCycleInvariant
  import opened AdminCycleTheorems

  /**
   Nothing for a finished step, one unit for an unfinished optional step, `m` units for an
   unfinished mandatory one: `Weight(1)` counts unfinished steps, `Weight(2)` the calls they may cost.
   */
  ghost function Weight(m: int): Step -> int {
    (x: Step) => if x.status == Done then 0 else if x.isOptional then 1 else m
  }

  ghost function Unfinished(c: Cycle): int { Sum(Weight(1), c.steps) }

  ghost function Work(c: Cycle): int { Sum(Weight(2), c.steps) }

  ghost predicate IsComplete(s: State, op: Op, cycleId: nat) {
    Apply(s, op).Success? && op.OpComplete? && op.cycleId == cycleId
  }

  ghost predicate IsForward(s: State, op: Op, cycleId: nat) {
    Apply(s, op).Success? && op.OpForward? && op.cycleId == cycleId
  }

  ghost function Completes(s: State, ops: seq<Op>, cycleId: nat): nat
    decreases |ops|
  {
    if ops == [] then 0
    else (if IsComplete(s, ops[0], cycleId) then 1 else 0) + Completes(Next(s, ops[0]), ops[1..], cycleId)
  }

  ghost function Forwards(s: State, ops: seq<Op>, cycleId: nat): nat
    decreases |ops|
  {
    if ops == [] then 0
    else (if IsForward(s, ops[0], cycleId) then 1 else 0) + Forwards(Next(s, ops[0]), ops[1..], cycleId)
  }

  /** Starting to wait on a step costs nothing; finishing the current one takes its weight away. */
  lemma CompleteSums(c: Cycle, nextId: nat, si: nat, m: int)
    requires CycleInv(c, nextId) && c.status == InProgress
    requires si < |c.steps| && c.steps[si].status == Pending
    ensures var line := Line(c.steps);
            var cur := c.currentStepOrder.value;
            var done := Map(WithStatus(c.steps[si].id, Done), c.steps);
            && Sum(Weight(m), done) == Sum(Weight(m), c.steps) - Weight(m)(c.steps[si])
            && (cur < |line| ==> Sum(Weight(m), Map(WithStatus(line[cur].id, Pending), done)) == Sum(Weight(m), done))
  {
    var line := Line(c.steps);
    var cur := c.currentStepOrder.value;
    var w := Weight(m);
    var done := Map(WithStatus(c.steps[si].id, Done), c.steps);
    PendingIsCurrent(c, nextId, si);
    CompletedLine(c, nextId, si);
    SumOfLine(w, c.steps);
    SumOfLine(w, done);
    SumUpdate(w, line, cur - 1, line[cur - 1].(status := Done));
    if cur < |line| {
      SumOfLine(w, Map(WithStatus(line[cur].id, Pending), done));
      SumUpdate(w, Line(done), cur, line[cur].(status := Pending));
    }
  }

  lemma ForwardedLineSum(line: seq<Step>, cur: int, inserted: Step, m: int)
    requires 1 <= cur <= |line|
    ensures Sum(Weight(m), ForwardedLine(line, cur, inserted))
            == Sum(Weight(m), line) - Weight(m)(line[cur - 1]) + Weight(m)(inserted)
  {
    var front := line[..cur - 1] + [line[cur - 1].(status := Done)];
    var tail := Map(ShiftedFrom(cur + 1), line[cur..]);
    FrontSum(line, cur, m);
    ShiftKeepsSum(line[cur..], cur + 1, m);
    SumOfThree(Weight(m), front, inserted, tail);
    assert ForwardedLine(line, cur, inserted) == front + [inserted] + tail;
  }

  lemma FrontSum(line: seq<Step>, cur: int, m: int)
    requires 1 <= cur <= |line|
    ensures Sum(Weight(m), line[..cur - 1] + [line[cur - 1].(status := Done)]) + Sum(Weight(m), line[cur..])
            == Sum(Weight(m), line) - Weight(m)(line[cur - 1])
  {
    ReplacedSum(Weight(m), line, cur - 1, line[cur - 1].(status := Done));
  }

  lemma ReplacedSum(w: Step -> int, line: seq<Step>, k: nat, x: Step)
    requires k < |line|
    ensures Sum(w, line[..k] + [x]) + Sum(w, line[k + 1..]) == Sum(w, line) - w(line[k]) + w(x)
  {
    var front, tail := line[..k] + [x], line[k + 1..];
    UpdatedIsSplit(line, k, x);
    SumUpdate(w, line, k, x);
    SumConcat(w, front, tail);
  }

  lemma UpdatedIsSplit(line: seq<Step>, k: nat, x: Step)
    requires k < |line|
    ensures line[k := x] == line[..k] + [x] + line[k + 1..]
  {
  }

  lemma ShiftKeepsSum(line: seq<Step>, order: int, m: int)
    ensures Sum(Weight(m), Map(ShiftedFrom(order), line)) == Sum(Weight(m), line)
  {
    SumMap(Weight(m), ShiftedFrom(order), line);
  }

  lemma SumOfThree(w: Step -> int, a: seq<Step>, x: Step, b: seq<Step>)
    ensures Sum(w, a + [x] + b) == Sum(w, a) + w(x) + Sum(w, b)
  {
    SumConcat(w, a + [x], b);
    SumConcat(w, a, [x]);
    SumOfOne(w, x);
  }

  lemma SumOfOne(w: Step -> int, x: Step)
    ensures Sum(w, [x]) == w(x)
  {
    assert Sum(w, [x]) == Sum(w, [x][..0]) + w(x);
  }

  lemma ForwardSums(c: Cycle, nextId: nat, si: nat, inserted: Step, m: int)
    requires CycleInv(c, nextId) && c.status == InProgress
    requires si < |c.steps| && c.steps[si].status == Pending
    requires inserted.order == c.steps[si].order + 1 && inserted.id == nextId
    ensures Sum(Weight(m), Forwarded(c, c.steps[si].id, inserted).steps)
            == Sum(Weight(m), c.steps) - Weight(m)(c.steps[si]) + Weight(m)(inserted)
  {
    PendingIsCurrent(c, nextId, si);
    ForwardedRows(c, nextId, si, inserted);
    ForwardedLineSum(Line(c.steps), c.currentStepOrder.value, inserted, m);
    SumOfLine(Weight(m), Forwarded(c, c.steps[si].id, inserted).steps);
    SumOfLine(Weight(m), c.steps);
  }

  lemma CompleteAccounts(s: State, op: Op)
    requires Inv(s) && op.OpComplete? && Apply(s, op).Success?
    ensures var t := Apply(s, op).value;
            var fi := FindCycle(s.cycles, op.cycleId).value;
            && |t.cycles| == |s.cycles| && t.cycles[fi].id == s.cycles[fi].id
            && (forall i | 0 <= i < |s.cycles| && i != fi :: t.cycles[i] == s.cycles[i])
            && Unfinished(t.cycles[fi]) == Unfinished(s.cycles[fi]) - 1
            && Work(t.cycles[fi]) < Work(s.cycles[fi])
  {
    var fi := FindCycle(s.cycles, op.cycleId).value;
    var c := s.cycles[fi];
    var si := FindStep(c.steps, op.stepId).value;
    CompletedCycle(s, op.cycleId, op.stepId, op.userId);
    CompleteCost(c, s.nextId, si);
  }

  /** What completing does to the table of cycles. */
  lemma CompletedCycle(s: State, cycleId: nat, stepId: nat, userId: nat)
    requires Inv(s) && CompleteStep(s, cycleId, stepId, userId).Success?
    ensures var fi := FindCycle(s.cycles, cycleId).value;
            var c := s.cycles[fi];
            var cur := c.currentStepOrder.value;
            CompleteStep(s, cycleId, stepId, userId).value.cycles
            == s.cycles[fi := if cur < |Line(c.steps)| then Advanced(c, stepId, Line(c.steps)[cur])
                              else Finished(c, stepId)]
  {
    var c := s.cycles[FindCycle(s.cycles, cycleId).value];
    assert CycleInv(c, s.nextId);
    PendingIsCurrent(c, s.nextId, FindStep(c.steps, stepId).value);
    AfterIsNext(Line(c.steps), c.currentStepOrder.value);
  }

  lemma CompleteCost(c: Cycle, nextId: nat, si: nat)
    requires CycleInv(c, nextId) && c.status == InProgress
    requires si < |c.steps| && c.steps[si].status == Pending
    ensures var cur := c.currentStepOrder.value;
            var done := if cur < |Line(c.steps)| then Advanced(c, c.steps[si].id, Line(c.steps)[cur])
                        else Finished(c, c.steps[si].id);
            Unfinished(done) == Unfinished(c) - 1 && Work(done) < Work(c)
  {
    PendingIsCurrent(c, nextId, si);
    CompleteSums(c, nextId, si, 1);
    CompleteSums(c, nextId, si, 2);
  }

  lemma ForwardAccounts(s: State, op: Op)
    requires Inv(s) && op.OpForward? && Apply(s, op).Success?
    ensures var t := Apply(s, op).value;
            var fi := FindCycle(s.cycles, op.cycleId).value;
            && |t.cycles| == |s.cycles| && t.cycles[fi].id == s.cycles[fi].id
            && (forall i | 0 <= i < |s.cycles| && i != fi :: t.cycles[i] == s.cycles[i])
            && Unfinished(t.cycles[fi]) == Unfinished(s.cycles[fi])
            && Work(t.cycles[fi]) < Work(s.cycles[fi])
  {
    var fi, si := ForwardShifts(s, op.cycleId, op.stepId, op.userId, op.reviewer, op.visit);
    var c := s.cycles[fi];
    var inserted := Step(s.nextId, op.reviewer, c.steps[si].order + 1, Pending, true, Some(op.stepId));
    ForwardCost(c, s.nextId, si, inserted);
  }

  lemma ForwardCost(c: Cycle, nextId: nat, si: nat, inserted: Step)
    requires CycleInv(c, nextId) && c.status == InProgress
    requires si < |c.steps| && c.steps[si].status == Pending && !c.steps[si].isOptional
    requires inserted == Step(nextId, inserted.userId, c.steps[si].order + 1, Pending, true, Some(c.steps[si].id))
    ensures Unfinished(Forwarded(c, c.steps[si].id, inserted)) == Unfinished(c)
    ensures Work(Forwarded(c, c.steps[si].id, inserted)) == Work(c) - 1
  {
    ForwardSums(c, nextId, si, inserted, 1);
    ForwardSums(c, nextId, si, inserted, 2);
  }

  /** What one request does to the unfinished steps and the remaining work of one cycle. */
  lemma RequestAccounts(s: State, op: Op, ci: nat)
    requires Inv(s) && ci < |s.cycles|
    ensures var t := Next(s, op);
            var id := s.cycles[ci].id;
            && ci < |t.cycles| && t.cycles[ci].id == id
            && Unfinished(t.cycles[ci]) == Unfinished(s.cycles[ci]) - (if IsComplete(s, op, id) then 1 else 0)
            && Work(t.cycles[ci])
               <= Work(s.cycles[ci]) - (if IsComplete(s, op, id) || IsForward(s, op, id) then 1 else 0)
  {
    if Apply(s, op).Success? {
      match op
      case OpComplete(_, _, _) => CompleteAccounts(s, op);
      case OpForward(_, _, _, _, _) => ForwardAccounts(s, op);
      case _ =>
    }
  }

  lemma {:induction false} RunAccounts(s: State, ops: seq<Op>, ci: nat)
    requires Inv(s) && ci < |s.cycles|
    ensures var t := Run(s, ops);
            var id := s.cycles[ci].id;
            && Inv(t) && ci < |t.cycles| && t.cycles[ci].id == id
            && Unfinished(t.cycles[ci]) == Unfinished(s.cycles[ci]) - Completes(s, ops, id)
            && Work(t.cycles[ci]) + Completes(s, ops, id) + Forwards(s, ops, id) <= Work(s.cycles[ci])
    decreases |ops|
  {
    if ops != [] {
      NextKeeps(s, ops[0]);
      RequestAccounts(s, ops[0], ci);
      RunAccounts(Next(s, ops[0]), ops[1..], ci);
    }
  }

  lemma {:induction false} SumOfConstant(w: Step -> int, s: seq<Step>, v: int)
    requires forall x | x in s :: w(x) == v
    ensures Sum(w, s) == v * |s|
  {
    if s != [] {
      SumOfConstant(w, s[..|s| - 1], v);
    }
  }

  lemma {:induction false} SumIsNatural(w: Step -> int, s: seq<Step>)
    requires forall x | x in s :: w(x) >= 0
    ensures Sum(w, s) >= 0 && (Sum(w, s) == 0 <==> forall x | x in s :: w(x) == 0)
  {
    if s != [] {
      SumIsNatural(w, s[..|s| - 1]);
      assert s == s[..|s| - 1] + [s[|s| - 1]];
    }
  }

  /** A finished cycle has no unfinished step, and conversely. */
  lemma FinishedMeansNoneLeft(s: State, ci: nat)
    requires Inv(s) && ci < |s.cycles|
    ensures s.cycles[ci].status == Completed <==> Unfinished(s.cycles[ci]) == 0
  {
    var c := s.cycles[ci];
    var line := Line(c.steps);
    SumOfLine(Weight(1), c.steps);
    SumIsNatural(Weight(1), line);
    if c.status == InProgress {
      assert line[c.currentStepOrder.value - 1] in line;
    }
  }

  lemma FreshSums(sorted: seq<StepInput>, firstId: nat)
    ensures Sum(Weight(1), NewSteps(sorted, firstId)) == |sorted|
    ensures Sum(Weight(2), NewSteps(sorted, firstId)) == 2 * |sorted|
  {
    SumOfConstant(Weight(1), NewSteps(sorted, firstId), 1);
    SumOfConstant(Weight(2), NewSteps(sorted, firstId), 2);
  }

  /** A fresh cycle is the last row of the table and has all its steps before it. */
  lemma FreshCycle(s: State, userId: nat, steps: seq<StepInput>, allowed: seq<nat>)
    requires CreateCycle(s, userId, steps, allowed).Success?
    ensures var t := CreateCycle(s, userId, steps, allowed).value;
            && |t.cycles| == |s.cycles| + 1 && t.cycles[|s.cycles|].id == s.nextId
            && Unfinished(t.cycles[|s.cycles|]) == |steps| && Work(t.cycles[|s.cycles|]) == 2 * |steps|
  {
    var sorted := SortBy(ByInputOrder, steps);
    FreshSums(sorted, s.nextId + 1);
    assert CreateCycle(s, userId, steps, allowed).value.cycles[|s.cycles|].steps == NewSteps(sorted, s.nextId + 1);
  }

  /** An unfinished step costs at least one more call. */
  lemma {:induction false} UnfinishedIsWork(steps: seq<Step>)
    ensures Sum(Weight(1), steps) <= Sum(Weight(2), steps)
  {
    if steps != [] {
      UnfinishedIsWork(steps[..|steps| - 1]);
    }
  }

  /** Calls never outnumber the work a cycle starts with; all of it done means no step left. */
  lemma CallsOf(s: State, ops: seq<Op>, ci: nat)
    requires Inv(s) && ci < |s.cycles|
    ensures var t := Run(s, ops);
            var id := s.cycles[ci].id;
            var completes, forwards := Completes(s, ops, id), Forwards(s, ops, id);
            && ci < |t.cycles| && t.cycles[ci].id == id
            && completes + forwards <= Work(s.cycles[ci])
            && forwards <= Work(s.cycles[ci]) - Unfinished(s.cycles[ci])
            && (t.cycles[ci].status == Completed <==> completes == Unfinished(s.cycles[ci]))
            && (completes + forwards == Work(s.cycles[ci]) ==> t.cycles[ci].status == Completed)
  {
    RunAccounts(s, ops, ci);
    var c := Run(s, ops).cycles[ci];
    FinishedMeansNoneLeft(Run(s, ops), ci);
    SumIsNatural(Weight(1), c.steps);
    SumIsNatural(Weight(2), c.steps);
    UnfinishedIsWork(c.steps);
  }

  /**
   A cycle created with n steps is completed exactly when n complete calls succeeded, after n + f
   successful calls, f of them forwards and f <= n, whatever else the service is asked in between;
   and 2n successful calls complete it.
   */
  lemma CycleTakesNToTwoN(s: State, userId: nat, steps: seq<StepInput>, allowed: seq<nat>, ops: seq<Op>)
    requires Inv(s) && CreateCycle(s, userId, steps, allowed).Success?
    ensures var t := CreateCycle(s, userId, steps, allowed).value;
            var ci := |s.cycles|;
            var completes, forwards := Completes(t, ops, s.nextId), Forwards(t, ops, s.nextId);
            && ci < |Run(t, ops).cycles| && Run(t, ops).cycles[ci].id == s.nextId
            && completes <= |steps| && forwards <= |steps|
            && (Run(t, ops).cycles[ci].status == Completed <==> completes == |steps|)
            && (completes + forwards == 2 * |steps| ==> Run(t, ops).cycles[ci].status == Completed)
  {
    CreateKeeps(s, userId, steps, allowed);
    FreshCycle(s, userId, steps, allowed);
    CallsOf(CreateCycle(s, userId, steps, allowed).value, ops, |s.cycles|);
    CompletesAtMost(CreateCycle(s, userId, steps, allowed).value, ops, |s.cycles|);
  }

  lemma CompletesAtMost(s: State, ops: seq<Op>, ci: nat)
    requires Inv(s) && ci < |s.cycles|
    ensures Completes(s, ops, s.cycles[ci].id) <= Unfinished(s.cycles[ci])
  {
    RunAccounts(s, ops, ci);
    SumIsNatural(Weight(1), Run(s, ops).cycles[ci].steps);
  }
}
