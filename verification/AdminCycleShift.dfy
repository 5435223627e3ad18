/**
 When the bulk shift of a forward goes through. One statement adds 1 to the order of every later
 step, and the unique key on cycle and order is checked after each row of it.
 */
module AdminCycleShift {
  import opened Wrappers
  import opened Rows
  import opened AdminCycle

  /** What the rows look like after the rows of `done` were visited. */
  function RaisedAll(done: set<nat>): Step -> Step {
    (x: Step) => if x.id in done then x.(order := x.order + 1) else x
  }

  function IdsOf(steps: seq<Step>): set<nat> { set x | x in steps :: x.id }

  /** The rows of one cycle: ids and orders are keys. */
  ghost predicate Keyed(steps: seq<Step>) {
    forall i, j | 0 <= i < |steps| && 0 <= j < |steps| ::
      steps[i].id == steps[j].id || steps[i].order == steps[j].order ==> i == j
  }

  ghost predicate Descending(visited: seq<Step>) {
    forall i, j :: 0 <= i < j < |visited| ==> visited[i].order > visited[j].order
  }

  /** Row `k` finds its new order free: whoever holds it was visited before. */
  ghost predicate Clear(steps: seq<Step>, visited: seq<Step>, k: nat)
    requires k < |visited|
  {
    forall y | y in steps :: y.order == visited[k].order + 1 ==> y in visited[..k]
  }

  /** `visited` lists the rows from `order` on, each once. */
  ghost predicate Lists(steps: seq<Step>, order: int, visited: seq<Step>) {
    && (forall x :: x in visited <==> x in steps && x.order >= order)
    && (forall i, j :: 0 <= i < j < |visited| ==> visited[i] != visited[j])
  }

  lemma VisitedLists(steps: seq<Step>, order: int, visit: nat -> int)
    requires Keyed(steps)
    ensures Lists(steps, order, Visited(steps, order, visit))
  {
    var later := Filter(FromOrder(order), steps);
    var id := (x: Step) => x.id;
    FilterKeepsDistinct(id, FromOrder(order), steps);
    SortKeepsDistinct(id, ByVisit(visit), later);
    var visited := Visited(steps, order, visit);
    forall x ensures x in visited <==> x in steps && x.order >= order {
      SortHasSameRows(ByVisit(visit), later, x);
      FilterHas(FromOrder(order), steps, x);
    }
    forall i, j | 0 <= i < j < |visited| ensures visited[i] != visited[j] {
      assert id(visited[i]) != id(visited[j]);
    }
  }

  /** The table after `k` rows were visited. */
  function After(steps: seq<Step>, visited: seq<Step>, k: nat): seq<Step>
    requires k <= |visited|
  {
    Map(RaisedAll(IdsOf(visited[..k])), steps)
  }

  /** A row was visited exactly when its id was. */
  lemma VisitedById(steps: seq<Step>, order: int, visited: seq<Step>, k: nat, y: Step)
    requires Keyed(steps) && Lists(steps, order, visited) && k <= |visited| && y in steps
    ensures y.id in IdsOf(visited[..k]) <==> y in visited[..k]
  {
    if y.id in IdsOf(visited[..k]) {
      var z :| z in visited[..k] && z.id == y.id;
      assert z in visited;
      SameRow(steps, y, z);
    }
  }

  lemma SameRow(steps: seq<Step>, y: Step, z: Step)
    requires Keyed(steps) && y in steps && z in steps && (y.id == z.id || y.order == z.order)
    ensures y == z
  {
    var i :| 0 <= i < |steps| && steps[i] == y;
    var j :| 0 <= j < |steps| && steps[j] == z;
  }

  /** The key check of the k-th visited row. */
  lemma KeyCheck(steps: seq<Step>, order: int, visited: seq<Step>, k: nat)
    requires Keyed(steps) && Lists(steps, order, visited) && k < |visited|
    ensures IsTaken(After(steps, visited, k), visited[k].order + 1) <==> !Clear(steps, visited, k)
  {
    var x, rows := visited[k], After(steps, visited, k);
    forall i | 0 <= i < |steps|
      ensures rows[i].order == x.order + 1 <==> steps[i].order == x.order + 1 && steps[i] !in visited[..k]
    {
      assert steps[i] in steps && x in visited;
      VisitedById(steps, order, visited, k, steps[i]);
      if steps[i].order == x.order {
        SameRow(steps, steps[i], x);
      }
    }
    forall y | y in steps && y.order == x.order + 1 && y !in visited[..k] ensures IsTaken(rows, x.order + 1) {
      var i :| 0 <= i < |steps| && steps[i] == y;
      assert rows[i] in rows;
    }
    if z :| z in rows && z.order == x.order + 1 {
      var i :| 0 <= i < |rows| && rows[i] == z;
      assert steps[i] in steps;
    }
  }

  lemma RaiseOneMore(steps: seq<Step>, order: int, visited: seq<Step>, k: nat)
    requires Keyed(steps) && Lists(steps, order, visited) && k < |visited|
    ensures Map(Raised(visited[k].id), After(steps, visited, k)) == After(steps, visited, k + 1)
  {
    var x := visited[k];
    assert visited[..k + 1] == visited[..k] + [x];
    assert x in visited;
    VisitedById(steps, order, visited, k, x);
    assert IdsOf(visited[..k + 1]) == IdsOf(visited[..k]) + {x.id};
  }

  lemma {:induction false} ShiftFrom(steps: seq<Step>, order: int, visited: seq<Step>, k: nat)
    requires Keyed(steps) && Lists(steps, order, visited) && k <= |visited|
    ensures ShiftRowByRow(After(steps, visited, k), visited[k..])
            == if forall j | k <= j < |visited| :: Clear(steps, visited, j) then Some(After(steps, visited, |visited|))
               else None
    decreases |visited| - k
  {
    if k < |visited| {
      KeyCheck(steps, order, visited, k);
      RaiseOneMore(steps, order, visited, k);
      ShiftFrom(steps, order, visited, k + 1);
      assert visited[k..][1..] == visited[k + 1..] && visited[k..][0] == visited[k];
    }
  }

  lemma AllVisited(steps: seq<Step>, order: int, visited: seq<Step>)
    requires Keyed(steps) && Lists(steps, order, visited)
    ensures After(steps, visited, 0) == steps
    ensures After(steps, visited, |visited|) == Map(ShiftedFrom(order), steps)
  {
    assert visited[..|visited|] == visited && IdsOf(visited[..0]) == {};
    forall i | 0 <= i < |steps| ensures steps[i].id in IdsOf(visited) <==> steps[i].order >= order {
      VisitedById(steps, order, visited, |visited|, steps[i]);
    }
  }

  /** `line` holds the same rows, at the positions their orders say: no order is missing. */
  ghost predicate Ranks(steps: seq<Step>, line: seq<Step>) {
    && (forall k :: 0 <= k < |line| ==> line[k].order == k + 1)
    && (forall x :: x in steps <==> x in line)
  }

  /** If every row finds its new order free, the rows above a visited one all came before it. */
  lemma {:induction false} HigherCameBefore(steps: seq<Step>, line: seq<Step>, order: int, visited: seq<Step>,
                                            i: nat, j: nat)
    requires Keyed(steps) && Ranks(steps, line) && Lists(steps, order, visited)
    requires forall k | 0 <= k < |visited| :: Clear(steps, visited, k)
    requires i < |visited| && j < |visited| && visited[i].order < visited[j].order
    ensures j < i
    decreases visited[j].order - visited[i].order
  {
    var x, z := visited[i], visited[j];
    assert x in visited && z in visited;
    var y := line[x.order];
    assert y in line && y.order == x.order + 1;
    assert Clear(steps, visited, i);
    var m :| 0 <= m < i && visited[..i][m] == y;
    if y.order == z.order {
      SameRow(steps, y, z);
    } else {
      HigherCameBefore(steps, line, order, visited, m, j);
    }
  }

  lemma ClearIsDescending(steps: seq<Step>, line: seq<Step>, order: int, visited: seq<Step>)
    requires Keyed(steps) && Ranks(steps, line) && Lists(steps, order, visited)
    ensures (forall k | 0 <= k < |visited| :: Clear(steps, visited, k)) <==> Descending(visited)
  {
    if forall k | 0 <= k < |visited| :: Clear(steps, visited, k) {
      forall i, j | 0 <= i < j < |visited| ensures visited[i].order > visited[j].order {
        assert visited[i] in visited && visited[j] in visited && visited[i] != visited[j];
        if visited[i].order == visited[j].order {
          SameRow(steps, visited[i], visited[j]);
        } else if visited[i].order < visited[j].order {
          HigherCameBefore(steps, line, order, visited, i, j);
        }
      }
    }
    if Descending(visited) {
      forall k | 0 <= k < |visited| ensures Clear(steps, visited, k) {
        forall y | y in steps && y.order == visited[k].order + 1 ensures y in visited[..k] {
          assert visited[k] in visited && y in visited;
          var m :| 0 <= m < |visited| && visited[m] == y;
          assert m < k && visited[..k][m] == y;
        }
      }
    }
  }

  /**
   The bulk shift goes through exactly when the later rows are visited from the last to the
   first, and then it shifts each of them by one; in any other order the key refuses it.
   */
  lemma ShiftPassesExactly(steps: seq<Step>, line: seq<Step>, order: int, visit: nat -> int)
    requires Keyed(steps) && Ranks(steps, line)
    ensures var visited := Visited(steps, order, visit);
            ShiftRowByRow(steps, visited) == if Descending(visited) then Some(Map(ShiftedFrom(order), steps)) else None
  {
    var visited := Visited(steps, order, visit);
    VisitedLists(steps, order, visit);
    ShiftFrom(steps, order, visited, 0);
    AllVisited(steps, order, visited);
    ClearIsDescending(steps, line, order, visited);
    assert visited[0..] == visited;
  }

  /** Coming across a row before a higher one is not descending. */
  lemma LowerFirst(steps: seq<Step>, order: int, visit: nat -> int, x: Step, y: Step)
    requires Keyed(steps) && x in steps && y in steps && order <= x.order < y.order
    requires visit(x.id) < visit(y.id)
    ensures !Descending(Visited(steps, order, visit))
  {
    var visited := Visited(steps, order, visit);
    VisitedLists(steps, order, visit);
    var i :| 0 <= i < |visited| && visited[i] == x;
    var j :| 0 <= j < |visited| && visited[j] == y;
    SortIsSorted(ByVisit(visit), Filter(FromOrder(order), steps));
    assert ByVisit(visit)(x) < ByVisit(visit)(y);
    assert i < j && visited[i].order < visited[j].order;
  }

  /** At most one row from `order` on. */
  lemma OneIsDescending(steps: seq<Step>, line: seq<Step>, order: int, visit: nat -> int)
    requires Keyed(steps) && Ranks(steps, line) && |line| <= order
    ensures Descending(Visited(steps, order, visit))
  {
    var visited := Visited(steps, order, visit);
    VisitedLists(steps, order, visit);
    forall x | x in visited ensures x.order == order {
      assert x in line;
    }
    forall i, j | 0 <= i < |visited| && 0 <= j < |visited| ensures visited[i] == visited[j] {
      assert visited[i] in visited && visited[j] in visited;
      SameRow(steps, visited[i], visited[j]);
    }
  }
}
