/** bulk-structure.service.ts updating the structure tables in place. */
module StructureImportService {
  import opened Wrappers
  import opened Rows
  import opened Text
  import opened StructureImport
  import opened StructureImportTheorems

  const MAX_ROWS := 500

  const MAX_RESOLVE_ITEMS := 500

  datatype RequestError = NoRows | TooManyRows | TooManyItems

  datatype Resolved = Resolved(index: nat, found: Found)

  datatype Unresolved = Unresolved(index: nat, reason: Reason)

  /** The two lists answer the first n items, each once and in order, as a plain scan would. */
  ghost predicate Answers(t: Tables, items: seq<Item>, n: nat, resolved: seq<Resolved>, unresolved: seq<Unresolved>) {
    && |resolved| + |unresolved| == n <= |items|
    && (forall e | e in resolved :: e.index < n && ResolveByScan(t, items[e.index]) == Success(e.found))
    && (forall e | e in unresolved :: e.index < n && ResolveByScan(t, items[e.index]) == Failure(e.reason))
    && (forall i, j :: 0 <= i < j < |resolved| ==> resolved[i].index < resolved[j].index)
    && (forall i, j :: 0 <= i < j < |unresolved| ==> unresolved[i].index < unresolved[j].index)
  }

  lemma OneMoreResolved(t: Tables, items: seq<Item>, n: nat, resolved: seq<Resolved>,
                        unresolved: seq<Unresolved>, f: Found)
    requires Answers(t, items, n, resolved, unresolved) && n < |items| && ResolveByScan(t, items[n]) == Success(f)
    ensures Answers(t, items, n + 1, resolved + [Resolved(n, f)], unresolved)
  {
  }

  lemma OneMoreUnresolved(t: Tables, items: seq<Item>, n: nat, resolved: seq<Resolved>,
                          unresolved: seq<Unresolved>, e: Reason)
    requires Answers(t, items, n, resolved, unresolved) && n < |items| && ResolveByScan(t, items[n]) == Failure(e)
    ensures Answers(t, items, n + 1, resolved, unresolved + [Unresolved(n, e)])
  {
  }

  /** `errors` lists, in order, exactly those of the first n rows that take more upserts than went through. */
  ghost predicate Reports(errors: seq<nat>, rows: seq<Item>, faults: seq<nat>, n: nat)
    requires n <= |rows| == |faults|
  {
    && (forall e :: e in errors <==> 2 <= e < n + 2 && faults[e - 2] < Upserts(rows[e - 2]))
    && (forall i, j :: 0 <= i < j < |errors| ==> errors[i] < errors[j])
  }

  lemma ReportsOneMore(errors: seq<nat>, rows: seq<Item>, faults: seq<nat>, n: nat)
    requires n < |rows| == |faults| && Reports(errors, rows, faults, n)
    ensures Reports(if Upserts(rows[n]) <= faults[n] then errors else errors + [n + 2], rows, faults, n + 1)
  {
    var more := if Upserts(rows[n]) <= faults[n] then errors else errors + [n + 2];
    forall e: nat ensures e in more <==> 2 <= e < n + 3 && faults[e - 2] < Upserts(rows[e - 2]) {
      assert e in more <==> e in errors || (e == n + 2 && faults[n] < Upserts(rows[n]));
    }
    forall i | 0 <= i < |errors| ensures errors[i] < n + 2 {
      assert errors[i] in errors;
    }
  }

  /**
   Every row of the sheet with a departamento was reported, or is found under the trimmed texts of
   its own cells, and the ids found give these texts back.
   */
  ghost predicate FindsRows(t: Tables, sheet: seq<Item>, errors: seq<nat>) {
    forall r :: 0 <= r < |sheet| && Trim(sheet[r].department) != "" ==>
      exists i :: 0 <= i < |Parse(sheet)| && Origin(sheet, i) == r && (i + 2 in errors || FindsRow(t, sheet[r]))
  }

  ghost predicate FindsRow(t: Tables, cells: Item) {
    var row := Item(Trim(cells.department), Trim(cells.area), Trim(cells.position));
    ResolveByScan(t, row).Success? && ResolveById(t, ResolveByScan(t, row).value) == Success(row)
  }

  lemma ImportFindsRows(t: Tables, sheet: seq<Item>, faults: seq<nat>, errors: seq<nat>)
    requires WellFormed(t) && |faults| == |Parse(sheet)| && Reports(errors, Parse(sheet), faults, |faults|)
    ensures FindsRows(Import(t, NONE, Parse(sheet), faults).0, sheet, errors)
  {
    var u := Import(t, NONE, Parse(sheet), faults).0;
    ParsesExactly(sheet);
    forall r | 0 <= r < |sheet| && Trim(sheet[r].department) != ""
      ensures exists i :: 0 <= i < |Parse(sheet)| && Origin(sheet, i) == r && (i + 2 in errors || FindsRow(u, sheet[r]))
    {
      var i := SheetRowsRoundTrip(t, sheet, faults, r);
      assert TrimsRow(Parse(sheet)[i], sheet[Origin(sheet, i)]);
      assert i + 2 in errors <==> faults[i] < Upserts(Parse(sheet)[i]);
    }
  }

  /** The live departamentos, areas and cargos of one organization. */
  class BulkStructure {
    var depts: seq<Node>
    var areas: seq<Node>
    var cargos: seq<Node>
    var nextId: nat

    constructor ()
      ensures WellFormed(Snapshot()) && depts == areas == cargos == []
    {
      depts, areas, cargos, nextId := [], [], [], 0;
    }

    function Snapshot(): Tables
      reads this
    {
      Tables(depts, areas, cargos, nextId)
    }

    method UpsertDepartment(name: string) returns (id: nat, wasCreated: bool)
      modifies this
      ensures (Snapshot(), id, wasCreated) == UpsertDept(old(Snapshot()), name)
    {
      var normalizedName := Trim(name);
      var existing := Scan(depts, InOrg, normalizedName);
      if existing.Some? {
        return existing.value.id, false;
      }
      id, wasCreated := nextId, true;
      depts := depts + [Node(id, InOrg, normalizedName)];
      nextId := nextId + 1;
    }

    method UpsertArea(dept: nat, name: string) returns (id: nat, wasCreated: bool)
      modifies this
      ensures (Snapshot(), id, wasCreated) == StructureImport.UpsertArea(old(Snapshot()), dept, name)
    {
      var normalizedName := Trim(name);
      var existing := Scan(areas, InDept(dept), normalizedName);
      if existing.Some? {
        return existing.value.id, false;
      }
      id, wasCreated := nextId, true;
      areas := areas + [Node(id, InDept(dept), normalizedName)];
      nextId := nextId + 1;
    }

    /** A cargo of an area, or of a departamento itself. */
    method UpsertPosition(scope: Scope, name: string) returns (id: nat, wasCreated: bool)
      modifies this
      ensures (Snapshot(), id, wasCreated) == UpsertCargo(old(Snapshot()), scope, name)
    {
      var normalizedName := Trim(name);
      var existing := Scan(cargos, scope, normalizedName);
      if existing.Some? {
        return existing.value.id, false;
      }
      id, wasCreated := nextId, true;
      cargos := cargos + [Node(id, scope, normalizedName)];
      nextId := nextId + 1;
    }

    /** One row; `ok` upserts go through before the database fails. False when the row failed. */
    method ImportOneRow(row: Item, ok: nat, c: Counts) returns (r: Counts, success: bool)
      modifies this
      ensures (Snapshot(), r) == ImportRow(old(Snapshot()), c, row, ok)
      ensures success <==> Upserts(row) <= ok
      ensures r.failed == c.failed + (if success then 0 else 1)
    {
      r, success := c, false;
      if ok == 0 {
        return Failed(r), false;
      }
      var dept, newDept := UpsertDepartment(row.department);
      r := CountDept(r, newDept);
      if row.area != "" {
        if ok == 1 {
          return Failed(r), false;
        }
        var area, newArea := UpsertArea(dept, row.area);
        r := CountArea(r, newArea);
        if row.position != "" {
          if ok == 2 {
            return Failed(r), false;
          }
          var _, newPosition := UpsertPosition(InArea(dept, area), row.position);
          r := CountPosition(r, newPosition);
        }
      } else if row.position != "" {
        if ok == 1 {
          return Failed(r), false;
        }
        var _, newPosition := UpsertPosition(InDept(dept), row.position);
        r := CountPosition(r, newPosition);
      }
      success := true;
    }

    /**
     Rows are imported one by one; a failing row is skipped and reported by its place among the
     parsed rows, counted from 2. That is its row in the sheet only if no row before it was left
     out by the parsing (CountIsSheetRowExactly).
     */
    method ImportFromExcel(sheet: seq<Item>, faults: seq<nat>)
      returns (r: Result<Counts, RequestError>, errors: seq<nat>)
      requires |faults| == |Parse(sheet)|
      modifies this
      ensures r == Failure(NoRows) <==> |Parse(sheet)| == 0
      ensures r == Failure(TooManyRows) <==> |Parse(sheet)| > 500
      ensures r.Failure? ==> r.error in {NoRows, TooManyRows}
      ensures r.Failure? ==> Snapshot() == old(Snapshot())
      ensures r.Success? ==> (Snapshot(), r.value) == Import(old(Snapshot()), NONE, Parse(sheet), faults)
      ensures r.Success? ==> |errors| == r.value.failed && Reports(errors, Parse(sheet), faults, |Parse(sheet)|)
      ensures r.Success? && old(WellFormed(Snapshot())) ==>
                WellFormed(Snapshot()) && FindsRows(Snapshot(), sheet, errors)
    {
      ghost var before := Snapshot();
      var rows := Parse(sheet);
      errors := [];
      if |rows| == 0 {
        return Failure(NoRows), [];
      }
      if |rows| > MAX_ROWS {
        return Failure(TooManyRows), [];
      }
      var counts;
      counts, errors := ImportRows(rows, faults);
      r := Success(counts);
      if WellFormed(before) {
        ImportKeeps(before, NONE, rows, faults);
        ImportFindsRows(before, sheet, faults, errors);
      }
    }

    method ImportRows(rows: seq<Item>, faults: seq<nat>) returns (counts: Counts, errors: seq<nat>)
      requires |faults| == |rows|
      modifies this
      ensures (Snapshot(), counts) == Import(old(Snapshot()), NONE, rows, faults)
      ensures |errors| == counts.failed && Reports(errors, rows, faults, |rows|)
    {
      counts, errors := NONE, [];
      var i := 0;
      while i < |rows|
        invariant 0 <= i <= |rows|
        invariant (Snapshot(), counts) == Import(old(Snapshot()), NONE, rows[..i], faults[..i])
        invariant |errors| == counts.failed && Reports(errors, rows, faults, i)
      {
        ImportOneMore(old(Snapshot()), rows, faults, i);
        ReportsOneMore(errors, rows, faults, i);
        var success;
        counts, success := ImportOneRow(rows[i], faults[i], counts);
        if !success {
          errors := errors + [i + 2];
        }
        i := i + 1;
      }
      assert rows[..i] == rows && faults[..i] == faults;
    }

    /** Answers every item once, in order, from maps built over the whole structure. */
    method ResolveStructure(items: seq<Item>)
      returns (r: Result<(seq<Resolved>, seq<Unresolved>), RequestError>)
      requires WellFormed(Snapshot())
      ensures r == Failure(TooManyItems) <==> |items| > 500
      ensures r.Failure? ==> r.error == TooManyItems
      ensures r.Success? ==> Answers(Snapshot(), items, |items|, r.value.0, r.value.1)
    {
      if |items| > MAX_RESOLVE_ITEMS {
        return Failure(TooManyItems);
      }
      var maps := Maps(Index(depts), Index(areas), Index(Level(cargos, true)), Index(Level(cargos, false)));
      var resolved: seq<Resolved>, unresolved: seq<Unresolved> := [], [];
      var i := 0;
      while i < |items|
        invariant 0 <= i <= |items| && Answers(Snapshot(), items, i, resolved, unresolved)
      {
        MapsAgreeWithScans(Snapshot(), items[i]);
        var result := ResolveFromMaps(maps, items[i]);
        if result.Failure? {
          OneMoreUnresolved(Snapshot(), items, i, resolved, unresolved, result.error);
          unresolved := unresolved + [Unresolved(i, result.error)];
        } else {
          OneMoreResolved(Snapshot(), items, i, resolved, unresolved, result.value);
          resolved := resolved + [Resolved(i, result.value)];
        }
        i := i + 1;
      }
      r := Success((resolved, unresolved));
    }
  }

  lemma ImportOneMore(t: Tables, rows: seq<Item>, faults: seq<nat>, i: nat)
    requires |faults| == |rows| && i < |rows|
    ensures Import(t, NONE, rows[..i + 1], faults[..i + 1])
            == var (t1, c1) := Import(t, NONE, rows[..i], faults[..i]); ImportRow(t1, c1, rows[i], faults[i])
  {
    assert rows[..i + 1][..i] == rows[..i] && faults[..i + 1][..i] == faults[..i];
  }
}
