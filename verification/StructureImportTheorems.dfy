/** What an import leaves behind is found again by name and by id, and imported again changes nothing. */
module StructureImportTheorems {
  import opened Wrappers
  import opened Rows
  import opened Text
  import opened StructureImport

  /** The partial unique indexes of the tables, and the primary keys. */
  ghost predicate Unique(rows: seq<Node>) {
    forall i, j :: 0 <= i < j < |rows| ==> !Named(rows[i], rows[j].scope, rows[j].name) && rows[i].id != rows[j].id
  }

  ghost predicate Below(rows: seq<Node>, n: nat) { forall i :: 0 <= i < |rows| ==> rows[i].id < n }

  ghost predicate WellFormed(t: Tables) {
    && Unique(t.depts) && Unique(t.areas) && Unique(t.cargos)
    && Below(t.depts, t.nextId) && Below(t.areas, t.nextId) && Below(t.cargos, t.nextId)
    && (forall i :: 0 <= i < |t.depts| ==> t.depts[i].scope == InOrg)
    && (forall i :: 0 <= i < |t.areas| ==> t.areas[i].scope.InDept?)
    && (forall i :: 0 <= i < |t.cargos| ==> !t.cargos[i].scope.InOrg?)
  }

  /** Rows are only added, at the end. */
  ghost predicate Grown(s: Tables, t: Tables) {
    s.depts <= t.depts && s.areas <= t.areas && s.cargos <= t.cargos
  }

  // Upserts

  lemma UpsertKeeps(rows: seq<Node>, scope: Scope, name: string, freshId: nat)
    requires Unique(rows) && Below(rows, freshId)
    ensures var (after, id, created) := Upsert(rows, scope, name, freshId);
            && Unique(after) && Below(after, freshId + 1) && (!created ==> after == rows)
            && rows <= after && |after| == |rows| + (if created then 1 else 0)
            && Scan(after, scope, Trim(name)).Some? && Scan(after, scope, Trim(name)).value.id == id
  {
    var (after, id, created) := Upsert(rows, scope, name, freshId);
    if created {
      forall i, j | 0 <= i < j < |after|
        ensures !Named(after[i], after[j].scope, after[j].name) && after[i].id != after[j].id {
        assert j == |rows| ==> !Named(rows[i], scope, Trim(name));
      }
      assert Named(after[|rows|], scope, Trim(name));
    }
  }

  lemma ScanInGrown(rows: seq<Node>, more: seq<Node>, scope: Scope, name: string)
    requires rows <= more && Scan(rows, scope, name).Some?
    ensures Scan(more, scope, name) == Scan(rows, scope, name)
  {
    var p := (n: Node) => Named(n, scope, name);
    var i, j := Find(p, rows), Find(p, more);
    assert p(more[i.value]);
    assert j.Some?;
    assert p(rows[i.value]) && p(more[j.value]);
  }

  /** A row that resolves keeps resolving to the same nodes while the tables grow. */
  lemma ResolvedStays(s: Tables, t: Tables, item: Item)
    requires Grown(s, t) && ResolveByScan(s, item).Success?
    ensures ResolveByScan(t, item) == ResolveByScan(s, item)
  {
    ScanInGrown(s.depts, t.depts, InOrg, item.department);
    var dept := Scan(s.depts, InOrg, item.department).value;
    if item.area == "" {
      if item.position != "" { ScanInGrown(s.cargos, t.cargos, InDept(dept.id), item.position); }
    } else {
      ScanInGrown(s.areas, t.areas, InDept(dept.id), item.area);
      var area := Scan(s.areas, InDept(dept.id), item.area).value;
      if item.position != "" { ScanInGrown(s.cargos, t.cargos, InArea(dept.id, area.id), item.position); }
    }
  }

  lemma DeptKeeps(t: Tables, name: string)
    requires WellFormed(t)
    ensures var (u, id, created) := UpsertDept(t, name);
            && WellFormed(u) && Grown(t, u) && |u.depts| == |t.depts| + (if created then 1 else 0)
            && u.areas == t.areas && u.cargos == t.cargos && (!created ==> u == t)
            && Scan(u.depts, InOrg, Trim(name)).Some? && Scan(u.depts, InOrg, Trim(name)).value.id == id
  {
    UpsertKeeps(t.depts, InOrg, name, t.nextId);
  }

  lemma AreaKeeps(t: Tables, dept: nat, name: string)
    requires WellFormed(t)
    ensures var (u, id, created) := UpsertArea(t, dept, name);
            && WellFormed(u) && Grown(t, u) && |u.areas| == |t.areas| + (if created then 1 else 0)
            && u.depts == t.depts && u.cargos == t.cargos && (!created ==> u == t)
            && Scan(u.areas, InDept(dept), Trim(name)).Some? && Scan(u.areas, InDept(dept), Trim(name)).value.id == id
  {
    UpsertKeeps(t.areas, InDept(dept), name, t.nextId);
  }

  lemma CargoKeeps(t: Tables, scope: Scope, name: string)
    requires WellFormed(t) && !scope.InOrg?
    ensures var (u, id, created) := UpsertCargo(t, scope, name);
            && WellFormed(u) && Grown(t, u) && |u.cargos| == |t.cargos| + (if created then 1 else 0)
            && u.depts == t.depts && u.areas == t.areas && (!created ==> u == t)
            && Scan(u.cargos, scope, Trim(name)).Some? && Scan(u.cargos, scope, Trim(name)).value.id == id
  {
    UpsertKeeps(t.cargos, scope, name, t.nextId);
  }

  // Rows and sheets, with any failures

  /** What the counters say about the tables. */
  ghost predicate Tallied(s: Tables, c: Counts, t: Tables, d: Counts) {
    && |t.depts| - |s.depts| == d.deptsCreated - c.deptsCreated
    && |t.areas| - |s.areas| == d.areasCreated - c.areasCreated
    && |t.cargos| - |s.cargos| == d.positionsCreated - c.positionsCreated
  }

  lemma PositionKeeps(t: Tables, c: Counts, scope: Scope, position: string, ok: bool)
    requires WellFormed(t) && !scope.InOrg?
    ensures var (u, d) := ImportPosition(t, c, scope, position, ok);
            WellFormed(u) && Grown(t, u) && Tallied(t, c, u, d)
  {
    if position != "" && ok { CargoKeeps(t, scope, position); }
  }

  lemma RowKeeps(t: Tables, c: Counts, row: Item, ok: nat)
    requires WellFormed(t)
    ensures var (u, d) := ImportRow(t, c, row, ok);
            WellFormed(u) && Grown(t, u) && Tallied(t, c, u, d)
  {
    if ok > 0 {
      DeptKeeps(t, row.department);
      var (t1, dept, newDept) := UpsertDept(t, row.department);
      if row.area == "" {
        PositionKeeps(t1, CountDept(c, newDept), InDept(dept), row.position, ok > 1);
      } else if ok > 1 {
        AreaKeeps(t1, dept, row.area);
        var (t2, area, newArea) := UpsertArea(t1, dept, row.area);
        PositionKeeps(t2, CountArea(CountDept(c, newDept), newArea), InArea(dept, area), row.position, ok > 2);
      }
    }
  }

  /** Any import, however many rows fail, keeps names unique, loses no row, and counts exactly the rows it adds. */
  lemma {:induction false} ImportKeeps(t: Tables, c: Counts, rows: seq<Item>, faults: seq<nat>)
    requires WellFormed(t) && |faults| == |rows|
    ensures var (u, d) := Import(t, c, rows, faults);
            WellFormed(u) && Grown(t, u) && Tallied(t, c, u, d)
  {
    if rows != [] {
      var n := |rows| - 1;
      ImportKeeps(t, c, rows[..n], faults[..n]);
      var (t1, c1) := Import(t, c, rows[..n], faults[..n]);
      RowKeeps(t1, c1, rows[n], faults[n]);
    }
  }

  // Failure-free imports

  ghost predicate FailureFree(faults: seq<nat>) { forall i :: 0 <= i < |faults| ==> faults[i] >= 3 }

  /** After its import a row resolves. */
  lemma RowResolves(t: Tables, c: Counts, row: Item, ok: nat)
    requires WellFormed(t) && Parsed(row) && Upserts(row) <= ok
    ensures ResolveByScan(ImportRow(t, c, row, ok).0, row).Success?
  {
    TrimmedIsFixed(row.department);
    TrimmedIsFixed(row.area);
    TrimmedIsFixed(row.position);
    DeptKeeps(t, row.department);
    var (t1, dept, newDept) := UpsertDept(t, row.department);
    if row.area == "" {
      if row.position != "" { CargoKeeps(t1, InDept(dept), row.position); }
    } else {
      AreaKeeps(t1, dept, row.area);
      var (t2, area, newArea) := UpsertArea(t1, dept, row.area);
      if row.position != "" { CargoKeeps(t2, InArea(dept, area), row.position); }
    }
  }

  /** A row that resolves already is counted as existing and writes nothing. */
  lemma ResolvedRowIsExisting(t: Tables, c: Counts, row: Item, ok: nat)
    requires Parsed(row) && ok >= 3 && ResolveByScan(t, row).Success?
    ensures ImportRow(t, c, row, ok) ==
            (t, c.(deptsExisting := c.deptsExisting + 1,
                   areasExisting := c.areasExisting + (if row.area == "" then 0 else 1),
                   positionsExisting := c.positionsExisting + (if row.position == "" then 0 else 1)))
  {
    TrimmedIsFixed(row.department);
    TrimmedIsFixed(row.area);
    TrimmedIsFixed(row.position);
  }

  /** A row that did not fail resolves after the import, whatever became of the others. */
  lemma {:induction false} ImportedRowResolves(t: Tables, c: Counts, rows: seq<Item>, faults: seq<nat>, i: nat)
    requires WellFormed(t) && |faults| == |rows| && i < |rows| && Upserts(rows[i]) <= faults[i]
    requires forall row | row in rows :: Parsed(row)
    ensures ResolveByScan(Import(t, c, rows, faults).0, rows[i]).Success?
  {
    var n := |rows| - 1;
    ImportKeeps(t, c, rows[..n], faults[..n]);
    var (t1, c1) := Import(t, c, rows[..n], faults[..n]);
    if i == n {
      RowResolves(t1, c1, rows[n], faults[n]);
    } else {
      ImportedRowResolves(t, c, rows[..n], faults[..n], i);
      RowKeeps(t1, c1, rows[n], faults[n]);
      ResolvedStays(t1, ImportRow(t1, c1, rows[n], faults[n]).0, rows[i]);
    }
  }

  function WithArea(rows: seq<Item>): nat {
    if rows == [] then 0 else WithArea(rows[..|rows| - 1]) + (if rows[|rows| - 1].area == "" then 0 else 1)
  }

  function WithPosition(rows: seq<Item>): nat {
    if rows == [] then 0 else WithPosition(rows[..|rows| - 1]) + (if rows[|rows| - 1].position == "" then 0 else 1)
  }

  /** Created and existing of a row that does not fail. */
  ghost predicate RowTotals(c: Counts, d: Counts, row: Item) {
    && d.failed == c.failed
    && d.deptsCreated + d.deptsExisting == c.deptsCreated + c.deptsExisting + 1
    && d.areasCreated + d.areasExisting == c.areasCreated + c.areasExisting + (if row.area == "" then 0 else 1)
    && d.positionsCreated + d.positionsExisting
       == c.positionsCreated + c.positionsExisting + (if row.position == "" then 0 else 1)
  }

  lemma RowCounts(t: Tables, c: Counts, row: Item, ok: nat)
    requires ok >= 3
    ensures RowTotals(c, ImportRow(t, c, row, ok).1, row)
  {
    assert !(ok == 0 || ok == 1);
  }

  /** Created and existing add up to the rows that name the level. */
  ghost predicate Totals(d: Counts, rows: seq<Item>) {
    && d.failed == 0 && d.deptsCreated + d.deptsExisting == |rows|
    && d.areasCreated + d.areasExisting == WithArea(rows)
    && d.positionsCreated + d.positionsExisting == WithPosition(rows)
  }

  lemma {:induction false} CountsMatchRows(t: Tables, rows: seq<Item>, faults: seq<nat>)
    requires |faults| == |rows| && FailureFree(faults)
    ensures Totals(Import(t, NONE, rows, faults).1, rows)
  {
    if rows != [] {
      var n := |rows| - 1;
      CountsMatchRows(t, rows[..n], faults[..n]);
      var (t1, c1) := Import(t, NONE, rows[..n], faults[..n]);
      RowCounts(t1, c1, rows[n], faults[n]);
      TotalsStep(c1, ImportRow(t1, c1, rows[n], faults[n]).1, rows);
    }
  }

  lemma TotalsStep(c: Counts, d: Counts, rows: seq<Item>)
    requires rows != [] && Totals(c, rows[..|rows| - 1]) && RowTotals(c, d, rows[|rows| - 1])
    ensures Totals(d, rows)
  {
  }

  /** The counters of an import that found everything. */
  function AllExisting(rows: seq<Item>): Counts { Counts(0, |rows|, 0, WithArea(rows), 0, WithPosition(rows), 0) }

  lemma {:induction false} ResolvedRowsImportNothing(t: Tables, rows: seq<Item>, faults: seq<nat>)
    requires |faults| == |rows| && FailureFree(faults)
    requires forall row | row in rows :: Parsed(row) && ResolveByScan(t, row).Success?
    ensures Import(t, NONE, rows, faults) == (t, AllExisting(rows))
  {
    if rows != [] {
      var n := |rows| - 1;
      ResolvedRowsImportNothing(t, rows[..n], faults[..n]);
      assert rows[n] in rows;
      RowAddsExisting(t, rows, faults[n]);
    }
  }

  lemma RowAddsExisting(t: Tables, rows: seq<Item>, ok: nat)
    requires rows != [] && ok >= 3
    requires Parsed(rows[|rows| - 1]) && ResolveByScan(t, rows[|rows| - 1]).Success?
    ensures ImportRow(t, AllExisting(rows[..|rows| - 1]), rows[|rows| - 1], ok) == (t, AllExisting(rows))
  {
    ResolvedRowIsExisting(t, AllExisting(rows[..|rows| - 1]), rows[|rows| - 1], ok);
  }

  /** Importing the same sheet a second time creates nothing and finds every row. */
  lemma SecondImportCreatesNothing(t: Tables, sheet: seq<Item>, faults: seq<nat>, again: seq<nat>)
    requires WellFormed(t) && FailureFree(faults) && FailureFree(again)
    requires |faults| == |again| == |Parse(sheet)|
    ensures var rows := Parse(sheet);
            var u := Import(t, NONE, rows, faults).0;
            Import(u, NONE, rows, again) == (u, AllExisting(rows))
  {
    var rows := Parse(sheet);
    ParsedRows(sheet);
    var u := Import(t, NONE, rows, faults).0;
    forall row | row in rows ensures ResolveByScan(u, row).Success? {
      var i :| 0 <= i < |rows| && rows[i] == row;
      ImportedRowResolves(t, NONE, rows, faults, i);
    }
    ResolvedRowsImportNothing(u, rows, again);
  }

  // Maps against scans

  lemma ColonSplitsOnce(p: string, x: string, q: string, y: string)
    requires ':' !in p && ':' !in q && p + ":" + x == q + ":" + y
    ensures p == q && x == y
  {
    var s := p + ":" + x;
    FirstColon(p, x);
    FirstColon(q, y);
    assert |p| == |q|;
    assert s[..|p|] == p && s[..|q|] == q && s[|p| + 1..] == x && s[|q| + 1..] == y;
  }

  lemma FirstColon(p: string, x: string)
    requires ':' !in p
    ensures var s := p + ":" + x; s[|p|] == ':' && forall i :: 0 <= i < |p| ==> s[i] != ':'
  {
  }

  lemma DecimalHasNoColon(n: nat)
    ensures ':' !in Decimal(n)
  {
    DecimalValue(n);
    forall i | 0 <= i < |Decimal(n)| ensures Decimal(n)[i] != ':' {
      assert IsDigit(Decimal(n)[i]);
    }
  }

  lemma TextOfId(m: nat, x: string, n: nat, y: string)
    ensures Decimal(m) + ":" + x == Decimal(n) + ":" + y <==> m == n && x == y
  {
    DecimalHasNoColon(m);
    DecimalHasNoColon(n);
    if Decimal(m) + ":" + x == Decimal(n) + ":" + y {
      ColonSplitsOnce(Decimal(m), x, Decimal(n), y);
      DecimalValue(m);
      DecimalValue(n);
    }
  }

  /** Within one map a key is one scope and name. */
  lemma KeyIsScopeAndName(a: Scope, x: string, b: Scope, y: string)
    requires (a.InOrg? && b.InOrg?) || (a.InDept? && b.InDept?) || (a.InArea? && b.InArea?)
    ensures KeyText(a, x) == KeyText(b, y) <==> SameScope(a, b) && x == y
  {
    if a.InDept? { TextOfId(a.dept, x, b.dept, y); }
    if a.InArea? { TextOfId(a.area, x, b.area, y); }
  }

  ghost predicate SameKind(a: Scope, b: Scope) {
    (a.InOrg? && b.InOrg?) || (a.InDept? && b.InDept?) || (a.InArea? && b.InArea?)
  }

  /** The last row with the key and the first row with the name are the same row. */
  lemma {:induction false} IndexIsScan(rows: seq<Node>, scope: Scope, name: string)
    requires Unique(rows) && forall i :: 0 <= i < |rows| ==> SameKind(rows[i].scope, scope)
    ensures Get(Index(rows), scope, name) == Scan(rows, scope, name)
  {
    if rows != [] {
      var before, last := rows[..|rows| - 1], rows[|rows| - 1];
      IndexIsScan(before, scope, name);
      KeyIsScopeAndName(last.scope, last.name, scope, name);
      ScanAppend(before, last, scope, name);
      assert rows == before + [last];
      if Named(last, scope, name) && Scan(before, scope, name).Some? {
        ScannedIsRow(before, scope, name);
        assert false;
      }
    }
  }

  lemma ScannedIsRow(rows: seq<Node>, scope: Scope, name: string)
    requires Scan(rows, scope, name).Some?
    ensures exists i :: 0 <= i < |rows| && rows[i] == Scan(rows, scope, name).value && Named(rows[i], scope, name)
  {
    var i := Find((n: Node) => Named(n, scope, name), rows).value;
    assert Named(rows[i], scope, name);
  }

  /** Leaving out the cargos of the other level does not change what a scan finds. */
  lemma {:induction false} LevelScan(cargos: seq<Node>, scope: Scope, name: string)
    requires !scope.InOrg?
    ensures Scan(Level(cargos, scope.InArea?), scope, name) == Scan(cargos, scope, name)
  {
    if cargos != [] {
      var before, last := cargos[..|cargos| - 1], cargos[|cargos| - 1];
      LevelScan(before, scope, name);
      ScanAppend(before, last, scope, name);
      ScanAppend(Level(before, scope.InArea?), last, scope, name);
      assert cargos == before + [last];
      assert Level(before, scope.InArea?) + [] == Level(before, scope.InArea?);
    }
  }

  lemma {:induction false} LevelIsUnique(cargos: seq<Node>, inArea: bool)
    requires Unique(cargos)
    ensures Unique(Level(cargos, inArea))
    ensures forall n | n in Level(cargos, inArea) :: n in cargos && n.scope.InArea? == inArea
  {
    if cargos != [] {
      var before, last := cargos[..|cargos| - 1], cargos[|cargos| - 1];
      LevelIsUnique(before, inArea);
      forall n | n in Level(before, inArea) ensures !Named(n, last.scope, last.name) && n.id != last.id {
        assert n in before;
      }
    }
  }

  lemma ScanAppend(rows: seq<Node>, n: Node, scope: Scope, name: string)
    ensures Scan(rows + [n], scope, name)
            == if Scan(rows, scope, name).Some? then Scan(rows, scope, name)
               else if Named(n, scope, name) then Some(n) else None
  {
    var p := (m: Node) => Named(m, scope, name);
    var i, j := Find(p, rows), Find(p, rows + [n]);
    if i.Some? {
      assert p((rows + [n])[i.value]);
    } else {
      assert (rows + [n])[|rows|] == n;
    }
  }

  /** The composite-key maps and the plain scans give the same answer for every item, found or not. */
  lemma MapsAgreeWithScans(t: Tables, item: Item)
    requires WellFormed(t)
    ensures ResolveFromMaps(MapsOf(t), item) == ResolveByScan(t, item)
  {
    var m := MapsOf(t);
    IndexIsScan(t.depts, InOrg, item.department);
    var dept := Scan(t.depts, InOrg, item.department);
    assert Get(m.depts, InOrg, item.department) == dept;
    if dept.Some? {
      if item.area == "" {
        DeptCargoAgrees(t, dept.value.id, item.position);
      } else {
        AreasAgree(t, dept.value, item.area, item.position);
      }
    }
  }

  lemma DeptCargoAgrees(t: Tables, dept: nat, position: string)
    requires WellFormed(t)
    ensures Get(MapsOf(t).deptCargos, InDept(dept), position) == Scan(t.cargos, InDept(dept), position)
  {
    CargosAgree(t.cargos, InDept(dept), position);
  }

  lemma AreasAgree(t: Tables, dept: Node, area: string, position: string)
    requires WellFormed(t)
    ensures Get(MapsOf(t).areas, InDept(dept.id), area) == Scan(t.areas, InDept(dept.id), area)
    ensures var found := Scan(t.areas, InDept(dept.id), area);
            found.Some? ==> AreaFromMaps(MapsOf(t), dept, found.value, position)
                                == AreaByScan(t, dept, found.value, position)
  {
    IndexIsScan(t.areas, InDept(dept.id), area);
    var found := Scan(t.areas, InDept(dept.id), area);
    if found.Some? {
      CargosAgree(t.cargos, InArea(dept.id, found.value.id), position);
    }
  }

  lemma CargosAgree(cargos: seq<Node>, scope: Scope, name: string)
    requires Unique(cargos) && !scope.InOrg? && forall i :: 0 <= i < |cargos| ==> !cargos[i].scope.InOrg?
    ensures Get(Index(Level(cargos, scope.InArea?)), scope, name) == Scan(cargos, scope, name)
  {
    LevelScan(cargos, scope, name);
    LevelIsUnique(cargos, scope.InArea?);
    forall n | n in Level(cargos, scope.InArea?) ensures SameKind(n.scope, scope) {
      assert n in cargos;
    }
    IndexIsScan(Level(cargos, scope.InArea?), scope, name);
  }

  // By id

  lemma IdOfScan(rows: seq<Node>, scope: Scope, name: string)
    requires Unique(rows) && Scan(rows, scope, name).Some?
    ensures ScanId(rows, scope, Scan(rows, scope, name).value.id) == Scan(rows, scope, name)
    ensures Scan(rows, scope, name).value.name == name
  {
    var n := Scan(rows, scope, name).value;
    var i := Find((n: Node) => Named(n, scope, name), rows).value;
    var j := Find((m: Node) => SameScope(m.scope, scope) && m.id == n.id, rows);
    assert rows[i] == n && SameScope(n.scope, scope);
    assert j.Some?;
    assert rows[j.value].id == rows[i].id;
  }

  /** Resolving the ids that a name resolved to gives the names back. */
  lemma NamesComeBack(t: Tables, item: Item)
    requires WellFormed(t) && ResolveByScan(t, item).Success?
    ensures ResolveById(t, ResolveByScan(t, item).value) == Success(item)
  {
    IdOfScan(t.depts, InOrg, item.department);
    var dept := Scan(t.depts, InOrg, item.department).value;
    if item.area == "" {
      if item.position != "" { IdOfScan(t.cargos, InDept(dept.id), item.position); }
    } else {
      IdOfScan(t.areas, InDept(dept.id), item.area);
      var area := Scan(t.areas, InDept(dept.id), item.area).value;
      if item.position != "" { IdOfScan(t.cargos, InArea(dept.id, area.id), item.position); }
    }
  }

  /**
   After an import every row that did not fail is found by name through the maps, and by those ids
   again by name.
   */
  lemma ImportedRowsRoundTrip(t: Tables, sheet: seq<Item>, faults: seq<nat>, i: nat)
    requires WellFormed(t) && |faults| == |Parse(sheet)|
    requires i < |Parse(sheet)| && Upserts(Parse(sheet)[i]) <= faults[i]
    ensures var rows := Parse(sheet);
            var u := Import(t, NONE, rows, faults).0;
            var found := ResolveFromMaps(MapsOf(u), rows[i]);
            && found.Success? && found == ResolveByScan(u, rows[i])
            && ResolveById(u, found.value) == Success(rows[i])
  {
    var rows := Parse(sheet);
    ParsedRows(sheet);
    ImportKeeps(t, NONE, rows, faults);
    var u := Import(t, NONE, rows, faults).0;
    ImportedRowResolves(t, NONE, rows, faults, i);
    MapsAgreeWithScans(u, rows[i]);
    NamesComeBack(u, rows[i]);
  }

  // What a look-up means

  ghost predicate HasDept(t: Tables, name: string, id: nat) { exists n | n in t.depts :: n.name == name && n.id == id }

  ghost predicate HasArea(t: Tables, dept: nat, name: string, id: nat) {
    exists n | n in t.areas :: n.scope == InDept(dept) && n.name == name && n.id == id
  }

  ghost predicate HasCargoOfDept(t: Tables, dept: nat, name: string, id: nat) {
    exists n | n in t.cargos :: n.scope == InDept(dept) && n.name == name && n.id == id
  }

  ghost predicate HasCargoOfArea(t: Tables, area: nat, name: string, id: nat) {
    exists n | n in t.cargos :: n.scope.InArea? && n.scope.area == area && n.name == name && n.id == id
  }

  /** The ids name a departamento of that name and, as far as asked for, an area in it and a cargo below. */
  ghost predicate Located(t: Tables, item: Item, f: Found) {
    && HasDept(t, item.department, f.dept)
    && (if item.area == "" then f.area.None? else f.area.Some? && HasArea(t, f.dept, item.area, f.area.value))
    && (f.cargo.Some? <==> item.position != "")
    && (f.cargo.Some? ==>
          if f.area.None? then HasCargoOfDept(t, f.dept, item.position, f.cargo.value)
          else HasCargoOfArea(t, f.area.value, item.position, f.cargo.value))
  }

  lemma ScanExactly(rows: seq<Node>, scope: Scope, name: string)
    requires Unique(rows)
    ensures forall n :: Scan(rows, scope, name) == Some(n) <==> n in rows && Named(n, scope, name)
  {
    var i := Find((n: Node) => Named(n, scope, name), rows);
    forall n | n in rows && Named(n, scope, name) ensures Scan(rows, scope, name) == Some(n) {
      var j :| 0 <= j < |rows| && rows[j] == n;
      assert i.Some?;
    }
    if i.Some? {
      assert rows[i.value] in rows && Named(rows[i.value], scope, name);
    }
  }

  /** A look-up by name answers with the ids of the nodes it names, and with nothing else. */
  lemma FoundExactly(t: Tables, item: Item, f: Found)
    requires WellFormed(t)
    ensures ResolveByScan(t, item) == Success(f) <==> Located(t, item, f)
  {
    ScanExactly(t.depts, InOrg, item.department);
    forall n | n in t.depts ensures n.scope == InOrg {}
    forall d, name ensures forall n :: Scan(t.areas, InDept(d), name) == Some(n) <==>
                             n in t.areas && n.scope == InDept(d) && n.name == name {
      ScanExactly(t.areas, InDept(d), name);
    }
    forall scope, name ensures forall n :: Scan(t.cargos, scope, name) == Some(n) <==>
                                 n in t.cargos && Named(n, scope, name) {
      ScanExactly(t.cargos, scope, name);
    }
  }

  lemma DeptOfScan(t: Tables, name: string)
    requires WellFormed(t)
    ensures var n := Scan(t.depts, InOrg, name); forall d :: HasDept(t, name, d) <==> n.Some? && d == n.value.id
  {
    ScanExactly(t.depts, InOrg, name);
    forall n | n in t.depts ensures n.scope == InOrg {}
  }

  lemma AreaOfScan(t: Tables, dept: nat, name: string)
    requires WellFormed(t)
    ensures var n := Scan(t.areas, InDept(dept), name);
            forall a :: HasArea(t, dept, name, a) <==> n.Some? && a == n.value.id
  {
    ScanExactly(t.areas, InDept(dept), name);
  }

  lemma CargoOfScan(t: Tables, dept: nat, area: nat, name: string)
    requires WellFormed(t)
    ensures var n := Scan(t.cargos, InDept(dept), name);
            forall c :: HasCargoOfDept(t, dept, name, c) <==> n.Some? && c == n.value.id
    ensures var n := Scan(t.cargos, InArea(dept, area), name);
            forall c :: HasCargoOfArea(t, area, name, c) <==> n.Some? && c == n.value.id
  {
    ScanExactly(t.cargos, InDept(dept), name);
    ScanExactly(t.cargos, InArea(dept, area), name);
  }

  ghost predicate LacksArea(t: Tables, item: Item) {
    exists d :: HasDept(t, item.department, d) && forall a :: !HasArea(t, d, item.area, a)
  }

  ghost predicate LacksCargoInArea(t: Tables, item: Item) {
    exists d, a :: HasDept(t, item.department, d) && HasArea(t, d, item.area, a)
                   && forall c :: !HasCargoOfArea(t, a, item.position, c)
  }

  ghost predicate LacksCargoInDept(t: Tables, item: Item) {
    exists d :: HasDept(t, item.department, d) && forall c :: !HasCargoOfDept(t, d, item.position, c)
  }

  /** The reason of a refusal is the first of the named nodes that is not there. */
  lemma ReasonsExactly(t: Tables, item: Item)
    requires WellFormed(t)
    ensures ResolveByScan(t, item) == Failure(NoDept) <==> forall d :: !HasDept(t, item.department, d)
    ensures ResolveByScan(t, item) == Failure(NoArea) <==> item.area != "" && LacksArea(t, item)
    ensures ResolveByScan(t, item) == Failure(NoCargoInArea) <==>
              item.area != "" && item.position != "" && LacksCargoInArea(t, item)
    ensures ResolveByScan(t, item) == Failure(NoCargoInDept) <==>
              item.area == "" && item.position != "" && LacksCargoInDept(t, item)
  {
    DeptOfScan(t, item.department);
    var dept := Scan(t.depts, InOrg, item.department);
    if dept.Some? {
      var d := dept.value.id;
      assert HasDept(t, item.department, d);
      AreaOfScan(t, d, item.area);
      CargoOfScan(t, d, 0, item.position);
      var ofDept := Scan(t.cargos, InDept(d), item.position);
      assert ofDept.Some? ==> HasCargoOfDept(t, d, item.position, ofDept.value.id);
      var area := Scan(t.areas, InDept(d), item.area);
      if area.Some? {
        assert HasArea(t, d, item.area, area.value.id);
        CargoOfScan(t, d, area.value.id, item.position);
        var inArea := Scan(t.cargos, InArea(d, area.value.id), item.position);
        assert inArea.Some? ==> HasCargoOfArea(t, area.value.id, item.position, inArea.value.id);
      }
    }
  }

  /** No name is empty: blank cells never become nodes. */
  ghost predicate NoBlankNames(t: Tables) {
    && (forall n | n in t.depts :: n.name != "") && (forall n | n in t.areas :: n.name != "")
    && (forall n | n in t.cargos :: n.name != "")
  }

  lemma ScanIdExactly(rows: seq<Node>, scope: Scope, id: nat)
    requires Unique(rows)
    ensures forall n :: ScanId(rows, scope, id) == Some(n) <==> n in rows && SameScope(n.scope, scope) && n.id == id
  {
    var i := Find((n: Node) => SameScope(n.scope, scope) && n.id == id, rows);
    forall n | n in rows && SameScope(n.scope, scope) && n.id == id ensures ScanId(rows, scope, id) == Some(n) {
      var j :| 0 <= j < |rows| && rows[j] == n;
      assert i.Some?;
    }
    if i.Some? {
      assert rows[i.value] in rows;
    }
  }

  /** A look-up by id answers with names exactly when the ids name nodes of these names in each other. */
  lemma NamesExactly(t: Tables, f: Found, item: Item)
    requires WellFormed(t) && NoBlankNames(t)
    ensures ResolveById(t, f) == Success(item) <==> Located(t, item, f)
  {
    if Located(t, item, f) {
      FoundExactly(t, item, f);
      NamesComeBack(t, item);
    }
    if ResolveById(t, f) == Success(item) {
      ScanIdExactly(t.depts, InOrg, f.dept);
      var dept := ScanId(t.depts, InOrg, f.dept).value;
      assert HasDept(t, item.department, f.dept);
      if f.area.Some? {
        ScanIdExactly(t.areas, InDept(f.dept), f.area.value);
        assert HasArea(t, f.dept, item.area, f.area.value);
        if f.cargo.Some? { ScanIdExactly(t.cargos, InArea(f.dept, f.area.value), f.cargo.value); }
      } else if f.cargo.Some? {
        ScanIdExactly(t.cargos, InDept(f.dept), f.cargo.value);
      }
    }
  }

  /**
   Each row of the sheet with a departamento that did not fail is found after the import under the
   trimmed texts of its own cells, and the ids found give these texts back.
   */
  lemma SheetRowsRoundTrip(t: Tables, sheet: seq<Item>, faults: seq<nat>, r: nat) returns (i: nat)
    requires WellFormed(t) && |faults| == |Parse(sheet)| && r < |sheet| && Trim(sheet[r].department) != ""
    ensures i < |Parse(sheet)| && Origin(sheet, i) == r
    ensures var row := Item(Trim(sheet[r].department), Trim(sheet[r].area), Trim(sheet[r].position));
            var u := Import(t, NONE, Parse(sheet), faults).0;
            Upserts(row) <= faults[i] ==>
              && ResolveByScan(u, row).Success?
              && ResolveById(u, ResolveByScan(u, row).value) == Success(row)
  {
    i := IsParsed(sheet, r);
    ParsesExactly(sheet);
    var row := Item(Trim(sheet[r].department), Trim(sheet[r].area), Trim(sheet[r].position));
    assert Parse(sheet)[i] == row;
    if Upserts(row) <= faults[i] { ImportedRowsRoundTrip(t, sheet, faults, i); }
  }
}
