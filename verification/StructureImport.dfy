/** Import and look-up of the org structure (org-service/src/org-structure/bulk-structure.service.ts). */
module StructureImport {
  import opened Wrappers
  import opened Rows
  import opened Text

  /**
   Where a name is unique: a departamento in the organization, an area or cargo in a departamento,
   a cargo in an area.
   */
  datatype Scope = InOrg | InDept(dept: nat) | InArea(dept: nat, area: nat)

  /** A live row of the organization. UUIDs are numbers here; all that is used is that their text has no colon. */
  datatype Node = Node(id: nat, scope: Scope, name: string)

  /** `nextId` stands for the database's supply of ids. */
  datatype Tables = Tables(depts: seq<Node>, areas: seq<Node>, cargos: seq<Node>, nextId: nat)

  /** Absent cells are empty. */
  datatype Item = Item(department: string, area: string, position: string)

  datatype Counts = Counts(deptsCreated: nat, deptsExisting: nat, areasCreated: nat, areasExisting: nat,
                           positionsCreated: nat, positionsExisting: nat, failed: nat)

  datatype Found = Found(dept: nat, area: Option<nat>, cargo: Option<nat>)

  datatype Reason = NoDept | NoArea | NoCargoInArea | NoCargoInDept

  // Sheets

  /** One row of the sheet "Estructura"; rows without a departamento are skipped. */
  function ParseRow(cells: Item): Option<Item> {
    if Trim(cells.department) == "" then None
    else Some(Item(Trim(cells.department), Trim(cells.area), Trim(cells.position)))
  }

  function Parse(sheet: seq<Item>): seq<Item> {
    if sheet == [] then []
    else match ParseRow(sheet[0])
      case None => Parse(sheet[1..])
      case Some(row) => [row] + Parse(sheet[1..])
  }

  /** Where in the sheet the i-th parsed row stands. */
  function Origin(sheet: seq<Item>, i: nat): (r: nat)
    requires i < |Parse(sheet)|
    ensures r < |sheet| && ParseRow(sheet[r]) == Some(Parse(sheet)[i])
  {
    if ParseRow(sheet[0]).None? then Origin(sheet[1..], i) + 1
    else if i == 0 then 0
    else Origin(sheet[1..], i - 1) + 1
  }

  /** The first n rows of the sheet all have a departamento. */
  ghost predicate NoneSkipped(sheet: seq<Item>, n: nat)
    requires n <= |sheet|
  {
    forall k :: 0 <= k < n ==> ParseRow(sheet[k]).Some?
  }

  lemma NoneSkippedBehind(sheet: seq<Item>, n: nat)
    requires 0 < n <= |sheet|
    ensures NoneSkipped(sheet, n) <==> ParseRow(sheet[0]).Some? && NoneSkipped(sheet[1..], n - 1)
  {
    if NoneSkipped(sheet[1..], n - 1) {
      forall k | 1 <= k < n ensures ParseRow(sheet[k]).Some? {
        assert sheet[k] == sheet[1..][k - 1];
      }
    }
  }

  /** Parsed rows are counted on without the skipped ones: a count is the sheet row only if none was skipped before. */
  lemma {:induction false} CountIsSheetRowExactly(sheet: seq<Item>, i: nat)
    requires i < |Parse(sheet)|
    ensures i <= Origin(sheet, i) < |sheet|
    ensures Origin(sheet, i) == i <==> NoneSkipped(sheet, i + 1)
  {
    if ParseRow(sheet[0]).None? {
      CountIsSheetRowExactly(sheet[1..], i);
    } else if i > 0 {
      CountIsSheetRowExactly(sheet[1..], i - 1);
      NoneSkippedBehind(sheet, i + 1);
    }
  }

  /** Below an empty row the report is off: the only row that was parsed stands in the second row, not in the first. */
  lemma SkippedRowShiftsCount()
    ensures var sheet := [Item("", "", ""), Item("a", "", "")];
            |Parse(sheet)| == 1 && Parse(sheet)[0] == sheet[1] && Origin(sheet, 0) == 1
  {
    var sheet := [Item("", "", ""), Item("a", "", "")];
    assert sheet[1..] == [Item("a", "", "")] && sheet[1..][1..] == [];
    assert Trim("") == "" && Trim("a") == "a";
  }

  /** The sheet row, each cell trimmed in its own column. */
  ghost predicate TrimsRow(row: Item, cells: Item) {
    row.department == Trim(cells.department) && row.area == Trim(cells.area) && row.position == Trim(cells.position)
  }

  /** Behind the first row of a sheet everything stands one row further on than in the rest of it. */
  lemma OriginBehind(sheet: seq<Item>, i: nat)
    requires i < |Parse(sheet)| && (i > 0 || ParseRow(sheet[0]).None?)
    ensures var k := if ParseRow(sheet[0]).None? then i else i - 1;
            k < |Parse(sheet[1..])| && Origin(sheet, i) == Origin(sheet[1..], k) + 1
  {
  }

  lemma {:induction false} OriginsIncrease(sheet: seq<Item>, i: nat, j: nat)
    requires i < j < |Parse(sheet)|
    ensures Origin(sheet, i) < Origin(sheet, j)
  {
    OriginBehind(sheet, j);
    if ParseRow(sheet[0]).None? {
      OriginBehind(sheet, i);
      OriginsIncrease(sheet[1..], i, j);
    } else if i > 0 {
      OriginBehind(sheet, i);
      OriginsIncrease(sheet[1..], i - 1, j - 1);
    }
  }

  lemma {:induction false} IsParsed(sheet: seq<Item>, r: nat) returns (i: nat)
    requires r < |sheet| && Trim(sheet[r].department) != ""
    ensures i < |Parse(sheet)| && Origin(sheet, i) == r
  {
    if r == 0 {
      i := 0;
    } else {
      i := IsParsed(sheet[1..], r - 1);
      if ParseRow(sheet[0]).Some? { i := i + 1; }
    }
  }

  lemma RowIsTrimmed(sheet: seq<Item>, i: nat)
    requires i < |Parse(sheet)|
    ensures TrimsRow(Parse(sheet)[i], sheet[Origin(sheet, i)])
    ensures Trim(sheet[Origin(sheet, i)].department) != ""
  {
    assert ParseRow(sheet[Origin(sheet, i)]) == Some(Parse(sheet)[i]);
  }

  /**
   Parsing keeps exactly the rows with a departamento, in order, each as the trimmed texts of its
   own cells.
   */
  lemma ParsesExactly(sheet: seq<Item>)
    ensures forall i :: 0 <= i < |Parse(sheet)| ==> TrimsRow(Parse(sheet)[i], sheet[Origin(sheet, i)])
    ensures forall i, j :: 0 <= i < j < |Parse(sheet)| ==> Origin(sheet, i) < Origin(sheet, j)
    ensures forall i :: 0 <= i < |Parse(sheet)| ==> Trim(sheet[Origin(sheet, i)].department) != ""
    ensures forall r :: 0 <= r < |sheet| && Trim(sheet[r].department) != "" ==>
              exists i :: 0 <= i < |Parse(sheet)| && Origin(sheet, i) == r
  {
    forall i | 0 <= i < |Parse(sheet)|
      ensures TrimsRow(Parse(sheet)[i], sheet[Origin(sheet, i)]) && Trim(sheet[Origin(sheet, i)].department) != ""
    {
      RowIsTrimmed(sheet, i);
    }
    forall i, j | 0 <= i < j < |Parse(sheet)| ensures Origin(sheet, i) < Origin(sheet, j) {
      OriginsIncrease(sheet, i, j);
    }
    forall r | 0 <= r < |sheet| && Trim(sheet[r].department) != ""
      ensures exists i :: 0 <= i < |Parse(sheet)| && Origin(sheet, i) == r
    {
      var i := IsParsed(sheet, r);
    }
  }

  /** What parsing guarantees about a row. */
  ghost predicate Parsed(row: Item) {
    row.department != "" && Trimmed(row.department) && Trimmed(row.area) && Trimmed(row.position)
  }

  lemma {:induction false} ParsedRows(sheet: seq<Item>)
    ensures forall row | row in Parse(sheet) :: Parsed(row)
  {
    if sheet != [] {
      ParsedRows(sheet[1..]);
      TrimIsTrimmed(sheet[0].department);
      TrimIsTrimmed(sheet[0].area);
      TrimIsTrimmed(sheet[0].position);
    }
  }

  // Scans

  /** Cargos of an area are found by the area alone. */
  predicate SameScope(a: Scope, b: Scope) {
    if a.InArea? then b.InArea? && a.area == b.area else a == b
  }

  predicate Named(n: Node, scope: Scope, name: string) { SameScope(n.scope, scope) && n.name == name }

  /** findOne by scope and name. */
  function Scan(rows: seq<Node>, scope: Scope, name: string): Option<Node> {
    match Find((n: Node) => Named(n, scope, name), rows)
    case None => None
    case Some(i) => Some(rows[i])
  }

  /** findOne by scope and id. */
  function ScanId(rows: seq<Node>, scope: Scope, id: nat): Option<Node> {
    match Find((n: Node) => SameScope(n.scope, scope) && n.id == id, rows)
    case None => None
    case Some(i) => Some(rows[i])
  }

  // Import

  /** The node of that name, created when there is none. */
  function Upsert(rows: seq<Node>, scope: Scope, name: string, freshId: nat): (seq<Node>, nat, bool) {
    match Scan(rows, scope, Trim(name))
    case Some(n) => (rows, n.id, false)
    case None => (rows + [Node(freshId, scope, Trim(name))], freshId, true)
  }

  function UpsertDept(t: Tables, name: string): (Tables, nat, bool) {
    var (rows, id, created) := Upsert(t.depts, InOrg, name, t.nextId);
    (t.(depts := rows, nextId := t.nextId + (if created then 1 else 0)), id, created)
  }

  function UpsertArea(t: Tables, dept: nat, name: string): (Tables, nat, bool) {
    var (rows, id, created) := Upsert(t.areas, InDept(dept), name, t.nextId);
    (t.(areas := rows, nextId := t.nextId + (if created then 1 else 0)), id, created)
  }

  function UpsertCargo(t: Tables, scope: Scope, name: string): (Tables, nat, bool) {
    var (rows, id, created) := Upsert(t.cargos, scope, name, t.nextId);
    (t.(cargos := rows, nextId := t.nextId + (if created then 1 else 0)), id, created)
  }

  function CountDept(c: Counts, created: bool): Counts {
    if created then c.(deptsCreated := c.deptsCreated + 1) else c.(deptsExisting := c.deptsExisting + 1)
  }

  function CountArea(c: Counts, created: bool): Counts {
    if created then c.(areasCreated := c.areasCreated + 1) else c.(areasExisting := c.areasExisting + 1)
  }

  function CountPosition(c: Counts, created: bool): Counts {
    if created then c.(positionsCreated := c.positionsCreated + 1) else c.(positionsExisting := c.positionsExisting + 1)
  }

  function Failed(c: Counts): Counts { c.(failed := c.failed + 1) }

  /** How many upserts a row takes. */
  function Upserts(row: Item): nat {
    1 + (if row.area == "" then 0 else 1) + (if row.position == "" then 0 else 1)
  }

  /** A row whose first `ok` upserts succeed; what they wrote and counted stays when a later one fails. */
  function ImportRow(t: Tables, c: Counts, row: Item, ok: nat): (Tables, Counts) {
    if ok == 0 then (t, Failed(c))
    else
      var (t1, dept, newDept) := UpsertDept(t, row.department);
      var c1 := CountDept(c, newDept);
      if row.area != "" then
        if ok == 1 then (t1, Failed(c1))
        else
          var (t2, area, newArea) := UpsertArea(t1, dept, row.area);
          ImportPosition(t2, CountArea(c1, newArea), InArea(dept, area), row.position, ok > 2)
      else ImportPosition(t1, c1, InDept(dept), row.position, ok > 1)
  }

  function ImportPosition(t: Tables, c: Counts, scope: Scope, position: string, ok: bool): (Tables, Counts) {
    if position == "" then (t, c)
    else if !ok then (t, Failed(c))
    else
      var (t1, _, created) := UpsertCargo(t, scope, position);
      (t1, CountPosition(c, created))
  }

  /** `faults[i]` is how many upserts of row i succeed before one fails; no row makes more than three. */
  function Import(t: Tables, c: Counts, rows: seq<Item>, faults: seq<nat>): (Tables, Counts)
    requires |faults| == |rows|
  {
    if rows == [] then (t, c)
    else
      var n := |rows| - 1;
      var (t1, c1) := Import(t, c, rows[..n], faults[..n]);
      ImportRow(t1, c1, rows[n], faults[n])
  }

  const NONE := Counts(0, 0, 0, 0, 0, 0, 0)

  // Look-up by name

  function KeyText(scope: Scope, name: string): string {
    match scope
    case InOrg => name
    case InDept(d) => Decimal(d) + ":" + name
    case InArea(_, a) => Decimal(a) + ":" + name
  }

  /** new Map(rows.map(...)): a later row replaces an earlier one with the same key. */
  function Index(rows: seq<Node>): map<string, Node> {
    if rows == [] then map[]
    else Index(rows[..|rows| - 1])[KeyText(rows[|rows| - 1].scope, rows[|rows| - 1].name) := rows[|rows| - 1]]
  }

  function Get(m: map<string, Node>, scope: Scope, name: string): Option<Node> {
    var key := KeyText(scope, name);
    if key in m then Some(m[key]) else None
  }

  /** The cargos with an area, or those without. */
  function Level(cargos: seq<Node>, inArea: bool): seq<Node> {
    if cargos == [] then []
    else
      var last := cargos[|cargos| - 1];
      Level(cargos[..|cargos| - 1], inArea) + (if last.scope.InArea? == inArea then [last] else [])
  }

  datatype Maps = Maps(depts: map<string, Node>, areas: map<string, Node>,
                       areaCargos: map<string, Node>, deptCargos: map<string, Node>)

  function MapsOf(t: Tables): Maps {
    Maps(Index(t.depts), Index(t.areas), Index(Level(t.cargos, true)), Index(Level(t.cargos, false)))
  }

  function ResolveFromMaps(m: Maps, item: Item): Result<Found, Reason> {
    match Get(m.depts, InOrg, item.department)
    case None => Failure(NoDept)
    case Some(dept) =>
      if item.position != "" && item.area == "" then
        match Get(m.deptCargos, InDept(dept.id), item.position)
        case None => Failure(NoCargoInDept)
        case Some(cargo) => Success(Found(dept.id, None, Some(cargo.id)))
      else if item.area == "" then Success(Found(dept.id, None, None))
      else
        match Get(m.areas, InDept(dept.id), item.area)
        case None => Failure(NoArea)
        case Some(area) => AreaFromMaps(m, dept, area, item.position)
  }

  function AreaFromMaps(m: Maps, dept: Node, area: Node, position: string): Result<Found, Reason> {
    if position == "" then Success(Found(dept.id, Some(area.id), None))
    else
      match Get(m.areaCargos, InArea(dept.id, area.id), position)
      case None => Failure(NoCargoInArea)
      case Some(cargo) => Success(Found(dept.id, Some(area.id), Some(cargo.id)))
  }

  /** The same look-up by plain scans of the tables. */
  function ResolveByScan(t: Tables, item: Item): Result<Found, Reason> {
    match Scan(t.depts, InOrg, item.department)
    case None => Failure(NoDept)
    case Some(dept) =>
      if item.area == "" then
        if item.position == "" then Success(Found(dept.id, None, None))
        else
          match Scan(t.cargos, InDept(dept.id), item.position)
          case None => Failure(NoCargoInDept)
          case Some(cargo) => Success(Found(dept.id, None, Some(cargo.id)))
      else
        match Scan(t.areas, InDept(dept.id), item.area)
        case None => Failure(NoArea)
        case Some(area) => AreaByScan(t, dept, area, item.position)
  }

  function AreaByScan(t: Tables, dept: Node, area: Node, position: string): Result<Found, Reason> {
    if position == "" then Success(Found(dept.id, Some(area.id), None))
    else
      match Scan(t.cargos, InArea(dept.id, area.id), position)
      case None => Failure(NoCargoInArea)
      case Some(cargo) => Success(Found(dept.id, Some(area.id), Some(cargo.id)))
  }

  // Look-up by id

  /** The names of a departamento and, as far as given, of an area and a cargo below it. */
  function ResolveById(t: Tables, f: Found): Result<Item, Reason> {
    match ScanId(t.depts, InOrg, f.dept)
    case None => Failure(NoDept)
    case Some(dept) =>
      match (f.area, f.cargo)
      case (None, None) => Success(Item(dept.name, "", ""))
      case (None, Some(c)) =>
        (match ScanId(t.cargos, InDept(dept.id), c)
         case None => Failure(NoCargoInDept)
         case Some(cargo) => Success(Item(dept.name, "", cargo.name)))
      case (Some(a), _) =>
        (match ScanId(t.areas, InDept(dept.id), a)
         case None => Failure(NoArea)
         case Some(area) => ResolveCargoById(t, dept, area, f.cargo))
  }

  function ResolveCargoById(t: Tables, dept: Node, area: Node, cargoId: Option<nat>): Result<Item, Reason> {
    match cargoId
    case None => Success(Item(dept.name, area.name, ""))
    case Some(c) =>
      match ScanId(t.cargos, InArea(dept.id, area.id), c)
      case None => Failure(NoCargoInArea)
      case Some(cargo) => Success(Item(dept.name, area.name, cargo.name))
  }
}
