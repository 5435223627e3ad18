/** Keyset pagination of organizations (org-service/src/orgs/orgs.service.ts). */
module OrgPages {
  import opened Wrappers
  import opened Rows

  const UUIDS := 0x1_0000_0000_0000_0000_0000_0000_0000_0000

  /** `createdAt` is a timestamptz, in microseconds; `id` is the UUID as a number, which sorts like its text. */
  datatype Org = Org(id: nat, createdAt: int, name: string, nit: string, active: bool, deleted: bool)

  /** What a cursor carries: a Date, so whole milliseconds, and an id. */
  datatype Cursor = Cursor(at: int, id: nat)

  datatype Page = Page(data: seq<Org>, nextCursor: Option<Cursor>, hasMore: bool)

  function Limit(requested: Option<int>): (r: nat)
    ensures 1 <= r <= 100
  {
    var wanted := match requested case None => 20 case Some(n) => n;
    var atLeastOne := if wanted < 1 then 1 else wanted;
    if 100 < atLeastOne then 100 else atLeastOne
  }

  /** Reading a timestamp into a Date drops the microseconds. */
  function Floor(micros: int): int { micros / 1000 * 1000 }

  function Encode(o: Org): Cursor { Cursor(Floor(o.createdAt), o.id) }

  predicate After(o: Org, c: Cursor) { o.createdAt > c.at || (o.createdAt == c.at && o.id > c.id) }

  predicate Selected(o: Org, matches: Org -> bool, c: Option<Cursor>) {
    matches(o) && (c.Some? ==> After(o, c.value))
  }

  /** Creation time first, id second. */
  function Key(o: Org): int { o.createdAt * UUIDS + o.id }

  /** The rows the query selects, in order. */
  function Found(table: seq<Org>, matches: Org -> bool, cursor: Option<Cursor>): seq<Org> {
    SortBy(Key, Filter((o: Org) => Selected(o, matches, cursor), table))
  }

  /** Fetches one row more than the page holds to see whether another follows. */
  function PageFrom(found: seq<Org>, limit: nat): Page {
    var rows := found[..if |found| < limit + 1 then |found| else limit + 1];
    var hasMore := |rows| > limit;
    var data := if hasMore then rows[..limit] else rows;
    Page(data, if hasMore && |data| > 0 then Some(Encode(data[|data| - 1])) else None, hasMore)
  }

  /** One request: `matches` is the search and status filter. */
  function FindAll(table: seq<Org>, matches: Org -> bool, requested: Option<int>, cursor: Option<Cursor>): Page {
    PageFrom(Found(table, matches, cursor), Limit(requested))
  }

  /** All matching rows, in the order of the listing. */
  function Listing(table: seq<Org>, matches: Org -> bool): seq<Org> {
    SortBy(Key, Filter(matches, table))
  }

  datatype Walk = More(rows: seq<Org>, cursor: Option<Cursor>) | Done(rows: seq<Org>)

  function Collect(rows: seq<Org>, page: Page): Walk {
    match page.nextCursor
    case None => Done(rows + page.data)
    case Some(c) => More(rows + page.data, Some(c))
  }

  /** The request after `w`, with its cursor. */
  function Request(table: seq<Org>, matches: Org -> bool, requested: Option<int>, w: Walk): Walk {
    match w
    case Done(_) => w
    case More(rows, cursor) => Collect(rows, FindAll(table, matches, requested, cursor))
  }

  /** The rows collected by n requests, each with the cursor of the one before, until there is none. */
  function Follow(table: seq<Org>, matches: Org -> bool, requested: Option<int>, n: nat): Walk {
    if n == 0 then More([], None) else Request(table, matches, requested, Follow(table, matches, requested, n - 1))
  }

  ghost predicate ValidTable(table: seq<Org>) {
    && (forall o | o in table :: o.id < UUIDS)
    && (forall i, j :: 0 <= i < j < |table| ==> table[i].id != table[j].id)
  }

  // The listing

  function ById(o: Org): int { o.id }

  ghost predicate Strict(s: seq<Org>) {
    && (forall i :: 0 <= i < |s| ==> s[i].id < UUIDS)
    && (forall i, j :: 0 <= i < j < |s| ==> Key(s[i]) < Key(s[j]) && s[i] != s[j])
  }

  lemma ListingHasMatches(table: seq<Org>, matches: Org -> bool, o: Org)
    ensures o in Listing(table, matches) <==> o in table && matches(o)
  {
    SortHasSameRows(Key, Filter(matches, table), o);
    FilterHas(matches, table, o);
  }

  lemma ListingIsStrict(table: seq<Org>, matches: Org -> bool)
    requires ValidTable(table)
    ensures Strict(Listing(table, matches))
  {
    var rows, listing := Filter(matches, table), Listing(table, matches);
    assert DistinctBy(ById, table);
    FilterKeepsDistinct(ById, matches, table);
    SortKeepsDistinct(ById, Key, rows);
    SortIsSorted(Key, rows);
    forall i | 0 <= i < |listing| ensures listing[i].id < UUIDS {
      ListingHasMatches(table, matches, listing[i]);
    }
    forall i, j | 0 <= i < j < |listing| ensures Key(listing[i]) < Key(listing[j]) {
      KeysDiffer(listing[i], listing[j]);
    }
  }

  lemma KeysDiffer(a: Org, b: Org)
    requires a.id < UUIDS && b.id < UUIDS && a.id != b.id
    ensures Key(a) != Key(b)
  {
  }

  /** The row comparison of the query is the order of the listing. */
  lemma AfterIsLaterKey(o: Org, c: Cursor)
    requires o.id < UUIDS && c.id < UUIDS
    ensures After(o, c) <==> c.at * UUIDS + c.id < Key(o)
  {
  }

  /** Where a request goes on: the first row after the cursor. */
  function Start(listing: seq<Org>, c: Option<Cursor>): (r: nat)
    ensures r <= |listing|
  {
    match c
    case None => 0
    case Some(at) =>
      match Find((o: Org) => After(o, at), listing)
      case None => |listing|
      case Some(i) => i
  }

  lemma AfterFromStart(listing: seq<Org>, c: Cursor)
    requires Strict(listing) && c.id < UUIDS
    ensures forall i :: 0 <= i < |listing| ==> (After(listing[i], c) <==> Start(listing, Some(c)) <= i)
  {
    forall i | 0 <= i < |listing| ensures After(listing[i], c) <==> Start(listing, Some(c)) <= i {
      var k := Start(listing, Some(c));
      AfterIsLaterKey(listing[i], c);
      if k <= i { AfterIsLaterKey(listing[k], c); }
    }
  }

  /** One request sees the rest of the listing. */
  lemma FoundIsSuffix(table: seq<Org>, matches: Org -> bool, c: Option<Cursor>)
    requires ValidTable(table) && (c.Some? ==> c.value.id < UUIDS)
    ensures var listing := Listing(table, matches); Found(table, matches, c) == listing[Start(listing, c)..]
  {
    var listing := Listing(table, matches);
    var selected := (o: Org) => Selected(o, matches, c);
    var after := (o: Org) => c.Some? ==> After(o, c.value);
    ListingIsStrict(table, matches);
    FilterTwice(matches, after, selected, table);
    FilterSort(after, Key, Filter(matches, table));
    if c.Some? { AfterFromStart(listing, c.value); }
    FilterSuffix(after, listing, Start(listing, c));
  }

  /** Rows are compared by creation time, then by id. */
  ghost predicate Later(o: Org, c: Cursor) { o.createdAt > c.at || (o.createdAt == c.at && o.id > c.id) }

  /** The cursor names the row by its id and the whole millisecond in which it was created. */
  ghost predicate NamesRow(c: Cursor, o: Org) {
    c.id == o.id && c.at % 1000 == 0 && c.at <= o.createdAt < c.at + 1000
  }

  lemma EncodedNamesRow(o: Org)
    ensures NamesRow(Encode(o), o)
  {
  }

  /** The page holds the rows of the listing from `first` on, as many as fit, and tells whether rows are left. */
  ghost predicate IsPage(page: Page, listing: seq<Org>, first: nat, limit: nat)
    requires first <= |listing|
  {
    if first + limit < |listing| then
      && page.hasMore && page.data == listing[first..first + limit] && |page.data| > 0
      && page.nextCursor.Some? && NamesRow(page.nextCursor.value, page.data[|page.data| - 1])
    else
      !page.hasMore && page.data == listing[first..] && page.nextCursor.None?
  }

  /**
   One page, taken from the first row of the listing behind the cursor: 20 rows, or as many as
   asked for, between 1 and 100.
   */
  lemma PageExactly(table: seq<Org>, matches: Org -> bool, requested: Option<int>, c: Option<Cursor>)
    returns (first: nat)
    requires ValidTable(table) && (c.Some? ==> c.value.id < UUIDS)
    ensures var listing := Listing(table, matches);
            && first <= |listing|
            && (forall i :: 0 <= i < |listing| ==> (first <= i <==> c.None? || Later(listing[i], c.value)))
            && IsPage(FindAll(table, matches, requested, c), listing, first,
                      if requested.None? then 20 else if requested.value < 1 then 1
                      else if 100 < requested.value then 100 else requested.value)
  {
    var listing := Listing(table, matches);
    first := Start(listing, c);
    ListingIsStrict(table, matches);
    FoundIsSuffix(table, matches, c);
    if c.Some? { AfterFromStart(listing, c.value); }
    PageOf(listing, first, Limit(requested));
  }

  lemma PageOf(listing: seq<Org>, first: nat, limit: nat)
    requires first <= |listing| && 0 < limit
    ensures IsPage(PageFrom(listing[first..], limit), listing, first, limit)
  {
    if first + limit < |listing| {
      assert listing[first..][..limit + 1][..limit] == listing[first..first + limit];
      EncodedNamesRow(listing[first + limit - 1]);
    } else {
      assert listing[first..][..|listing| - first] == listing[first..];
    }
  }

  /** Adding the page from index m on extends the rows collected so far. */
  lemma PageExtends(listing: seq<Org>, m: nat, limit: nat)
    requires m <= |listing| && 0 < limit
    ensures Collect(listing[..m], PageFrom(listing[m..], limit))
            == if m + limit < |listing| then More(listing[..m + limit], Some(Encode(listing[m + limit - 1])))
               else Done(listing)
  {
    if m + limit < |listing| {
      assert listing[m..][..limit + 1][..limit] == listing[m..m + limit];
      assert listing[..m] + listing[m..m + limit] == listing[..m + limit];
    } else {
      assert listing[m..][..|listing| - m] == listing[m..];
      assert listing[..m] + listing[m..] == listing;
    }
  }

  // Walks

  predicate IsWhole(o: Org) { o.createdAt % 1000 == 0 }

  /** The last row of the k-th page, when another page follows. */
  ghost predicate BoundaryWhole(listing: seq<Org>, limit: nat, k: nat) {
    0 < k && k * limit < |listing| && limit > 0 ==> 0 < k * limit && IsWhole(listing[k * limit - 1])
  }

  ghost predicate WholeBoundaries(listing: seq<Org>, limit: nat) {
    forall k: nat :: BoundaryWhole(listing, limit, k)
  }

  function Reached(listing: seq<Org>, limit: nat, n: nat): Walk {
    if n == 0 then More([], None)
    else if 0 < n * limit < |listing| then More(listing[..n * limit], Some(Encode(listing[n * limit - 1])))
    else Done(listing)
  }

  lemma Times(n: nat, limit: nat)
    requires n > 0 && limit > 0
    ensures n * limit == (n - 1) * limit + limit && (n - 1) * limit >= 0
    ensures n > 1 ==> (n - 1) * limit > 0
  {
  }

  /** A whole last row is where the next request goes on. */
  lemma WholeGoesOn(listing: seq<Org>, m: nat)
    requires Strict(listing) && 0 < m < |listing|
    ensures IsWhole(listing[m - 1]) ==> Start(listing, Some(Encode(listing[m - 1]))) == m
    ensures !IsWhole(listing[m - 1]) ==> Start(listing, Some(Encode(listing[m - 1]))) < m
  {
    var c := Encode(listing[m - 1]);
    AfterFromStart(listing, c);
    AfterIsLaterKey(listing[m], c);
    AfterIsLaterKey(listing[m - 1], c);
    var k := Start(listing, Some(c));
    assert After(listing[m - 1], c) <==> k <= m - 1;
    assert After(listing[m], c) <==> k <= m;
  }

  /** As long as the pages passed ended on whole milliseconds, n requests return the first n pages. */
  lemma {:induction false} FollowReaches(table: seq<Org>, matches: Org -> bool, requested: Option<int>, n: nat)
    requires ValidTable(table)
    requires forall k: nat | k < n :: BoundaryWhole(Listing(table, matches), Limit(requested), k)
    ensures Follow(table, matches, requested, n) == Reached(Listing(table, matches), Limit(requested), n)
  {
    if n > 0 {
      FollowReaches(table, matches, requested, n - 1);
      assert BoundaryWhole(Listing(table, matches), Limit(requested), n - 1);
      RequestReaches(table, matches, requested, n);
      FollowUnfolds(table, matches, requested, n);
    }
  }

  lemma FollowUnfolds(table: seq<Org>, matches: Org -> bool, requested: Option<int>, n: nat)
    requires n > 0
    ensures Follow(table, matches, requested, n)
            == Request(table, matches, requested, Follow(table, matches, requested, n - 1))
  {
  }

  lemma RequestReaches(table: seq<Org>, matches: Org -> bool, requested: Option<int>, n: nat)
    requires ValidTable(table) && n > 0
    requires BoundaryWhole(Listing(table, matches), Limit(requested), n - 1)
    ensures var listing, limit := Listing(table, matches), Limit(requested);
            Request(table, matches, requested, Reached(listing, limit, n - 1)) == Reached(listing, limit, n)
  {
    var listing, limit := Listing(table, matches), Limit(requested);
    var m := (n - 1) * limit;
    Times(n, limit);
    if m < |listing| || n == 1 {
      GoesOn(table, matches, m);
      var c := if n == 1 then None else Some(Encode(listing[m - 1]));
      assert Reached(listing, limit, n - 1) == More(listing[..m], c);
      FoundIsSuffix(table, matches, c);
      PageExtends(listing, m, limit);
    }
  }

  lemma GoesOn(table: seq<Org>, matches: Org -> bool, m: nat)
    requires ValidTable(table)
    ensures var listing := Listing(table, matches);
            0 < m < |listing| && IsWhole(listing[m - 1]) ==>
              listing[m - 1].id < UUIDS && Start(listing, Some(Encode(listing[m - 1]))) == m
  {
    ListingIsStrict(table, matches);
    if 0 < m < |Listing(table, matches)| { WholeGoesOn(Listing(table, matches), m); }
  }

  lemma RequestOnlyAdds(table: seq<Org>, matches: Org -> bool, requested: Option<int>, rows: seq<Org>, w: Walk)
    requires rows <= w.rows
    ensures rows <= Request(table, matches, requested, w).rows
  {
    PrefixOfPrefix(rows, w.rows, Request(table, matches, requested, w).rows);
  }

  lemma {:induction false} FollowOnlyAdds(table: seq<Org>, matches: Org -> bool, requested: Option<int>,
                                          n: nat, more: nat)
    requires n <= more
    ensures Follow(table, matches, requested, n).rows <= Follow(table, matches, requested, more).rows
    decreases more
  {
    if n < more {
      var rows := Follow(table, matches, requested, n).rows;
      FollowOnlyAdds(table, matches, requested, n, more - 1);
      RequestOnlyAdds(table, matches, requested, rows, Follow(table, matches, requested, more - 1));
      FollowUnfolds(table, matches, requested, more);
    }
  }

  lemma PrefixOfPrefix(a: seq<Org>, b: seq<Org>, c: seq<Org>)
    requires a <= b <= c
    ensures a <= c
  {
  }

  /** The walk goes on at least until it has passed every page it could take in full. */
  lemma NotDoneBefore(table: seq<Org>, matches: Org -> bool, requested: Option<int>, k: nat, n: nat)
    requires ValidTable(table) && n <= k && k * Limit(requested) < |Listing(table, matches)|
    requires forall j: nat | j < k :: BoundaryWhole(Listing(table, matches), Limit(requested), j)
    ensures Follow(table, matches, requested, n).More?
  {
    FollowReaches(table, matches, requested, n);
    Smaller(n, k, Limit(requested));
  }

  lemma Smaller(n: nat, k: nat, limit: nat)
    requires n <= k
    ensures n * limit <= k * limit && (n > 0 && limit > 0 ==> n * limit > 0)
  {
  }

  /** After a page that ends within a millisecond some row comes a second time. */
  lemma PartialRepeats(table: seq<Org>, matches: Org -> bool, requested: Option<int>, k: nat)
    requires ValidTable(table)
    requires forall j: nat | j < k :: BoundaryWhole(Listing(table, matches), Limit(requested), j)
    requires !BoundaryWhole(Listing(table, matches), Limit(requested), k)
    ensures Repeats(Follow(table, matches, requested, k + 1).rows)
  {
    FollowReaches(table, matches, requested, k);
    RequestRepeats(table, matches, requested, k);
  }

  ghost predicate Repeats(rows: seq<Org>) { exists i, j :: 0 <= i < j < |rows| && rows[i] == rows[j] }

  lemma RequestRepeats(table: seq<Org>, matches: Org -> bool, requested: Option<int>, k: nat)
    requires ValidTable(table)
    requires !BoundaryWhole(Listing(table, matches), Limit(requested), k)
    ensures var w := Reached(Listing(table, matches), Limit(requested), k);
            Repeats(Request(table, matches, requested, w).rows)
  {
    var listing, limit := Listing(table, matches), Limit(requested);
    var m := k * limit;
    Times(k, limit);
    StartsBefore(table, matches, m);
    var c := Some(Encode(listing[m - 1]));
    FoundIsSuffix(table, matches, c);
    BadPage(listing, m, Start(listing, c), limit);
  }

  lemma StartsBefore(table: seq<Org>, matches: Org -> bool, m: nat)
    requires ValidTable(table) && 0 < m < |Listing(table, matches)| && !IsWhole(Listing(table, matches)[m - 1])
    ensures var listing := Listing(table, matches);
            listing[m - 1].id < UUIDS && Start(listing, Some(Encode(listing[m - 1]))) < m
  {
    ListingIsStrict(table, matches);
    WholeGoesOn(Listing(table, matches), m);
  }

  /** A page that starts before index m repeats a row collected already. */
  lemma BadPage(listing: seq<Org>, m: nat, first: nat, limit: nat)
    requires first < m < |listing| && 0 < limit
    ensures Repeats(Collect(listing[..m], PageFrom(listing[first..], limit)).rows)
  {
    var rows := Collect(listing[..m], PageFrom(listing[first..], limit)).rows;
    assert rows[first] == listing[first] && rows[m] == listing[first];
  }

  /** Some number of requests ends the walk with every matching row exactly once, in (createdAt, id) order. */
  ghost predicate ReturnsListing(table: seq<Org>, matches: Org -> bool, requested: Option<int>) {
    exists n: nat :: Follow(table, matches, requested, n) == Done(Listing(table, matches))
  }

  lemma WholeReturnsListing(table: seq<Org>, matches: Org -> bool, requested: Option<int>)
    requires ValidTable(table) && WholeBoundaries(Listing(table, matches), Limit(requested))
    ensures ReturnsListing(table, matches, requested)
  {
    var listing, limit := Listing(table, matches), Limit(requested);
    var n := |listing| + 1;
    Enough(n, limit);
    FollowReaches(table, matches, requested, n);
    assert Follow(table, matches, requested, n) == Done(listing);
  }

  lemma Enough(n: nat, limit: nat)
    requires limit >= 1
    ensures n <= n * limit
  {
  }

  lemma {:induction false} FirstPartial(listing: seq<Org>, limit: nat, bad: nat) returns (k: nat)
    requires !BoundaryWhole(listing, limit, bad)
    ensures !BoundaryWhole(listing, limit, k) && forall j: nat | j < k :: BoundaryWhole(listing, limit, j)
  {
    k := 0;
    while BoundaryWhole(listing, limit, k)
      invariant k <= bad && forall j: nat | j < k :: BoundaryWhole(listing, limit, j)
      decreases bad - k
    {
      k := k + 1;
    }
  }

  /**
   Following the cursors returns every matching row exactly once, in order, and stops, for any
   requested limit and any ties, exactly when each page that is followed by another ends on a row
   created at a whole millisecond: the cursor holds no more than that.
   */
  lemma ReturnsListingExactly(table: seq<Org>, matches: Org -> bool, requested: Option<int>)
    requires ValidTable(table)
    ensures ReturnsListing(table, matches, requested) <==> WholeBoundaries(Listing(table, matches), Limit(requested))
  {
    var listing, limit := Listing(table, matches), Limit(requested);
    if WholeBoundaries(listing, limit) {
      WholeReturnsListing(table, matches, requested);
    } else {
      var bad: nat :| !BoundaryWhole(listing, limit, bad);
      var k := FirstPartial(listing, limit, bad);
      forall n: nat ensures Follow(table, matches, requested, n) != Done(listing) {
        PartialNeverEnds(table, matches, requested, k, n);
      }
    }
  }

  /** Past the first page that ends within a millisecond no walk comes out right. */
  lemma PartialNeverEnds(table: seq<Org>, matches: Org -> bool, requested: Option<int>, k: nat, n: nat)
    requires ValidTable(table) && !BoundaryWhole(Listing(table, matches), Limit(requested), k)
    requires forall j: nat | j < k :: BoundaryWhole(Listing(table, matches), Limit(requested), j)
    ensures Follow(table, matches, requested, n) != Done(Listing(table, matches))
  {
    if n <= k {
      NotDoneBefore(table, matches, requested, k, n);
    } else {
      PartialRepeats(table, matches, requested, k);
      FollowOnlyAdds(table, matches, requested, k + 1, n);
      ListingIsStrict(table, matches);
      RepeatsInPrefix(Follow(table, matches, requested, k + 1).rows, Follow(table, matches, requested, n).rows);
    }
  }

  lemma RepeatsInPrefix(rows: seq<Org>, more: seq<Org>)
    requires rows <= more && Repeats(rows)
    ensures Repeats(more)
  {
  }

  /** So it always works on timestamps without microseconds. */
  lemma WholeTableReturnsListing(table: seq<Org>, matches: Org -> bool, requested: Option<int>)
    requires ValidTable(table) && forall o | o in table :: IsWhole(o)
    ensures ReturnsListing(table, matches, requested)
  {
    var listing, limit := Listing(table, matches), Limit(requested);
    forall k: nat ensures BoundaryWhole(listing, limit, k) {
      if 0 < k && k * limit < |listing| {
        Times(k, limit);
        ListingHasMatches(table, matches, listing[k * limit - 1]);
      }
    }
    WholeReturnsListing(table, matches, requested);
  }

  predicate Any(o: Org) { true }

  lemma ListingOfTwo(a: Org, b: Org)
    requires Key(a) < Key(b)
    ensures Listing([a, b], Any) == [a, b]
  {
    FilterSuffix(Any, [a, b], 0);
    var empty: seq<Org> := [];
    assert [a, b][..1] == [a] && [a][..0] == empty && [a][1..] == empty;
    assert Filter(Any, [a, b]) == [a, b];
    assert Insert(Key, a, empty) == [a] && Insert(Key, b, empty) == [b];
    assert SortBy(Key, empty) == empty && SortBy(Key, [a]) == [a];
    assert Insert(Key, b, [a]) == [a] + Insert(Key, b, empty) == [a, b];
  }

  /** With microseconds it may not even stop: two rows, one per page, and the first comes again and again. */
  lemma {:induction false} MicrosecondsRepeat(n: nat)
    ensures var table := [Org(1, 1500, "a", "1", true, false), Org(2, 2500, "b", "2", true, false)];
            var w := Follow(table, Any, Some(1), n);
            w.More? && |w.rows| == n && forall i :: 0 <= i < n ==> w.rows[i] == table[0]
  {
    FirstComesAgain(Org(1, 1500, "a", "1", true, false), Org(2, 2500, "b", "2", true, false), n);
  }

  lemma FirstPageAgain(a: Org, b: Org, c: Option<Cursor>)
    requires a.id != b.id && a.id < UUIDS && b.id < UUIDS && a.createdAt < b.createdAt && !IsWhole(a)
    requires c.Some? ==> c.value == Encode(a)
    ensures FindAll([a, b], Any, Some(1), c) == Page([a], Some(Encode(a)), true)
  {
    ListingOfTwo(a, b);
    FoundIsSuffix([a, b], Any, c);
    assert Start([a, b], c) == 0;
    assert [a, b][0..] == [a, b] && [a, b][..2] == [a, b] && [a, b][..1] == [a];
  }

  /** The walk after n requests of that table. */
  function Stuck(a: Org, n: nat): Walk { More(seq(n, _ => a), if n > 0 then Some(Encode(a)) else None) }

  lemma {:induction false} FirstComesAgain(a: Org, b: Org, n: nat)
    requires a.id != b.id && a.id < UUIDS && b.id < UUIDS && a.createdAt < b.createdAt && !IsWhole(a)
    ensures Follow([a, b], Any, Some(1), n) == Stuck(a, n)
  {
    if n > 0 {
      FirstComesAgain(a, b, n - 1);
      FollowUnfolds([a, b], Any, Some(1), n);
      FirstPageAgain(a, b, if n == 1 then None else Some(Encode(a)));
      assert Stuck(a, n - 1).rows + [a] == Stuck(a, n).rows;
    }
  }
}
