/**
 The few table and array operations that the services apply to fetched rows:
 `find`, `map` and a stable `sort` on an integer key.
 */
module Rows {
  import opened Wrappers

  /** Array.prototype.find, returning the index of the first match. */
  function Find<T>(p: T -> bool, s: seq<T>): (r: Option<nat>)
    ensures r.Some? ==> r.value < |s| && p(s[r.value]) && forall j :: 0 <= j < r.value ==> !p(s[j])
    ensures r.None? ==> forall j :: 0 <= j < |s| ==> !p(s[j])
  {
    if s == [] then None
    else if p(s[0]) then Some(0)
    else match Find(p, s[1..])
      case None => None
      case Some(i) => Some(i + 1)
  }

  function Map<A, B>(f: A -> B, s: seq<A>): (r: seq<B>)
    ensures |r| == |s| && forall i :: 0 <= i < |s| ==> r[i] == f(s[i])
  {
    seq(|s|, i requires 0 <= i < |s| => f(s[i]))
  }

  /** Places x after every element whose key is not larger. */
  function Insert<T>(key: T -> int, x: T, s: seq<T>): (r: seq<T>)
    ensures |r| == |s| + 1
  {
    if s == [] || key(x) < key(s[0]) then [x] + s else [s[0]] + Insert(key, x, s[1..])
  }

  /** The stable ascending sort, one row at a time. */
  function SortBy<T>(key: T -> int, s: seq<T>): (r: seq<T>)
    ensures |r| == |s|
  {
    if s == [] then [] else Insert(key, s[|s| - 1], SortBy(key, s[..|s| - 1]))
  }

  ghost predicate Ascending<T>(key: T -> int, s: seq<T>) {
    forall i, j :: 0 <= i < j < |s| ==> key(s[i]) <= key(s[j])
  }

  lemma {:induction false} InsertAddsOne<T>(key: T -> int, x: T, s: seq<T>)
    ensures multiset(Insert(key, x, s)) == multiset(s) + multiset{x}
  {
    if s == [] || key(x) < key(s[0]) {
    } else {
      InsertAddsOne(key, x, s[1..]);
      assert s == [s[0]] + s[1..];
    }
  }

  lemma {:induction false} InsertKeepsAscending<T>(key: T -> int, x: T, s: seq<T>)
    requires Ascending(key, s)
    ensures Ascending(key, Insert(key, x, s))
  {
    if s == [] || key(x) < key(s[0]) {
    } else {
      InsertKeepsAscending(key, x, s[1..]);
      var r := Insert(key, x, s[1..]);
      forall i | 0 <= i < |r| ensures key(s[0]) <= key(r[i]) {
        InsertAddsOne(key, x, s[1..]);
        assert r[i] in multiset(r);
        assert r[i] == x || r[i] in s[1..];
      }
    }
  }

  lemma {:induction false} SortIsSorted<T>(key: T -> int, s: seq<T>)
    ensures Ascending(key, SortBy(key, s))
    ensures multiset(SortBy(key, s)) == multiset(s)
  {
    if s != [] {
      SortIsSorted(key, s[..|s| - 1]);
      InsertKeepsAscending(key, s[|s| - 1], SortBy(key, s[..|s| - 1]));
      InsertAddsOne(key, s[|s| - 1], SortBy(key, s[..|s| - 1]));
      assert s == s[..|s| - 1] + [s[|s| - 1]];
    }
  }

  /** The sorted view holds exactly the rows of the table. */
  lemma SortHasSameRows<T>(key: T -> int, s: seq<T>, x: T)
    ensures x in SortBy(key, s) <==> x in s
  {
    SortIsSorted(key, s);
    assert x in s <==> x in multiset(s);
    assert x in SortBy(key, s) <==> x in multiset(SortBy(key, s));
  }

  lemma {:induction false} InsertAt<T>(key: T -> int, x: T, s: seq<T>, k: nat)
    requires k <= |s|
    requires forall i :: 0 <= i < k ==> key(s[i]) <= key(x)
    requires k < |s| ==> key(x) < key(s[k])
    ensures Insert(key, x, s) == s[..k] + [x] + s[k..]
  {
    if k == 0 {
    } else {
      InsertAt(key, x, s[1..], k - 1);
      assert s[..k] == [s[0]] + s[1..][..k - 1];
      assert s[k..] == s[1..][k - 1..];
    }
  }

  lemma {:induction false} InsertMap<A, B>(ka: A -> int, kb: B -> int, f: A -> B, x: A, s: seq<A>)
    requires forall a, b | a in s + [x] && b in s + [x] :: kb(f(a)) < kb(f(b)) <==> ka(a) < ka(b)
    ensures Insert(kb, f(x), Map(f, s)) == Map(f, Insert(ka, x, s))
  {
    if s == [] {
    } else {
      assert s[0] in s + [x] && x in s + [x];
      assert Map(f, s)[1..] == Map(f, s[1..]);
      if ka(x) < ka(s[0]) {
      } else {
        forall a | a in s[1..] + [x] ensures a in s + [x] {}
        InsertMap(ka, kb, f, x, s[1..]);
      }
    }
  }

  /** Sorting commutes with any map that keeps the order of the keys. */
  lemma {:induction false} SortMap<A, B>(ka: A -> int, kb: B -> int, f: A -> B, s: seq<A>)
    requires forall a, b | a in s && b in s :: kb(f(a)) < kb(f(b)) <==> ka(a) < ka(b)
    ensures SortBy(kb, Map(f, s)) == Map(f, SortBy(ka, s))
  {
    if s != [] {
      var t, x := s[..|s| - 1], s[|s| - 1];
      SortMap(ka, kb, f, t);
      assert Map(f, s) == Map(f, t) + [f(x)];
      forall a | a in SortBy(ka, t) + [x] ensures a in s {
        SortHasSameRows(ka, t, a);
      }
      InsertMap(ka, kb, f, x, SortBy(ka, t));
    }
  }

  // Filtering

  function Filter<T>(p: T -> bool, s: seq<T>): seq<T> {
    if s == [] then []
    else Filter(p, s[..|s| - 1]) + (if p(s[|s| - 1]) then [s[|s| - 1]] else [])
  }

  lemma {:induction false} FilterHas<T>(p: T -> bool, s: seq<T>, x: T)
    ensures x in Filter(p, s) <==> x in s && p(x)
  {
    if s != [] {
      FilterHas(p, s[..|s| - 1], x);
      assert s == s[..|s| - 1] + [s[|s| - 1]];
    }
  }

  lemma {:induction false} FilterAppend<T>(p: T -> bool, s: seq<T>, t: seq<T>)
    ensures Filter(p, s + t) == Filter(p, s) + Filter(p, t)
  {
    if t == [] {
      assert s + t == s;
    } else {
      FilterAppend(p, s, t[..|t| - 1]);
      assert (s + t)[..|s + t| - 1] == s + t[..|t| - 1];
    }
  }

  lemma {:induction false} FilterInsert<T>(p: T -> bool, key: T -> int, x: T, s: seq<T>)
    requires Ascending(key, s)
    ensures Filter(p, Insert(key, x, s)) == if p(x) then Insert(key, x, Filter(p, s)) else Filter(p, s)
  {
    if s == [] {
      One(p, x);
    } else if key(x) < key(s[0]) {
      FilterHead(p, x, s);
      forall y | y in Filter(p, s) ensures key(x) < key(y) {
        FilterHas(p, s, y);
      }
    } else {
      FilterInsert(p, key, x, s[1..]);
      FilterInsertBehind(p, key, x, s[0], s[1..]);
      assert s == [s[0]] + s[1..];
    }
  }

  lemma FilterInsertBehind<T>(p: T -> bool, key: T -> int, x: T, first: T, rest: seq<T>)
    requires key(first) <= key(x)
    requires Filter(p, Insert(key, x, rest)) == if p(x) then Insert(key, x, Filter(p, rest)) else Filter(p, rest)
    ensures var s := [first] + rest;
            Filter(p, Insert(key, x, s)) == if p(x) then Insert(key, x, Filter(p, s)) else Filter(p, s)
  {
    var s := [first] + rest;
    assert s[1..] == rest;
    assert Insert(key, x, s) == [first] + Insert(key, x, rest);
    FilterHead(p, first, rest);
    FilterHead(p, first, Insert(key, x, rest));
    if p(first) {
      assert Filter(p, s) == [first] + Filter(p, rest);
      assert Filter(p, s)[1..] == Filter(p, rest);
    } else {
      assert Filter(p, s) == Filter(p, rest);
    }
  }

  lemma FilterHead<T>(p: T -> bool, x: T, s: seq<T>)
    ensures Filter(p, [x] + s) == (if p(x) then [x] else []) + Filter(p, s)
  {
    FilterAppend(p, [x], s);
    One(p, x);
  }

  lemma One<T>(p: T -> bool, x: T)
    ensures Filter(p, [x]) == if p(x) then [x] else []
  {
    assert [x][..0] == [];
  }

  /** Sorting what a where-clause selects is selecting from the sorted table. */
  lemma {:induction false} FilterSort<T>(p: T -> bool, key: T -> int, s: seq<T>)
    ensures SortBy(key, Filter(p, s)) == Filter(p, SortBy(key, s))
  {
    if s != [] {
      var t, x := s[..|s| - 1], s[|s| - 1];
      FilterSort(p, key, t);
      SortIsSorted(key, t);
      FilterInsert(p, key, x, SortBy(key, t));
      if p(x) {
        assert Filter(p, s)[..|Filter(p, s)| - 1] == Filter(p, t);
      } else {
        assert Filter(p, s) == Filter(p, t);
      }
    }
  }

  lemma {:induction false} FilterTwice<T>(p: T -> bool, q: T -> bool, both: T -> bool, s: seq<T>)
    requires forall x :: both(x) <==> p(x) && q(x)
    ensures Filter(both, s) == Filter(q, Filter(p, s))
  {
    if s != [] {
      FilterTwice(p, q, both, s[..|s| - 1]);
      FilterAppend(q, Filter(p, s[..|s| - 1]), if p(s[|s| - 1]) then [s[|s| - 1]] else []);
      One(q, s[|s| - 1]);
    }
  }

  /** Selecting by a condition that holds from index k on cuts a sequence there. */
  lemma {:induction false} FilterSuffix<T>(p: T -> bool, s: seq<T>, k: nat)
    requires k <= |s|
    requires forall i :: 0 <= i < |s| ==> (p(s[i]) <==> k <= i)
    ensures Filter(p, s) == s[k..]
  {
    if s != [] {
      var t := s[..|s| - 1];
      if k == |s| {
        FilterSuffix(p, t, k - 1);
      } else {
        FilterSuffix(p, t, k);
        assert s[k..] == t[k..] + [s[|s| - 1]];
      }
    }
  }

  // Keys

  ghost predicate DistinctBy<T>(id: T -> int, s: seq<T>) {
    forall i, j :: 0 <= i < j < |s| ==> id(s[i]) != id(s[j])
  }

  lemma {:induction false} FilterKeepsDistinct<T>(id: T -> int, p: T -> bool, s: seq<T>)
    requires DistinctBy(id, s)
    ensures DistinctBy(id, Filter(p, s))
  {
    if s != [] {
      var t := s[..|s| - 1];
      FilterKeepsDistinct(id, p, t);
      forall o | o in Filter(p, t) ensures id(o) != id(s[|s| - 1]) {
        FilterHas(p, t, o);
      }
    }
  }

  lemma {:induction false} InsertKeepsDistinct<T>(id: T -> int, key: T -> int, x: T, s: seq<T>)
    requires DistinctBy(id, s) && forall o | o in s :: id(o) != id(x)
    ensures DistinctBy(id, Insert(key, x, s))
  {
    if s == [] || key(x) < key(s[0]) {
    } else {
      InsertKeepsDistinct(id, key, x, s[1..]);
      var r := Insert(key, x, s[1..]);
      forall o | o in r ensures id(o) != id(s[0]) {
        InsertAddsOne(key, x, s[1..]);
        assert o in multiset(r);
      }
    }
  }

  lemma {:induction false} SortKeepsDistinct<T>(id: T -> int, key: T -> int, s: seq<T>)
    requires DistinctBy(id, s)
    ensures DistinctBy(id, SortBy(key, s))
  {
    if s != [] {
      var t, x := s[..|s| - 1], s[|s| - 1];
      SortKeepsDistinct(id, key, t);
      forall o | o in SortBy(key, t) ensures id(o) != id(x) {
        SortHasSameRows(key, t, o);
      }
      InsertKeepsDistinct(id, key, x, SortBy(key, t));
    }
  }

  lemma TwiceCounted<T>(s: seq<T>, i: nat, j: nat)
    requires i < j < |s| && s[i] == s[j]
    ensures multiset(s)[s[i]] >= 2
  {
    assert s == s[..j] + [s[j]] + s[j + 1..];
    assert s[i] in s[..j];
  }

  lemma OnceCounted<T>(s: seq<T>, k: nat)
    requires k < |s| && forall i, j :: 0 <= i < j < |s| ==> s[i] != s[j]
    ensures multiset(s)[s[k]] == 1
  {
    assert s == s[..k] + [s[k]] + s[k + 1..];
    assert s[k] !in s[..k] && s[k] !in s[k + 1..];
  }

  /** Rows that stand once in the sorted view stand once in the table. */
  lemma SortedOnceMeansOnce<T>(key: T -> int, s: seq<T>, i: nat, j: nat)
    requires i < j < |s|
    requires var line := SortBy(key, s); forall k, m :: 0 <= k < m < |line| ==> line[k] != line[m]
    ensures s[i] != s[j]
  {
    SortIsSorted(key, s);
    SortHasSameRows(key, s, s[i]);
    var k :| 0 <= k < |s| && SortBy(key, s)[k] == s[i];
    OnceCounted(SortBy(key, s), k);
    if s[i] == s[j] { TwiceCounted(s, i, j); }
  }
}
