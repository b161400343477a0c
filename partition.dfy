/** Work partitioning: `flatten` turns the per-database table lists into
    [db, table] work units, and `split_into_lists` deals those units
    round-robin into one queue per worker. */
module Partition {

  /** A [db, table] pair: the unit a worker processes. */
  datatype WorkUnit = WorkUnit(db: string, table: string)

  // ---------------------------------------------------------------------
  // flatten

  /** The units of one database, in the order of its table list. */
  function UnitsOf(db: string, tables: seq<string>): (us: seq<WorkUnit>)
    ensures |us| == |tables|
    ensures forall i :: 0 <= i < |tables| ==> us[i] == WorkUnit(db, tables[i])
  {
    if tables == [] then [] else [WorkUnit(db, tables[0])] + UnitsOf(db, tables[1..])
  }

  /** The units of the databases listed in `order`, database after database. */
  function FlattenIn(m: map<string, seq<string>>, order: seq<string>): seq<WorkUnit>
  {
    if order == [] then []
    else (if order[0] in m then UnitsOf(order[0], m[order[0]]) else []) + FlattenIn(m, order[1..])
  }

  /** `order` lists every database of `m` exactly once. */
  ghost predicate Enumerates(order: seq<string>, m: map<string, seq<string>>)
  {
    (forall i, j :: 0 <= i < j < |order| ==> order[i] != order[j])
    && (forall db :: db in order <==> db in m)
  }

  /** `flatten`: the map's databases are visited in the dictionary's own,
      unspecified, order; each one's tables are appended in list order. The
      ghost result `order` is the order the databases were visited in. */
  method Flatten(m: map<string, seq<string>>) returns (pairs: seq<WorkUnit>, ghost order: seq<string>)
    ensures Enumerates(order, m)
    ensures pairs == FlattenIn(m, order)
    ensures forall db :: TablesOf(pairs, db) == if db in m then m[db] else []
    ensures |pairs| == TotalTables(m)
  {
    pairs, order := [], [];
    var remaining := m.Keys;
    while remaining != {}
      invariant remaining <= m.Keys
      invariant forall i, j :: 0 <= i < j < |order| ==> order[i] != order[j]
      invariant forall db :: db in order <==> db in m && db !in remaining
      invariant pairs == FlattenIn(m, order)
      decreases remaining
    {
      var db :| db in remaining;
      ghost var before := pairs;
      var tables := m[db];
      for j := 0 to |tables|
        invariant pairs == before + UnitsOf(db, tables[..j])
      {
        assert tables[..j + 1] == tables[..j] + [tables[j]];
        UnitsOfSnoc(db, tables[..j], tables[j]);
        pairs := pairs + [WorkUnit(db, tables[j])];
      }
      assert tables[..|tables|] == tables;
      FlattenInSnoc(m, order, db);
      order := order + [db];
      remaining := remaining - {db};
    }
    FlattenKeepsTables(m, order);
    FlattenLength(m, order);
  }

  lemma UnitsOfSnoc(db: string, tables: seq<string>, t: string)
    ensures UnitsOf(db, tables + [t]) == UnitsOf(db, tables) + [WorkUnit(db, t)]
  {
  }

  lemma {:induction false} FlattenInSnoc(m: map<string, seq<string>>, order: seq<string>, db: string)
    requires db in m
    ensures FlattenIn(m, order + [db]) == FlattenIn(m, order) + UnitsOf(db, m[db])
  {
    if order == [] {
      assert FlattenIn(m, [db]) == UnitsOf(db, m[db]) + FlattenIn(m, []);
    } else {
      var head := if order[0] in m then UnitsOf(order[0], m[order[0]]) else [];
      assert (order + [db])[1..] == order[1..] + [db];
      calc {
        FlattenIn(m, order + [db]);
        head + FlattenIn(m, order[1..] + [db]);
        { FlattenInSnoc(m, order[1..], db); }
        head + (FlattenIn(m, order[1..]) + UnitsOf(db, m[db]));
        (head + FlattenIn(m, order[1..])) + UnitsOf(db, m[db]);
      }
    }
  }

  /** The tables of the units belonging to database `db`, in order. */
  function TablesOf(pairs: seq<WorkUnit>, db: string): seq<string>
  {
    if pairs == [] then []
    else (if pairs[0].db == db then [pairs[0].table] else []) + TablesOf(pairs[1..], db)
  }

  lemma {:induction false} TablesOfAppend(a: seq<WorkUnit>, b: seq<WorkUnit>, db: string)
    ensures TablesOf(a + b, db) == TablesOf(a, db) + TablesOf(b, db)
  {
    if a == [] {
      assert a + b == b;
    } else {
      assert (a + b)[0] == a[0];
      assert (a + b)[1..] == a[1..] + b;
      TablesOfAppend(a[1..], b, db);
    }
  }

  lemma {:induction false} TablesOfUnits(d: string, tables: seq<string>, db: string)
    ensures TablesOf(UnitsOf(d, tables), db) == if d == db then tables else []
  {
    if tables != [] {
      assert UnitsOf(d, tables)[1..] == UnitsOf(d, tables[1..]);
      TablesOfUnits(d, tables[1..], db);
    }
  }

  /** Whatever order the databases are visited in, the units of each database
      carry exactly its tables, in their original order. */
  lemma {:induction false} FlattenKeepsTables(m: map<string, seq<string>>, order: seq<string>)
    requires forall i, j :: 0 <= i < j < |order| ==> order[i] != order[j]
    ensures forall db :: db in order && db in m ==> TablesOf(FlattenIn(m, order), db) == m[db]
    ensures forall db :: db !in order ==> TablesOf(FlattenIn(m, order), db) == []
  {
    if order != [] {
      var d := order[0];
      FlattenKeepsTables(m, order[1..]);
      assert d !in order[1..];
      forall db ensures TablesOf(FlattenIn(m, order), db) ==
                        (if d == db && d in m then m[d] else []) + TablesOf(FlattenIn(m, order[1..]), db) {
        FlattenHeadTables(m, order, db);
      }
    }
  }

  lemma FlattenHeadTables(m: map<string, seq<string>>, order: seq<string>, db: string)
    requires order != []
    ensures TablesOf(FlattenIn(m, order), db) ==
            (if order[0] == db && order[0] in m then m[db] else []) + TablesOf(FlattenIn(m, order[1..]), db)
  {
    var d := order[0];
    var head := if d in m then UnitsOf(d, m[d]) else [];
    TablesOfAppend(head, FlattenIn(m, order[1..]), db);
    if d in m { TablesOfUnits(d, m[d], db); }
  }

  /** Every unit names a database of the map and one of its tables. */
  lemma {:induction false} FlattenUnitsBelong(m: map<string, seq<string>>, order: seq<string>)
    ensures forall u :: u in FlattenIn(m, order) ==> u.db in order && u.db in m && u.table in m[u.db]
  {
    if order != [] {
      FlattenUnitsBelong(m, order[1..]);
    }
  }

  /** Total number of tables over all databases of the map. */
  ghost function TotalTables(m: map<string, seq<string>>): nat
    decreases |m|
  {
    if m == map[] then 0
    else
      var db :| db in m;
      |m[db]| + TotalTables(m - {db})
  }

  /** The total does not depend on which database is counted first. */
  lemma {:induction false} TotalTablesRemove(m: map<string, seq<string>>, db: string)
    requires db in m
    ensures TotalTables(m) == |m[db]| + TotalTables(m - {db})
    decreases |m|
  {
    var first :| first in m && TotalTables(m) == |m[first]| + TotalTables(m - {first});
    if first != db {
      TotalTablesRemove(m - {first}, db);
      TotalTablesRemove(m - {db}, first);
      assert m - {first} - {db} == m - {db} - {first};
    }
  }

  lemma {:induction false} FlattenInRestrict(m: map<string, seq<string>>, db: string, order: seq<string>)
    requires db !in order
    ensures FlattenIn(m, order) == FlattenIn(m - {db}, order)
  {
    if order != [] {
      FlattenInRestrict(m, db, order[1..]);
    }
  }

  /** `flatten` emits one unit per table: as many units as there are tables. */
  lemma {:induction false} FlattenLength(m: map<string, seq<string>>, order: seq<string>)
    requires Enumerates(order, m)
    ensures |FlattenIn(m, order)| == TotalTables(m)
  {
    if order == [] {
      assert m.Keys == {};
      assert m == map[];
    } else {
      var d := order[0];
      var rest := m - {d};
      assert d !in order[1..];
      assert Enumerates(order[1..], rest) by {
        forall x ensures x in order[1..] <==> x in rest {
          if x in rest { assert x in order && x != order[0]; var k :| 0 <= k < |order| && order[k] == x; assert k != 0; assert order[1..][k - 1] == x; }
        }
      }
      FlattenInRestrict(m, d, order[1..]);
      FlattenLength(rest, order[1..]);
      TotalTablesRemove(m, d);
    }
  }

  // ---------------------------------------------------------------------
  // split_into_lists

  /** The items at positions start, start + n, start + 2n, ... */
  function Column<T>(s: seq<T>, n: nat, start: nat): seq<T>
    requires n >= 1
    decreases |s| - start
  {
    if start >= |s| then [] else [s[start]] + Column(s, n, start + n)
  }

  /** The round-robin deal: item i goes to list i mod n. */
  function Deal<T>(s: seq<T>, n: nat): (lists: seq<seq<T>>)
    requires n >= 1
    ensures |lists| == n
  {
    seq(n, k requires 0 <= k < n => Column(s, n, k))
  }

  /** Element j of a column is the item j steps of n after its start. */
  lemma {:induction false} ColumnAt<T>(s: seq<T>, n: nat, start: nat, j: nat)
    requires n >= 1 && start + j * n < |s|
    ensures j < |Column(s, n, start)| && Column(s, n, start)[j] == s[start + j * n]
    decreases j
  {
    var c := Column(s, n, start);
    assert c == [s[start]] + Column(s, n, start + n);
    if j > 0 {
      StepMul(j, n);
      ColumnAt(s, n, start + n, j - 1);
      assert c[j] == Column(s, n, start + n)[j - 1];
    }
  }

  lemma StepMul(j: nat, n: nat)
    requires j > 0
    ensures n + (j - 1) * n == j * n
  {
    assert (j - 1) * n == j * n - n;
  }

  /** A column holds nothing beyond the end of the items. */
  lemma {:induction false} ColumnBound<T>(s: seq<T>, n: nat, start: nat, j: nat)
    requires n >= 1 && j < |Column(s, n, start)|
    ensures start + j * n < |s|
    decreases j
  {
    if j > 0 {
      StepMul(j, n);
      ColumnBound(s, n, start + n, j - 1);
    }
  }

  /** Dropping the first n items shifts every column by one step. */
  lemma {:induction false} ColumnDrop<T>(s: seq<T>, n: nat, start: nat)
    requires n >= 1 && |s| >= n
    ensures Column(s, n, start + n) == Column(s[n..], n, start)
    decreases |s| - start
  {
    if start + n < |s| {
      ColumnDrop(s, n, start + n);
    }
  }

  lemma MulBetween(n: int, x: int)
    requires n >= 1 && -n < n * x < n
    ensures x == 0
  {
  }

  lemma DivModUnique(a: int, n: int, q: int, r: int)
    requires n >= 1 && a == n * q + r && 0 <= r < n
    ensures a / n == q && a % n == r
  {
    var q', r' := a / n, a % n;
    assert a == n * q' + r';
    assert n * (q - q') == r' - r;
    MulBetween(n, q - q');
  }

  /** List k gets |s| / n items, and one more when k < |s| % n. */
  lemma {:induction false} ColumnLength<T>(s: seq<T>, n: nat, k: nat)
    requires n >= 1 && k < n
    ensures |Column(s, n, k)| == |s| / n + (if k < |s| % n then 1 else 0)
    decreases |s|
  {
    if |s| < n {
      DivModUnique(|s|, n, 0, |s|);
      if k < |s| {
        assert Column(s, n, k) == [s[k]] + Column(s, n, k + n);
      }
    } else {
      ColumnDrop(s, n, k);
      ColumnLength(s[n..], n, k);
      DivModUnique(|s|, n, |s[n..]| / n + 1, |s[n..]| % n);
    }
  }

  /** split_into_lists' sizes: exactly n lists, the first |s| % n of them one
      item longer than the rest, so any two differ by at most one. */
  lemma DealSizes<T>(s: seq<T>, n: nat)
    requires n >= 1
    ensures forall k :: 0 <= k < n ==> |Deal(s, n)[k]| == |s| / n + (if k < |s| % n then 1 else 0)
    ensures forall j, k :: 0 <= j < n && 0 <= k < n ==> -1 <= |Deal(s, n)[j]| - |Deal(s, n)[k]| <= 1
  {
    forall k | 0 <= k < n ensures |Deal(s, n)[k]| == |s| / n + (if k < |s| % n then 1 else 0) {
      ColumnLength(s, n, k);
    }
  }

  /** Item i lands in list i mod n, at position i div n. */
  lemma DealPlacement<T>(s: seq<T>, n: nat, i: nat)
    requires n >= 1 && i < |s|
    ensures i / n < |Deal(s, n)[i % n]| && Deal(s, n)[i % n][i / n] == s[i]
  {
    assert i % n + (i / n) * n == i;
    ColumnAt(s, n, i % n, i / n);
  }

  /** What remains to be dealt once the first p items are out and the next
      goes to list r: list j still receives the items from the first
      position at or after p that belongs to it. */
  function Gap(r: nat, j: nat, n: nat): nat
    requires r < n && j < n
  {
    if j >= r then j - r else j + n - r
  }

  function Rest<T>(s: seq<T>, n: nat, p: nat, r: nat): (ls: seq<seq<T>>)
    requires r < n
    ensures |ls| == n
  {
    seq(n, j requires 0 <= j < n => Column(s, n, p + Gap(r, j, n)))
  }

  /** The list after r in round-robin order. */
  function NextList(r: nat, n: nat): nat
    requires r < n
  {
    if r + 1 == n then 0 else r + 1
  }

  /** Dealing one item: it goes to list r, and then list NextList(r) is next. */
  lemma RestStep<T>(s: seq<T>, n: nat, p: nat, r: nat)
    requires r < n && p < |s|
    ensures Rest(s, n, p, r)[r] == [s[p]] + Rest(s, n, p + 1, NextList(r, n))[r]
    ensures forall j :: 0 <= j < n && j != r ==> Rest(s, n, p, r)[j] == Rest(s, n, p + 1, NextList(r, n))[j]
  {
    assert p + 1 + Gap(NextList(r, n), r, n) == p + n;
  }

  lemma RestUpdate<T>(s: seq<T>, n: nat, p: nat, r: nat)
    requires r < n && p < |s|
    ensures Rest(s, n, p, r)[r] != []
    ensures Rest(s, n, p + 1, NextList(r, n)) == Rest(s, n, p, r)[r := Rest(s, n, p, r)[r][1..]]
  {
    RestStep(s, n, p, r);
  }

  lemma RestStart<T>(s: seq<T>, n: nat)
    requires n >= 1
    ensures Rest(s, n, 0, 0) == Deal(s, n)
  {
  }

  lemma RestEnd<T>(s: seq<T>, n: nat, r: nat)
    requires r < n
    ensures forall j :: 0 <= j < n ==> Rest(s, n, |s|, r)[j] == []
  {
  }

  /** Total number of items over all lists. */
  function TotalLen<T>(ls: seq<seq<T>>): nat
  {
    if ls == [] then 0 else |ls[0]| + TotalLen(ls[1..])
  }

  lemma {:induction false} TotalLenDrop<T>(ls: seq<seq<T>>, k: nat)
    requires k < |ls| && ls[k] != []
    ensures TotalLen(ls[k := ls[k][1..]]) + 1 == TotalLen(ls)
  {
    if k > 0 {
      assert ls[k := ls[k][1..]][1..] == ls[1..][k - 1 := ls[k][1..]];
      TotalLenDrop(ls[1..], k - 1);
    }
  }

  /** Round-robin interleaving: take the head of list k, move to the next
      list, and stop at the first list that has run out. */
  function MergeFrom<T>(ls: seq<seq<T>>, k: nat): seq<T>
    requires k < |ls|
    decreases TotalLen(ls)
  {
    if ls[k] == [] then []
    else
      TotalLenDrop(ls, k);
      [ls[k][0]] + MergeFrom(ls[k := ls[k][1..]], NextList(k, |ls|))
  }

  function Merge<T>(ls: seq<seq<T>>): seq<T>
  {
    if ls == [] then [] else MergeFrom(ls, 0)
  }

  lemma {:induction false} MergeRest<T>(s: seq<T>, n: nat, p: nat, r: nat)
    requires r < n && p <= |s|
    ensures MergeFrom(Rest(s, n, p, r), r) == s[p..]
    decreases |s| - p
  {
    var ls := Rest(s, n, p, r);
    if p < |s| {
      RestUpdate(s, n, p, r);
      RestStep(s, n, p, r);
      MergeRest(s, n, p + 1, NextList(r, n));
      assert s[p..] == [s[p]] + s[p + 1..];
    }
  }

  /** Interleaving the lists round-robin gives back the dealt items. */
  lemma DealMerge<T>(s: seq<T>, n: nat)
    requires n >= 1
    ensures Merge(Deal(s, n)) == s
  {
    RestStart(s, n);
    MergeRest(s, n, 0, 0);
  }

  /** All lists, one after the other. */
  function Concat<T>(ls: seq<seq<T>>): seq<T>
  {
    if ls == [] then [] else ls[0] + Concat(ls[1..])
  }

  lemma {:induction false} RestMultiset<T>(s: seq<T>, n: nat, p: nat, r: nat)
    requires r < n && p <= |s|
    ensures multiset(Concat(Rest(s, n, p, r))) == multiset(s[p..])
    decreases |s| - p
  {
    if p < |s| {
      RestMultisetStep(s, n, p, r);
      RestMultiset(s, n, p + 1, NextList(r, n));
      SuffixBag(s, p);
    } else {
      RestEmpty(s, n, r);
    }
  }

  lemma SuffixBag<T>(s: seq<T>, p: nat)
    requires p < |s|
    ensures multiset(s[p..]) == multiset(s[p + 1..]) + multiset{s[p]}
  {
    assert s[p..] == [s[p]] + s[p + 1..];
  }

  lemma RestEmpty<T>(s: seq<T>, n: nat, r: nat)
    requires r < n
    ensures Concat(Rest(s, n, |s|, r)) == []
  {
    RestEnd(s, n, r);
    ConcatEmpty(Rest(s, n, |s|, r));
  }

  lemma RestMultisetStep<T>(s: seq<T>, n: nat, p: nat, r: nat)
    requires r < n && p < |s|
    ensures multiset(Concat(Rest(s, n, p, r)))
            == multiset(Concat(Rest(s, n, p + 1, NextList(r, n)))) + multiset{s[p]}
  {
    RestUpdate(s, n, p, r);
    RestStep(s, n, p, r);
    DropHead(Rest(s, n, p, r), r);
  }

  /** Taking the head off one list removes exactly that item. */
  lemma {:induction false} DropHead<T>(ls: seq<seq<T>>, r: nat)
    requires r < |ls| && ls[r] != []
    ensures multiset(Concat(ls)) == multiset(Concat(ls[r := ls[r][1..]])) + multiset{ls[r][0]}
  {
    var us := ls[r := ls[r][1..]];
    if r == 0 {
      assert us[1..] == ls[1..];
      assert ls[0] == [ls[0][0]] + ls[0][1..];
    } else {
      assert us[0] == ls[0];
      assert us[1..] == ls[1..][r - 1 := ls[1..][r - 1][1..]];
      DropHead(ls[1..], r - 1);
    }
  }

  lemma {:induction false} ConcatEmpty<T>(ls: seq<seq<T>>)
    requires forall j :: 0 <= j < |ls| ==> ls[j] == []
    ensures Concat(ls) == []
  {
    if ls != [] {
      ConcatEmpty(ls[1..]);
    }
  }

  /** No item is lost or repeated: the lists hold a permutation of the items. */
  lemma DealPermutation<T>(s: seq<T>, n: nat)
    requires n >= 1
    ensures multiset(Concat(Deal(s, n))) == multiset(s)
  {
    RestStart(s, n);
    RestMultiset(s, n, 0, 0);
  }

  /** The lists after the first p items were dealt, list r being next: each
      list holds the beginning of its column, Rest the remainder. */
  ghost predicate DealtSoFar<T>(lists: seq<seq<T>>, s: seq<T>, n: nat, p: nat, r: nat)
    requires r < n
  {
    |lists| == n && forall j :: 0 <= j < n ==> lists[j] + Rest(s, n, p, r)[j] == Column(s, n, j)
  }

  lemma DealtSoFarStart<T>(lists: seq<seq<T>>, s: seq<T>, n: nat)
    requires n >= 1 && |lists| == n && forall j :: 0 <= j < n ==> lists[j] == []
    ensures DealtSoFar(lists, s, n, 0, 0)
  {
    forall j | 0 <= j < n ensures lists[j] + Rest(s, n, 0, 0)[j] == Column(s, n, j) {
      assert [] + Column(s, n, j) == Column(s, n, j);
    }
  }

  lemma DealtSoFarStep<T>(lists: seq<seq<T>>, s: seq<T>, n: nat, p: nat, r: nat)
    requires r < n && p < |s| && DealtSoFar(lists, s, n, p, r)
    ensures DealtSoFar(lists[r := lists[r] + [s[p]]], s, n, p + 1, NextList(r, n))
  {
    RestStep(s, n, p, r);
    var next := lists[r := lists[r] + [s[p]]];
    forall j | 0 <= j < n ensures next[j] + Rest(s, n, p + 1, NextList(r, n))[j] == Column(s, n, j) {
      if j == r {
        assert next[j] + Rest(s, n, p + 1, NextList(r, n))[j]
            == lists[r] + ([s[p]] + Rest(s, n, p + 1, NextList(r, n))[r]);
      }
    }
  }

  lemma DealtSoFarEnd<T>(lists: seq<seq<T>>, s: seq<T>, n: nat, r: nat)
    requires r < n && DealtSoFar(lists, s, n, |s|, r)
    ensures lists == Deal(s, n)
  {
    RestEnd(s, n, r);
    forall j | 0 <= j < n ensures lists[j] == Deal(s, n)[j] {
      assert lists[j] + [] == lists[j];
    }
  }

  /** The caller's list, which `split_into_lists` consumes with `pop(0)`. */
  class ItemList<T> {
    var items: seq<T>

    constructor (s: seq<T>)
      ensures items == s
    {
      items := s;
    }
  }

  /** Result of `split_into_lists`: the lists, or the IndexError raised by
      `lists[0]` when there are items but no list to put them in. */
  datatype Dealt<T> = Lists(lists: seq<seq<T>>) | IndexError

  /** `split_into_lists`: deals the items round-robin into n lists, taking
      them off the front of the caller's list. With n < 1 there are no lists:
      an empty input gives no lists, a non-empty one fails before any item is
      taken. */
  method SplitIntoLists<T>(list: ItemList<T>, n: int) returns (r: Dealt<T>)
    modifies list
    ensures n >= 1 ==> r == Lists(Deal(old(list.items), n)) && list.items == []
    ensures n < 1 && old(list.items) == [] ==> r == Lists([]) && list.items == []
    ensures n < 1 && old(list.items) != [] ==> r == IndexError && list.items == old(list.items)
  {
    var lists: seq<seq<T>> := [];
    var x := 0;
    while x < n
      invariant 0 <= x && (n >= 0 ==> x <= n) && (n < 1 ==> x == 0)
      invariant |lists| == x
      invariant forall j :: 0 <= j < x ==> lists[j] == []
    {
      lists := lists + [[]];
      x := x + 1;
    }
    ghost var orig := list.items;
    ghost var p: nat := 0;
    ghost var next: nat := 0;
    if n >= 1 {
      DealtSoFarStart(lists, orig, n);
    }
    var i := 0;
    while true
      invariant 0 <= p <= |orig| && list.items == orig[p..]
      invariant n < 1 ==> lists == [] && p == 0 && i == 0
      invariant n >= 1 ==> |lists| == n && 0 <= i <= n && next < n && next == (if i == n then 0 else i)
      invariant n >= 1 ==> DealtSoFar(lists, orig, n, p, next)
      decreases |list.items|
    {
      if i == n {
        i := 0;
      }
      if list.items != [] {
        if i >= |lists| {
          return IndexError;
        }
        DealtSoFarStep(lists, orig, n, p, next);
        var item := list.items[0];
        assert item == orig[p];
        list.items := list.items[1..];
        lists := lists[i := lists[i] + [item]];
        i := i + 1;
        p := p + 1;
        next := NextList(next, n);
      } else {
        break;
      }
    }
    if n >= 1 {
      DealtSoFarEnd(lists, orig, n, next);
    }
    return Lists(lists);
  }
}
