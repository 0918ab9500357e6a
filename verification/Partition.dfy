/** Walking ordered containers of natural numbers in ascending order. */
module Ordered {
  ghost predicate IsLeast(m: nat, s: set<nat>) {
    m in s && forall x | x in s :: m <= x
  }

  lemma {:induction false} FindLeast(s: set<nat>) returns (m: nat)
    requires s != {}
    ensures IsLeast(m, s)
    decreases |s|
  {
    var x :| x in s;
    var rest := s - {x};
    m := x;
    if rest != {} {
      var y := FindLeast(rest);
      m := if y < x then y else x;
    }
    forall z | z in s ensures m <= z {
      assert z == x || z in rest;
    }
  }

  function Least(s: set<nat>): (m: nat)
    requires s != {}
    ensures IsLeast(m, s)
  {
    assert exists m :: m in s && forall x | x in s :: m <= x by {
      var m := FindLeast(s);
      assert IsLeast(m, s);
    }
    var m :| m in s && forall x | x in s :: m <= x;
    m
  }

  lemma {:induction false} Bounded(s: set<nat>) returns (limit: nat)
    ensures forall x | x in s :: x < limit
    decreases |s|
  {
    if s == {} {
      limit := 0;
    } else {
      var x :| x in s;
      var rest := s - {x};
      limit := Bounded(rest);
      limit := if x < limit then limit else x + 1;
      forall y | y in s ensures y < limit {
        assert y == x || y in rest;
      }
    }
  }
}

module Options {
  datatype Option<T> = None | Some(value: T)
}

/** A disjoint set of equivalence classes over numbers (letters or states), with a dense index. */
module Partitions {
  import opened Ordered
  import opened Options

  datatype Klass = Klass(index: nat, items: seq<nat>)

  /** What a partition holds: classes by key, and the key of every item. Copied by value. */
  datatype Classes = Classes(table: map<nat, Klass>, inv: map<nat, nat>) {

    ghost predicate Valid() {
      && Consistent()
      && Numbered(table, 0)
    }

    /** `inv` names the class of every item, and every class is keyed by its first item. */
    ghost predicate Consistent() {
      && (forall x | x in inv :: inv[x] in table)
      && (forall k | k in table :: Keyed(table[k], k))
      && (forall k, x :: Has(table, k, x) <==> x in inv && inv[x] == k)
    }

    predicate Contains(t: nat) {
      t in inv
    }

    function Size(): nat {
      |table|
    }

    /** The key of the class of t; an unknown item yields the default letter 0. */
    function Representative(t: nat): nat {
      if t in inv then inv[t] else 0
    }

    /** The number of the class of t; on an unknown item the library throws. */
    function Index(t: nat): Option<nat> {
      if t in inv && inv[t] in table then Some(table[inv[t]].index) else None
    }

    /** All items of the class of t; on an unknown item the library throws. */
    function Items(t: nat): Option<seq<nat>> {
      if t in inv && inv[t] in table then Some(table[inv[t]].items) else None
    }

    /** Items share a class exactly when they have the same key. */
    ghost predicate Separates<K>(key: map<nat, K>) {
      Fine(key, inv) && Coarse(key, inv)
    }
  }

  ghost predicate Counted(table: map<nat, Klass>, n: nat) {
    |table| == n
  }

  /** The part of item x that an equivalence compares; items are equivalent when it agrees. */
  function At<K>(key: map<nat, K>, x: nat): Option<K> {
    if x in key then Some(key[x]) else None
  }

  const NO_CLASSES := Classes(map[], map[])

  predicate Has(table: map<nat, Klass>, k: nat, x: nat) {
    k in table && x in table[k].items
  }

  predicate Keyed(k: Klass, key: nat) {
    |k.items| > 0 && k.items[0] == key
  }

  /** Items of one class have the same key. */
  ghost predicate Fine<K>(key: map<nat, K>, inv: map<nat, nat>) {
    forall x, y | x in inv && y in inv && inv[x] == inv[y] :: At(key, x) == At(key, y)
  }

  /** Items with the same key are in one class. */
  ghost predicate Coarse<K>(key: map<nat, K>, inv: map<nat, nat>) {
    forall x, y | x in inv && y in inv && At(key, x) == At(key, y) :: inv[x] == inv[y]
  }

  /** Indices of the classes are a bijection onto [base, base + |table|). */
  ghost predicate Numbered(table: map<nat, Klass>, base: nat) {
    && (forall k | k in table :: base <= table[k].index < base + |table|)
    && (forall k, j | k in table && j in table && table[k].index == table[j].index :: k == j)
    && (forall i | base <= i < base + |table| :: HasIndex(table, i))
  }

  ghost predicate HasIndex(table: map<nat, Klass>, i: nat) {
    exists k :: k in table && table[k].index == i
  }

  // ---- numbering ----

  lemma NumberedExtended(table: map<nat, Klass>, base: nat, t: nat, k: Klass, more: map<nat, Klass>)
    requires Numbered(table, base) && t !in table && k.index == base + |table| && more == table[t := k]
    ensures Numbered(more, base) && |more| == |table| + 1
  {
    assert more.Keys == table.Keys + {t};
    forall i | base <= i < base + |more| ensures HasIndex(more, i) {
      if i < base + |table| {
        assert HasIndex(table, i);
        var j :| j in table && table[j].index == i;
        assert j in more && more[j].index == i;
      } else {
        assert t in more && more[t].index == i;
      }
    }
  }

  lemma NumberedUpdated(table: map<nat, Klass>, base: nat, t: nat, k: Klass, more: map<nat, Klass>)
    requires Numbered(table, base) && t in table && k.index == table[t].index && more == table[t := k]
    ensures Numbered(more, base) && |more| == |table|
  {
    assert more.Keys == table.Keys;
    forall i | base <= i < base + |more| ensures HasIndex(more, i) {
      assert HasIndex(table, i);
      var j :| j in table && table[j].index == i;
      assert j in more && more[j].index == i;
    }
  }

  lemma NumberedJoined(table: map<nat, Klass>, delta: map<nat, Klass>, all: map<nat, Klass>)
    requires Numbered(table, 0) && Numbered(delta, |table|) && table.Keys !! delta.Keys && all == delta + table
    ensures Numbered(all, 0) && |all| == |table| + |delta|
  {
    assert all.Keys == table.Keys + delta.Keys;
    forall i | 0 <= i < |all| ensures HasIndex(all, i) {
      if i < |table| {
        assert HasIndex(table, i);
        var j :| j in table && table[j].index == i;
        assert j in all && all[j].index == i;
      } else {
        assert HasIndex(delta, i);
        var j :| j in delta && delta[j].index == i;
        assert j in all && all[j].index == i;
      }
    }
  }

  // ---- what a partition promises ----

  /** Representatives coincide exactly for equivalent items, and every item is equivalent to its own. */
  lemma RepresentativeAndIndex<K>(c: Classes, key: map<nat, K>, a: nat, b: nat)
    requires c.Valid() && c.Separates(key) && c.Contains(a) && c.Contains(b)
    ensures c.Representative(a) == c.Representative(b) <==> At(key, a) == At(key, b)
    ensures c.Index(a) == c.Index(b) <==> At(key, a) == At(key, b)
    ensures At(key, a) == At(key, c.Representative(a)) && c.Contains(c.Representative(a))
    ensures c.Index(a).Some? && c.Index(a).value < c.Size()
    ensures c.Items(a).Some? && |c.Items(a).value| > 0 && c.Items(a).value[0] == c.Representative(a)
    ensures b in c.Items(a).value <==> At(key, a) == At(key, b)
  {
    KeyIsItem(c, c.inv[a]);
    assert Keyed(c.table[c.inv[a]], c.inv[a]);
    assert Has(c.table, c.inv[a], b) <==> b in c.Items(a).value;
  }

  /** Every index below the size belongs to the class of some item. */
  lemma IndexIsOnto(c: Classes, i: nat)
    requires c.Valid() && i < c.Size()
    ensures exists t :: c.Contains(t) && c.Index(t) == Some(i)
  {
    assert HasIndex(c.table, i);
    var k :| k in c.table && c.table[k].index == i;
    KeyIsItem(c, k);
    assert c.Contains(k) && c.Index(k) == Some(i);
  }

  lemma KeyIsItem(c: Classes, k: nat)
    requires c.Consistent() && k in c.table
    ensures k in c.inv && c.inv[k] == k
  {
    assert Keyed(c.table[k], k) && c.table[k].items[0] in c.table[k].items;
    assert Has(c.table, k, k);
  }

  // ---- appending ----

  /** c with item t put into class k, which is new if k is not a class of c. */
  function Put(c: Classes, t: nat, k: nat, index: nat): Classes {
    Classes(PutInto(c.table, t, k, index), c.inv[t := k])
  }

  function PutInto(table: map<nat, Klass>, t: nat, k: nat, index: nat): map<nat, Klass> {
    if k in table then table[k := Klass(table[k].index, table[k].items + [t])] else table[k := Klass(index, [t])]
  }

  lemma HasPut(table: map<nat, Klass>, t: nat, k: nat, index: nat)
    ensures forall j, x :: Has(PutInto(table, t, k, index), j, x) <==> Has(table, j, x) || (j == k && x == t)
    ensures forall j :: j in PutInto(table, t, k, index) <==> j in table || j == k
    ensures forall j | j in table && Keyed(table[j], j) :: Keyed(PutInto(table, t, k, index)[j], j)
    ensures k !in table && k == t ==> Keyed(PutInto(table, t, k, index)[k], k)
  {
  }

  /** k is where t belongs among `classes`: an equivalent key, or t itself when there is none. */
  ghost predicate Belongs<K>(key: map<nat, K>, classes: map<nat, Klass>, t: nat, k: nat) {
    && At(key, k) == At(key, t)
    && (k !in classes ==> k == t && forall j | j in classes :: At(key, j) != At(key, t))
  }

  lemma PutNumbers(table: map<nat, Klass>, base: nat, t: nat, k: nat)
    requires Numbered(table, base)
    ensures Numbered(PutInto(table, t, k, base + |table|), base)
    ensures |PutInto(table, t, k, base + |table|)| == |table| + if k in table then 0 else 1
  {
    var after := PutInto(table, t, k, base + |table|);
    if k in table {
      NumberedUpdated(table, base, k, after[k], after);
    } else {
      NumberedExtended(table, base, k, after[k], after);
    }
  }

  lemma PutItems(c: Classes, t: nat, k: nat, index: nat)
    ensures forall x: nat :: x in Put(c, t, k, index).inv <==> x in c.inv || x == t
  {
  }

  lemma PutConsistent(c: Classes, t: nat, k: nat, index: nat)
    requires c.Consistent() && (t in c.inv ==> c.inv[t] == k) && (k !in c.table ==> k == t)
    ensures Put(c, t, k, index).Consistent()
  {
    hide Has, PutInto, Keyed;
    HasPut(c.table, t, k, index);
    var d := Put(c, t, k, index);
    forall j, x ensures Has(d.table, j, x) <==> x in d.inv && d.inv[x] == j {
      assert Has(c.table, j, x) <==> x in c.inv && c.inv[x] == j;
    }
  }

  lemma PutSeparates<K>(c: Classes, key: map<nat, K>, t: nat, k: nat, index: nat)
    requires c.Consistent() && c.Separates(key) && Belongs(key, c.table, t, k)
    ensures Put(c, t, k, index).Separates(key)
  {
    PlaceOfItem(c, key, t, k);
    hide PutInto;
    hide Classes.Consistent;
    var inv := Put(c, t, k, index).inv;
    forall x, y | x in inv && y in inv ensures inv[x] == inv[y] <==> At(key, x) == At(key, y) {
    }
  }

  /** The only key equivalent to an item is that of its class. */
  lemma PlaceOfItem<K>(c: Classes, key: map<nat, K>, t: nat, k: nat)
    requires c.Consistent() && c.Separates(key) && Belongs(key, c.table, t, k)
    ensures t in c.inv ==> c.inv[t] == k
    ensures k !in c.table ==> k == t && t !in c.inv && forall x | x in c.inv :: At(key, x) != At(key, t)
    ensures k in c.table ==> k in c.inv && c.inv[k] == k
  {
    if k in c.table { KeyIsItem(c, k); }
    forall x | x in c.inv ensures c.inv[x] in c.inv && At(key, c.inv[x]) == At(key, x) {
      KeyIsItem(c, c.inv[x]);
    }
  }

  // ---- splitting one class ----

  function With(s: set<nat>, x: nat): set<nat> {
    s + {x}
  }

  /** Items in `done`, taken out of classes of c, have been put into the new classes `delta`. */
  ghost predicate Moved<K>(c: Classes, key: map<nat, K>, done: set<nat>, delta: map<nat, Klass>, inv: map<nat, nat>) {
    MovedApart(c, done, inv) && MovedByKey(key, done, delta, inv) && MovedItems(done, delta, inv)
  }

  ghost predicate MovedApart(c: Classes, done: set<nat>, inv: map<nat, nat>) {
    && inv.Keys == c.inv.Keys && done <= inv.Keys && done !! c.table.Keys
    && forall x | x in inv && x !in done :: inv[x] == c.inv[x]
  }

  ghost predicate MovedByKey<K>(key: map<nat, K>, done: set<nat>, delta: map<nat, Klass>, inv: map<nat, nat>) {
    && (forall x | x in done :: x in inv && inv[x] in delta && At(key, inv[x]) == At(key, x))
    && (forall d, e | d in delta && e in delta && At(key, d) == At(key, e) :: d == e)
  }

  ghost predicate MovedItems(done: set<nat>, delta: map<nat, Klass>, inv: map<nat, nat>) {
    && (forall d | d in delta :: d in done && Keyed(delta[d], d))
    && (forall d, x :: Has(delta, d, x) <==> x in done && x in inv && inv[x] == d)
  }

  lemma MoveOne<K>(c: Classes, key: map<nat, K>, done: set<nat>, delta: map<nat, Klass>, inv: map<nat, nat>,
                   t: nat, k: nat, index: nat)
    requires Moved(c, key, done, delta, inv) && t in inv && t !in c.table && Belongs(key, delta, t, k)
    ensures Moved(c, key, With(done, t), PutInto(delta, t, k, index), inv[t := k])
  {
    hide Has, Keyed, PutInto, MovedItems;
    var done', delta', inv' := With(done, t), PutInto(delta, t, k, index), inv[t := k];
    assert inv'.Keys == inv.Keys;
    HasPut(delta, t, k, index);
    MoveByKey(key, done, delta, inv, t, k, done', delta', inv');
    MoveItems(done, delta, inv, t, k, index, done', delta', inv');
  }

  lemma MoveByKey<K>(key: map<nat, K>, done: set<nat>, delta: map<nat, Klass>, inv: map<nat, nat>,
                     t: nat, k: nat, done': set<nat>, delta': map<nat, Klass>, inv': map<nat, nat>)
    requires MovedByKey(key, done, delta, inv) && t in inv && Belongs(key, delta, t, k)
    requires done' == done + {t} && (forall d :: d in delta' <==> d in delta || d == k) && inv' == inv[t := k]
    ensures MovedByKey(key, done', delta', inv')
    ensures (t in done ==> inv[t] == k) && (k !in delta ==> k == t && t !in done)
  {
    hide At;
    forall x | x in done' ensures x in inv' && inv'[x] in delta' && At(key, inv'[x]) == At(key, x) {
    }
    forall d, e | d in delta' && e in delta' && At(key, d) == At(key, e) ensures d == e {
    }
  }

  lemma MoveItems(done: set<nat>, delta: map<nat, Klass>, inv: map<nat, nat>,
                  t: nat, k: nat, index: nat, done': set<nat>, delta': map<nat, Klass>, inv': map<nat, nat>)
    requires MovedItems(done, delta, inv) && t in inv && (t in done ==> inv[t] == k) &&
        (k !in delta ==> k == t && t !in done)
    requires done' == done + {t} && delta' == PutInto(delta, t, k, index) && inv' == inv[t := k]
    ensures MovedItems(done', delta', inv')
  {
    hide Has, Keyed, PutInto;
    HasPut(delta, t, k, index);
    forall d, x ensures Has(delta', d, x) <==> x in done' && x in inv' && inv'[x] == d {
      assert Has(delta, d, x) <==> x in done && x in inv && inv[x] == d;
    }
  }

  /** What splitting one class leaves behind: it is fine, its other items are in new fine classes. */
  ghost predicate SplitAt<K>(c: Classes, key: map<nat, K>, k: nat, d: Classes) {
    && d.Valid()
    && d.inv.Keys == c.inv.Keys
    && SameNumbers(c.table, d.table)
    && (forall x | x in c.inv && c.inv[x] != k :: d.inv[x] == c.inv[x])
    && (forall x | x in c.inv && c.inv[x] == k ::
        At(key, d.inv[x]) == At(key, x) && (d.inv[x] == k || d.inv[x] !in c.table))
    && (Coarse(key, c.inv) ==> Coarse(key, d.inv))
  }

  ghost predicate SameNumbers(before: map<nat, Klass>, after: map<nat, Klass>) {
    forall k | k in before :: k in after && after[k].index == before[k].index
  }

  /** Class k with only `kept`, and the new classes. */
  function Replaced(table: map<nat, Klass>, k: nat, kept: seq<nat>, delta: map<nat, Klass>): map<nat, Klass>
    requires k in table
  {
    delta + table[k := Klass(table[k].index, kept)]
  }

  lemma SplitNumbers(c: Classes, k: nat, kept: seq<nat>, delta: map<nat, Klass>, n: nat)
    requires Numbered(c.table, 0) && Counted(c.table, n) && k in c.table && Numbered(delta, n) &&
        c.table.Keys !! delta.Keys
    ensures Numbered(Replaced(c.table, k, kept, delta), 0) && Counted(Replaced(c.table, k, kept, delta), n + |delta|)
    ensures SameNumbers(c.table, Replaced(c.table, k, kept, delta))
  {
    hide Numbered;
    var shrunk := c.table[k := Klass(c.table[k].index, kept)];
    NumberedUpdated(c.table, 0, k, shrunk[k], shrunk);
    assert shrunk.Keys == c.table.Keys;
    NumberedJoined(shrunk, delta, Replaced(c.table, k, kept, delta));
  }

  lemma HasReplaced(table: map<nat, Klass>, k: nat, kept: seq<nat>, delta: map<nat, Klass>, all: map<nat, Klass>)
    requires k in table && table.Keys !! delta.Keys && all == Replaced(table, k, kept, delta)
    ensures forall j, x :: Has(all, j, x) <==> Has(delta, j, x) || if j == k then x in kept else Has(table, j, x)
    ensures all.Keys == table.Keys + delta.Keys
    ensures forall j | j in delta && Keyed(delta[j], j) :: Keyed(all[j], j)
    ensures forall j | j in table && j != k && Keyed(table[j], j) :: Keyed(all[j], j)
    ensures |kept| > 0 && kept[0] == k ==> Keyed(all[k], k)
  {
  }

  /** Once every item of class k unlike k is moved, the kept items and the new classes replace it. */
  lemma SplitConsistent<K>(c: Classes, key: map<nat, K>, k: nat, kept: seq<nat>, done: set<nat>,
                     delta: map<nat, Klass>, inv: map<nat, nat>)
    requires c.Consistent() && k in c.table && Moved(c, key, done, delta, inv)
    requires |kept| > 0 && kept[0] == k
    requires forall x :: Has(c.table, k, x) <==> x in kept || x in done
    requires forall x | x in kept :: At(key, x) == At(key, k)
    requires forall x | x in done :: At(key, x) != At(key, k)
    ensures Classes(Replaced(c.table, k, kept, delta), inv).Consistent()
    ensures forall x | x in c.inv && c.inv[x] != k :: inv[x] == c.inv[x]
    ensures forall x | x in c.inv && c.inv[x] == k ::
        At(key, inv[x]) == At(key, x) && (inv[x] == k || inv[x] !in c.table)
  {
    hide Has, Keyed, Replaced;
    var d := Classes(Replaced(c.table, k, kept, delta), inv);
    HasReplaced(c.table, k, kept, delta, d.table);
    forall x ensures x in done || x in kept <==> x in c.inv && c.inv[x] == k {
      assert Has(c.table, k, x) <==> x in kept || x in done;
    }
    forall j, x ensures Has(d.table, j, x) <==> x in inv && inv[x] == j {
      assert Has(c.table, j, x) <==> x in c.inv && c.inv[x] == j;
      assert Has(delta, j, x) <==> x in done && inv[x] == j;
    }
  }

  lemma SplitStaysCoarse<K>(c: Classes, key: map<nat, K>, k: nat, done: set<nat>, delta: map<nat, Klass>,
      inv: map<nat, nat>)
    requires c.Consistent() && k in c.table && Moved(c, key, done, delta, inv) && Coarse(key, c.inv)
    requires forall x | x in done :: c.inv[x] == k && At(key, x) != At(key, k)
    requires forall x | x in c.inv && c.inv[x] == k && x !in done :: At(key, x) == At(key, k)
    ensures Coarse(key, inv)
  {
    forall x, y | x in inv && y in inv && At(key, x) == At(key, y) ensures inv[x] == inv[y] {
      assert c.inv[x] == c.inv[y];
    }
  }

  /** Classes keyed below `from` hold items with the key of their class only. */
  ghost predicate FineBelow<K>(key: map<nat, K>, inv: map<nat, nat>, from: nat) {
    forall x | x in inv && inv[x] < from :: At(key, inv[x]) == At(key, x)
  }

  /** After splitting the least class still to be walked, all classes behind the walk are fine. */
  lemma WalkGoesOn<K>(c: Classes, key: map<nat, K>, k: nat, d: Classes, from: nat)
    requires c.Valid() && SplitAt(c, key, k, d)
    requires forall j | j in c.table && from <= j :: k <= j
    requires Coarse(key, c.inv) && FineBelow(key, c.inv, from)
    ensures d.Valid() && d.inv.Keys == c.inv.Keys && SameNumbers(c.table, d.table)
    ensures Coarse(key, d.inv) && FineBelow(key, d.inv, k + 1)
  {
    hide Has, Numbered, Keyed, Coarse;
    forall x | x in d.inv && d.inv[x] < k + 1 ensures At(key, d.inv[x]) == At(key, x) {
      if c.inv[x] != k {
        assert d.inv[x] == c.inv[x] && c.inv[x] in c.table;
      }
    }
  }

  lemma WalkStarts<K>(c: Classes, key: map<nat, K>)
    ensures FineBelow(key, c.inv, 0) && SameNumbers(c.table, c.table)
  {
  }

  lemma KeysAreItems(c: Classes)
    requires c.Valid()
    ensures c.table.Keys <= c.inv.Keys
  {
    forall k | k in c.table ensures k in c.inv {
      KeyIsItem(c, k);
    }
  }

  lemma SameNumbersJoin(a: map<nat, Klass>, b: map<nat, Klass>, c: map<nat, Klass>)
    requires SameNumbers(a, b) && SameNumbers(b, c)
    ensures SameNumbers(a, c)
  {
  }

  lemma FineByKeys<K>(c: Classes, key: map<nat, K>, from: nat)
    requires c.Valid() && FineBelow(key, c.inv, from) && forall k | k in c.table :: k < from
    ensures Fine(key, c.inv)
  {
    hide Has, Keyed;
    forall x | x in c.inv ensures At(key, c.inv[x]) == At(key, x) {
      assert c.inv[x] in c.table;
    }
  }

  lemma KeyIsFirst(c: Classes, k: nat)
    requires c.Consistent() && k in c.table
    ensures |c.table[k].items| > 0 && c.table[k].items[0] == k
  {
    assert Keyed(c.table[k], k);
  }

  lemma NothingMoved<K>(c: Classes, key: map<nat, K>, v: seq<nat>, bound: nat, n: nat)
    requires bound <= |v|
    ensures Moved(c, key, {}, map[], c.inv) && Numbered(map[], n) && Elements(v[bound..bound]) == {}
  {
  }

  /** The items at bound..i of v have been moved. */
  ghost predicate Moving<K>(c: Classes, key: map<nat, K>, done: set<nat>, delta: map<nat, Klass>, inv: map<nat, nat>,
                            v: seq<nat>, bound: nat, i: nat, n: nat, maxIdx: nat)
    requires bound <= i <= |v|
  {
    maxIdx == n + |delta| && Numbered(delta, n) && Moved(c, key, done, delta, inv) && done == Elements(v[bound..i])
  }

  lemma MovingStarts<K>(c: Classes, key: map<nat, K>, v: seq<nat>, bound: nat, n: nat)
    requires bound <= |v|
    ensures Moving(c, key, {}, map[], c.inv, v, bound, bound, n, n)
  {
    NothingMoved(c, key, v, bound, n);
  }

  lemma MovingOn<K>(c: Classes, key: map<nat, K>, done: set<nat>, delta: map<nat, Klass>, inv: map<nat, nat>,
                    v: seq<nat>, bound: nat, i: nat, n: nat, maxIdx: nat, k: nat, j: nat)
    requires bound <= i < |v| && Moving(c, key, done, delta, inv, v, bound, i, n, maxIdx)
    requires c.Consistent() && k in c.table && Has(c.table, k, v[i]) && v[i] != k && Belongs(key, delta, v[i], j)
    ensures Moving(c, key, With(done, v[i]), PutInto(delta, v[i], j, maxIdx), inv[v[i] := j], v, bound, i + 1, n,
                   maxIdx + if j in delta then 0 else 1)
  {
    hide Numbered, Moved, Belongs, PutInto, Has, Elements, With;
    hide Classes.Consistent;
    NotAKey(c, k, v[i]);
    MovedDisjoint(c, key, done, delta, inv);
    MoveOne(c, key, done, delta, inv, v[i], j, maxIdx);
    PutNumbers(delta, n, v[i], j);
    OneMore(v, bound, i);
  }

  lemma MovingEnds<K>(c: Classes, key: map<nat, K>, done: set<nat>, delta: map<nat, Klass>, inv: map<nat, nat>,
                      v: seq<nat>, bound: nat, n: nat, maxIdx: nat)
    requires bound <= |v| && Moving(c, key, done, delta, inv, v, bound, |v|, n, maxIdx)
    ensures maxIdx == n + |delta| && Numbered(delta, n) && Moved(c, key, done, delta, inv) &&
        done == Elements(v[bound..])
  {
    hide Numbered, Moved, Elements;
    assert v[bound..|v|] == v[bound..];
  }

  /** Moves the items whose key is `like` to the front. The order on either side is not specified further, but an item
      at the front with that key stays there. */
  method Regroup<K(==)>(items: seq<nat>, key: map<nat, K>, like: Option<K>) returns (v: seq<nat>, bound: nat)
    ensures bound <= |v| && SameContents(v, items)
    ensures Sides(v, key, like, bound, bound)
    ensures |items| > 0 && At(key, items[0]) == like ==> bound > 0 && v[0] == items[0]
  {
    hide SameContents, Swap, At, Sides;
    v := items;
    bound := 0;
    var last := |v|;
    RegroupStarts(items, key, like);
    while bound < last
      invariant bound <= last <= |v| == |items| && SameContents(v, items)
      invariant Sides(v, key, like, bound, last)
      invariant |items| > 0 && At(key, items[0]) == like ==> v[0] == items[0]
      decreases last - bound
    {
      SidesGrow(v, key, like, bound, last);
      if At(key, v[bound]) == like {
        bound := bound + 1;
      } else if At(key, v[last - 1]) != like {
        last := last - 1;
      } else {
        SwapKeeps(v, items, bound, last - 1);
        SwapSorts(v, key, like, bound, last);
        v := Swap(v, bound, last - 1);
        bound, last := bound + 1, last - 1;
      }
    }
    SidesWithin(v, key, like, bound, last);
  }

  /** Items before lo are like, items from hi on are not. */
  ghost predicate Sides<K>(v: seq<nat>, key: map<nat, K>, like: Option<K>, lo: nat, hi: nat) {
    && lo <= hi <= |v|
    && (forall i: nat | i < lo :: At(key, v[i]) == like)
    && (forall i: nat | hi <= i < |v| :: At(key, v[i]) != like)
  }

  lemma SidesGrow<K>(v: seq<nat>, key: map<nat, K>, like: Option<K>, lo: nat, hi: nat)
    requires Sides(v, key, like, lo, hi) && lo < hi
    ensures At(key, v[lo]) == like ==> Sides(v, key, like, lo + 1, hi)
    ensures At(key, v[hi - 1]) != like ==> Sides(v, key, like, lo, hi - 1)
  {
  }

  lemma SwapSorts<K>(v: seq<nat>, key: map<nat, K>, like: Option<K>, lo: nat, hi: nat)
    requires Sides(v, key, like, lo, hi) && lo < hi && At(key, v[lo]) != like && At(key, v[hi - 1]) == like
    ensures lo + 1 < hi && Sides(Swap(v, lo, hi - 1), key, like, lo + 1, hi - 1)
  {
  }

  ghost predicate SameContents(v: seq<nat>, items: seq<nat>) {
    multiset(v) == multiset(items)
  }

  function Swap(v: seq<nat>, i: nat, j: nat): seq<nat>
    requires i < |v| && j < |v|
  {
    v[i := v[j]][j := v[i]]
  }

  lemma RegroupStarts<K>(v: seq<nat>, key: map<nat, K>, like: Option<K>)
    ensures SameContents(v, v) && Sides(v, key, like, 0, |v|)
  {
  }

  lemma SidesWithin<K>(v: seq<nat>, key: map<nat, K>, like: Option<K>, lo: nat, hi: nat)
    requires Sides(v, key, like, lo, hi)
    ensures lo <= hi <= |v|
    ensures |v| > 0 && At(key, v[0]) == like ==> hi > 0
  {
  }

  lemma SwapKeeps(v: seq<nat>, items: seq<nat>, i: nat, j: nat)
    requires i < |v| && j < |v| && SameContents(v, items)
    ensures |Swap(v, i, j)| == |v| && SameContents(Swap(v, i, j), items)
    ensures Swap(v, i, j)[i] == v[j] && Swap(v, i, j)[j] == v[i]
    ensures forall k: nat | k < |v| && k != i && k != j :: Swap(v, i, j)[k] == v[k]
  {
  }

  lemma SameItems(v: seq<nat>, items: seq<nat>)
    requires SameContents(v, items)
    ensures forall x :: x in v <==> x in items
  {
    forall x ensures x in v <==> x in items {
      assert x in v <==> x in multiset(v);
      assert x in items <==> x in multiset(items);
    }
  }

  function Elements(v: seq<nat>): set<nat> {
    set x | x in v
  }

  lemma RegroupedItems(c: Classes, k: nat, v: seq<nat>, bound: nat)
    requires k in c.table && bound <= |v| && SameContents(v, c.table[k].items)
    ensures forall x :: Has(c.table, k, x) <==> x in v[..bound] || x in Elements(v[bound..])
    ensures forall i | bound <= i < |v| :: Has(c.table, k, v[i])
  {
    SameItems(v, c.table[k].items);
    assert v == v[..bound] + v[bound..];
  }

  lemma RegroupedParts<K>(c: Classes, key: map<nat, K>, k: nat, v: seq<nat>, bound: nat, done: set<nat>)
    requires c.Consistent() && k in c.table && bound <= |v| && done == Elements(v[bound..])
    requires forall x :: Has(c.table, k, x) <==> x in v[..bound] || x in Elements(v[bound..])
    requires Sides(v, key, At(key, k), bound, bound)
    ensures forall x | x in v[..bound] :: At(key, x) == At(key, k)
    ensures forall x | x in done :: x in c.inv && c.inv[x] == k && At(key, x) != At(key, k)
    ensures forall x | x in c.inv && c.inv[x] == k && x !in done :: At(key, x) == At(key, k)
  {
    forall x | x in done ensures x in c.inv && c.inv[x] == k && At(key, x) != At(key, k) {
      assert Has(c.table, k, x);
    }
    forall x | x in c.inv && c.inv[x] == k && x !in done ensures At(key, x) == At(key, k) {
      assert Has(c.table, k, x);
    }
  }

  lemma SplitEnds<K>(c: Classes, key: map<nat, K>, k: nat, v: seq<nat>, bound: nat, done: set<nat>,
                     delta: map<nat, Klass>, inv: map<nat, nat>, n: nat)
    requires c.Valid() && Counted(c.table, n) && k in c.table && 0 < bound <= |v| && v[0] == k
    requires done == Elements(v[bound..]) && Moved(c, key, done, delta, inv) && Numbered(delta, n)
    requires forall x :: Has(c.table, k, x) <==> x in v[..bound] || x in Elements(v[bound..])
    requires Sides(v, key, At(key, k), bound, bound)
    ensures SplitAt(c, key, k, Classes(Replaced(c.table, k, v[..bound], delta), inv))
    ensures Counted(Replaced(c.table, k, v[..bound], delta), n + |delta|)
  {
    hide Numbered, Moved, Has, Elements, Counted, Replaced, At, Sides;
    hide Classes.Consistent;
    RegroupedParts(c, key, k, v, bound, done);
    MovedDisjoint(c, key, done, delta, inv);
    SplitConsistent(c, key, k, v[..bound], done, delta, inv);
    SplitNumbers(c, k, v[..bound], delta, n);
    if Coarse(key, c.inv) {
      SplitStaysCoarse(c, key, k, done, delta, inv);
    }
  }

  /** The equivalence is given by `key`, which tabulates the part of every item that the relation compares. */
  class Partition<K(==)> {
    var key: map<nat, K>
    var table: map<nat, Klass>
    var inv: map<nat, nat>
    var maxIdx: nat

    function Contents(): Classes
      reads this`table, this`inv
    {
      Classes(table, inv)
    }

    ghost predicate Valid()
      reads this
    {
      && Contents().Valid()
      && Counted(table, maxIdx)
      && Contents().Separates(key)
    }

    constructor (key: map<nat, K>)
      ensures Valid() && this.key == key && Contents() == NO_CLASSES
    {
      this.key := key;
      table, inv, maxIdx := map[], map[], 0;
    }

    /** Puts t into the class of `classes` equivalent to it, or opens a new class with the next index. */
    method DoAppend(classes: map<nat, Klass>, t: nat) returns (after: map<nat, Klass>)
      modifies this`inv, this`maxIdx
      ensures t in inv && inv == old(inv)[t := inv[t]] && Belongs(key, classes, t, inv[t])
      ensures after == PutInto(classes, t, inv[t], old(maxIdx))
      ensures maxIdx == old(maxIdx) + if inv[t] in classes then 0 else 1
    {
      var rest := classes.Keys;
      while rest != {}
        invariant rest <= classes.Keys
        invariant forall k | k in classes && k !in rest :: At(key, k) != At(key, t)
        invariant inv == old(inv) && maxIdx == old(maxIdx)
        decreases |rest|
      {
        var k := Least(rest);
        if At(key, k) == At(key, t) {
          inv := inv[t := k];
          return classes[k := Klass(classes[k].index, classes[k].items + [t])];
        }
        rest := rest - {k};
      }
      after := classes[t := Klass(maxIdx, [t])];
      inv := inv[t := t];
      maxIdx := maxIdx + 1;
    }

    method Append(t: nat)
      requires Valid()
      modifies this`table, this`inv, this`maxIdx
      ensures Valid()
      ensures t in inv && Belongs(key, old(table), t, inv[t])
      ensures Contents() == Put(old(Contents()), t, inv[t], old(|table|))
    {
      hide Classes.Consistent;
      hide Numbered, Belongs, Fine, Coarse, PutInto;
      ghost var before, maxIdx0 := Contents(), maxIdx;
      table := DoAppend(table, t);
      PutNumbers(before.table, 0, t, inv[t]);
      PlaceOfItem(before, key, t, inv[t]);
      PutConsistent(before, t, inv[t], maxIdx0);
      PutSeparates(before, key, t, inv[t], maxIdx0);
    }

    /** Moves the items of class k that are unlike k to new classes, numbered after the existing ones. */
    method MoveUnlike(k: nat, v: seq<nat>, bound: nat) returns (delta: map<nat, Klass>, ghost done: set<nat>)
      requires Contents().Consistent() && Counted(table, maxIdx) && k in table && bound <= |v|
      requires forall i | bound <= i < |v| :: Has(table, k, v[i]) && v[i] != k
      modifies this`inv, this`maxIdx
      ensures maxIdx == old(maxIdx) + |delta| && Numbered(delta, old(maxIdx))
      ensures done == Elements(v[bound..]) && Moved(old(Contents()), key, done, delta, inv)
    {
      hide Numbered, Moved, Belongs, PutInto, Has, Elements, Counted, With, Moving;
      hide Classes.Consistent;
      ghost var c, eq, n := Contents(), key, maxIdx;
      delta, done := map[], {};
      MovingStarts(c, eq, v, bound, n);
      for i := bound to |v|
        invariant Moving(c, eq, done, delta, inv, v, bound, i, n, maxIdx)
      {
        ghost var delta0, inv0, before := delta, inv, maxIdx;
        var t := v[i];
        delta := DoAppend(delta, t);
        MovingOn(c, eq, done, delta0, inv0, v, bound, i, n, before, k, inv[t]);
        done := With(done, t);
      }
      MovingEnds(c, eq, done, delta, inv, v, bound, n, maxIdx);
    }

    method SplitClass(k: nat)
      requires Contents().Valid() && Counted(table, maxIdx) && k in table
      modifies this`table, this`inv, this`maxIdx
      ensures Counted(table, maxIdx) && SplitAt(old(Contents()), key, k, Contents())
    {
      hide Numbered, Moved, Has, Elements, Keyed, Counted, SameContents, Replaced, SplitAt, At;
      hide Classes.Consistent;
      ghost var c, n := Contents(), maxIdx;
      KeyIsFirst(c, k);
      var items, eq := table[k].items, key;
      var v, bound := Regroup(items, eq, At(eq, k));
      RegroupedItems(c, k, v, bound);
      var delta, done := MoveUnlike(k, v, bound);
      table := Replaced(table, k, v[..bound], delta);
      SplitEnds(c, eq, k, v, bound, done, delta, inv, n);
    }

    /** Replaces the relation by a finer one, splitting classes while walking the growing table in key order. */
    method Split(finer: map<nat, K>)
      requires Valid()
      requires forall x, y | x in inv && y in inv && At(finer, x) == At(finer, y) :: At(key, x) == At(key, y)
      modifies this
      ensures Valid() && key == finer
      ensures inv.Keys == old(inv.Keys) && SameNumbers(old(table), table)
    {
      hide Counted, Numbered, Coarse, Fine, FineBelow, SameNumbers, Has, Keyed, SplitAt, KeysFrom;
      hide Classes.Consistent;
      hide Classes.Valid;
      StillCoarse(key, finer, inv);
      key := finer;
      ghost var limit := Bounded(inv.Keys);
      KeysAreItems(Contents());
      ghost var c := Contents();
      WalkStarts(c, finer);
      var later: set<nat> := KeysFrom(table, 0);
      ghost var from: nat := 0;
      while later != {}
        invariant Contents().Valid() && Counted(table, maxIdx) && key == finer
        invariant inv.Keys == c.inv.Keys && SameNumbers(c.table, table)
        invariant Coarse(finer, inv)
        invariant later == KeysFrom(table, from)
        invariant FineBelow(finer, inv, from)
        invariant table.Keys <= inv.Keys
        decreases limit - from
      {
        var k := Least(later);
        ghost var before := Contents();
        InKeysFrom(table, from);
        SplitClass(k);
        WalkGoesOn(before, finer, k, Contents(), from);
        KeysAreItems(Contents());
        SameNumbersJoin(c.table, before.table, table);
        from := k + 1;
        later := KeysFrom(table, k + 1);
      }
      InKeysFrom(table, from);
      FineByKeys(Contents(), finer, from);
    }
  }

  function KeysFrom(table: map<nat, Klass>, from: nat): set<nat> {
    set k: nat | k in table && from <= k
  }

  lemma InKeysFrom(table: map<nat, Klass>, from: nat)
    ensures forall k: nat :: k in KeysFrom(table, from) <==> k in table && from <= k
  {
  }

  lemma StillCoarse<K>(key: map<nat, K>, finer: map<nat, K>, inv: map<nat, nat>)
    requires Coarse(key, inv)
    requires forall x, y | x in inv && y in inv && At(finer, x) == At(finer, y) :: At(key, x) == At(key, y)
    ensures Coarse(finer, inv)
  {
  }

  lemma OneMore(v: seq<nat>, bound: nat, i: nat)
    requires bound <= i < |v|
    ensures Elements(v[bound..i + 1]) == With(Elements(v[bound..i]), v[i])
  {
    assert v[bound..i + 1] == v[bound..i] + [v[i]];
  }

  lemma MovedDisjoint<K>(c: Classes, key: map<nat, K>, done: set<nat>, delta: map<nat, Klass>, inv: map<nat, nat>)
    requires Moved(c, key, done, delta, inv)
    ensures c.table.Keys !! delta.Keys && inv.Keys == c.inv.Keys
  {
  }

  lemma NotAKey(c: Classes, k: nat, t: nat)
    requires c.Consistent() && k in c.table && Has(c.table, k, t) && t != k
    ensures t !in c.table && t in c.inv
  {
    if t in c.table { KeyIsItem(c, t); }
  }
}
