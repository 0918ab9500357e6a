/** The open-addressing table that finds the index of a glued state. */
module LookupTables {
  import opened Options

  datatype Key = Key(first: bv64, second: bv64)

  datatype Slot = Empty | Filled(key: Key, value: nat)

  function Hash(k: Key): nat {
    ((k.first >> 2) ^ (k.second >> 4) ^ (k.second << 10)) as nat
  }

  // ---- probing ----

  /** The slot where the search for a key begins. */
  function Home(n: nat, k: Key): nat
    requires n > 0
  {
    Hash(k) % n
  }

  /** The slot `steps` further round. */
  function Around(n: nat, start: nat, steps: nat): nat
    requires start < n && steps < n
  {
    if start + steps < n then start + steps else start + steps - n
  }

  lemma Modulo(n: nat, i: nat)
    requires n > 0 && i < 2 * n
    ensures i % n == if i < n then i else i - n
  {
    if i >= n {
      var q, m := i / n, i % n;
      assert i == n * q + m && 0 <= m < n;
      NoOther(n, q, m, i - n);
    }
  }

  lemma NoOther(n: nat, q: int, m: nat, r: nat)
    requires n > 0 && m < n && r < n && n * q + m == n + r
    ensures m == r
  {
    Multiples(n, q);
  }

  lemma Multiples(n: nat, q: int)
    ensures q < 1 ==> n * q <= 0
    ensures q > 1 ==> n * q >= n * 2
  {
  }

  /** Slots before `steps` are filled with other keys. */
  ghost predicate PassedBy(slots: seq<Slot>, start: nat, steps: nat, k: Key)
    requires start < |slots| && steps <= |slots|
  {
    forall i: nat | i < steps :: slots[Around(|slots|, start, i)].Filled? && slots[Around(|slots|, start, i)].key != k
  }

  /** A key sits where the search for it ends: behind filled slots with other keys, not in the last slot of a round. */
  ghost predicate WellPlaced(slots: seq<Slot>, k: Key, at: nat) {
    exists steps: nat :: steps + 1 < |slots| && at == Around(|slots|, Home(|slots|, k), steps) &&
        PassedBy(slots, Home(|slots|, k), steps, k)
  }

  ghost predicate AllPlaced(slots: seq<Slot>) {
    forall i: nat | i < |slots| && slots[i].Filled? :: WellPlaced(slots, slots[i].key, i)
  }

  ghost predicate NoTwins(slots: seq<Slot>) {
    forall i: nat, j: nat | i < |slots| && j < |slots| && slots[i].Filled? && slots[j].Filled? &&
        slots[i].key == slots[j].key :: i == j
  }

  ghost predicate HasKey(slots: seq<Slot>, k: Key) {
    exists i: nat :: i < |slots| && slots[i].Filled? && slots[i].key == k
  }

  /** The slots hold exactly the entries of a map. */
  ghost predicate Holds(slots: seq<Slot>, entries: map<Key, nat>) {
    && (forall i: nat | i < |slots| && slots[i].Filled? ::
        slots[i].key in entries && entries[slots[i].key] == slots[i].value)
    && (forall k | k in entries :: HasKey(slots, k))
  }

  /** What a search finds: a free slot or the slot of the key, at the end of a run of other keys. */
  ghost predicate IsFound(slots: seq<Slot>, k: Key, at: nat) {
    && at < |slots| && (slots[at].Empty? || slots[at].key == k)
    && WellPlaced(slots, k, at)
  }

  lemma FoundAfter(slots: seq<Slot>, k: Key, steps: nat)
    requires steps + 1 < |slots| && PassedBy(slots, Home(|slots|, k), steps, k)
    requires var at := Around(|slots|, Home(|slots|, k), steps); slots[at].Empty? || slots[at].key == k
    ensures IsFound(slots, k, Around(|slots|, Home(|slots|, k), steps))
  {
  }

  /** A search that ends at a free slot, or nowhere, proves the key absent. */
  lemma FoundMeansPresence(slots: seq<Slot>, entries: map<Key, nat>, k: Key, at: nat)
    requires AllPlaced(slots) && NoTwins(slots) && Holds(slots, entries) && IsFound(slots, k, at)
    ensures k in entries <==> slots[at].Filled?
    ensures k in entries ==> entries[k] == slots[at].value
  {
    if k in entries {
      var i: nat :| i < |slots| && slots[i].Filled? && slots[i].key == k;
      PlaceIsUnique(slots, k, i, at);
    }
  }

  lemma NotPassed(slots: seq<Slot>, start: nat, steps: nat, k: Key, i: nat)
    requires start < |slots| && steps <= |slots| && PassedBy(slots, start, steps, k) && i < |slots|
    ensures i < steps ==> slots[Around(|slots|, start, i)].Filled? && slots[Around(|slots|, start, i)].key != k
  {
  }

  /** The key's own slot is where the search ends. */
  lemma PlaceIsUnique(slots: seq<Slot>, k: Key, i: nat, at: nat)
    requires i < |slots| && slots[i].Filled? && slots[i].key == k && WellPlaced(slots, k, i) && IsFound(slots, k, at)
    ensures i == at
  {
    var start := Home(|slots|, k);
    var s: nat :| s + 1 < |slots| && i == Around(|slots|, start, s) && PassedBy(slots, start, s, k);
    var t: nat :| t + 1 < |slots| && at == Around(|slots|, start, t) && PassedBy(slots, start, t, k);
    NotPassed(slots, start, t, k, s);
    NotPassed(slots, start, s, k, t);
  }

  // ---- counting ----

  function FilledCount(slots: seq<Slot>): nat {
    if slots == [] then 0 else FilledCount(slots[..|slots| - 1]) + if slots[|slots| - 1].Filled? then 1 else 0
  }

  lemma {:induction false} FillOne(slots: seq<Slot>, at: nat, x: Slot)
    requires at < |slots| && slots[at].Empty? && x.Filled?
    ensures FilledCount(slots[at := x]) == FilledCount(slots) + 1
    decreases |slots|
  {
    var n := |slots| - 1;
    if at < n {
      assert slots[at := x][..n] == slots[..n][at := x];
      FillOne(slots[..n], at, x);
    } else {
      assert slots[at := x][..n] == slots[..n];
    }
  }

  /** All filled but perhaps one. */
  lemma {:induction false} NearlyFull(slots: seq<Slot>, but: nat)
    requires forall i: nat | i < |slots| && i != but :: slots[i].Filled?
    ensures FilledCount(slots) + 1 >= |slots| && (but >= |slots| ==> FilledCount(slots) == |slots|)
    decreases |slots|
  {
    if slots != [] {
      NearlyFull(slots[..|slots| - 1], but);
    }
  }

  /** A search passes only |slots| - 1 slots; if they all hold other keys, the table is nearly full. */
  lemma ExhaustedIsFull(slots: seq<Slot>, k: Key)
    requires |slots| > 0 && PassedBy(slots, Home(|slots|, k), |slots| - 1, k)
    ensures FilledCount(slots) + 1 >= |slots|
  {
    var n, start := |slots|, Home(|slots|, k);
    var last := Around(n, start, n - 1);
    forall i: nat | i < n && i != last ensures slots[i].Filled? {
      var steps: nat := if i >= start then i - start else i + n - start;
      assert i == Around(n, start, steps);
    }
    NearlyFull(slots, last);
  }

  // ---- inserting ----

  /** Filling a free slot disturbs no search for another key. */
  lemma InsertKeeps(slots: seq<Slot>, entries: map<Key, nat>, k: Key, v: nat, at: nat)
    requires AllPlaced(slots) && NoTwins(slots) && Holds(slots, entries) && IsFound(slots, k, at) && slots[at].Empty?
    ensures AllPlaced(slots[at := Filled(k, v)]) && NoTwins(slots[at := Filled(k, v)])
    ensures Holds(slots[at := Filled(k, v)], entries[k := v])
  {
    var more := slots[at := Filled(k, v)];
    FoundMeansPresence(slots, entries, k, at);
    forall i: nat | i < |more| && more[i].Filled? ensures WellPlaced(more, more[i].key, i) {
      StillPlaced(slots, k, v, at, if i == at then k else slots[i].key, i);
    }
    forall j | j in entries[k := v] ensures HasKey(more, j) {
      if j == k {
        assert more[at].key == k;
      } else {
        var i: nat :| i < |slots| && slots[i].Filled? && slots[i].key == j;
        assert more[i] == slots[i];
      }
    }
  }

  lemma StillPlaced(slots: seq<Slot>, k: Key, v: nat, at: nat, j: Key, i: nat)
    requires at < |slots| && slots[at].Empty? && WellPlaced(slots, j, i)
    ensures WellPlaced(slots[at := Filled(k, v)], j, i)
  {
    var more, start := slots[at := Filled(k, v)], Home(|slots|, j);
    var steps: nat :| steps + 1 < |slots| && i == Around(|slots|, start, steps) && PassedBy(slots, start, steps, j);
    assert PassedBy(more, start, steps, j);
  }

  class GluedStateLookupTable {
    const map_: array<Slot>
    /** What has been inserted. */
    ghost var entries: map<Key, nat>

    ghost predicate Valid()
      reads this, map_
    {
      && map_.Length >= 2
      && AllPlaced(map_[..]) && NoTwins(map_[..]) && Holds(map_[..], entries)
      && |entries| == FilledCount(map_[..])
    }

    constructor (n: nat)
      requires n >= 2
      ensures Valid() && fresh(map_) && map_.Length == n && entries == map[]
    {
      map_ := new Slot[n](i => Empty);
      entries := map[];
      new;
      NothingFilled(map_[..]);
    }

    /** The slot of a key, or the free slot where it belongs; none exactly when all other slots of the round hold
        other keys. */
    method Search(k: Key) returns (r: Option<nat>)
      requires Valid()
      ensures r.Some? ==> IsFound(map_[..], k, r.value)
      ensures r.None? <==> PassedBy(map_[..], Home(map_.Length, k), map_.Length - 1, k)
    {
      hide AllPlaced, NoTwins, Holds, FilledCount, Hash;
      var n := map_.Length;
      var startInd := Hash(k) % n;
      var ind, stop := startInd, (startInd + n - 1) % n;
      Modulo(n, startInd + n - 1);
      ghost var steps: nat := 0;
      while ind != stop
        invariant steps < n && ind == Around(n, startInd, steps) && PassedBy(map_[..], startInd, steps, k)
        decreases n - steps
      {
        if map_[ind].Empty? || map_[ind].key == k {
          FoundAfter(map_[..], k, steps);
          return Some(ind);
        }
        Modulo(n, ind + 1);
        ind := (ind + 1) % n;
        steps := steps + 1;
      }
      return None;
    }

    /** All slots that a search for k passes hold other keys. */
    ghost predicate Exhausted(k: Key)
      requires Valid()
      reads this, map_
    {
      PassedBy(map_[..], Home(map_.Length, k), map_.Length - 1, k)
    }

    /** The value stored for k, unless the search ends at no slot. That cannot happen while two slots are free or the
        key is stored, and must happen when the table is full and the key is not. */
    method Find(k: Key) returns (ok: bool, r: Option<nat>)
      requires Valid()
      ensures ok <==> !Exhausted(k)
      ensures |entries| + 2 <= map_.Length || k in entries ==> ok
      ensures |entries| >= map_.Length && k !in entries ==> !ok
      ensures ok ==> r == if k in entries then Some(entries[k]) else None
    {
      hide AllPlaced, NoTwins, Holds, IsFound, FilledCount, PassedBy;
      var ind := Search(k);
      WhenExhausted(map_[..], entries, k);
      if ind.None? {
        return false, None;
      }
      FoundIsSlot(map_[..], k, ind.value);
      FoundMeansPresence(map_[..], entries, k, ind.value);
      ok := true;
      r := if map_[ind.value].Filled? then Some(map_[ind.value].value) else None;
    }

    /** Stores v for a new key and refuses a key that is present, unless the search ends at no slot. */
    method Insert(k: Key, v: nat) returns (ok: bool, inserted: bool)
      requires Valid()
      modifies this, map_
      ensures Valid() && (ok <==> !old(Exhausted(k)))
      ensures old(|entries|) + 2 <= map_.Length || k in old(entries) ==> ok
      ensures ok ==> (inserted <==> k !in old(entries))
      ensures entries == if ok && inserted then old(entries)[k := v] else old(entries)
      ensures |entries| == old(|entries|) + if ok && inserted then 1 else 0
    {
      hide AllPlaced, NoTwins, Holds, IsFound, FilledCount, PassedBy;
      var ind := Search(k);
      WhenExhausted(map_[..], entries, k);
      if ind.None? {
        return false, false;
      }
      ok := true;
      FoundIsSlot(map_[..], k, ind.value);
      FoundMeansPresence(map_[..], entries, k, ind.value);
      if map_[ind.value].Filled? {
        return true, false;
      }
      InsertKeeps(map_[..], entries, k, v, ind.value);
      FillOne(map_[..], ind.value, Filled(k, v));
      ghost var before := map_[..];
      map_[ind.value] := Filled(k, v);
      assert map_[..] == before[ind.value := Filled(k, v)];
      OneMoreEntry(entries, k, v);
      entries := entries[k := v];
      inserted := true;
    }

    /** No more entries than slots. */
    lemma Capacity()
      requires Valid()
      ensures |entries| <= map_.Length
    {
      hide AllPlaced, NoTwins, Holds, FilledCount;
      CountIsBounded(map_[..]);
    }
  }

  lemma {:induction false} CountIsBounded(slots: seq<Slot>)
    ensures FilledCount(slots) <= |slots|
    ensures FilledCount(slots) == |slots| ==> forall i: nat | i < |slots| :: slots[i].Filled?
    decreases |slots|
  {
    if slots != [] {
      CountIsBounded(slots[..|slots| - 1]);
    }
  }

  /** A search that ends at no slot: only for an absent key and with at most one slot free; always with none free. */
  lemma WhenExhausted(slots: seq<Slot>, entries: map<Key, nat>, k: Key)
    requires |slots| >= 2 && AllPlaced(slots) && Holds(slots, entries)
    ensures PassedBy(slots, Home(|slots|, k), |slots| - 1, k) ==> FilledCount(slots) + 1 >= |slots| && k !in entries
    ensures FilledCount(slots) >= |slots| && k !in entries ==> PassedBy(slots, Home(|slots|, k), |slots| - 1, k)
  {
    hide FilledCount, Hash;
    CountIsBounded(slots);
    if PassedBy(slots, Home(|slots|, k), |slots| - 1, k) { ExhaustedIsFull(slots, k); }
    forall i: nat | i < |slots| && slots[i].Filled? && slots[i].key == k
      ensures !PassedBy(slots, Home(|slots|, k), |slots| - 1, k)
    {
      PlacedIsNotPassed(slots, k, i);
    }
  }

  lemma PlacedIsNotPassed(slots: seq<Slot>, k: Key, i: nat)
    requires i < |slots| && slots[i].Filled? && slots[i].key == k && WellPlaced(slots, k, i)
    ensures !PassedBy(slots, Home(|slots|, k), |slots| - 1, k)
  {
    hide Hash;
    var start := Home(|slots|, k);
    var s: nat :| s + 1 < |slots| && i == Around(|slots|, start, s) && PassedBy(slots, start, s, k);
    assert slots[Around(|slots|, start, s)].key == k;
  }

  lemma FoundIsSlot(slots: seq<Slot>, k: Key, at: nat)
    requires IsFound(slots, k, at)
    ensures at < |slots|
  {
  }

  lemma OneMoreEntry(entries: map<Key, nat>, k: Key, v: nat)
    requires k !in entries
    ensures |entries[k := v]| == |entries| + 1
  {
    assert entries[k := v].Keys == entries.Keys + {k};
  }

  lemma {:induction false} NothingFilled(slots: seq<Slot>)
    requires forall i: nat | i < |slots| :: slots[i].Empty?
    ensures FilledCount(slots) == 0
    decreases |slots|
  {
    if slots != [] {
      NothingFilled(slots[..|slots| - 1]);
    }
  }
}
