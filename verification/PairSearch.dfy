/** The exploration of the pairs of states that two scanners reach together, with their indices in a lookup table. */
module PairSearch {
  import opened Options
  import opened Ordered
  import opened Partitions
  import opened Determination
  import opened LookupTables

  datatype Pair = Pair(left: nat, right: nat)

  /** Stepping both scanners at once. */
  function GlueTask(l: (nat, nat) -> nat, leftInitial: nat, r: (nat, nat) -> nat, rightInitial: nat): Task<Pair> {
    Task(Pair(leftInitial, rightInitial), (s: Pair, c: nat) => Pair(l(s.left, c), r(s.right, c)), (s: Pair) => true)
  }

  // ---- keys ----

  /** Where the rows of both transition tables lie in memory. */
  datatype Places = Places(left: seq<bv64>, right: seq<bv64>) {
    /** Different states have different rows. */
    predicate Valid() {
      && (forall i: nat, j: nat | i < |left| && j < |left| && left[i] == left[j] :: i == j)
      && (forall i: nat, j: nat | i < |right| && j < |right| && right[i] == right[j] :: i == j)
    }

    predicate Has(s: Pair) {
      s.left < |left| && s.right < |right|
    }

    /** The key of a pair is made of the addresses of its rows. */
    function KeyOf(s: Pair): Key
      requires Has(s)
    {
      Key(left[s.left], right[s.right])
    }
  }

  ghost predicate KeyFrom(places: Places, index: map<Pair, nat>, k: Key) {
    exists s: Pair :: s in index && places.Has(s) && places.KeyOf(s) == k
  }

  /** The table holds the index of every pair found, and nothing else. */
  ghost predicate Mirrors(places: Places, entries: map<Key, nat>, index: map<Pair, nat>) {
    && (forall s | s in index :: places.Has(s) && KeyHolds(places, entries, s, index[s]))
    && (forall k | k in entries :: KeyFrom(places, index, k))
  }

  ghost predicate KeyHolds(places: Places, entries: map<Key, nat>, s: Pair, i: nat)
    requires places.Has(s)
  {
    places.KeyOf(s) in entries && entries[places.KeyOf(s)] == i
  }

  lemma LooksUp(places: Places, entries: map<Key, nat>, index: map<Pair, nat>, s: Pair)
    requires places.Valid() && Mirrors(places, entries, index) && places.Has(s)
    ensures places.KeyOf(s) in entries <==> s in index
    ensures s in index ==> entries[places.KeyOf(s)] == index[s]
  {
    if places.KeyOf(s) in entries {
      var t: Pair :| t in index && places.Has(t) && places.KeyOf(t) == places.KeyOf(s);
      assert t == s;
    }
    if s in index { assert KeyHolds(places, entries, s, index[s]); }
  }

  lemma MirrorsMore(places: Places, entries: map<Key, nat>, index: map<Pair, nat>, s: Pair, i: nat)
    requires places.Valid() && Mirrors(places, entries, index) && places.Has(s) && s !in index
    ensures Mirrors(places, entries[places.KeyOf(s) := i], index[s := i])
  {
    LooksUp(places, entries, index, s);
    var more, further := entries[places.KeyOf(s) := i], index[s := i];
    forall t | t in further ensures places.Has(t) && KeyHolds(places, more, t, further[t]) {
      if t != s {
        assert KeyHolds(places, entries, t, index[t]);
        LooksUp(places, entries, index, t);
      }
    }
    forall k | k in more ensures KeyFrom(places, further, k) {
      if k == places.KeyOf(s) {
        assert s in further;
      } else {
        assert KeyFrom(places, index, k);
        var t: Pair :| t in index && places.Has(t) && places.KeyOf(t) == k;
        assert t in further;
      }
    }
  }

  /** Every pair that is reached has its rows. */
  ghost predicate AllPlacedIn(places: Places, task: Task<Pair>, letters: set<nat>) {
    forall s: Pair | Reachable(task, letters, s) :: places.Has(s)
  }

  // ---- exploring ----

  /** How the exploration of a row ends: with the row, without budget for a new pair, or at a search that ended at no
      slot. */
  datatype RowEnd = Done | OverBudget | Lost

  method ExplorePairs(task: Task<Pair>, letters: Classes, states: seq<Pair>, ghost index: map<Pair, nat>, i: nat,
      budget: nat, places: Places, table: GluedStateLookupTable)
    returns (end: RowEnd, states': seq<Pair>, ghost index': map<Pair, nat>, row: seq<nat>, budget': nat,
      ghost extra: seq<Pair>)
    requires letters.Valid() && i < |states| && task.required(states[i]) && places.Valid()
    requires Indexed(states, index) && AllReachable(task, letters.table.Keys, states)
    requires AllPlacedIn(places, task, letters.table.Keys)
    requires table.Valid() && Mirrors(places, table.entries, index) && |table.entries| == |states|
    modifies table, table.map_
    ensures table.Valid() && Mirrors(places, table.entries, index') && |table.entries| == |states'|
    ensures Prefix(states, states') && Indexed(states', index') && AllReachable(task, letters.table.Keys, states')
    ensures |states'| + budget' == |states| + budget
    ensures end.Done? ==> RowDone(task, letters.table, states', i, row)
    ensures end.OverBudget? ==> TooMany(task, letters.table.Keys, extra, |states| + budget - 1)
    ensures end.OverBudget? ==> |states| + budget < table.map_.Length
    ensures end.Lost? ==> |states'| + 2 > table.map_.Length
  {
    hide Indexed, AllReachable, Numbered, RowEntry, Reachable, Mirrors, AllPlacedIn, Places.KeyOf;
    hide Classes.Valid;
    hide Places.Valid;
    hide GluedStateLookupTable.Valid;
    hide GluedStateLookupTable.Exhausted;
    states', index', budget', extra := states, index, budget, [];
    row := seq(letters.Size(), j => 0);
    var rest: set<nat> := letters.table.Keys;
    while rest != {}
      invariant rest <= letters.table.Keys && |row| == letters.Size()
      invariant Prefix(states, states') && Indexed(states', index') && AllReachable(task, letters.table.Keys, states')
      invariant |states'| + budget' == |states| + budget
      invariant forall k: nat | k in letters.table && k !in rest :: RowEntry(task, letters.table, states', i, row, k)
      invariant table.Valid() && Mirrors(places, table.entries, index') && |table.entries| == |states'|
      decreases |rest|
    {
      var k: nat := Least(rest);
      var newState := task.next(states[i], k);
      StepIsReachable(task, letters.table.Keys, states', i, k);
      ReachedIsPlaced(places, task, letters.table.Keys, newState);
      ghost var before, row0 := states', row;
      InIndex(states', index', newState);
      LooksUp(places, table.entries, index', newState);
      var ok, at := table.Find(places.KeyOf(newState));
      if !ok {
        return Lost, states', index', row, budget', extra;
      }
      if at.None? {
        if budget' == 0 {
          extra := states' + [newState];
          ExtraState(task, letters.table.Keys, states', index', newState);
          return OverBudget, states', index', row, budget', extra;
        }
        budget' := budget' - 1;
        ReachableMore(task, letters.table.Keys, states', newState);
        IndexedMore(states', index', newState);
        MirrorsMore(places, table.entries, index', newState, |states'|);
        var stored, inserted := table.Insert(places.KeyOf(newState), |states'|);
        index' := index'[newState := |states'|];
        at := Some(|states'|);
        states' := states' + [newState];
        InIndex(states', index', newState);
      }
      IndexBounds(letters, k);
      row := row[letters.table[k].index := at.value];
      RowOneMore(task, letters, before, states', i, row0, k, at.value, rest);
      rest := rest - {k};
    }
    end := Done;
  }

  lemma ReachedIsPlaced(places: Places, task: Task<Pair>, letters: set<nat>, s: Pair)
    requires AllPlacedIn(places, task, letters) && Reachable(task, letters, s)
    ensures places.Has(s)
  {
  }

  /** How an exploration ends: as one with a map does, or at a search that ended at no slot. */
  datatype SearchEnd = Explored(outcome: Outcome<Pair>) | Overflow

  /** Explores the pairs breadth-first, as Determine does, with `slots` slots for their indices. */
  method DeterminePairs(task: Task<Pair>, letters: Classes, maxSize: nat, places: Places, slots: nat)
    returns (r: SearchEnd, ghost seen: seq<Pair>)
    requires letters.Valid() && places.Valid() && AllPlacedIn(places, task, letters.table.Keys) && slots >= 2
    ensures r.Explored? && r.outcome.Success? ==> Complete(task, letters.table.Keys, r.outcome.states)
    ensures r.Explored? && r.outcome.Success? ==> 0 < |r.outcome.states| <= maxSize + 1 && |r.outcome.states| <= slots
    ensures r.Explored? && r.outcome.Success? ==>
        Connects(task, letters.table.Keys, r.outcome.states, r.outcome.calls)
    ensures r.Explored? && r.outcome.Failure? ==> TooMany(task, letters.table.Keys, seen, maxSize)
    ensures r.Explored? && r.outcome.Failure? ==> maxSize + 1 < slots
    ensures r.Overflow? ==> Distinct(seen) && AllReachable(task, letters.table.Keys, seen)
    ensures r.Overflow? ==> slots < |seen| + 2 <= maxSize + 3
  {
    hide Indexed, AllReachable, RowsDone, RowDone, Prefix, Complete, Connects, Mirrors, AllPlacedIn, Distinct;
    hide Places.KeyOf;
    hide Places.Valid;
    hide Classes.Valid;
    hide GluedStateLookupTable.Valid;
    hide GluedStateLookupTable.Exhausted;
    var states, budget := [task.initial], maxSize;
    ghost var index := map[task.initial := 0];
    var rows: seq<seq<nat>>, indices: seq<nat> := [], [];
    seen := [];
    ExplorationStarts(task, letters.table);
    InitialIsReachable(task, letters.table.Keys);
    ReachedIsPlaced(places, task, letters.table.Keys, task.initial);
    var table := new GluedStateLookupTable(slots);
    FirstEntry(places, task.initial);
    var stored, inserted := table.Insert(places.KeyOf(task.initial), 0);
    var i: nat := 0;
    while i < |states|
      invariant i <= |states| && |states| + budget == maxSize + 1
      invariant Starts(task, states) && Indexed(states, index) && AllReachable(task, letters.table.Keys, states)
      invariant RowsDone(task, letters.table, states, i, indices, rows)
      invariant fresh(table) && fresh(table.map_) && table.map_.Length == slots
      invariant table.Valid() && Mirrors(places, table.entries, index) && |table.entries| == |states|
      decreases maxSize + 1 - i
    {
      if !task.required(states[i]) {
        RowsDoneSkip(task, letters.table, states, i, indices, rows);
      } else {
        ghost var before := states;
        var end, row;
        end, states, index, row, budget, seen := ExplorePairs(task, letters, states, index, i, budget, places, table);
        PrefixStarts(task, before, states);
        if end.Lost? {
          seen := states;
          IndexedIsDistinct(states, index);
          return Overflow, seen;
        }
        if end.OverBudget? {
          return Explored(Failure), seen;
        }
        RowsDoneGrow(task, letters.table, before, states, i, indices, rows);
        RowsDoneMore(task, letters.table, states, i, indices, rows, row);
        rows, indices := rows + [row], indices + [i];
      }
      i := i + 1;
    }
    table.Capacity();
    ExplorationIsComplete(task, letters.table, states, index, indices, rows);
    var calls := ListCalls(task, letters, states, indices, rows);
    r := Explored(Success(states, calls));
  }

  lemma InitialIsReachable(task: Task<Pair>, letters: set<nat>)
    ensures Reachable(task, letters, task.initial)
  {
    assert Explores(task, letters, task.initial, [], task.initial);
  }

  lemma FirstEntry(places: Places, s: Pair)
    requires places.Has(s)
    ensures Mirrors(places, map[places.KeyOf(s) := 0], map[s := 0])
  {
    assert s in map[s := 0];
    assert KeyFrom(places, map[s := 0], places.KeyOf(s));
  }
}
