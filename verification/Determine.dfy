/** The breadth-first exploration shared by the subset construction and by scanner glueing. */
module Determination {
  import opened Partitions
  import opened Ordered

  /** An automaton given indirectly, by its initial state and its steps. */
  datatype Task<!S(==)> = Task(initial: S, next: (S, nat) -> S, required: S -> bool)

  datatype Call = Call(from: nat, to: nat, letter: nat)

  datatype Outcome<S> = Failure | Success(states: seq<S>, calls: seq<Call>)

  /** w leads from s to t, stepping out of required states only, over the given letters. */
  ghost predicate Explores<S(!new)>(task: Task<S>, letters: set<nat>, s: S, w: seq<nat>, t: S)
    decreases |w|
  {
    if w == [] then s == t
    else task.required(s) && w[0] in letters && Explores(task, letters, task.next(s, w[0]), w[1..], t)
  }

  ghost predicate Reachable<S(!new)>(task: Task<S>, letters: set<nat>, t: S) {
    exists w :: Explores(task, letters, task.initial, w, t)
  }

  lemma {:induction false} ExploresFurther<S(!new)>(task: Task<S>, letters: set<nat>, s: S, w: seq<nat>, t: S, c: nat)
    requires Explores(task, letters, s, w, t) && task.required(t) && c in letters
    ensures Explores(task, letters, s, w + [c], task.next(t, c))
    decreases |w|
  {
    if w == [] {
      assert (w + [c])[1..] == [];
    } else {
      ExploresFurther(task, letters, task.next(s, w[0]), w[1..], t, c);
      assert (w + [c])[1..] == w[1..] + [c];
    }
  }

  lemma ReachableFurther<S(!new)>(task: Task<S>, letters: set<nat>, t: S, c: nat)
    requires Reachable(task, letters, t) && task.required(t) && c in letters
    ensures Reachable(task, letters, task.next(t, c))
  {
    var w :| Explores(task, letters, task.initial, w, t);
    ExploresFurther(task, letters, task.initial, w, t, c);
  }

  ghost predicate Distinct<S(!new)>(states: seq<S>) {
    forall i: nat, j: nat | i < |states| && j < |states| && states[i] == states[j] :: i == j
  }

  ghost predicate AllReachable<S(!new)>(task: Task<S>, letters: set<nat>, states: seq<S>) {
    forall i: nat | i < |states| :: Reachable(task, letters, states[i])
  }

  ghost predicate Holds<S(!new)>(states: seq<S>, s: S) {
    exists i: nat :: i < |states| && states[i] == s
  }

  /** The states found are exactly the reachable ones, numbered from the initial state. */
  ghost predicate Complete<S(!new)>(task: Task<S>, letters: set<nat>, states: seq<S>) {
    && |states| > 0 && states[0] == task.initial
    && Distinct(states)
    && AllReachable(task, letters, states)
    && forall s :: Reachable(task, letters, s) ==> Holds(states, s)
  }

  /** The calls connect every required state on every class letter, once, to its successor. */
  ghost predicate Connects<S(!new)>(task: Task<S>, letters: set<nat>, states: seq<S>, calls: seq<Call>) {
    && (forall m: nat | m < |calls| :: RightCall(task, letters, states, calls[m]))
    && (forall m: nat, n: nat | m < |calls| && n < |calls| && SameSource(calls[m], calls[n]) :: m == n)
    && (forall i: nat, c: nat | i < |states| && task.required(states[i]) && c in letters :: Called(calls, i, c))
  }

  ghost predicate RightCall<S(!new)>(task: Task<S>, letters: set<nat>, states: seq<S>, call: Call) {
    && call.from < |states| && call.to < |states| && call.letter in letters
    && task.required(states[call.from])
    && states[call.to] == task.next(states[call.from], call.letter)
  }

  predicate SameSource(a: Call, b: Call) {
    a.from == b.from && a.letter == b.letter
  }

  ghost predicate Called(calls: seq<Call>, i: nat, c: nat) {
    exists m: nat :: m < |calls| && calls[m].from == i && calls[m].letter == c
  }

  /** The index of every state found, and the state of every index. */
  ghost predicate Indexed<S(!new)>(states: seq<S>, index: map<S, nat>) {
    && (forall s | s in index :: index[s] < |states| && states[index[s]] == s)
    && (forall i: nat | i < |states| :: states[i] in index && index[states[i]] == i)
  }

  lemma IndexedIsDistinct<S(!new)>(states: seq<S>, index: map<S, nat>)
    requires Indexed(states, index)
    ensures Distinct(states)
  {
  }

  lemma IndexedMore<S(!new)>(states: seq<S>, index: map<S, nat>, s: S)
    requires Indexed(states, index) && s !in index
    ensures Indexed(states + [s], index[s := |states|])
  {
  }

  /** A finished row holds, for every class, the index of the successor. */
  ghost predicate RowDone<S(!new)>(task: Task<S>, classes: map<nat, Klass>, states: seq<S>, i: nat, row: seq<nat>) {
    && i < |states| && task.required(states[i]) && |row| == |classes|
    && forall k: nat | k in classes :: RowEntry(task, classes, states, i, row, k)
  }

  ghost predicate RowEntry<S(!new)>(task: Task<S>, classes: map<nat, Klass>, states: seq<S>, i: nat, row: seq<nat>,
      k: nat)
    requires k in classes && i < |states|
  {
    && classes[k].index < |row| && row[classes[k].index] < |states|
    && states[row[classes[k].index]] == task.next(states[i], k)
  }

  /** All required states below `bound` have their row, in order. */
  ghost predicate RowsDone<S(!new)>(task: Task<S>, classes: map<nat, Klass>, states: seq<S>, bound: nat,
                              indices: seq<nat>, rows: seq<seq<nat>>) {
    && |indices| == |rows|
    && (forall j: nat | j < |rows| :: indices[j] < bound && RowDone(task, classes, states, indices[j], rows[j]))
    && (forall j: nat, k: nat | j < k < |indices| :: indices[j] < indices[k])
    && (forall i: nat | i < bound && i < |states| && task.required(states[i]) :: exists j: nat ::
        j < |indices| && indices[j] == i)
  }

  ghost predicate Prefix<S(!new)>(a: seq<S>, b: seq<S>) {
    |a| <= |b| && forall i: nat | i < |a| :: a[i] == b[i]
  }

  lemma RowsDoneGrow<S(!new)>(task: Task<S>, classes: map<nat, Klass>, states: seq<S>, more: seq<S>, bound: nat,
                        indices: seq<nat>, rows: seq<seq<nat>>)
    requires RowsDone(task, classes, states, bound, indices, rows) && Prefix(states, more) && bound <= |states|
    ensures RowsDone(task, classes, more, bound, indices, rows)
  {
    forall j: nat | j < |rows| ensures indices[j] < bound && RowDone(task, classes, more, indices[j], rows[j]) {
      assert RowDone(task, classes, states, indices[j], rows[j]);
      forall k: nat | k in classes ensures RowEntry(task, classes, more, indices[j], rows[j], k) {
        assert RowEntry(task, classes, states, indices[j], rows[j], k);
      }
    }
  }

  lemma RowsDoneMore<S(!new)>(task: Task<S>, classes: map<nat, Klass>, states: seq<S>, bound: nat,
                        indices: seq<nat>, rows: seq<seq<nat>>, row: seq<nat>)
    requires RowsDone(task, classes, states, bound, indices, rows) && RowDone(task, classes, states, bound, row)
    ensures RowsDone(task, classes, states, bound + 1, indices + [bound], rows + [row])
  {
    hide RowDone;
    var indices', rows' := indices + [bound], rows + [row];
    forall i: nat | i < bound + 1 && i < |states| && task.required(states[i])
      ensures exists j: nat :: j < |indices'| && indices'[j] == i
    {
      if i < bound {
        var j: nat :| j < |indices| && indices[j] == i;
        assert indices'[j] == i;
      } else {
        assert indices'[|indices|] == i;
      }
    }
  }

  lemma RowsDoneSkip<S(!new)>(task: Task<S>, classes: map<nat, Klass>, states: seq<S>, bound: nat,
                        indices: seq<nat>, rows: seq<seq<nat>>)
    requires RowsDone(task, classes, states, bound, indices, rows) && bound < |states| && !task.required(states[bound])
    ensures RowsDone(task, classes, states, bound + 1, indices, rows)
  {
    hide RowDone;
  }

  /** When every required state has its row, the states found are closed under steps. */
  lemma {:induction false} ClosedUnderSteps<S(!new)>(task: Task<S>, classes: map<nat, Klass>, states: seq<S>,
                                               indices: seq<nat>, rows: seq<seq<nat>>, i: nat, w: seq<nat>, t: S)
    requires RowsDone(task, classes, states, |states|, indices, rows)
    requires i < |states| && Explores(task, classes.Keys, states[i], w, t)
    ensures Holds(states, t)
    decreases |w|
  {
    if w != [] {
      var j: nat :| j < |indices| && indices[j] == i;
      assert RowDone(task, classes, states, indices[j], rows[j]);
      assert RowEntry(task, classes, states, i, rows[j], w[0]);
      ClosedUnderSteps(task, classes, states, indices, rows, rows[j][classes[w[0]].index], w[1..], t);
    } else {
      assert states[i] == t;
    }
  }

  lemma ExplorationIsComplete<S(!new)>(task: Task<S>, classes: map<nat, Klass>, states: seq<S>, index: map<S, nat>,
                                 indices: seq<nat>, rows: seq<seq<nat>>)
    requires |states| > 0 && states[0] == task.initial && Indexed(states, index)
    requires AllReachable(task, classes.Keys, states)
    requires RowsDone(task, classes, states, |states|, indices, rows)
    ensures Complete(task, classes.Keys, states)
  {
    hide RowsDone;
    IndexedIsDistinct(states, index);
    forall s | Reachable(task, classes.Keys, s) ensures Holds(states, s) {
      var w :| Explores(task, classes.Keys, task.initial, w, s);
      ClosedUnderSteps(task, classes, states, indices, rows, 0, w, s);
    }
  }

  /** Enough distinct reachable states to exhaust the budget. */
  ghost predicate TooMany<S(!new)>(task: Task<S>, letters: set<nat>, seen: seq<S>, maxSize: nat) {
    |seen| == maxSize + 2 && Distinct(seen) && AllReachable(task, letters, seen)
  }

  /** Explores the successors of one required state; fails when a new state exceeds the budget. */
  method ExploreRow<S(==, !new)>(task: Task<S>, letters: Classes, states: seq<S>, index: map<S, nat>, i: nat,
      budget: nat)
    returns (ok: bool, states': seq<S>, index': map<S, nat>, row: seq<nat>, budget': nat, ghost extra: seq<S>)
    requires letters.Valid() && i < |states| && task.required(states[i])
    requires Indexed(states, index) && AllReachable(task, letters.table.Keys, states)
    ensures Prefix(states, states') && Indexed(states', index') && AllReachable(task, letters.table.Keys, states')
    ensures |states'| + budget' == |states| + budget
    ensures ok ==> RowDone(task, letters.table, states', i, row)
    ensures !ok ==> TooMany(task, letters.table.Keys, extra, |states| + budget - 1)
  {
    states', index', budget', extra := states, index, budget, [];
    row := seq(letters.Size(), j => 0);
    var rest: set<nat> := letters.table.Keys;
    while rest != {}
      invariant rest <= letters.table.Keys && |row| == letters.Size()
      invariant Prefix(states, states') && Indexed(states', index') && AllReachable(task, letters.table.Keys, states')
      invariant |states'| + budget' == |states| + budget
      invariant forall k: nat | k in letters.table && k !in rest :: RowEntry(task, letters.table, states', i, row, k)
      decreases |rest|
    {
      hide Indexed, AllReachable, Numbered, RowEntry, Reachable;
      hide Classes.Valid;
      var k: nat := Least(rest);
      var newState := task.next(states[i], k);
      StepIsReachable(task, letters.table.Keys, states', i, k);
      ghost var before, row0 := states', row;
      InIndex(states', index', newState);
      if newState !in index' {
        if budget' == 0 {
          extra := states' + [newState];
          ExtraState(task, letters.table.Keys, states', index', newState);
          return false, states', index', row, budget', extra;
        }
        budget' := budget' - 1;
        ReachableMore(task, letters.table.Keys, states', newState);
        IndexedMore(states', index', newState);
        index' := index'[newState := |states'|];
        states' := states' + [newState];
        InIndex(states', index', newState);
      }
      IndexBounds(letters, k);
      row := row[letters.table[k].index := index'[newState]];
      RowOneMore(task, letters, before, states', i, row0, k, index'[newState], rest);
      rest := rest - {k};
    }
    ok := true;
  }

  lemma InIndex<S(!new)>(states: seq<S>, index: map<S, nat>, s: S)
    requires Indexed(states, index)
    ensures s in index ==> index[s] < |states| && states[index[s]] == s
  {
  }

  lemma IndexBounds(letters: Classes, k: nat)
    requires letters.Valid() && k in letters.table
    ensures letters.table[k].index < letters.Size()
  {
  }

  lemma StepIsReachable<S(!new)>(task: Task<S>, letters: set<nat>, states: seq<S>, i: nat, k: nat)
    requires AllReachable(task, letters, states) && i < |states| && task.required(states[i]) && k in letters
    ensures Reachable(task, letters, task.next(states[i], k))
  {
    ReachableFurther(task, letters, states[i], k);
  }

  lemma ReachableMore<S(!new)>(task: Task<S>, letters: set<nat>, states: seq<S>, s: S)
    requires AllReachable(task, letters, states) && Reachable(task, letters, s)
    ensures AllReachable(task, letters, states + [s])
  {
    hide Reachable;
  }

  lemma ExtraState<S(!new)>(task: Task<S>, letters: set<nat>, states: seq<S>, index: map<S, nat>, s: S)
    requires AllReachable(task, letters, states) && Reachable(task, letters, s) && Indexed(states, index) && s !in index
    ensures Distinct(states + [s]) && AllReachable(task, letters, states + [s])
  {
    ReachableMore(task, letters, states, s);
    IndexedMore(states, index, s);
    IndexedIsDistinct(states + [s], index[s := |states|]);
  }

  lemma RowOneMore<S(!new)>(task: Task<S>, letters: Classes, before: seq<S>, after: seq<S>, i: nat, row: seq<nat>,
      k: nat, j: nat, rest: set<nat>)
    requires letters.Valid() && k in letters.table && i < |before| && Prefix(before, after) && |row| == letters.Size()
    requires j < |after| && after[j] == task.next(after[i], k) && letters.table[k].index < |row|
    requires forall k': nat | k' in letters.table && k' !in rest :: RowEntry(task, letters.table, before, i, row, k')
    ensures forall k': nat | k' in letters.table && k' !in rest - {k} ::
      RowEntry(task, letters.table, after, i, row[letters.table[k].index := j], k')
  {
    forall k': nat | k' in letters.table && k' !in rest - {k}
      ensures RowEntry(task, letters.table, after, i, row[letters.table[k].index := j], k')
    {
      if k' != k {
        assert RowEntry(task, letters.table, before, i, row, k');
        assert letters.table[k'].index != letters.table[k].index;
      }
    }
  }

  /** Explores all reachable states breadth-first, then lists the transitions between them. */
  method Determine<S(==, !new)>(task: Task<S>, letters: Classes, maxSize: nat)
      returns (r: Outcome<S>, ghost seen: seq<S>)
    requires letters.Valid()
    ensures r.Success? ==> Complete(task, letters.table.Keys, r.states) && 0 < |r.states| <= maxSize + 1
    ensures r.Success? ==> Connects(task, letters.table.Keys, r.states, r.calls)
    ensures r.Failure? ==> TooMany(task, letters.table.Keys, seen, maxSize)
  {
    hide Indexed, AllReachable, RowsDone, RowDone, Prefix, Complete, Connects;
    hide Classes.Valid;
    var states, index, budget := [task.initial], map[task.initial := 0], maxSize;
    var rows: seq<seq<nat>>, indices: seq<nat> := [], [];
    seen := [];
    ExplorationStarts(task, letters.table);
    var i: nat := 0;
    while i < |states|
      invariant i <= |states| && |states| + budget == maxSize + 1
      invariant Starts(task, states) && Indexed(states, index) && AllReachable(task, letters.table.Keys, states)
      invariant RowsDone(task, letters.table, states, i, indices, rows)
      decreases maxSize + 1 - i
    {
      if !task.required(states[i]) {
        RowsDoneSkip(task, letters.table, states, i, indices, rows);
      } else {
        ghost var before := states;
        var ok, row;
        ok, states, index, row, budget, seen := ExploreRow(task, letters, states, index, i, budget);
        PrefixStarts(task, before, states);
        if !ok {
          return Failure, seen;
        }
        RowsDoneGrow(task, letters.table, before, states, i, indices, rows);
        RowsDoneMore(task, letters.table, states, i, indices, rows, row);
        rows, indices := rows + [row], indices + [i];
      }
      i := i + 1;
    }
    ExplorationIsComplete(task, letters.table, states, index, indices, rows);
    var calls := ListCalls(task, letters, states, indices, rows);
    r := Success(states, calls);
  }

  predicate Starts<S(==, !new)>(task: Task<S>, states: seq<S>) {
    |states| > 0 && states[0] == task.initial
  }

  lemma PrefixStarts<S(!new)>(task: Task<S>, before: seq<S>, after: seq<S>)
    requires Starts(task, before) && Prefix(before, after)
    ensures Starts(task, after) && |before| <= |after|
  {
  }

  lemma ExplorationStarts<S(!new)>(task: Task<S>, classes: map<nat, Klass>)
    ensures Indexed([task.initial], map[task.initial := 0]) && AllReachable(task, classes.Keys, [task.initial])
    ensures RowsDone(task, classes, [task.initial], 0, [], [])
  {
    assert Explores(task, classes.Keys, task.initial, [], task.initial);
  }

  /** The class letter of every index. */
  method InvertLetters(letters: Classes) returns (letterOf: seq<nat>)
    requires letters.Valid()
    ensures |letterOf| == letters.Size()
    ensures forall k | k in letters.table :: k in letterOf
    ensures forall l: nat | l < |letterOf| :: letterOf[l] in letters.table && letters.table[letterOf[l]].index == l
  {
    letterOf := seq(letters.Size(), j => 0);
    var rest: set<nat> := letters.table.Keys;
    while rest != {}
      invariant rest <= letters.table.Keys && |letterOf| == letters.Size()
      invariant forall k | k in letters.table && k !in rest :: letterOf[letters.table[k].index] == k
      decreases |rest|
    {
      var k: nat := Least(rest);
      letterOf := letterOf[letters.table[k].index := k];
      rest := rest - {k};
    }
    forall l: nat | l < |letterOf| ensures letterOf[l] in letters.table && letters.table[letterOf[l]].index == l {
      assert HasIndex(letters.table, l);
      var k: nat :| k in letters.table && letters.table[k].index == l;
      assert letterOf[letters.table[k].index] == k;
    }
    forall k | k in letters.table ensures k in letterOf {
      assert letterOf[letters.table[k].index] == k;
    }
  }

  /** Turns the rows into the list of connections, row by row. */
  method ListCalls<S(!new)>(task: Task<S>, letters: Classes, states: seq<S>, indices: seq<nat>, rows: seq<seq<nat>>)
      returns (calls: seq<Call>)
    requires letters.Valid() && RowsDone(task, letters.table, states, |states|, indices, rows)
    ensures Connects(task, letters.table.Keys, states, calls)
  {
    hide Connects, RowsDone;
    hide Classes.Valid;
    var letterOf := InvertLetters(letters);
    calls := [];
    RowsShape(task, letters.table, states, indices, rows);
    for j: nat := 0 to |rows|
      invariant CallsUpTo(task, letters.table.Keys, states, calls, indices, j, [])
    {
      RowShape(task, letters.table, states, indices, rows, j);
      for l: nat := 0 to |rows[j]|
        invariant CallsUpTo(task, letters.table.Keys, states, calls, indices, j, letterOf[..l])
      {
        CallRight(task, letters.table, states, indices, rows, j, letterOf, l);
        CallsOneMore(task, letters.table.Keys, states, calls, indices, j, letterOf, l,
            Call(indices[j], rows[j][l], letterOf[l]));
        calls := calls + [Call(indices[j], rows[j][l], letterOf[l])];
      }
      CallsRowDone(task, letters.table.Keys, states, calls, indices, j, letterOf);
    }
    CallsDone(task, letters.table, states, calls, indices, rows);
  }

  /** Calls made for all rows below j and, in row j, for the letters in `done`. */
  ghost predicate CallsUpTo<S(!new)>(task: Task<S>, letters: set<nat>, states: seq<S>, calls: seq<Call>,
      indices: seq<nat>, j: nat, done: seq<nat>) {
    && j <= |indices|
    && (forall m: nat | m < |calls| :: RightCall(task, letters, states, calls[m]) && Made(calls[m], indices, j, done))
    && (forall m: nat, n: nat | m < |calls| && n < |calls| && SameSource(calls[m], calls[n]) :: m == n)
    && (forall h: nat, c: nat | h < j && c in letters :: Called(calls, indices[h], c))
    && (j < |indices| ==> forall c | c in done :: Called(calls, indices[j], c))
  }

  ghost predicate Made(call: Call, indices: seq<nat>, j: nat, done: seq<nat>)
    requires j <= |indices|
  {
    (exists h: nat :: h < j && indices[h] == call.from) ||
        (j < |indices| && indices[j] == call.from && call.letter in done)
  }

  lemma RowsShape<S(!new)>(task: Task<S>, classes: map<nat, Klass>, states: seq<S>, indices: seq<nat>,
      rows: seq<seq<nat>>)
    requires RowsDone(task, classes, states, |states|, indices, rows)
    ensures |indices| == |rows| && CallsUpTo(task, classes.Keys, states, [], indices, 0, [])
    ensures forall j: nat, k: nat | j < k < |indices| :: indices[j] < indices[k]
  {
  }

  lemma RowShape<S(!new)>(task: Task<S>, classes: map<nat, Klass>, states: seq<S>, indices: seq<nat>,
      rows: seq<seq<nat>>, j: nat)
    requires RowsDone(task, classes, states, |states|, indices, rows) && j < |rows|
    ensures |rows[j]| == |classes|
  {
    assert RowDone(task, classes, states, indices[j], rows[j]);
  }

  lemma CallRight<S(!new)>(task: Task<S>, classes: map<nat, Klass>, states: seq<S>, indices: seq<nat>,
      rows: seq<seq<nat>>, j: nat, letterOf: seq<nat>, l: nat)
    requires RowsDone(task, classes, states, |states|, indices, rows) && j < |rows| && l < |rows[j]| && l < |letterOf|
    requires letterOf[l] in classes && classes[letterOf[l]].index == l
    ensures RightCall(task, classes.Keys, states, Call(indices[j], rows[j][l], letterOf[l]))
  {
    assert RowDone(task, classes, states, indices[j], rows[j]);
    assert RowEntry(task, classes, states, indices[j], rows[j], letterOf[l]);
  }

  lemma CallsOneMore<S(!new)>(task: Task<S>, letters: set<nat>, states: seq<S>, calls: seq<Call>, indices: seq<nat>,
      j: nat, letterOf: seq<nat>, l: nat, call: Call)
    requires l < |letterOf| && j < |indices| && CallsUpTo(task, letters, states, calls, indices, j, letterOf[..l])
    requires forall a: nat, b: nat | a < b < |indices| :: indices[a] < indices[b]
    requires forall a: nat, b: nat | a < b < |letterOf| :: letterOf[a] != letterOf[b]
    requires call.from == indices[j] && call.letter == letterOf[l] && RightCall(task, letters, states, call)
    ensures CallsUpTo(task, letters, states, calls + [call], indices, j, letterOf[..l + 1])
  {
    hide RightCall;
    var more := calls + [call];
    assert letterOf[..l + 1] == letterOf[..l] + [letterOf[l]];
    forall m: nat | m < |calls| ensures !SameSource(calls[m], call) && Made(calls[m], indices, j, letterOf[..l + 1]) {
      assert Made(calls[m], indices, j, letterOf[..l]);
    }
    forall h: nat, c: nat | h < j && c in letters ensures Called(more, indices[h], c) {
      CalledStays(calls, call, indices[h], c);
    }
    forall c | c in letterOf[..l + 1] ensures Called(more, indices[j], c) {
      if c in letterOf[..l] {
        CalledStays(calls, call, indices[j], c);
      } else {
        assert more[|calls|].from == indices[j] && more[|calls|].letter == c;
      }
    }
  }

  lemma CalledStays(calls: seq<Call>, call: Call, i: nat, c: nat)
    requires Called(calls, i, c)
    ensures Called(calls + [call], i, c)
  {
    var m: nat :| m < |calls| && calls[m].from == i && calls[m].letter == c;
    assert (calls + [call])[m] == calls[m];
  }

  lemma CallsRowDone<S(!new)>(task: Task<S>, letters: set<nat>, states: seq<S>, calls: seq<Call>, indices: seq<nat>,
      j: nat, letterOf: seq<nat>)
    requires CallsUpTo(task, letters, states, calls, indices, j, letterOf[..|letterOf|]) && j < |indices|
    requires forall k | k in letters :: k in letterOf
    ensures CallsUpTo(task, letters, states, calls, indices, j + 1, [])
  {
    hide RightCall, Called;
    assert letterOf[..|letterOf|] == letterOf;
    forall m: nat | m < |calls| ensures Made(calls[m], indices, j + 1, []) {
      assert Made(calls[m], indices, j, letterOf);
    }
  }

  lemma CallsDone<S(!new)>(task: Task<S>, classes: map<nat, Klass>, states: seq<S>, calls: seq<Call>,
      indices: seq<nat>, rows: seq<seq<nat>>)
    requires CallsUpTo(task, classes.Keys, states, calls, indices, |indices|, [])
    requires RowsDone(task, classes, states, |states|, indices, rows)
    ensures Connects(task, classes.Keys, states, calls)
  {
    hide RightCall, Called, RowDone;
    forall i: nat, c: nat | i < |states| && task.required(states[i]) && c in classes ensures Called(calls, i, c) {
      var j: nat :| j < |indices| && indices[j] == i;
    }
  }
}
