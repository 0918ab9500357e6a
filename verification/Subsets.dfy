/** Tables of deterministic machines, and the table that the subset construction fills. */
module SubsetTables {
  import opened Automaton
  import opened Transitions
  import opened Partitions
  import opened Letters
  import opened Deterministic
  import opened Determination

  // ---- deterministic tables ----

  ghost predicate HasLink(rows: Rows, p: nat, c: nat) {
    exists q: nat :: Linked(rows, p, c, q)
  }

  ghost predicate AtMostOne(rows: Rows) {
    forall p: nat, c: nat, q: nat, r: nat | Linked(rows, p, c, q) && Linked(rows, p, c, r) :: q == r
  }

  /** Every row has exactly one target for every class letter, and no empty or epsilon entry. */
  ghost predicate Functional(rows: Rows, keys: set<nat>) {
    && AtMostOne(rows)
    && (forall p: nat, k: nat | p < |rows| && k in keys :: HasLink(rows, p, k))
    && (forall p: nat, c: nat | p < |rows| && c in rows[p] :: c != EPSILON && HasLink(rows, p, c))
  }

  ghost function TargetOf(rows: Rows, p: nat, c: nat): nat {
    if HasLink(rows, p, c) then var q: nat :| Linked(rows, p, c, q); q else 0
  }

  /** The deterministic automaton of a functional table. */
  ghost function MachineOf(rows: Rows, inv: map<nat, nat>, initial: nat, finals: set<nat>): Dfa {
    Dfa(|rows|, (p: nat, c: nat) => TargetOf(rows, p, Stand(inv, c)), initial, finals)
  }

  lemma TargetIsLinked(rows: Rows, letters: Classes, p: nat, c: nat)
    requires OverLetters(letters) && Total(letters.inv) && Functional(rows, letters.table.Keys) && p < |rows| &&
        IsLetter(c)
    ensures Linked(rows, p, Stand(letters.inv, c), TargetOf(rows, p, Stand(letters.inv, c)))
  {
    assert letters.inv[c] in letters.table;
    assert HasLink(rows, p, letters.inv[c]);
  }

  lemma MachineIsValid(rows: Rows, letters: Classes, initial: nat, finals: set<nat>)
    requires OverLetters(letters) && Total(letters.inv) && Functional(rows, letters.table.Keys) && Within(rows)
    requires initial < |rows| && forall q | q in finals :: q < |rows|
    ensures MachineOf(rows, letters.inv, initial, finals).Valid()
  {
    var d := MachineOf(rows, letters.inv, initial, finals);
    forall p: nat, c: nat | p < d.size && IsLetter(c) ensures d.next(p, c) < d.size {
      TargetIsLinked(rows, letters, p, c);
    }
  }

  /** A functional table stands for its deterministic automaton. */
  lemma TableRepresents(rows: Rows, letters: Classes, initial: nat, finals: set<nat>)
    requires OverLetters(letters) && Total(letters.inv) && Functional(rows, letters.table.Keys) && Within(rows)
    ensures Represents(Nfa(|rows|, EdgesOf(rows, letters.inv), initial, finals),
        MachineOf(rows, letters.inv, initial, finals))
  {
    var d := MachineOf(rows, letters.inv, initial, finals);
    forall e ensures e in EdgesOf(rows, letters.inv) <==>
        e.from < |rows| && IsLetter(e.letter) && e.to == d.next(e.from, e.letter) {
      EdgeOf(rows, letters.inv, e);
      if e.from < |rows| && IsLetter(e.letter) {
        TargetIsLinked(rows, letters, e.from, e.letter);
      }
    }
  }

  ghost predicate Reaches(d: Dfa, p: nat) {
    exists w :: IsWord(w) && Run(d, d.initial, w) == p
  }

  ghost predicate AllReached(d: Dfa) {
    forall p: nat | p < d.size :: Reaches(d, p)
  }

  lemma {:induction false} RunSameNext(d: Dfa, e: Dfa, p: nat, w: Word)
    requires forall q: nat, c: nat :: d.next(q, c) == e.next(q, c)
    ensures Run(d, p, w) == Run(e, p, w)
    decreases |w|
  {
    if w != [] { RunSameNext(d, e, d.next(p, w[0]), w[1..]); }
  }

  /** Which states are final is no matter to which states are reached. */
  lemma ReachedWhateverFinals(rows: Rows, inv: map<nat, nat>, initial: nat, finals: set<nat>, others: set<nat>)
    requires AllReached(MachineOf(rows, inv, initial, finals))
    ensures AllReached(MachineOf(rows, inv, initial, others))
  {
    var d, e := MachineOf(rows, inv, initial, finals), MachineOf(rows, inv, initial, others);
    forall p: nat | p < e.size ensures Reaches(e, p) {
      assert Reaches(d, p);
      var w :| IsWord(w) && Run(d, d.initial, w) == p;
      RunSameNext(d, e, d.initial, w);
    }
  }

  // ---- subsets as states ----

  /** The states a set of states leads to on one letter. */
  function NextSubset(rows: Rows, inv: map<nat, nat>, s: set<nat>, c: nat): set<nat> {
    set p: nat, q: nat | p in s && q in Dest(rows, p, Stand(inv, c)) :: q
  }

  lemma NextSubsetIsStep(rows: Rows, inv: map<nat, nat>, initial: nat, finals: set<nat>, s: set<nat>, c: nat)
    requires Within(rows) && c < MAX_CHAR
    ensures NextSubset(rows, inv, s, c) == Step(Nfa(|rows|, EdgesOf(rows, inv), initial, finals), s, c)
  {
    var a := Nfa(|rows|, EdgesOf(rows, inv), initial, finals);
    forall q: nat ensures q in NextSubset(rows, inv, s, c) <==> q in Step(a, s, c) {
      forall p: nat ensures Linked(rows, p, Stand(inv, c), q) <==> Edge(p, c, q) in a.edges {
        EdgeOf(rows, inv, Edge(p, c, q));
      }
      if q in NextSubset(rows, inv, s, c) {
        var p: nat :| p in s && q in Dest(rows, p, Stand(inv, c));
        assert Linked(rows, p, Stand(inv, c), q);
        assert StepsTo(a, s, c, q);
      }
      if StepsTo(a, s, c, q) {
        var p: nat :| p in s && Edge(p, c, q) in a.edges;
        assert Linked(rows, p, Stand(inv, c), q);
      }
    }
  }

  /** Final states with a transition to themselves on every class letter. */
  ghost predicate IsTerminals(rows: Rows, letters: Classes, finals: set<nat>, terminals: set<nat>) {
    forall t: nat :: t in terminals <==> t in finals && forall k: nat | k in letters.table :: Linked(rows, t, k, t)
  }

  lemma TerminalsAreTerminal(rows: Rows, letters: Classes, initial: nat, finals: set<nat>, terminals: set<nat>)
    requires OverLetters(letters) && Total(letters.inv) && IsTerminals(rows, letters, finals, terminals)
    requires forall q | q in finals :: q < |rows|
    ensures Terminal(Nfa(|rows|, EdgesOf(rows, letters.inv), initial, finals), terminals)
  {
    forall t: nat, c: nat | t in terminals && IsLetter(c) ensures Edge(t, c, t) in EdgesOf(rows, letters.inv) {
      assert letters.inv[c] in letters.table;
      assert Linked(rows, t, letters.inv[c], t);
      EdgeOf(rows, letters.inv, Edge(t, c, t));
    }
  }

  /** The exploration task of the subset construction. */
  function SubsetTask(rows: Rows, inv: map<nat, nat>, initial: nat, terminals: set<nat>): Task<set<nat>> {
    Task({initial}, (s: set<nat>, c: nat) => NextSubset(rows, inv, s, c), (s: set<nat>) => s * terminals == {})
  }

  // ---- filling the new table ----

  /** `out` has loops at subsets with a terminal state and the first m of the calls. */
  ghost predicate FilledUpTo(out: Rows, states: seq<set<nat>>, terminals: set<nat>, keys: set<nat>, calls: seq<Call>,
      m: nat) {
    && |out| == |states|
    && (forall i: nat, c: nat, j: nat :: Linked(out, i, c, j) <==>
          LoopsAt(states, terminals, keys, i, c, j) || CalledBelow(calls, m, i, c, j))
    && (forall i: nat, c: nat | i < |out| && c in out[i] :: HasLink(out, i, c))
  }

  predicate LoopsAt(states: seq<set<nat>>, terminals: set<nat>, keys: set<nat>, i: nat, c: nat, j: nat) {
    i < |states| && states[i] * terminals != {} && c in keys && j == i
  }

  ghost predicate CalledBelow(calls: seq<Call>, m: nat, i: nat, c: nat, j: nat) {
    exists n: nat :: n < m && n < |calls| && calls[n] == Call(i, j, c)
  }

  lemma FilledMore(out: Rows, states: seq<set<nat>>, terminals: set<nat>, keys: set<nat>, calls: seq<Call>, m: nat)
    requires FilledUpTo(out, states, terminals, keys, calls, m) && m < |calls| && calls[m].from < |out|
    ensures FilledUpTo(Link(out, calls[m].from, calls[m].letter, calls[m].to), states, terminals, keys, calls, m + 1)
  {
    hide Linked, Link, LoopsAt;
    var call := calls[m];
    var more := Link(out, call.from, call.letter, call.to);
    LinkAdds(out, call.from, call.letter, call.to);
    LinkKeepsEntries(out, call.from, call.letter, call.to);
    forall i: nat, c: nat, j: nat ensures Linked(more, i, c, j) <==>
        LoopsAt(states, terminals, keys, i, c, j) || CalledBelow(calls, m + 1, i, c, j) {
      CalledStep(calls, m, i, c, j);
    }
  }

  lemma CalledStep(calls: seq<Call>, m: nat, i: nat, c: nat, j: nat)
    requires m < |calls|
    ensures CalledBelow(calls, m + 1, i, c, j) <==> CalledBelow(calls, m, i, c, j) || calls[m] == Call(i, j, c)
  {
    if calls[m] == Call(i, j, c) {
      assert CalledBelow(calls, m + 1, i, c, j);
    }
    if CalledBelow(calls, m, i, c, j) {
      var n: nat :| n < m && n < |calls| && calls[n] == Call(i, j, c);
      assert CalledBelow(calls, m + 1, i, c, j);
    }
  }

  lemma LinkKeepsEntries(rows: Rows, p: nat, c: nat, q: nat)
    requires p < |rows| && forall i: nat, d: nat | i < |rows| && d in rows[i] :: HasLink(rows, i, d)
    ensures forall i: nat, d: nat | i < |rows| && d in Link(rows, p, c, q)[i] :: HasLink(Link(rows, p, c, q), i, d)
  {
    var more := Link(rows, p, c, q);
    LinkAdds(rows, p, c, q);
    forall i: nat, d: nat | i < |rows| && d in more[i] ensures HasLink(more, i, d) {
      if i == p && d == c {
        assert Linked(more, i, d, q);
      } else {
        assert HasLink(rows, i, d);
        var r: nat :| Linked(rows, i, d, r);
        assert Linked(more, i, d, r);
      }
    }
  }

  /** The finished table: one target per state and class letter. */
  lemma FilledTable(task: Task<set<nat>>, out: Rows, states: seq<set<nat>>, terminals: set<nat>, keys: set<nat>,
      calls: seq<Call>, i: nat, c: nat, j: nat)
    requires FilledUpTo(out, states, terminals, keys, calls, |calls|) && Connects(task, keys, states, calls) &&
        Distinct(states)
    requires forall s: set<nat> :: task.required(s) <==> s * terminals == {}
    ensures Linked(out, i, c, j) <==>
      i < |states| && c in keys && j < |states| &&
          if states[i] * terminals == {} then states[j] == task.next(states[i], c) else j == i
    ensures i < |states| && c in keys ==> HasLink(out, i, c)
  {
    assert Linked(out, i, c, j) <==> LoopsAt(states, terminals, keys, i, c, j) || CalledBelow(calls, |calls|, i, c, j);
    if CalledBelow(calls, |calls|, i, c, j) {
      var n: nat :| n < |calls| && calls[n] == Call(i, j, c);
      assert RightCall(task, keys, states, calls[n]);
    }
    if i < |states| && c in keys {
      if states[i] * terminals == {} {
        assert Called(calls, i, c);
        var m: nat :| m < |calls| && calls[m].from == i && calls[m].letter == c;
        assert RightCall(task, keys, states, calls[m]);
        assert calls[m] == Call(i, calls[m].to, c);
        assert CalledBelow(calls, |calls|, i, c, calls[m].to);
        assert Linked(out, i, c, calls[m].to);
        if j < |states| && states[j] == task.next(states[i], c) {
          assert j == calls[m].to;
        }
      } else {
        assert LoopsAt(states, terminals, keys, i, c, i);
        assert Linked(out, i, c, i);
      }
    }
  }

  ghost predicate SubsetTable(rows: Rows, inv: map<nat, nat>, states: seq<set<nat>>, terminals: set<nat>,
      keys: set<nat>, out: Rows) {
    && |out| == |states|
    && forall i: nat, c: nat, j: nat :: Linked(out, i, c, j) <==>
         i < |states| && c in keys && j < |states|
         && if states[i] * terminals == {} then states[j] == NextSubset(rows, inv, states[i], c) else j == i
  }

  lemma FilledIsFunctional(rows: Rows, letters: Classes, initial: nat, terminals: set<nat>, states: seq<set<nat>>,
      calls: seq<Call>, out: Rows)
    requires OverLetters(letters)
    requires FilledUpTo(out, states, terminals, letters.table.Keys, calls, |calls|) && Distinct(states)
    requires Connects(SubsetTask(rows, letters.inv, initial, terminals), letters.table.Keys, states, calls)
    ensures SubsetTable(rows, letters.inv, states, terminals, letters.table.Keys, out)
    ensures Functional(out, letters.table.Keys) && Within(out)
  {
    var task, keys := SubsetTask(rows, letters.inv, initial, terminals), letters.table.Keys;
    forall k | k in keys ensures IsLetter(k) {
      KeyIsItem(letters, k);
    }
    forall i: nat, c: nat, j: nat ensures Linked(out, i, c, j) <==>
         i < |states| && c in keys && j < |states|
         && if states[i] * terminals == {} then states[j] == NextSubset(rows, letters.inv, states[i], c) else j == i
    {
      FilledTable(task, out, states, terminals, keys, calls, i, c, j);
    }
    forall i: nat, c: nat | i < |out| && c in keys ensures HasLink(out, i, c) {
      FilledTable(task, out, states, terminals, keys, calls, i, c, 0);
    }
    EntriesAreKeys(out, keys);
    hide Connects, NextSubset;
    assert AtMostOne(out) by {
      forall p: nat, c: nat, q: nat, r: nat | Linked(out, p, c, q) && Linked(out, p, c, r) ensures q == r {
      }
    }
  }

  lemma EntriesAreKeys(out: Rows, keys: set<nat>)
    requires forall i: nat, c: nat, j: nat | Linked(out, i, c, j) :: c in keys && j < |out|
    requires forall i: nat, c: nat | i < |out| && c in out[i] :: HasLink(out, i, c)
    requires forall k | k in keys :: IsLetter(k)
    ensures Within(out) && forall i: nat, c: nat | i < |out| && c in out[i] :: IsLetter(c)
  {
    forall i: nat, c: nat | i < |out| && c in out[i] ensures IsLetter(c) {
      assert HasLink(out, i, c);
      var j: nat :| Linked(out, i, c, j);
    }
  }

  /** The machine of the filled table is the subset construction. */
  lemma SubsetTableIsSubsetDfa(rows: Rows, letters: Classes, initial: nat, finals: set<nat>, terminals: set<nat>,
      states: seq<set<nat>>,
                               out: Rows, ends: set<nat>)
    requires OverLetters(letters) && Total(letters.inv) && Within(rows)
    requires SubsetTable(rows, letters.inv, states, terminals, letters.table.Keys, out) &&
        Functional(out, letters.table.Keys)
    requires |states| > 0 && states[0] == {initial}
    requires forall i: nat :: i in ends <==> i < |states| && states[i] * finals != {}
    ensures IsSubsetDfa(Nfa(|rows|, EdgesOf(rows, letters.inv), initial, finals), terminals, states,
        MachineOf(out, letters.inv, 0, ends))
  {
    var a, d := Nfa(|rows|, EdgesOf(rows, letters.inv), initial, finals), MachineOf(out, letters.inv, 0, ends);
    forall i: nat, c: nat | i < d.size && IsLetter(c) ensures SubsetStep(a, terminals, states, d, i, c) {
      var k := Stand(letters.inv, c);
      TargetIsLinked(out, letters, i, c);
      KeyIsItem(letters, k);
      assert Stand(letters.inv, k) == k;
      NextSubsetIsStep(rows, letters.inv, initial, finals, states[i], c);
      assert NextSubset(rows, letters.inv, states[i], c) == NextSubset(rows, letters.inv, states[i], k);
    }
  }

  /** Exploring follows the runs of the machine, so every state found is reached by one. */
  lemma {:induction false} ExploredRun(task: Task<set<nat>>, letters: Classes, d: Dfa, states: seq<set<nat>>, i: nat,
      w: seq<nat>, t: set<nat>)
    requires OverLetters(letters) && i < |states| && Explores(task, letters.table.Keys, states[i], w, t)
    requires forall j: nat, k: nat | j < |states| && k in letters.table && task.required(states[j]) ::
      d.next(j, k) < |states| && states[d.next(j, k)] == task.next(states[j], k)
    ensures IsWord(w) && Run(d, i, w) < |states| && states[Run(d, i, w)] == t
    decreases |w|
  {
    if w != [] {
      KeyIsItem(letters, w[0]);
      ExploredRun(task, letters, d, states, d.next(i, w[0]), w[1..], t);
      assert w == [w[0]] + w[1..];
    }
  }

  lemma SubsetStatesReached(rows: Rows, letters: Classes, initial: nat, terminals: set<nat>, states: seq<set<nat>>,
      out: Rows, ends: set<nat>)
    requires OverLetters(letters) && Total(letters.inv) && Within(rows)
    requires SubsetTable(rows, letters.inv, states, terminals, letters.table.Keys, out) &&
        Functional(out, letters.table.Keys)
    requires Complete(SubsetTask(rows, letters.inv, initial, terminals), letters.table.Keys, states)
    ensures AllReached(MachineOf(out, letters.inv, 0, ends))
  {
    var task, d := SubsetTask(rows, letters.inv, initial, terminals), MachineOf(out, letters.inv, 0, ends);
    forall j: nat, k: nat | j < |states| && k in letters.table && task.required(states[j])
      ensures d.next(j, k) < |states| && states[d.next(j, k)] == task.next(states[j], k)
    {
      KeyIsItem(letters, k);
      TargetIsLinked(out, letters, j, k);
    }
    forall p: nat | p < d.size ensures Reaches(d, p) {
      assert Reachable(task, letters.table.Keys, states[p]);
      var w :| Explores(task, letters.table.Keys, task.initial, w, states[p]);
      ExploredRun(task, letters, d, states, 0, w, states[p]);
      assert Run(d, 0, w) == p;
    }
  }
}
