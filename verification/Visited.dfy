/** How many subsets of states the determination of an automaton visits: whether it fits a limit. */
module VisitedSubsets {
  import opened Automaton
  import opened Transitions
  import opened Partitions
  import opened Letters
  import opened Deterministic
  import opened SubsetTables
  import opened Determination
  import opened EpsilonRemoval
  import Minimality

  /** The final states that step to themselves on every letter: a subset with one of them is not followed. */
  ghost predicate IsTerminal(a: Nfa, t: nat) {
    t in a.finals && forall c: nat | IsLetter(c) :: Edge(t, c, t) in a.edges
  }

  ghost predicate IsFollowed(a: Nfa, s: set<nat>) {
    forall t | t in s :: !IsTerminal(a, t)
  }

  /** w leads from the subset s to the subset t, out of subsets that are followed. */
  ghost predicate Visits(a: Nfa, s: set<nat>, w: Word, t: set<nat>)
    decreases |w|
  {
    if w == [] then s == t
    else IsFollowed(a, s) && IsLetter(w[0]) && Visits(a, Step(a, s, w[0]), w[1..], t)
  }

  ghost predicate Visited(a: Nfa, t: set<nat>) {
    exists w :: Visits(a, {a.initial}, w, t)
  }

  /** More than n distinct subsets are visited. */
  ghost predicate VisitsMore(a: Nfa, n: nat) {
    exists seen: seq<set<nat>> :: |seen| > n && Distinct(seen) && AllVisited(a, seen)
  }

  ghost predicate AllVisited(a: Nfa, seen: seq<set<nat>>) {
    forall i: nat | i < |seen| :: Visited(a, seen[i])
  }

  // ---- the exploration visits exactly these subsets ----

  /** The table of an automaton, and its terminal states. */
  ghost predicate Tabled(a: Nfa, rows: Rows, letters: Classes, terminals: set<nat>) {
    && a.size == |rows| && a.edges == EdgesOf(rows, letters.inv) && Within(rows)
    && OverLetters(letters) && Total(letters.inv)
    && IsTerminals(rows, letters, a.finals, terminals)
    && forall q | q in a.finals :: q < a.size
  }

  lemma TerminalsAreExact(a: Nfa, rows: Rows, letters: Classes, terminals: set<nat>, t: nat)
    requires Tabled(a, rows, letters, terminals)
    ensures t in terminals <==> IsTerminal(a, t)
  {
    TerminalsAreTerminal(rows, letters, a.initial, a.finals, terminals);
    if IsTerminal(a, t) {
      forall k: nat | k in letters.table ensures Linked(rows, t, k, t) {
        RepresentativeStands(letters, k);
        EdgeOf(rows, letters.inv, Edge(t, k, t));
      }
    }
  }

  /** A representative is a letter that stands for itself. */
  lemma RepresentativeStands(letters: Classes, k: nat)
    requires OverLetters(letters) && k in letters.table
    ensures IsLetter(k) && Stand(letters.inv, k) == k
  {
    KeyIsItem(letters, k);
  }

  lemma FollowedIsRequired(a: Nfa, rows: Rows, letters: Classes, terminals: set<nat>, s: set<nat>)
    requires Tabled(a, rows, letters, terminals)
    ensures IsFollowed(a, s) <==> s * terminals == {}
  {
    forall t ensures t in terminals <==> IsTerminal(a, t) {
      TerminalsAreExact(a, rows, letters, terminals, t);
    }
    if !IsFollowed(a, s) {
      var t :| t in s && IsTerminal(a, t);
      assert t in s * terminals;
    }
  }

  lemma {:induction false} ExploredIsVisited(a: Nfa, rows: Rows, letters: Classes, terminals: set<nat>, s: set<nat>,
      w: Word, t: set<nat>)
    requires Tabled(a, rows, letters, terminals)
    requires Explores(SubsetTask(rows, letters.inv, a.initial, terminals), letters.table.Keys, s, w, t)
    ensures Visits(a, s, w, t)
    decreases |w|
  {
    if w != [] {
      FollowedIsRequired(a, rows, letters, terminals, s);
      RepresentativeStands(letters, w[0]);
      NextSubsetIsStep(rows, letters.inv, a.initial, a.finals, s, w[0]);
      ExploredIsVisited(a, rows, letters, terminals, Step(a, s, w[0]), w[1..], t);
    }
  }

  /** The word of the representatives of its letters. */
  function Standing(inv: map<nat, nat>, w: Word): Word {
    if w == [] then [] else [Stand(inv, w[0])] + Standing(inv, w[1..])
  }

  lemma StepByRepresentative(rows: Rows, letters: Classes, s: set<nat>, c: nat)
    requires OverLetters(letters) && Total(letters.inv) && IsLetter(c)
    ensures Stand(letters.inv, c) in letters.table
    ensures NextSubset(rows, letters.inv, s, Stand(letters.inv, c)) == NextSubset(rows, letters.inv, s, c)
  {
    RepresentativeStands(letters, Stand(letters.inv, c));
  }

  lemma {:induction false} VisitedIsExplored(a: Nfa, rows: Rows, letters: Classes, terminals: set<nat>, s: set<nat>,
      w: Word, t: set<nat>)
    requires Tabled(a, rows, letters, terminals) && Visits(a, s, w, t)
    ensures Explores(SubsetTask(rows, letters.inv, a.initial, terminals), letters.table.Keys, s,
        Standing(letters.inv, w), t)
    decreases |w|
  {
    if w != [] {
      FollowedIsRequired(a, rows, letters, terminals, s);
      NextSubsetIsStep(rows, letters.inv, a.initial, a.finals, s, w[0]);
      StepByRepresentative(rows, letters, s, w[0]);
      VisitedIsExplored(a, rows, letters, terminals, Step(a, s, w[0]), w[1..], t);
      var v := Standing(letters.inv, w);
      assert v[0] == Stand(letters.inv, w[0]) && v[1..] == Standing(letters.inv, w[1..]);
    }
  }

  lemma ReachableIsVisited(a: Nfa, rows: Rows, letters: Classes, terminals: set<nat>, t: set<nat>)
    requires Tabled(a, rows, letters, terminals)
    ensures Reachable(SubsetTask(rows, letters.inv, a.initial, terminals), letters.table.Keys, t) <==> Visited(a, t)
  {
    hide Tabled;
    var task := SubsetTask(rows, letters.inv, a.initial, terminals);
    if Reachable(task, letters.table.Keys, t) {
      var w :| Explores(task, letters.table.Keys, task.initial, w, t);
      ExploredIsVisited(a, rows, letters, terminals, {a.initial}, w, t);
    }
    if Visited(a, t) {
      var w :| Visits(a, {a.initial}, w, t);
      VisitedIsExplored(a, rows, letters, terminals, {a.initial}, w, t);
    }
  }

  /** An exploration that gave up had visited too many subsets. */
  lemma TooManyVisitsMore(a: Nfa, rows: Rows, letters: Classes, terminals: set<nat>, seen: seq<set<nat>>, limit: nat)
    requires Tabled(a, rows, letters, terminals)
    requires TooMany(SubsetTask(rows, letters.inv, a.initial, terminals), letters.table.Keys, seen, limit)
    ensures VisitsMore(a, limit + 1)
  {
    hide Tabled, Visited, Reachable;
    forall i: nat | i < |seen| ensures Visited(a, seen[i]) {
      ReachableIsVisited(a, rows, letters, terminals, seen[i]);
    }
    assert AllVisited(a, seen);
  }

  ghost function Place<S(!new)>(states: seq<S>, s: S): nat
    requires Holds(states, s)
    ensures Place(states, s) < |states| && states[Place(states, s)] == s
  {
    var i: nat :| i < |states| && states[i] == s;
    i
  }

  /** Distinct items that are all found in a list are no more than the list has. */
  lemma NoMoreThanHeld<S(!new)>(seen: seq<S>, states: seq<S>)
    requires Distinct(seen) && forall i: nat | i < |seen| :: Holds(states, seen[i])
    ensures |seen| <= |states|
  {
    hide Holds;
    var h: seq<nat> := seq(|seen|, (i: int) requires 0 <= i < |seen| &&
        Holds(states, seen[i]) => Place(states, seen[i]));
    forall i: nat, j: nat | i < |h| && j < |h| && h[i] == h[j] ensures i == j {
      assert seen[i] == states[h[i]] && seen[j] == states[h[j]];
    }
    Minimality.Pigeonhole(h, |states|);
  }

  /** An exploration that was completed visited no more subsets than it found. */
  lemma CompleteVisitsNoMore(a: Nfa, rows: Rows, letters: Classes, terminals: set<nat>, states: seq<set<nat>>)
    requires Tabled(a, rows, letters, terminals)
    requires Complete(SubsetTask(rows, letters.inv, a.initial, terminals), letters.table.Keys, states)
    ensures !VisitsMore(a, |states|)
  {
    hide Tabled, Visited, Reachable;
    if VisitsMore(a, |states|) {
      var seen: seq<set<nat>> :| |seen| > |states| && Distinct(seen) && AllVisited(a, seen);
      forall i: nat | i < |seen| ensures Holds(states, seen[i]) {
        assert Visited(a, seen[i]);
        ReachableIsVisited(a, rows, letters, terminals, seen[i]);
      }
      NoMoreThanHeld(seen, states);
    }
  }

  lemma VisitsLess(a: Nfa, m: nat, n: nat)
    requires m <= n && !VisitsMore(a, m)
    ensures !VisitsMore(a, n)
  {
  }

  /** Determination ends with its first subset exactly if every letter leads back to it, or if the initial state is
      final and loops on every letter, whatever other edges there are. */
  lemma OneSubset(a: Nfa)
    ensures !VisitsMore(a, 1) <==>
      (a.initial in a.finals && forall c: nat | c < 264 && c != 257 :: Edge(a.initial, c, a.initial) in a.edges) ||
      (forall c: nat | c < 264 && c != 257 :: Step(a, {a.initial}, c) == {a.initial})
  {
    hide Step, Visits;
    var s := {a.initial};
    assert IsFollowed(a, s) <==> !IsTerminal(a, a.initial);
    VisitsNothing(a, s);
    if !IsFollowed(a, s) || forall c: nat | IsLetter(c) :: Step(a, s, c) == s {
      forall seen: seq<set<nat>> | |seen| > 1 && AllVisited(a, seen) ensures seen[0] == seen[1] {
        assert Visited(a, seen[0]) && Visited(a, seen[1]);
        forall w, t | Visits(a, s, w, t) ensures t == s { VisitsStays(a, s, w, t); }
      }
    } else {
      var c: nat :| IsLetter(c) && Step(a, s, c) != s;
      VisitsNothing(a, Step(a, s, c));
      VisitsOne(a, s, c);
      var seen := [s, Step(a, s, c)];
      assert AllVisited(a, seen) && Distinct(seen);
    }
  }

  lemma VisitsNothing(a: Nfa, s: set<nat>)
    ensures Visits(a, s, [], s)
  {
  }

  lemma VisitsOne(a: Nfa, s: set<nat>, c: nat)
    requires IsFollowed(a, s) && IsLetter(c)
    ensures Visits(a, s, [c], Step(a, s, c))
  {
    hide Step, IsFollowed;
    VisitsNothing(a, Step(a, s, c));
    assert [c][1..] == [];
  }

  lemma {:induction false} VisitsStays(a: Nfa, s: set<nat>, w: Word, t: set<nat>)
    requires Visits(a, s, w, t) && (!IsFollowed(a, s) || forall c: nat | IsLetter(c) :: Step(a, s, c) == s)
    ensures t == s
    decreases |w|
  {
    hide Step, IsFollowed;
    if w != [] { VisitsStays(a, s, w[1..], t); }
  }

  // ---- small automata always fit ----

  function Pow2(n: nat): nat {
    if n == 0 then 1 else 2 * Pow2(n - 1)
  }

  /** A subset of n states as a number. */
  ghost function Code(s: set<nat>, n: nat): (r: nat)
    ensures r < Pow2(n)
  {
    if n == 0 then 0 else Code(s, n - 1) + if n - 1 in s then Pow2(n - 1) else 0
  }

  lemma {:induction false} SameCode(s: set<nat>, t: set<nat>, n: nat)
    requires Code(s, n) == Code(t, n)
    ensures forall q: nat | q < n :: q in s <==> q in t
  {
    if n > 0 {
      SameCode(s, t, n - 1);
    }
  }

  lemma {:induction false} VisitsWithin(a: Nfa, s: set<nat>, w: Word, t: set<nat>)
    requires Visits(a, s, w, t) && forall q | q in s :: q < a.size
    ensures forall q | q in t :: q < a.size
    decreases |w|
  {
    if w != [] { VisitsWithin(a, Step(a, s, w[0]), w[1..], t); }
  }

  /** An automaton has no more subsets than two to the number of its states. */
  lemma SmallFits(a: Nfa, n: nat)
    requires a.initial < a.size && Pow2(a.size) <= n
    ensures !VisitsMore(a, n)
  {
    hide Visits, Code, Pow2;
    if VisitsMore(a, n) {
      var seen: seq<set<nat>> :| |seen| > n && Distinct(seen) && AllVisited(a, seen);
      forall i: nat | i < |seen| ensures forall q | q in seen[i] :: q < a.size {
        var w :| Visits(a, {a.initial}, w, seen[i]);
        VisitsWithin(a, {a.initial}, w, seen[i]);
      }
      var h: seq<nat> := seq(|seen|, (i: int) requires 0 <= i < |seen| => Code(seen[i], a.size));
      forall i: nat, j: nat | i < |h| && j < |h| && h[i] == h[j] ensures i == j {
        SameCode(seen[i], seen[j], a.size);
        assert seen[i] == seen[j];
      }
      Minimality.Pigeonhole(h, Pow2(a.size));
    }
  }

  lemma {:induction false} PowersGrow(m: nat, n: nat)
    requires m <= n
    ensures Pow2(m) <= Pow2(n)
  {
    if m < n { PowersGrow(m, n - 1); }
  }

  lemma SeventeenPower()
    ensures Pow2(17) == 131072
  {
    assert Pow2(6) == 64;
    assert Pow2(12) == 4096;
  }

  /** 17 states have 131072 subsets, fewer than the default limit of the library. */
  lemma FewFit(a: Nfa)
    requires a.initial < a.size <= 17
    ensures !VisitsMore(EpsilonFree(a), 200001)
  {
    hide VisitsMore, EpsilonFree;
    EpsilonFreeShape(a);
    PowersGrow(a.size, 17);
    SeventeenPower();
    SmallFits(EpsilonFree(a), 200001);
  }
}
