/** The finite state machine under construction: a mutable automaton with epsilon transitions. */
module FiniteStateMachine {
  import opened Automaton
  import opened Transitions
  import opened EpsilonRemoval
  import opened Closure
  import opened Partitions
  import opened Letters
  import opened Deterministic
  import opened Determination
  import opened SubsetTables
  import opened Minimality
  import opened Moore
  import opened RegularLanguages
  import opened SurroundingLanguages
  import opened Tables
  import opened DeadEnds
  import opened Appending
  import opened VisitedSubsets

  class Fsm {
    var rows: Rows
    var initial: nat
    var finals: set<nat>
    var letters: Classes
    /** Does `letters` translate letters on lookup? */
    var sparsed: bool
    var determined: bool
    /** True only if this machine is a union: a hint that new alternatives can share its initial state. */
    var isAlternative: bool

    function Size(): nat
      reads this`rows
    {
      |rows|
    }

    /** The automaton this machine stands for. */
    ghost function Value(): Nfa
      reads this`rows, this`initial, this`finals, this`letters
    {
      Nfa(|rows|, EdgesOf(rows, letters.inv), initial, finals)
    }

    ghost predicate Wf()
      reads this`rows, this`initial, this`finals, this`letters
    {
      && initial < |rows|
      && (forall q | q in finals :: q < |rows|)
      && Within(rows)
      && OverLetters(letters)
      && Coherent(rows, letters.inv)
    }

    lemma ValueIsValid()
      requires Wf()
      ensures Value().Valid()
    {
      EdgesWithinRows(rows, letters.inv);
    }

    /** The table is deterministic and complete, starts at state 0 and has no unreachable state. */
    ghost predicate IsDfa()
      reads this`rows, this`initial, this`finals, this`letters, this`sparsed
    {
      && sparsed && initial == 0
      && Total(letters.inv)
      && Functional(rows, letters.table.Keys)
      && AllReached(Machine())
    }

    /** What every operation keeps: the table is sound, and both the hint and the mark of a determined machine tell
        the truth. */
    ghost predicate Valid()
      reads this
    {
      && Wf()
      && (isAlternative ==> IsUnion(Value()))
      && (determined ==> IsDfa())
    }

    ghost function Machine(): Dfa
      reads this`rows, this`initial, this`finals, this`letters
    {
      MachineOf(rows, letters.inv, initial, finals)
    }

    lemma MachineLanguage()
      requires Wf() && IsDfa()
      ensures Machine().Valid() && Represents(Value(), Machine())
      ensures forall w | IsWord(w) :: Accepts(Value(), w) <==> AcceptsFrom(Machine(), 0, w)
    {
      MachineIsValid(rows, letters, initial, finals);
      TableRepresents(rows, letters, initial, finals);
      forall w | IsWord(w) ensures Accepts(Value(), w) <==> AcceptsFrom(Machine(), 0, w) {
        RepresentedLanguage(Value(), Machine(), w);
      }
    }

    constructor ()
      ensures Valid() && Value() == Nfa(1, {}, 0, {0}) && !determined && !isAlternative && letters == NO_CLASSES &&
          rows == [map[]]
    {
      rows := [map[]];
      initial := 0;
      finals := {0};
      letters := NO_CLASSES;
      sparsed, determined, isAlternative := false, false, false;
      new;
      assert EdgesOf(rows, letters.inv) == {};
    }

    /** The letter under which the row of a state is looked up. */
    function Translate(c: nat): nat
      reads this`sparsed, this`letters
    {
      if !sparsed || c == EPSILON then c else letters.Representative(c)
    }

    function Destinations(from: nat, c: nat): set<nat>
      reads this`sparsed, this`letters, this`rows
    {
      Dest(rows, from, Translate(c))
    }

    // ---- raw construction ----

    method Connect(from: nat, to: nat, c: nat := EPSILON)
      requires from < |rows|
      modifies this`rows, this`isAlternative
      ensures rows == Link(old(rows), from, c, to) && !isAlternative
    {
      rows := Link(rows, from, c, to);
      isAlternative := false;
    }

    // ---- letter classes ----

    /** Builds the classes of all letters from the table. */
    method Sparse()
      modifies this`letters, this`sparsed
      ensures OverLetters(letters) && Total(letters.inv) && Classed(rows, letters.inv) && sparsed
    {
      var table := rows;
      var key := map c: nat | c < MAX_CHAR :: Column(table, c);
      letters := ClassAll(key);
      sparsed := true;
      SeparatedIsClassed(rows, letters, key);
    }

    /** Gives every letter of a class the targets of the representative. */
    method Unsparse()
      requires Wf()
      modifies this`rows, this`sparsed
      ensures Expanded(old(rows), letters.inv, rows) && |rows| == |old(rows)| && Within(rows) && !sparsed
    {
      var rest: set<nat> := letters.table.Keys;
      ghost var table, inv := rows, letters.inv;
      while rest != {}
        invariant rest <= letters.table.Keys && |rows| == |table| && Within(rows)
        invariant forall p: nat, c: nat ::
          Dest(rows, p, c) == Dest(table, p, if c in inv && inv[c] !in rest then inv[c] else c)
        decreases |rest|
      {
        var k: nat := Ordered.Least(rest);
        KeyIsItem(letters, k);
        ghost var before := rows;
        ClassItemsAreLetters(letters, k);
        ExpandClass(k, letters.table[k].items);
        ExpandedOneMore(table, before, rows, letters, k, rest);
        rest := rest - {k};
      }
      forall p: nat, c: nat ensures Dest(rows, p, c) == Dest(table, p, Stand(inv, c)) {
        if c in inv { assert inv[c] !in rest; }
      }
      sparsed := false;
    }

    method ExpandClass(k: nat, items: seq<nat>)
      requires Within(rows) && forall x | x in items :: x < MAX_CHAR
      modifies this`rows
      ensures |rows| == |old(rows)| && Within(rows)
      ensures forall p: nat, c: nat :: Dest(rows, p, c) == Dest(old(rows), p, if c in items then k else c)
    {
      ghost var table := rows;
      for p: nat := 0 to |rows|
        invariant |rows| == |table| && Within(rows)
        invariant forall p': nat, c: nat :: Dest(rows, p', c) == Dest(table, p', if p' < p && c in items then k else c)
      {
        ghost var before := rows;
        var row := ExpandRow(rows[p], k, items);
        rows := rows[p := row];
        RowExpanded(before, rows, p, row, k, items);
      }
    }

    // ---- removing epsilons ----

    /** Gives `from` an epsilon step to every state `thru` has one to. */
    method ShortCutEpsilon(from: nat, thru: nat, inveps: seq<set<nat>>) returns (inverse: seq<set<nat>>)
      requires from < |rows| && thru < |rows| && from != thru && Within(rows) && Mirror(rows, inveps)
      modifies this`rows, this`isAlternative
      ensures ShortCut(old(rows), rows, from, thru) && Within(rows) && Mirror(rows, inverse)
    {
      inverse := inveps;
      ghost var before := rows;
      ShortCutNothing(rows, from, thru);
      for to: nat := 0 to |rows|
        invariant PartShortCut(before, rows, from, thru, to) && Within(rows) && Mirror(rows, inverse)
      {
        ghost var middle := rows;
        if to in Dest(rows, thru, EPSILON) {
          MirrorLink(rows, inverse, from, to);
          LinkAdds(rows, from, EPSILON, to);
          Connect(from, to);
          inverse := inverse[to := inverse[to] + {from}];
        }
        ShortCutTarget(before, middle, rows, from, thru, to);
      }
      PartIsShortCut(before, rows, from, thru);
    }

    /** Closes the epsilon steps under composition by the Floyd-Warshall loop, in place. */
    method CloseEpsilons()
      requires Within(rows)
      modifies this`rows, this`isAlternative
      ensures Within(rows) && ClosedBelow(rows, |rows|)
      ensures |rows| == |old(rows)| && SameLetters(old(rows), rows) && Shortcuts(old(rows), rows)
    {
      hide Within, Mirror, ClosedBelow, SameLetters, Shortcuts, ShortCutBelow, ShortCut, Linked;
      ghost var origin := rows;
      var inveps := InverseEpsilons();
      ShortcutsStart(rows);
      for thru: nat := 0 to |rows|
        invariant |rows| == |origin| && Within(rows) && Mirror(rows, inveps)
        invariant ClosedBelow(rows, thru) && SameLetters(origin, rows) && Shortcuts(origin, rows)
      {
        ghost var before := rows;
        ShortCutNone(rows, thru);
        for from: nat := 0 to |rows|
          invariant |rows| == |origin| && Within(rows) && Mirror(rows, inveps)
          invariant ShortCutBelow(before, rows, from, thru)
        {
          ghost var middle := rows;
          MirrorAt(rows, inveps, from, thru);
          if from in inveps[thru] && from != thru {
            inveps := ShortCutEpsilon(from, thru, inveps);
            ShortCutMore(before, middle, rows, from, thru);
            ShortCutSize(middle, rows, from, thru);
          } else {
            ShortCutSkip(before, rows, from, thru);
          }
        }
        ShortCutCloses(before, rows, thru);
        ShortCutIsSilent(origin, before, rows, thru);
        SameLettersAfter(origin, before, rows, thru);
      }
    }

    /** The inverse map of epsilon transitions. */
    method InverseEpsilons() returns (inveps: seq<set<nat>>)
      requires Within(rows)
      ensures Mirror(rows, inveps)
    {
      inveps := seq(|rows|, i => {});
      for from: nat := 0 to |rows|
        invariant |inveps| == |rows|
        invariant forall p: nat, q: nat | q < |rows| :: p in inveps[q] <==> p < from && Eps(rows, p, q)
      {
        ghost var before := inveps;
        for to: nat := 0 to |rows|
          invariant |inveps| == |rows|
          invariant forall p: nat, q: nat | q < |rows| :: p in inveps[q] <==>
              p in before[q] || (p == from && q < to && Eps(rows, p, q))
        {
          if to in Dest(rows, from, EPSILON) {
            inveps := inveps[to := inveps[to] + {from}];
          }
        }
      }
      forall p: nat, q: nat | q < |rows| ensures p in inveps[q] <==> Eps(rows, p, q) {
      }
    }

    /** Merges the transitions and the finality of `to` into `from`. */
    method MergeEpsilonConnection(from: nat, to: nat)
      requires from < |rows| && to < |rows| && from != to && Within(rows)
      modifies this`rows, this`finals
      ensures Absorbed(old(rows), rows, from, to) && Within(rows)
      ensures finals == old(finals) + if to in old(finals) then {from} else {}
    {
      ghost var before := rows;
      AbsorbNothing(rows, from, to);
      for c: nat := 0 to MAX_CHAR
        invariant PartAbsorbed(before, rows, from, to, c) && Within(rows) && finals == old(finals)
      {
        ghost var middle := rows;
        if c in rows[to] {
          var row: Row := rows[from][c := Dest(rows, from, c) + rows[to][c]];
          rows := rows[from := row];
        }
        AbsorbLetter(before, middle, rows, from, to, c);
      }
      PartIsAbsorbed(before, rows, from, to);
      if to in finals {
        finals := finals + {from};
      }
    }

    /** Lets every state take over the states it silently reaches, reading rows already merged into. */
    method MergeEpsilons()
      requires Within(rows) && ClosedBelow(rows, |rows|) && forall q | q in finals :: q < |rows|
      modifies this`rows, this`finals
      ensures |rows| == |old(rows)| && Within(rows) && MergedSoundly(old(rows), rows)
      ensures forall x: nat | x < |rows| :: CoversBelow(old(rows), rows, x, |rows|)
      ensures MergedFinals(old(rows), old(finals), finals, |rows|)
    {
      hide Within, ClosedBelow, MergedSoundly, CoversBelow, Absorbed, MergedFinals, MergedFinalsHere, Linked;
      ghost var closed, ends := rows, finals;
      MergeStarts(closed, 0);
      FinalsStart(closed, ends);
      for from: nat := 0 to |rows|
        invariant |rows| == |closed| && Within(rows) && MergedSoundly(closed, rows)
        invariant forall x: nat | x < from :: CoversBelow(closed, rows, x, |closed|)
        invariant MergedFinals(closed, ends, finals, from)
      {
        CoversNone(closed, rows, from);
        FinalsHereStart(closed, ends, finals, from);
        for to: nat := 0 to |rows|
          invariant |rows| == |closed| && Within(rows) && MergedSoundly(closed, rows)
          invariant forall x: nat | x < from :: CoversBelow(closed, rows, x, |closed|)
          invariant CoversBelow(closed, rows, from, to)
          invariant MergedFinalsHere(closed, ends, finals, from, to)
        {
          ghost var before, others := rows, finals;
          MergedKeepsEps(closed, rows, from, to);
          if to in Dest(rows, from, EPSILON) && to != from {
            MergeEpsilonConnection(from, to);
            AbsorbSound(closed, before, rows, from, to);
            forall x: nat | x < from ensures CoversBelow(closed, rows, x, |closed|) {
              AbsorbCovers(closed, before, rows, from, to, x, |closed|);
            }
            AbsorbCovers(closed, before, rows, from, to, from, to);
            AbsorbedSize(before, rows, from, to);
          } else {
            CoversSkip(closed, rows, from, to);
          }
          FinalsHereNext(closed, ends, others, finals, from, to);
        }
        FinalsNext(closed, ends, finals, from);
      }
    }

    method DropEpsilons()
      requires Within(rows)
      modifies this`rows
      ensures |rows| == |old(rows)| && Within(rows) && Dropped(old(rows), rows)
    {
      ghost var before := rows;
      for p: nat := 0 to |rows|
        invariant |rows| == |before| && Within(rows)
        invariant forall x: nat, c: nat, q: nat :: Linked(rows, x, c, q) <==>
            !(x < p && c == EPSILON) && Linked(before, x, c, q)
      {
        ghost var middle := rows;
        rows := rows[p := rows[p] - {EPSILON}];
        RowDropped(middle, rows, p);
      }
      SourcesWithin(before);
    }

    /** Removes all epsilon transitions; does not change the language. */
    method RemoveEpsilons()
      requires Wf()
      modifies this`rows, this`finals, this`letters, this`sparsed, this`isAlternative
      ensures Wf() && Value() == EpsilonFree(old(Value()))
      ensures sparsed && Total(letters.inv) && Classed(rows, letters.inv) && !isAlternative
    {
      hide Within, ClosedBelow, MergedSoundly, CoversBelow, Linked, SameLetters, Shortcuts, MergedFinals, EdgesOf,
          Coherent;
      hide EpsilonFree, Classed, Total, OverLetters, Expanded, Dropped, Uniform;
      ghost var a := Value();
      ValueIsValid();
      Unsparse();
      ghost var plain := rows;
      UnsparsedEdges(old(rows), letters.inv, plain);
      CloseEpsilons();
      ghost var closed := rows;
      MergeEpsilons();
      ghost var merged := rows;
      DropEpsilons();
      Sparse();
      isAlternative := false;
      ClassedIsCoherent(rows, letters.inv);
      EpsilonsRemoved(a, plain, closed, merged, rows, letters.inv, finals);
      EpsilonFreeShape(a);
    }

    // ---- determining ----

    /** The final states that no letter leaves. */
    method TerminalStates() returns (terminals: set<nat>)
      ensures IsTerminals(rows, letters, finals, terminals)
    {
      terminals := {};
      var rest := finals;
      while rest != {}
        invariant rest <= finals
        invariant forall t: nat :: t in terminals <==>
            t in finals && t !in rest && LoopsOnAll(rows, letters.table.Keys, t)
        decreases |rest|
      {
        var f: nat := Ordered.Least(rest);
        var ok, keys := true, letters.table.Keys;
        while keys != {}
          invariant keys <= letters.table.Keys
          invariant ok <==> forall k: nat | k in letters.table && k !in keys :: Linked(rows, f, k, f)
          decreases |keys|
        {
          var k: nat := Ordered.Least(keys);
          ok := ok && f in Dest(rows, f, k);
          keys := keys - {k};
        }
        if ok {
          terminals := terminals + {f};
        }
        rest := rest - {f};
      }
    }

    /** Lays out the states found: subsets with a terminal state loop, subsets with a final state are final. */
    method AcceptStates(states: seq<set<nat>>, terminals: set<nat>, ends: set<nat>, classes: Classes)
      requires |states| > 0
      modifies this
      ensures FilledUpTo(rows, states, terminals, classes.table.Keys, [], 0) && |rows| == |states|
      ensures initial == 0 && determined && !isAlternative && letters == classes
      ensures forall i: nat :: i in finals <==> i < |states| && states[i] * ends != {}
    {
      rows := seq(|states|, i => map[]);
      initial, determined, isAlternative, letters, finals := 0, true, false, classes, {};
      for ns: nat := 0 to |states|
        invariant initial == 0 && determined && !isAlternative && letters == classes
        invariant LoopsBelow(rows, states, terminals, classes.table.Keys, ns)
        invariant forall i: nat :: i in finals <==> i < ns && states[i] * ends != {}
      {
        if states[ns] * terminals != {} {
          ConnectAllToSelf(ns, classes.table.Keys);
        }
        if states[ns] * ends != {} {
          finals := finals + {ns};
        }
      }
      LoopsAreFilled(rows, states, terminals, classes.table.Keys);
    }

    method ConnectAllToSelf(ns: nat, keys: set<nat>)
      requires ns < |rows| && Entered(rows)
      modifies this`rows, this`isAlternative
      ensures |rows| == |old(rows)| && Entered(rows)
      ensures forall i: nat, c: nat, j: nat :: Linked(rows, i, c, j) <==>
          Linked(old(rows), i, c, j) || (i == ns && j == ns && c in keys)
      ensures old(!isAlternative) ==> !isAlternative
    {
      var rest := keys;
      while rest != {}
        invariant rest <= keys && |rows| == |old(rows)| && Entered(rows) && (old(!isAlternative) ==> !isAlternative)
        invariant forall i: nat, c: nat, j: nat :: Linked(rows, i, c, j) <==>
          Linked(old(rows), i, c, j) || (i == ns && j == ns && c in keys && c !in rest)
        decreases |rest|
      {
        var k: nat := Ordered.Least(rest);
        LinkAdds(rows, ns, k, ns);
        LinkKeepsEntries(rows, ns, k, ns);
        Connect(ns, ns, k);
        rest := rest - {k};
      }
    }

    method ConnectCalls(calls: seq<Call>, ghost states: seq<set<nat>>, ghost terminals: set<nat>, ghost keys: set<nat>)
      requires FilledUpTo(rows, states, terminals, keys, [], 0)
      requires forall m: nat | m < |calls| :: calls[m].from < |states|
      modifies this`rows, this`isAlternative
      ensures FilledUpTo(rows, states, terminals, keys, calls, |calls|)
      ensures old(!isAlternative) ==> !isAlternative
    {
      FilledStart(rows, states, terminals, keys, calls);
      for m: nat := 0 to |calls|
        invariant |rows| == |states| && FilledUpTo(rows, states, terminals, keys, calls, m) &&
            (old(!isAlternative) ==> !isAlternative)
      {
        FilledMore(rows, states, terminals, keys, calls, m);
        Connect(calls[m].from, calls[m].to, calls[m].letter);
      }
    }

    /** Becomes the machine whose states are the subsets found. */
    method TakeSubsets(states: seq<set<nat>>, calls: seq<Call>, terminals: set<nat>)
      requires Wf() && sparsed && Total(letters.inv) && IsEpsilonFree(Value().edges) &&
          IsTerminals(rows, letters, finals, terminals)
      requires Complete(SubsetTask(rows, letters.inv, initial, terminals), letters.table.Keys, states) && |states| > 0
      requires Connects(SubsetTask(rows, letters.inv, initial, terminals), letters.table.Keys, states, calls)
      modifies this
      ensures Wf() && IsDfa() && determined && !isAlternative && |rows| == |states|
      ensures SameLanguage(old(Value()), Value())
    {
      hide Within, Coherent, Total, FilledUpTo, Connects, Complete, IsTerminals, EdgesOf, Functional, AllReached;
      hide SameLanguage, IsEpsilonFree, SubsetTask, OverLetters;
      var other := new Fsm();
      other.AcceptStates(states, terminals, finals, letters);
      CallsHaveSources(SubsetTask(rows, letters.inv, initial, terminals), letters.table.Keys, states, calls);
      other.ConnectCalls(calls, states, terminals, letters.table.Keys);
      SubsetsDetermine(rows, letters, initial, finals, terminals, states, calls, other.rows, other.finals);
      rows, initial, finals, letters := other.rows, other.initial, other.finals, other.letters;
      determined, isAlternative := other.determined, other.isAlternative;
    }

    static const MAX_SIZE: nat := 200000

    lemma TableOfValue(terminals: set<nat>)
      requires Wf() && Total(letters.inv) && IsTerminals(rows, letters, finals, terminals)
      ensures Tabled(Value(), rows, letters, terminals)
    {
    }

    /** Is the machine determined, or do the subsets visited without its epsilons fit the limit? */
    ghost predicate Determinable(maxsize: nat)
      reads this`rows, this`initial, this`finals, this`letters, this`determined
    {
      determined || !VisitsMore(EpsilonFree(Value()), Limit(maxsize) + 1)
    }

    /** Replaces the machine by a complete deterministic one for the same language, exactly if that needs no more new
        states than allowed (0 means the default limit): otherwise only the epsilons are removed. */
    method Determine(maxsize: nat := 0) returns (ok: bool)
      requires Valid()
      modifies this
      ensures Valid() && SameLanguage(old(Value()), Value())
      ensures !old(determined) ==> !isAlternative
      ensures ok ==> determined && IsDfa() && |rows| <= if old(determined) then |old(rows)| else Limit(maxsize) + 1
      ensures ok <==> old(Determinable(maxsize))
      ensures ok <==>
          old(determined) || !VisitsMore(EpsilonFree(old(Value())), if maxsize == 0 then 200001 else maxsize + 1)
      ensures old(determined) ==> unchanged(this)
      ensures !ok ==> !determined && Value() == EpsilonFree(old(Value()))
      ensures !ok ==> Total(letters.inv) && Classed(rows, letters.inv) && sparsed
    {
      hide Within, Coherent, Total, Classed, OverLetters, Connects, Complete, IsTerminals, EdgesOf, Functional;
      hide AllReached, EpsilonFree, SameLanguage, IsEpsilonFree, TooMany, SubsetTask, VisitsMore, Tabled;
      SameLanguageSelf(Value());
      if determined {
        return true;
      }
      ghost var origin := Value();
      ValueIsValid();
      RemoveEpsilons();
      EpsilonFreeLanguage(origin);
      var terminals := TerminalStates();
      ClassesAreValid(letters);
      var r, seen := Determination.Determine(SubsetTask(rows, letters.inv, initial, terminals), letters,
          Limit(maxsize));
      ghost var plain := Value();
      TableOfValue(terminals);
      if r.Failure? {
        TooManyVisitsMore(plain, rows, letters, terminals, seen, Limit(maxsize));
        return false;
      }
      CompleteVisitsNoMore(plain, rows, letters, terminals, r.states);
      VisitsLess(plain, |r.states|, Limit(maxsize) + 1);
      TakeSubsets(r.states, r.calls, terminals);
      SameLanguageJoin(origin, plain, Value());
      return true;
    }

    // ---- minimizing ----

    /** A faster representation of the transitions, and the letters that suffice to tell states apart. */
    method Tabulate() returns (tran: seq<seq<nat>>, distinct: seq<nat>)
      requires Wf() && IsDfa()
      ensures Tabulates(Machine(), tran, distinct, letters.inv)
      ensures forall k | k in distinct :: IsLetter(k) && letters.inv[k] == k
    {
      tran := [];
      for p: nat := 0 to |rows|
        invariant |tran| == p
        invariant forall p': nat | p' < p :: TabulatesRow(rows, p', tran[p'])
      {
        var row: seq<nat> := seq(MAX_CHAR, i => 0);
        for c: nat := 0 to MAX_CHAR
          invariant |row| == MAX_CHAR
          invariant forall c': nat, q: nat | c' < c && Linked(rows, p, c', q) :: row[c'] == q
        {
          if c in rows[p] {
            assert HasLink(rows, p, c);
            assert forall q: nat :: q in rows[p][c] <==> Linked(rows, p, c, q);
            row := row[c := Ordered.Least(rows[p][c])];
          }
        }
        tran := tran + [row];
      }
      distinct := DistinctLetters();
      TabulatedMachine(rows, letters, initial, finals, tran, distinct);
    }

    method DistinctLetters() returns (distinct: seq<nat>)
      requires OverLetters(letters)
      ensures forall k :: k in distinct <==> k in letters.table
      ensures forall k | k in distinct :: k in letters.inv && IsLetter(k) && letters.inv[k] == k
    {
      distinct := [];
      var rest: set<nat> := letters.table.Keys;
      while rest != {}
        invariant rest <= letters.table.Keys
        invariant forall k :: k in distinct <==> k in letters.table && k !in rest
        decreases |rest|
      {
        var k: nat := Ordered.Least(rest);
        distinct := distinct + [k];
        rest := rest - {k};
      }
      forall k | k in distinct ensures k in letters.inv && IsLetter(k) && letters.inv[k] == k {
        KeyIsItem(letters, k);
      }
    }

    /** Iteratively splits the states into classes until their map no longer changes, at most Size() times. */
    method RefineStates(tran: seq<seq<nat>>, distinct: seq<nat>) returns (c: Classes, ghost rounds: nat)
      requires Wf() && IsDfa() && Tabulates(Machine(), tran, distinct, letters.inv)
      requires forall k | k in distinct :: IsLetter(k) && letters.inv[k] == k
      ensures c.Valid() && StartsAtZero(c) && rounds <= |rows|
      ensures CoversStates(c.inv, |rows|) && KeepsEquivalent(Machine(), c.inv)
      ensures SeparatesFinals(Machine(), c.inv) && Stable(Machine(), c.inv)
    {
      hide Tabulates, CoversStates, KeepsEquivalent, SeparatesFinals, Stable, SameNumbers, IsMapOf, Total, Functional,
          AllReached, StartsAtZero;
      hide SplitKeyOf, IsSplitKey;
      hide Classes.Valid;
      hide Classes.Separates;
      hide Within, OverLetters, Coherent;
      ghost var d := Machine();
      MachineLanguage();
      var final := finals;
      var finality := map a: nat | a < |rows| :: FinalKey(final, a);
      var last := InitialPartition(|rows|, finality);
      FirstSplit(d, last.Contents(), finality);
      var scm: seq<nat> := seq(|rows|, i => 0);
      ghost var first := scm;
      var changed;
      scm, changed := UpdateStateClassMap(scm, last);
      if !changed { UnchangedAtFirst(d, first, scm, last.Contents()); }
      rounds := 0;
      KeysAreFew(last.Contents(), |rows|);
      AtZeroIsOne(last.Contents());
      while changed
        invariant fresh(last) && last.Valid() && |scm| == |rows| && IsMapOf(scm, last.inv) &&
            StartsAtZero(last.Contents())
        invariant CoversStates(last.inv, |rows|) && KeepsEquivalent(d, last.inv) && SeparatesFinals(d, last.inv)
        invariant !changed ==> Stable(d, last.inv)
        invariant 0 < |last.table| <= |rows| && rounds + |rows| - |last.table| + (if changed then 1 else 0) <= |rows|
        decreases |rows| - |last.table| + if changed then 1 else 0
      {
        ghost var before, prev := last.Contents(), scm;
        var clMap := scm;
        var finer := SplitKeyOf(tran, distinct, clMap);
        SplitKeyIsFiner(tran, distinct, clMap, before, last.key, finer);
        last.Split(finer);
        CoversByKeys(before.inv, last.inv, |rows|);
        scm, changed := UpdateStateClassMap(scm, last);
        RoundDone(d, tran, distinct, letters.inv, prev, before, last.Contents(), finer, scm, changed);
        StillAtZero(before, last.Contents());
        rounds := rounds + 1;
      }
      c := last.Contents();
    }

    /** Connects the class of `from` as the old row of `from` says. */
    method MergeRow(table: Rows, from: nat, c: Classes, ghost cls: seq<nat>)
      requires from < |table| == |cls| && Within(table) && NumbersClasses(c, cls) && EntriesAreSingle(table)
      requires forall p: nat | p < |cls| :: cls[p] < |rows|
      requires MergedUpTo(table, cls, rows, from)
      modifies this`rows, this`isAlternative
      ensures |rows| == |old(rows)| && MergedUpTo(table, cls, rows, from + 1)
    {
      hide MergedUpTo, MergedPart, Within, NumbersClasses, Link;
      MergePartStarts(table, cls, rows, from);
      for letter: nat := 0 to MAX_CHAR
        invariant |rows| == |old(rows)| && MergedPart(table, cls, rows, from, letter)
      {
        ghost var before := rows;
        if letter in table[from] {
          SingleEntry(table, from, letter);
          var to: nat := Ordered.Least(table[from][letter]);
          EntryNumbers(table, c, cls, from, letter, to);
          MergePartLinks(table, cls, rows, from, letter, to);
          Connect(ClassOf(c, from), ClassOf(c, to), letter);
          LinkSize(before, cls[from], letter, cls[to]);
        } else {
          MergePartSkips(table, cls, rows, from, letter);
        }
      }
      MergePartEnds(table, cls, rows, from);
    }

    /** Rebuilds the table with one state per class, numbered by the index of the class. */
    method UniteClasses(c: Classes)
      requires Wf() && IsDfa() && c.Valid() && StartsAtZero(c) && CoversStates(c.inv, |rows|)
      requires SeparatesFinals(Machine(), c.inv) && Stable(Machine(), c.inv)
      modifies this`rows, this`finals, this`initial, this`isAlternative
      ensures Wf() && initial == 0 && !isAlternative && |rows| == c.Size() && Functional(rows, letters.table.Keys)
      ensures IsQuotient(old(Machine()), Machine(), ClassNumbersOf(c, |old(rows)|))
    {
      hide Total, Functional, Within, OverLetters, Coherent, IsQuotient, SeparatesFinals, Stable, MergedUpTo,
          MergedEnds, EntriesAreSingle;
      hide Classes.Valid;
      hide NumbersClasses, ClassNumbersOf, CoversStates;
      var oldTransitions, oldFinal := rows, finals;
      ghost var cls, d := ClassNumbersOf(c, |rows|), Machine();
      NumbersGiven(c, |rows|);
      ClassNumbers(c, cls);
      FunctionalIsSingle(rows, letters.table.Keys);
      rows, finals := seq(c.Size(), i => map[]), {};
      UniteStarts(oldTransitions, oldFinal, cls, rows, c.Size());
      for from: nat := 0 to |oldTransitions|
        invariant initial == 0 && |rows| == c.Size() && MergedUpTo(oldTransitions, cls, rows, from)
        invariant MergedEnds(oldFinal, cls, finals, from)
      {
        MergeRow(oldTransitions, from, c, cls);
        ghost var ends := finals;
        if from in oldFinal {
          finals := finals + {ClassOf(c, from)};
        }
        EndsMerged(oldFinal, c, cls, ends, finals, from);
      }
      initial := c.Representative(initial);
      UnitedIsQuotient(oldTransitions, letters, oldFinal, c, cls, rows, finals);
      isAlternative := false;
    }

    /** Unites the states with the same residual language; `cls` is the new name of every old state. */
    method Minimize() returns (ghost cls: seq<nat>, ghost rounds: nat)
      requires Valid() && determined
      modifies this
      ensures Valid() && determined && !isAlternative
      ensures IsQuotient(old(Machine()), Machine(), cls) && MergesEquivalent(old(Machine()), cls)
      ensures SameLanguage(old(Value()), Value()) && Reduced(Machine()) && |rows| <= |old(rows)|
      ensures rounds <= |old(rows)|
    {
      hide Tabulates, Total, Functional, AllReached, Within, OverLetters, Coherent, IsQuotient, MergesEquivalent,
          SameLanguage, Reduced;
      hide SeparatesFinals, Stable, KeepsEquivalent, CoversStates, StartsAtZero;
      hide Classes.Valid;
      ghost var a, d := Value(), Machine();
      MachineLanguage();
      ValueIsValid();
      var tran, distinct := Tabulate();
      var c;
      c, rounds := RefineStates(tran, distinct);
      cls := ClassNumbersOf(c, |rows|);
      RefinedMerges(d, c, |rows|);
      UniteClasses(c);
      QuotientReached(d, Machine(), cls);
      QuotientReduced(d, Machine(), cls);
      MachineLanguage();
      ValueIsValid();
      QuotientLanguage(a, d, Value(), Machine(), cls);
    }

    /** Determines and minimizes; the failure is the error that the library throws. */
    method Canonize(maxSize: nat := 0) returns (ok: bool)
      requires Valid()
      modifies this
      ensures Valid() && !isAlternative && SameLanguage(old(Value()), Value())
      ensures ok ==> determined && IsDfa() && Reduced(Machine())
      ensures ok <==> old(Determinable(maxSize))
      ensures !ok ==> !determined && Value() == EpsilonFree(old(Value()))
    {
      hide VisitsMore, SameLanguage, Reduced, IsQuotient, MergesEquivalent, Functional, AllReached, Total, Classed,
          EpsilonFree;
      ghost var origin := Value();
      ok := true;
      SameLanguageSelf(origin);
      if !determined {
        ok := Determine(maxSize);
        if !ok {
          return;
        }
      }
      ghost var determinedValue := Value();
      ghost var cls, rounds := Minimize();
      SameLanguageJoin(origin, determinedValue, Value());
    }

    // ---- editing the table ----

    method Resize(newSize: nat) returns (oldSize: nat)
      requires Wf() && newSize >= |rows|
      modifies this`rows
      ensures oldSize == |old(rows)| && rows == old(rows) + NewStates(newSize - oldSize)
      ensures Wf() && Value() == old(Value()).(size := newSize)
    {
      hide Within, Coherent, OverLetters, EdgesOf;
      oldSize := |rows|;
      NewStatesAreBare(rows, letters, newSize - oldSize);
      rows := rows + NewStates(newSize - oldSize);
    }

    /** An edge on a letter that is not classed: any letter while there are no classes, epsilon always. */
    method ConnectPlainly(from: nat, to: nat, c: nat := EPSILON)
      requires Wf() && from < |rows| && to < |rows| && c < MAX_CHAR && (c == EPSILON || c !in letters.inv)
      modifies this`rows, this`isAlternative
      ensures Wf() && !isAlternative
      ensures Value() == old(Value()).(edges := old(Value()).edges + {Edge(from, c, to)})
    {
      hide Within, Coherent, EdgesOf, Link;
      LinkPlainly(rows, letters, from, c, to);
      Connect(from, to, c);
    }

    method ConnectFinal(to: nat, c: nat := EPSILON)
      requires Wf() && to < |rows| && c < MAX_CHAR && (c == EPSILON || c !in letters.inv)
      modifies this`rows, this`isAlternative
      ensures Wf() && !isAlternative
      ensures Value() == old(Value()).(edges := old(Value()).edges + EdgesFrom(finals, c, to))
    {
      hide Within, Coherent, OverLetters, EdgesOf, EdgesFrom;
      var rest := finals;
      ghost var edges := Value().edges;
      NoEdgesFrom(edges, c, to);
      assert finals - rest == {};
      while rest != {}
        invariant rest <= finals && Wf() && |rows| == |old(rows)|
        invariant Value() == old(Value()).(edges := edges + EdgesFrom(finals - rest, c, to))
        decreases |rest|
      {
        var f: nat := Ordered.Least(rest);
        ConnectPlainly(f, to, c);
        OneMoreSource(edges, finals, rest, f, c, to);
        rest := rest - {f};
      }
      assert finals - rest == finals;
      isAlternative := false;
    }

    method Disconnect(from: nat, to: nat, c: nat := EPSILON)
      requires Wf() && from < |rows| && (c == EPSILON || c !in letters.inv)
      modifies this`rows, this`isAlternative
      ensures Wf() && !isAlternative && |rows| == |old(rows)|
      ensures Value() == old(Value()).(edges := old(Value()).edges - {Edge(from, c, to)})
    {
      hide Within, Coherent, EdgesOf;
      UnlinkPlainly(rows, letters, from, c, to);
      if c in rows[from] {
        var row: Row := rows[from][c := rows[from][c] - {to}];
        rows := rows[from := row];
      }
      isAlternative := false;
    }

    /** Takes over all states of `rhs`, behind its own, and spells out all letters. */
    method Import(rhs: Fsm)
      requires this != rhs && Wf() && rhs.Wf()
      modifies this`rows, this`letters
      ensures Wf() && letters == NO_CLASSES && |rows| == |old(rows)| + |rhs.rows|
      ensures Value() == old(Value()).(size := |rows|,
          edges := old(Value()).edges + ShiftEdges(rhs.Value().edges, |old(rows)|))
    {
      hide Within, EdgesOf, ShiftEdges, ShiftRows, Expanded, Classes.Valid;
      var oldsize := |rows|;
      ghost var table := rows;
      var left := FillTable(rows, letters);
      ShiftedCoherent(rhs.rows, rhs.letters.inv, oldsize);
      var shifted := ShiftRows(rhs.rows, oldsize);
      var right := FillTable(shifted, rhs.letters);
      ImportedEdges(rows, letters.inv, rhs.rows, rhs.letters.inv, left, right);
      ImportedWithin(rows, letters.inv, rhs.rows, rhs.letters.inv, left, right);
      rows := left + right;
      letters := NO_CLASSES;
      NoClassesOverLetters();
    }

    // ---- regular operations ----

    /** += : what is accepted by this and then, leaving its initial state, by rhs. */
    method Concatenate(rhs: Fsm)
      requires this != rhs && Valid() && rhs.Valid()
      modifies this
      ensures Valid() && !determined && !isAlternative
      ensures Value() == Concatenated(old(Value()), Shifted(rhs.Value(), |old(rows)|))
      ensures AcceptsProduct(Value(), old(Value()), rhs.Value()) <==>
        AppendsWhole(rhs.Value()) || forall w :: !Accepts(old(Value()), w)
    {
      hide Within, OverLetters, EdgesOf, Bridges, ShiftEdges, ShiftStates, StepsFrom, AcceptsProduct, AppendsWhole,
          EdgesFrom, IsUnion, Coherent;
      hide IsDfa, Accepts;
      var lhsSize := |rows|;
      ghost var a, b := Value(), rhs.Value();
      ValueIsValid();
      rhs.ValueIsValid();
      Import(rhs);
      ghost var joined := Value();
      var row := rows[lhsSize + rhs.initial];
      ImportedSteps(a, b, rows, lhsSize + rhs.initial, row);
      ghost var first: set<Step> := {};
      OneMoreBridge(finals, first, 0, 0);
      assert joined.edges + {} == joined.edges;
      for c: nat := 0 to MAX_CHAR
        invariant Wf() && letters == NO_CLASSES && |rows| == joined.size
        invariant Value() == joined.(edges := joined.edges + Bridges(a.finals, first))
        invariant forall s: Step :: s in first <==> s.letter < c && s.to in Entry(row, s.letter)
      {
        if c in row {
          var rest := row[c];
          while rest != {}
            invariant rest <= row[c]
            invariant Wf() && letters == NO_CLASSES && |rows| == joined.size
            invariant Value() == joined.(edges := joined.edges + Bridges(a.finals, first))
            invariant forall s: Step :: s in first <==>
                (s.letter < c || (s.letter == c && s.to !in rest)) && s.to in Entry(row, s.letter)
            decreases |rest|
          {
            var to: nat := Ordered.Least(rest);
            assert to in Entry(row, c);
            ConnectFinal(to, c);
            OneMoreBridge(a.finals, first, c, to);
            MoreEdges(joined.edges, Bridges(a.finals, first), EdgesFrom(a.finals, c, to));
            first := first + {Step(c, to)};
            rest := rest - {to};
          }
        }
      }
      assert first == StepsFrom(ShiftEdges(b.edges, lhsSize), b.initial + lhsSize);
      ShiftedStatesBelow(b, lhsSize);
      finals := ShiftStates(rhs.finals, lhsSize);
      determined, isAlternative := false, false;
      AppendedExactly(a, b);
    }

    /** |= : the union. A machine known to be a union already lends its initial state. */
    method Alternate(rhs: Fsm)
      requires this != rhs && Valid() && rhs.Valid()
      modifies this
      ensures Valid() && !determined && isAlternative
      ensures AcceptsEither(Value(), old(Value()), rhs.Value())
    {
      hide Within, OverLetters, EdgesOf, Coherent, IsDfa, IsUnion, Beside, AcceptsEither, Joined;
      var lhsSize := |rows|;
      ghost var a, b, union := Value(), rhs.Value(), isAlternative;
      ValueIsValid();
      rhs.ValueIsValid();
      Import(rhs);
      ShiftedStatesBelow(b, lhsSize);
      finals := finals + ShiftStates(rhs.finals, lhsSize);
      BesideValue(a, b, Value());
      JoinAlternatives(rhs, lhsSize, a);
      JoinedLanguage(a, union, b, rhs.isAlternative);
      determined, isAlternative := false, true;
    }

    /** Makes an imported machine an alternative, in the way the hints allow. */
    method JoinAlternatives(rhs: Fsm, lhsSize: nat, ghost a: Nfa)
      requires this != rhs && Wf() && rhs.Wf() && a.Valid() && rhs.Value().Valid()
      requires lhsSize == a.size && initial == a.initial && Value() == Beside(a, rhs.Value())
      modifies this`rows, this`initial, this`isAlternative
      ensures Wf() && Value() == Joined(a, old(isAlternative), rhs.Value(), rhs.isAlternative)
    {
      hide Within, OverLetters, EdgesOf, Coherent;
      if !isAlternative && !rhs.isAlternative {
        var added := Resize(|rows| + 1);
        ConnectPlainly(added, initial);
        ConnectPlainly(added, rhs.initial + lhsSize);
        initial := added;
      } else if isAlternative && !rhs.isAlternative {
        ConnectPlainly(initial, rhs.initial + lhsSize);
      } else if !isAlternative && rhs.isAlternative {
        ConnectPlainly(rhs.initial + lhsSize, initial);
        initial := rhs.initial + lhsSize;
      } else {
        AdoptAlternatives(rhs, lhsSize, a, rhs.Value());
      }
    }

    /** Moves the alternatives of an imported union to the own initial state. */
    method AdoptAlternatives(rhs: Fsm, lhsSize: nat, ghost a: Nfa, ghost b: Nfa)
      requires this != rhs && Wf() && rhs.Wf() && a.Valid() && b.Valid() && b == rhs.Value()
      requires lhsSize == a.size && initial == a.initial && Value() == Beside(a, b)
      modifies this`rows, this`isAlternative
      ensures Wf() && Value() == Joined(a, true, b, true)
    {
      hide Within, OverLetters, EdgesOf, Coherent, Beside, EpsilonTargets, EpsilonsTo, ShiftStates;
      ghost var u, leaving := Value(), b.initial + lhsSize;
      BesideParts(a, b);
      var tos := rhs.Destinations(rhs.initial, EPSILON);
      rhs.EpsilonDestinations();
      var rest := tos;
      ghost var done: set<nat> := {};
      NoneMoved(u.edges, a.initial, leaving);
      while rest != {}
        invariant rest <= tos && Wf() && |rows| == u.size
        invariant Value() == u.(edges := u.edges + EpsilonsTo(a.initial, done) - EpsilonsTo(leaving, done))
        invariant forall q: nat :: q in done <==> q >= lhsSize && q - lhsSize in tos && q - lhsSize !in rest
        decreases |rest|
      {
        var to: nat := Ordered.Least(rest);
        ConnectPlainly(initial, to + lhsSize);
        Disconnect(rhs.initial + lhsSize, to + lhsSize);
        OneMoreMoved(u.edges, a.initial, leaving, done, to + lhsSize);
        done := done + {to + lhsSize};
        rest := rest - {to};
      }
      forall q: nat ensures q in done <==> q in ShiftStates(tos, lhsSize) {
        ShiftedState(tos, lhsSize, q);
      }
      assert done == ShiftStates(tos, lhsSize);
    }

    lemma EpsilonDestinations()
      requires Wf()
      ensures Destinations(initial, EPSILON) == EpsilonTargets(Value().edges, initial)
      ensures forall t | t in Destinations(initial, EPSILON) :: t < |rows|
    {
      hide EpsilonTargets;
      forall t: nat ensures t in Destinations(initial, EPSILON) <==> t in EpsilonTargets(Value().edges, initial) {
        EpsilonTarget(Value().edges, initial, t);
        EdgeOf(rows, letters.inv, Edge(initial, EPSILON, t));
      }
      forall t | t in Destinations(initial, EPSILON) ensures t < |rows| {
        assert Linked(rows, initial, EPSILON, t);
      }
    }

    /** The Kleene star. */
    method Iterate()
      requires Valid()
      modifies this
      ensures Valid() && !determined && !isAlternative
      ensures Value() == Iterated(old(Value())) && AcceptsStar(Value(), old(Value()))
    {
      hide Within, OverLetters, EdgesOf, Coherent, IsDfa, IsUnion, EdgesFrom, AcceptsStar;
      ghost var a := Value();
      ValueIsValid();
      var n := Resize(|rows| + 2);
      ConnectPlainly(n, n + 1);
      ConnectPlainly(n, initial);
      ConnectFinal(initial);
      ConnectFinal(n + 1);
      finals := {n + 1};
      initial := n;
      determined := false;
      assert Value().edges == Iterated(a).edges;
      IteratedStar(a);
    }

    /** The complement over the alphabet; the failure is the error that the library throws. */
    method Complement() returns (ok: bool)
      requires Valid()
      modifies this
      ensures Valid() && !isAlternative
      ensures ok ==> !determined && AcceptsOthers(Value(), old(Value()))
      ensures ok <==> old(Determinable(0))
      ensures !ok ==> !determined && SameLanguage(Value(), old(Value())) && Value() == EpsilonFree(old(Value()))
    {
      hide VisitsMore, Within, OverLetters, EdgesOf, Coherent, IsDfa, IsUnion, IsQuotient, MergesEquivalent, Reduced,
          SameLanguage, AcceptsOthers;
      hide EpsilonFree, Total, Classed, Represents, Dfa.Valid;
      ghost var origin := Value();
      ok := Determine();
      if !ok {
        SameLanguageTurned(origin, Value());
        return;
      }
      ghost var determinedValue := Value();
      ghost var cls, rounds := Minimize();
      SameLanguageJoin(origin, determinedValue, Value());
      ghost var minimal, d := Value(), Machine();
      ValueIsValid();
      MachineLanguage();
      var n := Resize(|rows| + 1);
      ghost var wide := Value();
      ghost var others: set<nat> := {};
      NoEdgesFrom(wide.edges, EPSILON, n);
      for i: nat := 0 to |rows|
        invariant Wf() && |rows| == n + 1 && !isAlternative
        invariant Value() == wide.(edges := wide.edges + EdgesFrom(others, EPSILON, n))
        invariant forall q: nat :: q in others <==> q < i && q !in finals
      {
        if i !in finals {
          ConnectPlainly(i, n);
          SourceAdded(wide.edges, others, i, EPSILON, n);
          others := others + {i};
        }
      }
      finals := {n};
      determined := false;
      ComplementedValue(minimal, others, Value());
      ComplementOthers(origin, minimal, d);
    }

    /** &= : the intersection, by De Morgan. Each of three complements can fail: of this machine, which then keeps its
        language; of `rhs`, when this machine is complemented already; and of the union of both complements, which
        accepts all words that are not in the intersection. */
    method Intersect(rhs: Fsm) returns (ok: bool, ghost union: Nfa)
      requires Valid() && rhs.Valid()
      modifies this
      ensures Valid()
      ensures ok ==> old(Determinable(0)) && old(rhs.Determinable(0))
      ensures ok ==> AcceptsBoth(Value(), old(Value()), old(rhs.Value()))
      ensures !old(Determinable(0)) ==> !ok && SameLanguage(Value(), old(Value()))
      ensures old(Determinable(0)) && !old(rhs.Determinable(0)) ==> !ok && AcceptsOthers(Value(), old(Value()))
      ensures old(Determinable(0)) && old(rhs.Determinable(0)) ==>
        AcceptsNotBoth(union, old(Value()), old(rhs.Value())) && (ok <==> !VisitsMore(EpsilonFree(union), 200001))
      ensures !ok && old(Determinable(0)) && old(rhs.Determinable(0)) ==> Value() == EpsilonFree(union)
      ensures !ok && old(Determinable(0)) && old(rhs.Determinable(0)) ==>
        AcceptsNotBoth(Value(), old(Value()), old(rhs.Value()))
    {
      hide Within, OverLetters, EdgesOf, Coherent, IsDfa, IsUnion, AcceptsBoth, AcceptsEither, AcceptsOthers,
          SameLanguage;
      hide AcceptsNotBoth, VisitsMore, EpsilonFree, Nfa.Valid;
      ghost var a, b := Value(), rhs.Value();
      union := a;
      rhs.ValueIsValid();
      ValueIsValid();
      var rhs2 := new Fsm.CopyOf(rhs);
      ok := Complement();
      if !ok { return; }
      ok := rhs2.Complement();
      if !ok { return; }
      ghost var a', b' := Value(), rhs2.Value();
      Alternate(rhs2);
      union := Value();
      SameLanguageSelf(union);
      NotBoth(a, b, a', b', union, union);
      ok := Complement();
      if !ok {
        NotBoth(a, b, a', b', union, Value());
        return;
      }
      DeMorgan(a, b, a', b', union, Value());
    }

    constructor CopyOf(rhs: Fsm)
      requires rhs.Valid()
      ensures Valid() && Value() == rhs.Value() && determined == rhs.determined && isAlternative == rhs.isAlternative
    {
      rows, initial, finals, letters := rhs.rows, rhs.initial, rhs.finals, rhs.letters;
      sparsed, determined, isAlternative := rhs.sparsed, rhs.determined, rhs.isAlternative;
      new;
      hide *;
      assert Wf() <==> rhs.Wf();
      assert IsDfa() <==> rhs.IsDfa();
    }

    /** `count` times this machine, unless it accepts the empty word only for being at its initial state. */
    method Repeat(count: nat) returns (ret: Fsm)
      requires Valid()
      ensures fresh(ret) && ret.Valid()
      ensures AcceptsPower(ret.Value(), Value(), count) <==> count == 0 || AppendsWhole(Value())
    {
      hide Within, OverLetters, EdgesOf, Coherent, IsDfa, IsUnion, AcceptsProduct, AcceptsPower, Concatenated,
          Accepts, AcceptsMoving;
      ValueIsValid();
      ret := new Fsm();
      FreshPower(Value());
      var rest: nat := count;
      while rest > 0
        invariant rest <= count && fresh(ret) && ret.Valid()
        invariant rest == count || AppendsWhole(Value()) ==> AcceptsPower(ret.Value(), Value(), count - rest)
        invariant rest < count && !AppendsWhole(Value()) ==> !Accepts(ret.Value(), [])
      {
        ghost var before := ret.Value();
        ret.ValueIsValid();
        rest := rest - 1;
        ret.Concatenate(this);
        if AppendsWhole(Value()) {
          OneMorePower(before, ret.Value(), Value(), count - rest - 1);
        } else {
          AppendedNeverEmpty(before, Value());
        }
      }
      if count > 0 && !AppendsWhole(Value()) { PowerIsLost(ret.Value(), Value(), count); }
    }

    // ---- surrounding ----

    /** A new state that loops on every index below MAX_CHAR. */
    method AddAnything() returns (newstate: nat)
      requires Wf()
      modifies this`rows, this`isAlternative
      ensures Wf() && newstate == |old(rows)| && !isAlternative
      ensures Value() == old(Value()).(size := newstate + 1, edges := old(Value()).edges + AllLoops(newstate))
    {
      hide Within, Coherent, OverLetters, EdgesOf, AllLoops, Looping;
      ghost var before := rows;
      newstate := Resize(|rows| + 1);
      LoopingStarts(before);
      isAlternative := false;
      for letter: nat := 0 to MAX_CHAR
        invariant Looping(before, rows, letter) && SameRows(before, rows) && |rows| == |before| + 1 && !isAlternative
        invariant forall c | c in rows[|before|] :: c < letter
      {
        LoopsOnce(before, rows, letter);
        Connect(newstate, newstate, letter);
      }
      LoopingEdges(before, rows, letters);
    }

    method PrependAnything()
      requires Valid()
      modifies this
      ensures Valid() && !determined && !isAlternative && Value() == Prepended(old(Value()))
    {
      hide Within, OverLetters, EdgesOf, Coherent, IsDfa, IsUnion, AllLoops;
      var newstate := AddAnything();
      ConnectPlainly(newstate, initial);
      initial := newstate;
      determined := false;
    }

    method AppendAnything()
      requires Valid()
      modifies this
      ensures Valid() && !determined && !isAlternative && Value() == Extended(old(Value()))
    {
      hide Within, OverLetters, EdgesOf, Coherent, IsDfa, IsUnion, AllLoops, EdgesFrom;
      var newstate := AddAnything();
      ConnectFinal(newstate);
      finals := {newstate};
      determined := false;
    }

    /** From now on accepts every word with a part that was accepted. */
    method Surround()
      requires Valid()
      modifies this
      ensures Valid() && !determined && !isAlternative && AcceptsFactors(Value(), old(Value()))
      ensures Value() == Extended(Prepended(old(Value())))
    {
      hide Within, OverLetters, EdgesOf, Coherent, IsDfa, IsUnion, AcceptsFactors, Extended, Prepended;
      ghost var a := Value();
      ValueIsValid();
      PrependAnything();
      AppendAnything();
      SurroundedFactors(a);
    }

    // ---- dead ends ----

    /** The states that no path from the initial to a final state passes through. */
    method DeadStates() returns (res: set<nat>)
      requires Wf()
      ensures forall p: nat :: p in res <==> IsDead(Value(), p)
    {
      hide Within, OverLetters, EdgesOf, Coherent, IsDigraph, Outlines, MarksSpread, ClosedUnder, IsReached, CanEnd;
      ghost var a := Value();
      ValueIsValid();
      res := {};
      for invert := 0 to 2
        invariant forall p: nat :: p in res <==>
            p < a.size && ((invert > 0 && !IsReached(a, p)) || (invert > 1 && !CanEnd(a, p)))
      {
        var digraph := Digraph(rows, invert == 1);
        DigraphOutlines(rows, letters, initial, finals, invert == 1, digraph);
        var useless;
        if invert == 0 {
          ReachedAreClosed(a, digraph);
          useless := MarkUseful(digraph, {initial}, ReachedStates(a));
        } else {
          EndingAreClosed(a, digraph);
          useless := MarkUseful(digraph, finals, EndingStates(a));
        }
        SameCount(a, invert == 1, digraph, useless);
        forall p: nat | p < a.size ensures useless[p] <==> if invert == 0 then !IsReached(a, p) else !CanEnd(a, p) {
          if invert == 0 { ForwardMarks(a, digraph, useless, p); } else { BackwardMarks(a, digraph, useless, p); }
        }
        res := res + set i: nat | i < |rows| && useless[i];
      }
    }

    /** Clears the rows of the given states and erases them from all others. */
    method EraseStates(dead: set<nat>)
      requires forall d: nat | d in dead :: d < |rows|
      modifies this`rows
      ensures |rows| == |old(rows)| && WithoutStates(old(rows), rows, dead) && (dead == {} ==> rows == old(rows))
    {
      hide WithoutStates;
      ghost var before := rows;
      var rest := dead;
      NoneRemoved(rows);
      assert dead - rest == {};
      while rest != {}
        invariant rest <= dead && |rows| == |before| && WithoutStates(before, rows, dead - rest) &&
            (dead == {} ==> rows == before)
        decreases |rest|
      {
        var d: nat := Ordered.Least(rest);
        var out := RemoveState(rows, d);
        OneMoreRemoved(before, rows, out, dead - rest, d);
        assert dead - rest + {d} == dead - (rest - {d});
        rows := out;
        rest := rest - {d};
      }
      assert dead - rest == dead;
    }

    /** Keeps the language. The mark of a determined machine stays, and is wrong afterwards exactly if any state was
        dead, which is to say, if some word cannot be continued to an accepted one. */
    method RemoveDeadEnds()
      requires Wf()
      modifies this`rows, this`isAlternative
      ensures Wf() && !isAlternative && |rows| == |old(rows)|
      ensures Value() == WithoutDead(old(Value())) && SameLanguage(old(Value()), Value())
      ensures old(IsDfa()) ==> (IsDfa() <==> forall p: nat :: !IsDead(old(Value()), p))
      ensures old(IsDfa()) ==> (IsDfa() <==> EveryWordExtends(old(Value())))
      ensures forall p: nat | p < |rows| :: rows[p] != map[] <==> !IsDead(old(Value()), p) && old(rows)[p] != map[]
    {
      hide Within, OverLetters, EdgesOf, Coherent, IsDead, SameLanguage, WithoutStates, Total, Functional, AllReached;
      hide EveryWordExtends;
      if IsDfa() { DeadStatesStopWords(this); }
      ghost var a, before := Value(), rows;
      ValueIsValid();
      var dead := DeadStates();
      DeadAreStates(a);
      EraseStates(dead);
      isAlternative := false;
      ClearedEdges(before, rows, letters, dead);
      RemovedValue(a, Value().edges, dead);
      WithoutDeadLanguage(a);
      RemovedRows(before, rows, dead);
      if d: nat :| IsDead(a, d) {
        assert d in dead && rows[d] == map[];
        BareIsIncomplete(rows, letters, d);
      } else {
        assert dead == {};
      }
    }

    /** From now on accepts exactly the prefixes of the words accepted. The mark of a determined machine may be left
        wrong, as by RemoveDeadEnds. */
    method MakePrefix()
      requires Wf()
      modifies this`rows, this`finals, this`isAlternative
      ensures Wf() && !isAlternative && AcceptsPrefixes(Value(), old(Value()))
      ensures old(IsDfa()) ==> (IsDfa() <==> EveryWordExtends(old(Value())))
    {
      hide Within, OverLetters, EdgesOf, Coherent, IsDead, SameLanguage, WithoutDead, AcceptsPrefixes,
          EveryWordExtends, AllReached;
      hide Total, Functional, TargetOf;
      ghost var a, before, ends := Value(), rows, finals;
      ValueIsValid();
      RemoveDeadEnds();
      WithoutDeadShape(a);
      ghost var cleared := rows;
      for i: nat := 0 to |rows|
        invariant rows == cleared
        invariant forall q: nat :: q in finals <==> q in ends || (q < i && rows[q] != map[])
      {
        if rows[i] != map[] {
          finals := finals + {i};
        }
      }
      forall p: nat | p < a.size && !IsDead(a, p) ensures p in finals {
        if before[p] == map[] { BareIsFinal(a, before, letters.inv, p); }
      }
      isAlternative := false;
      if AllReached(MachineOf(rows, letters.inv, initial, ends)) {
        ReachedWhateverFinals(rows, letters.inv, initial, ends, finals);
      }
      if AllReached(Machine()) { ReachedWhateverFinals(rows, letters.inv, initial, finals, ends); }
      PrefixesOf(a, Value());
    }

    // ---- appending letters and strings to a machine whose letters are not classed ----

    /** Append(char) and AppendSpecial. */
    method AppendSpecial(c: nat)
      requires Valid() && c < MAX_CHAR && (c == EPSILON || c !in letters.inv)
      modifies this
      ensures Valid() && !determined && !isAlternative && letters == old(letters)
      ensures AcceptsThen(Value(), old(Value()), iset{Read(c)}) && |rows| == |old(rows)| + 1
    {
      hide Within, OverLetters, EdgesOf, Coherent, IsDfa, IsUnion, AcceptsThen, Attached, Attaching, EdgesFrom,
          LetterSteps;
      ghost var a := Value();
      ValueIsValid();
      var end := Resize(|rows| + 1);
      AttachingStarts(a, end + 1);
      ConnectFinal(end, c);
      AttachingStep(a, end + 1, {}, {}, c, end);
      finals := {end};
      determined := false;
      AttachingShape(a, end + 1, {} + {Step(c, end)}, {});
      OneLetterStep(c, end);
      ghost var none: set<nat> := {};
      assert none + {c} == {c} && LetterSteps({c}, end) == {} + {Step(c, end)};
      LettersThen(a, {c});
      OneLetterThen(Value(), a, c);
    }

    /** Appends any one byte. */
    method AppendDot()
      requires Valid() && letters.inv == map[]
      modifies this
      ensures Valid() && !determined && !isAlternative && letters == old(letters)
      ensures AcceptsThen(Value(), old(Value()), iset v: Word | |v| == 1 && v[0] < 256)
    {
      hide Within, OverLetters, EdgesOf, Coherent, IsDfa, IsUnion, AcceptsThen, Attached, Attaching, EdgesFrom,
          LetterSteps, LetterWords;
      ghost var a := Value();
      ValueIsValid();
      var end := Resize(|rows| + 1);
      AttachingStarts(a, end + 1);
      OneLetterStep(0, end);
      ghost var cs: set<nat> := {};
      for letter: nat := 0 to BYTE_COUNT
        invariant Wf() && |rows| == end + 1 && letters == old(letters) && (letter > 0 ==> !isAlternative)
        invariant Value() == Attaching(a, end + 1, LetterSteps(cs, end), {})
        invariant forall b: nat :: b in cs <==> b < letter
      {
        AttachingShape(a, end + 1, LetterSteps(cs, end), {});
        ConnectFinal(end, letter);
        AttachingStep(a, end + 1, LetterSteps(cs, end), {}, letter, end);
        OneLetterStep(letter, end);
        cs := cs + {letter};
      }
      finals := {end};
      determined := false;
      AttachingShape(a, end + 1, LetterSteps(cs, end), {});
      LettersThen(a, cs);
      ByteWords(cs);
    }

    method AppendString(str: Word)
      requires Valid() && letters.inv == map[] && forall c | c in str :: c < BYTE_COUNT
      modifies this
      ensures Valid() && letters == old(letters)
      ensures AcceptsThen(Value(), old(Value()), iset{str})
    {
      hide Within, OverLetters, EdgesOf, Coherent, IsDfa, IsUnion, AcceptsThen;
      ghost var a := Value();
      NothingThen(a);
      assert str[..0] == [];
      for i: nat := 0 to |str|
        invariant Valid() && letters == old(letters) && AcceptsThen(Value(), a, iset{str[..i]})
      {
        ghost var before := Value();
        assert str[i] in str;
        AppendSpecial(str[i]);
        OneLetterMore(Value(), before, a, str[..i], str[i]);
        assert str[..i + 1] == str[..i] + Read(str[i]);
      }
      assert str[..|str|] == str;
    }

    /** Appends exactly the given strings, sharing their beginnings; an empty one is the error that the library
        throws. */
    method AppendStrings(strings: seq<Word>) returns (ok: bool)
      requires Valid() && letters.inv == map[]
      requires forall i: nat, c | i < |strings| && c in strings[i] :: c < BYTE_COUNT
      modifies this
      ensures Valid() && letters == old(letters)
      ensures ok <==> forall i: nat | i < |strings| :: strings[i] != []
      ensures !ok ==> unchanged(this)
      ensures ok ==> AcceptsThen(Value(), old(Value()), iset s | s in strings)
    {
      hide Within, OverLetters, EdgesOf, Coherent, AcceptsThen, Attached, Attaching, Building;
      for i: nat := 0 to |strings|
        invariant forall j: nat | j < i :: strings[j] != []
        invariant unchanged(this)
      {
        if strings[i] == [] {
          return false;
        }
      }
      ghost var a := Value();
      ValueIsValid();
      NotDetermined();
      var end := Resize(|rows| + 1);
      AttachingStarts(a, end + 1);
      EmptyTrie(end);
      var startLtr: map<nat, nat>, ltr: map<Jump, nat> := map[], map[];
      ghost var t, done := NO_TRIE, iset{};
      for i: nat := 0 to |strings|
        invariant Wf() && letters == old(letters) && initial == a.initial && finals == a.finals && end < |rows|
        invariant !determined && (isAlternative ==> old(isAlternative) && Value() == a.(size := |rows|))
        invariant Value() == Attaching(a, |rows|, t.first, t.rest) && Building(t, end, |rows|, startLtr, ltr, done)
        invariant forall s :: s in done <==> s in strings[..i]
      {
        startLtr, ltr, t := AppendTrieString(strings[i], end, startLtr, ltr, a, t, done);
        done := done + iset{strings[i]};
        assert strings[..i + 1] == strings[..i] + [strings[i]];
      }
      assert strings[..|strings|] == strings && done == iset s | s in strings;
      finals := {end};
      AttachingShape(a, |rows|, t.first, t.rest);
      TrieThen(a, |rows|, t, startLtr, ltr, done);
      ok := true;
    }

    /** A machine without letter classes is not determined. */
    lemma NotDetermined()
      requires Valid() && letters.inv == map[]
      ensures !determined
    {
      assert 0 !in letters.inv && IsLetter(0);
    }

    method AppendTrieString(str: Word, end: nat, starts: map<nat, nat>, jumps: map<Jump, nat>, ghost a: Nfa,
        ghost before: Trie, ghost done: iset<Word>)
      returns (startLtr: map<nat, nat>, ltr: map<Jump, nat>, ghost t: Trie)
      requires Wf() && letters.inv == map[] && str != [] && (forall c | c in str :: c < BYTE_COUNT)
      requires finals == a.finals && end < |rows|
      requires Value() == Attaching(a, |rows|, before.first, before.rest) &&
          Building(before, end, |rows|, starts, jumps, done)
      modifies this`rows, this`isAlternative, this`determined
      ensures Wf() && |rows| >= |old(rows)| && !isAlternative && !determined
      ensures Value() == Attaching(a, |rows|, t.first, t.rest) &&
          Building(t, end, |rows|, startLtr, ltr, done + iset{str})
    {
      hide Within, OverLetters, EdgesOf, Coherent, Attaching, Building, AcceptsStepping;
      startLtr, ltr, t := starts, jumps, before;
      assert str[0] in str && str[|str| - 1] in str;
      if |str| > 1 {
        var state;
        startLtr, state, t := FirstJump(str[0], end, startLtr, ltr, a, t, done);
        assert str[..1] == [str[0]];
        for k: nat := 1 to |str| - 1
          invariant Wf() && |rows| >= |old(rows)|
          invariant Value() == Attaching(a, |rows|, t.first, t.rest) && Building(t, end, |rows|, startLtr, ltr, done)
          invariant state in t.labels && t.labels[state] == str[..k] &&
              AcceptsStepping(t.first, t.rest, {state}, str[..k])
        {
          assert str[k] in str && str[..k + 1] == str[..k] + [str[k]];
          ltr, state, t := NextJump(state, str[k], end, startLtr, ltr, a, t, done);
        }
        var last := str[|str| - 1];
        assert str == str[..|str| - 1] + [last];
        NodeWithin(t, end, |rows|, startLtr, ltr, done, state);
        ghost var u := LastAdded(t, end, |rows|, startLtr, ltr, done, state, last);
        ConnectPlainly(state, end, last);
        AttachingEdge(a, |rows|, t.first, t.rest, Edge(state, last, end));
        t := u;
      } else {
        assert str == [str[0]];
        ghost var u := OnlyAdded(t, end, |rows|, startLtr, ltr, done, str[0]);
        ConnectFinal(end, str[0]);
        AttachingStep(a, |rows|, t.first, t.rest, str[0], end);
        t := u;
      }
      // The records of used transitions are never filled, so any string takes the mark away.
      determined := false;
    }

    /** The node of the first letter of a longer string, created on first use. */
    method FirstJump(c: nat, end: nat, starts: map<nat, nat>, ltr: map<Jump, nat>, ghost a: Nfa, ghost before: Trie,
        ghost done: iset<Word>)
      returns (startLtr: map<nat, nat>, state: nat, ghost t: Trie)
      requires Wf() && letters.inv == map[] && finals == a.finals && c < BYTE_COUNT
      requires Value() == Attaching(a, |rows|, before.first, before.rest) &&
          Building(before, end, |rows|, starts, ltr, done)
      modifies this`rows, this`isAlternative
      ensures Wf() && |rows| >= |old(rows)|
      ensures Value() == Attaching(a, |rows|, t.first, t.rest) && Building(t, end, |rows|, startLtr, ltr, done)
      ensures state in t.labels && t.labels[state] == [c] && AcceptsStepping(t.first, t.rest, {state}, [c])
    {
      hide Within, OverLetters, EdgesOf, Coherent, Attaching, IsTrie, ReadsAll, NodesWithin, AcceptsStepping;
      startLtr, t := starts, before;
      if c !in startLtr {
        t := FirstAdded(before, end, |rows|, startLtr, ltr, done, c);
        AttachingShape(a, |rows|, before.first, before.rest);
        var node := Resize(|rows| + 1);
        ConnectFinal(node, c);
        AttachingStep(a, |rows|, before.first, before.rest, c, node);
        startLtr := startLtr[c := node];
      }
      state := startLtr[c];
      SteppingStarts(t.first, t.rest, c, state);
    }

    /** The node one letter further, created on first use. */
    method NextJump(p: nat, c: nat, end: nat, startLtr: map<nat, nat>, jumps: map<Jump, nat>, ghost a: Nfa,
        ghost before: Trie, ghost done: iset<Word>)
      returns (ltr: map<Jump, nat>, state: nat, ghost t: Trie)
      requires Wf() && letters.inv == map[] && finals == a.finals && c < BYTE_COUNT
      requires Value() == Attaching(a, |rows|, before.first, before.rest) &&
          Building(before, end, |rows|, startLtr, jumps, done)
      requires p in before.labels && AcceptsStepping(before.first, before.rest, {p}, before.labels[p])
      modifies this`rows, this`isAlternative
      ensures Wf() && |rows| >= |old(rows)|
      ensures Value() == Attaching(a, |rows|, t.first, t.rest) && Building(t, end, |rows|, startLtr, ltr, done)
      ensures state in t.labels && t.labels[state] == before.labels[p] + [c] &&
          AcceptsStepping(t.first, t.rest, {state}, before.labels[p] + [c])
    {
      hide Within, OverLetters, EdgesOf, Coherent, Attaching, IsTrie, ReadsAll, NodesWithin, AcceptsStepping;
      ltr, t := jumps, before;
      if Jump(p, c) !in ltr {
        NodeWithin(before, end, |rows|, startLtr, ltr, done, p);
        t := InnerAdded(before, end, |rows|, startLtr, ltr, done, p, c);
        AttachingShape(a, |rows|, before.first, before.rest);
        var node := Resize(|rows| + 1);
        ConnectPlainly(p, node, c);
        AttachingEdge(a, |rows|, before.first, before.rest, Edge(p, c, node));
        ltr := ltr[Jump(p, c) := node];
      }
      state := ltr[Jump(p, c)];
      SteppingGrows(before.first, before.rest, t.first, t.rest, {p}, before.labels[p]);
      SteppingContinues(t.first, t.rest, before.labels[p], Edge(p, c, state));
    }
  }

  /** Classes all letters of the alphabet, in ascending order. */
  method ClassAll<K(==)>(key: map<nat, K>) returns (c: Classes)
    ensures OverLetters(c) && Total(c.inv) && c.Separates(key)
  {
    hide Classes.Valid;
    hide Classes.Separates;
    hide Put, Belongs, AlphabetBelow, LeastStands;
    var classes := new Partition<K>(key);
    AlphabetGrows(0);
    NoneStands(classes.inv);
    for letter: nat := 0 to MAX_CHAR
      invariant fresh(classes) && classes.Valid() && classes.key == key
      invariant forall x: nat :: x in classes.inv <==> x in AlphabetBelow(letter)
      invariant LeastStands(classes.inv)
    {
      AlphabetGrows(letter);
      if letter != EPSILON {
        ghost var before := classes.Contents();
        classes.Append(letter);
        PutItems(before, letter, classes.inv[letter], |before.table|);
        LeastStaysFirst(before, key, letter, classes.inv[letter], |before.table|);
      }
    }
    c := classes.Contents();
    AlphabetGrows(MAX_CHAR);
  }

  function AlphabetBelow(n: nat): set<nat> {
    set x: nat | x < n && IsLetter(x)
  }

  lemma NoneStands(inv: map<nat, nat>)
    requires inv == map[]
    ensures LeastStands(inv)
  {
  }

  /** Appending letters in ascending order keeps the least one of a class its representative. */
  lemma LeastStaysFirst<K>(c: Classes, key: map<nat, K>, letter: nat, k: nat, index: nat)
    requires c.Valid() && LeastStands(c.inv) && Belongs(key, c.table, letter, k)
    requires forall x: nat :: x in c.inv <==> x in AlphabetBelow(letter)
    ensures LeastStands(Put(c, letter, k, index).inv)
  {
    if k in c.table { KeyIsItem(c, k); }
  }

  lemma AlphabetGrows(n: nat)
    ensures AlphabetBelow(0) == {}
    ensures n < MAX_CHAR ==> AlphabetBelow(n + 1) == if n == EPSILON then AlphabetBelow(n) else AlphabetBelow(n) + {n}
    ensures forall x: nat :: x in AlphabetBelow(MAX_CHAR) <==> IsLetter(x)
  {
  }


  method ExpandRow(row: Row, k: nat, items: seq<nat>) returns (r: Row)
    ensures r.Keys <= row.Keys + set x | x in items
    ensures forall c: nat :: Entry(r, c) == Entry(row, if c in items then k else c)
  {
    r := row;
    for i: nat := 0 to |items|
      invariant r.Keys <= row.Keys + set x | x in items
      invariant forall c: nat :: Entry(r, c) == Entry(row, if c in items[..i] then k else c)
    {
      assert items[..i + 1] == items[..i] + [items[i]];
      r := r[items[i] := Entry(r, k)];
    }
    assert items[..|items|] == items;
  }

  lemma RowExpanded(before: Rows, after: Rows, p: nat, row: Row, k: nat, items: seq<nat>)
    requires p < |before| && after == before[p := row] && Within(before) && forall x | x in items :: x < MAX_CHAR
    requires row.Keys <= before[p].Keys + set x | x in items
    requires forall c: nat :: Entry(row, c) == Entry(before[p], if c in items then k else c)
    ensures Within(after)
    ensures forall p': nat, c: nat :: Dest(after, p', c) == Dest(before, p', if p' == p && c in items then k else c)
  {
    forall p': nat, c: nat ensures Dest(after, p', c) == Dest(before, p', if p' == p && c in items then k else c) {
      if p' == p { assert Dest(after, p, c) == Entry(row, c); }
    }
    forall p': nat, c: nat, q: nat | Linked(after, p', c, q) ensures q < |after| {
      assert Linked(before, p', if p' == p && c in items then k else c, q);
    }
  }

  lemma ClassItemsAreLetters(c: Classes, k: nat)
    requires OverLetters(c) && k in c.table
    ensures forall x | x in c.table[k].items :: x < MAX_CHAR
  {
    forall x | x in c.table[k].items ensures x < MAX_CHAR {
      assert Has(c.table, k, x);
    }
  }

  lemma ExpandedOneMore(table: Rows, before: Rows, after: Rows, c: Classes, k: nat, rest: set<nat>)
    requires c.Consistent() && k in c.table && k in c.inv && c.inv[k] == k && k in rest
    requires forall p: nat, x: nat ::
      Dest(before, p, x) == Dest(table, p, if x in c.inv && c.inv[x] !in rest then c.inv[x] else x)
    requires forall p: nat, x: nat :: Dest(after, p, x) == Dest(before, p, if x in c.table[k].items then k else x)
    ensures forall p: nat, x: nat ::
      Dest(after, p, x) == Dest(table, p, if x in c.inv && c.inv[x] !in rest - {k} then c.inv[x] else x)
  {
    hide Dest;
    forall p: nat, x: nat
      ensures Dest(after, p, x) == Dest(table, p, if x in c.inv && c.inv[x] !in rest - {k} then c.inv[x] else x)
    {
      assert Has(c.table, k, x) <==> x in c.inv && c.inv[x] == k;
    }
  }

  function Limit(maxsize: nat): nat {
    if maxsize != 0 then maxsize else Fsm.MAX_SIZE
  }

  predicate LoopsOnAll(rows: Rows, keys: set<nat>, t: nat) {
    forall k: nat | k in keys :: Linked(rows, t, k, t)
  }

  /** No row has an entry without a target. */
  ghost predicate Entered(rows: Rows) {
    forall i: nat, c: nat | i < |rows| && c in rows[i] :: HasLink(rows, i, c)
  }

  ghost predicate LoopsBelow(rows: Rows, states: seq<set<nat>>, terminals: set<nat>, keys: set<nat>, ns: nat) {
    && |rows| == |states| && Entered(rows)
    && forall i: nat, c: nat, j: nat :: Linked(rows, i, c, j) <==> i < ns && LoopsAt(states, terminals, keys, i, c, j)
  }

  lemma LoopsAreFilled(rows: Rows, states: seq<set<nat>>, terminals: set<nat>, keys: set<nat>)
    requires LoopsBelow(rows, states, terminals, keys, |states|)
    ensures FilledUpTo(rows, states, terminals, keys, [], 0)
  {
  }

  lemma FilledStart(rows: Rows, states: seq<set<nat>>, terminals: set<nat>, keys: set<nat>, calls: seq<Call>)
    requires FilledUpTo(rows, states, terminals, keys, [], 0)
    ensures FilledUpTo(rows, states, terminals, keys, calls, 0)
  {
  }

  lemma ClassesAreValid(letters: Classes)
    requires OverLetters(letters)
    ensures letters.Valid()
  {
  }

  lemma CallsHaveSources(task: Task<set<nat>>, keys: set<nat>, states: seq<set<nat>>, calls: seq<Call>)
    requires Connects(task, keys, states, calls)
    ensures forall m: nat | m < |calls| :: calls[m].from < |states|
  {
    forall m: nat | m < |calls| ensures calls[m].from < |states| {
      assert RightCall(task, keys, states, calls[m]);
    }
  }

  /** The table filled from a successful exploration is a deterministic machine for the same language. */
  lemma SubsetsDetermine(rows: Rows, letters: Classes, initial: nat, finals: set<nat>, terminals: set<nat>,
                         states: seq<set<nat>>, calls: seq<Call>, out: Rows, ends: set<nat>)
    requires OverLetters(letters) && Total(letters.inv) && Within(rows) && initial < |rows| &&
        forall q | q in finals :: q < |rows|
    requires IsEpsilonFree(EdgesOf(rows, letters.inv)) && IsTerminals(rows, letters, finals, terminals)
    requires Complete(SubsetTask(rows, letters.inv, initial, terminals), letters.table.Keys, states)
    requires Connects(SubsetTask(rows, letters.inv, initial, terminals), letters.table.Keys, states, calls)
    requires FilledUpTo(out, states, terminals, letters.table.Keys, calls, |calls|)
    requires forall i: nat :: i in ends <==> i < |states| && states[i] * finals != {}
    ensures |out| == |states| > 0 && Within(out) && Coherent(out, letters.inv) && Functional(out, letters.table.Keys)
    ensures AllReached(MachineOf(out, letters.inv, 0, ends))
    ensures SameLanguage(Nfa(|rows|, EdgesOf(rows, letters.inv), initial, finals),
        Nfa(|out|, EdgesOf(out, letters.inv), 0, ends))
  {
    var a := Nfa(|rows|, EdgesOf(rows, letters.inv), initial, finals);
    var b, d := Nfa(|out|, EdgesOf(out, letters.inv), 0, ends), MachineOf(out, letters.inv, 0, ends);
    EdgesWithinRows(rows, letters.inv);
    FilledIsFunctional(rows, letters, initial, terminals, states, calls, out);
    KeysOnlyIsCoherent(out, letters);
    SubsetStatesReached(rows, letters, initial, terminals, states, out, ends);
    SubsetTableIsSubsetDfa(rows, letters, initial, finals, terminals, states, out, ends);
    TerminalsAreTerminal(rows, letters, initial, finals, terminals);
    MachineIsValid(out, letters, 0, ends);
    TableRepresents(out, letters, 0, ends);
    RepresentsValid(b, d);
    forall w | IsWord(w) ensures Accepts(a, w) <==> Accepts(b, w) {
      SubsetLanguage(a, terminals, states, d, w);
      RepresentedLanguage(b, d, w);
    }
    SameOnWords(a, b);
  }

  lemma KeysOnlyIsCoherent(out: Rows, letters: Classes)
    requires OverLetters(letters) && Functional(out, letters.table.Keys)
    requires forall i: nat, c: nat, j: nat | Linked(out, i, c, j) :: c in letters.table
    ensures Coherent(out, letters.inv)
  {
    forall p: nat, c: nat | p < |out| && c in letters.inv && c in out[p]
        ensures out[p][c] == Dest(out, p, letters.inv[c]) {
      assert HasLink(out, p, c);
      var j: nat :| Linked(out, p, c, j);
      KeyIsItem(letters, c);
    }
  }

  lemma BareIsIncomplete(rows: Rows, letters: Classes, d: nat)
    requires OverLetters(letters) && d < |rows| && rows[d] == map[]
    ensures Total(letters.inv) ==> !Functional(rows, letters.table.Keys)
  {
    if Total(letters.inv) {
      assert 0 in letters.inv;
      RepresentativeIsClassed(letters, 0);
      var k: nat := letters.inv[0];
      assert k in letters.table.Keys && !HasLink(rows, d, k);
    }
  }

  // ---- minimizing ----

  /** The partition of the states 0..n by key, in ascending order. */
  method InitialPartition<K(==)>(n: nat, key: map<nat, K>) returns (last: Partition<K>)
    requires n > 0
    ensures fresh(last) && last.Valid() && last.key == key && CoversStates(last.inv, n) && StartsAtZero(last.Contents())
  {
    last := new Partition<K>(key);
    for state: nat := 0 to n
      invariant fresh(last) && last.Valid() && last.key == key
      invariant CoversStates(last.inv, state)
      invariant state > 0 ==> StartsAtZero(last.Contents())
    {
      hide Classes.Valid;
      hide Classes.Separates;
      hide Put, Belongs, CoversStates, StartsAtZero;
      ghost var before := last.Contents();
      last.Append(state);
      AppendedNext(before, last.Contents(), key, state);
    }
  }

  /** Updates the map of states to representatives, and says whether it has changed. */
  method UpdateStateClassMap(scm: seq<nat>, p: Partition<seq<nat>>) returns (after: seq<nat>, changed: bool)
    requires CoversStates(p.inv, |scm|)
    ensures |after| == |scm| && IsMapOf(after, p.inv) && (changed <==> after != scm)
  {
    after, changed := scm, false;
    for st: nat := 0 to |scm|
      invariant |after| == |scm|
      invariant forall x: nat | x < st :: after[x] == p.inv[x]
      invariant forall x: nat | st <= x < |scm| :: after[x] == scm[x]
      invariant changed <==> exists x: nat :: x < st && after[x] != scm[x]
    {
      var cl := p.Contents().Representative(st);
      if after[st] != cl {
        after := after[st := cl];
        changed := true;
      }
    }
    if !changed { assert after == scm; }
  }

  /** A complete deterministic machine has no dead state exactly if every word can be continued to an accepted one. */
  lemma DeadStatesStopWords(f: Fsm)
    requires f.Wf() && f.IsDfa()
    ensures (forall p: nat :: !IsDead(f.Value(), p)) <==> EveryWordExtends(f.Value())
  {
    hide Run, Leads;
    var a, d := f.Value(), f.Machine();
    f.MachineLanguage();
    if forall p: nat :: !IsDead(a, p) {
      forall w | IsWord(w) ensures Extends(a, w) {
        RunStays(d, 0, w);
        var p := Run(d, 0, w);
        RepresentedRun(a, d, 0, w, p);
        assert !IsDead(a, p);
        var v, e :| e in a.finals && Leads(a.edges, p, v, e);
        LeadsJoin(a.edges, 0, w, p, v, e);
        assert Accepts(a, w + v);
      }
    }
    if EveryWordExtends(a) {
      f.ValueIsValid();
      forall p: nat | p < a.size ensures !IsDead(a, p) {
        assert SubsetTables.Reaches(d, p);
        var w :| IsWord(w) && Run(d, d.initial, w) == p;
        RepresentedRun(a, d, 0, w, p);
        assert Extends(a, w);
        var v :| Accepts(a, w + v);
        AcceptsOnlyWords(a, w + v);
        WordOfParts(w, v);
        RunJoin(d, 0, w, v);
        RepresentedRun(a, d, p, v, Run(d, p, v));
      }
    }
  }

  lemma WordOfParts(u: Word, v: Word)
    requires IsWord(u + v)
    ensures IsWord(u) && IsWord(v)
  {
    forall c | c in u ensures IsLetter(c) { assert c in u + v; }
    forall c | c in v ensures IsLetter(c) { assert c in u + v; }
  }

  /** A machine for one letter: canonical and marked determined, but nothing after the letter is accepted, so removing
      the dead end leaves the mark on an incomplete table. */
  method MarkOutlivesTable(c: nat) returns (f: Fsm)
    requires IsLetter(c)
    ensures fresh(f) && f.determined && !f.IsDfa() && !f.Valid()
  {
    hide IsUnion, Reduced, EveryWordExtends, VisitsMore, EpsilonFree;
    hide Fsm.IsDfa;
    f := new Fsm();
    f.AppendSpecial(c);
    ghost var a := f.Value();
    f.ValueIsValid();
    FewFit(a);
    var ok := f.Canonize();
    OneLetterStops(a, f.Value(), c);
    f.RemoveDeadEnds();
  }

  lemma OneLetterStops(a: Nfa, b: Nfa, c: nat)
    requires IsLetter(c) && AcceptsThen(a, Nfa(1, {}, 0, {0}), iset{Read(c)}) && SameLanguage(a, b)
    ensures !EveryWordExtends(b)
  {
    var two: Word := [c, c];
    assert IsWord(two);
    forall v ensures !Accepts(b, two + v) {
      assert Accepts(a, two + v) <==> InAppended(Nfa(1, {}, 0, {0}), iset{Read(c)}, two + v);
      forall u, t | two + v == u + t && t == Read(c) ensures !Accepts(Nfa(1, {}, 0, {0}), u) {
        FreshAccepts(u);
        assert |two + v| == |u| + 1;
      }
    }
    assert !Extends(b, two);
  }

  lemma FreshAccepts(u: Word)
    ensures Accepts(Nfa(1, {}, 0, {0}), u) ==> u == []
  {
    FreshPower(Nfa(1, {}, 0, {0}));
  }

  /** Canonical machines for one language are the same machine up to the names of the states. */
  lemma CanonicalFormIsUnique(f: Fsm, g: Fsm)
    requires f.Wf() && f.IsDfa() && Reduced(f.Machine())
    requires g.Wf() && g.IsDfa() && Reduced(g.Machine())
    requires SameLanguage(f.Value(), g.Value())
    ensures Isomorphism(f.Machine(), g.Machine(), Image(f.Machine(), g.Machine()))
  {
    f.MachineLanguage();
    g.MachineLanguage();
    forall w | IsWord(w) ensures AcceptsFrom(f.Machine(), 0, w) <==> AcceptsFrom(g.Machine(), 0, w) {
      assert Accepts(f.Value(), w) <==> Accepts(g.Value(), w);
    }
    ReducedIsUnique(f.Machine(), g.Machine());
  }

  /** No complete deterministic machine for the language is smaller than a canonical one. */
  lemma CanonicalFormIsSmallest(f: Fsm, d: Dfa)
    requires f.Wf() && f.IsDfa() && Reduced(f.Machine())
    requires d.Valid() && forall w | IsWord(w) :: Accepts(f.Value(), w) <==> AcceptsFrom(d, d.initial, w)
    ensures f.Size() <= d.size
  {
    f.MachineLanguage();
    ReducedIsSmallest(f.Machine(), d);
  }
}
