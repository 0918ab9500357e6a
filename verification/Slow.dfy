/** The scanner that follows a nondeterministic machine, keeping the list of states it may be in. */
module SlowScanners {
  import opened Automaton
  import opened Cells
  import opened Transitions
  import opened EpsilonRemoval
  import opened Options
  import opened Partitions
  import opened Letters
  import Ordered
  import opened RegularLanguages
  import opened Tables
  import opened Deterministic
  import opened FiniteStateMachine
  import opened Scanners
  import opened WordMasks
  import opened Runners
  import opened Matching

  // ---- states ----

  ghost function SetOf(s: seq<nat>): set<nat> {
    set q | q in s
  }

  /** The states the scanner may be in, and a mark for each that has been listed. */
  class StateList {
    var states: seq<nat>
    var flags: seq<bool>

    constructor (size: nat)
      ensures states == [] && flags == seq(size, i => false)
    {
      states := [];
      flags := seq(size, i => false);
    }

    /** Lists nothing twice, and marks what it lists. */
    ghost predicate Marked(size: nat)
      reads this
    {
      && |flags| == size && Unrepeated(states)
      && (forall q: nat | q < size :: flags[q] <==> q in states)
      && (forall q: nat | q in states :: q < size)
    }

    method Add(q: nat, ghost size: nat)
      requires Marked(size) && q < size
      modifies this
      ensures Marked(size) && SetOf(states) == SetOf(old(states)) + {q}
    {
      if !flags[q] {
        flags := flags[q := true];
        states := states + [q];
      }
    }
  }

  class SlowScanner {
    var statesCount: nat
    var lettersCount: nat
    var start: nat
    var letters: seq<nat>
    var finals: seq<bool>
    /** Are the cells kept in `jumps`, cut up by `jumpPos`, rather than in `vec`? */
    var flat: bool
    var vec: seq<seq<nat>>
    var jumpPos: seq<nat>
    var jumps: seq<nat>

    constructor ()
    {
    }

    ghost predicate Wf()
      reads this
    {
      && start < statesCount == |finals| && |letters| == MAX_CHAR &&
          (forall c: nat | c < MAX_CHAR :: letters[c] < lettersCount)
      && (if flat then CellsCut(jumpPos, jumps, CellCount(statesCount, lettersCount))
          else |vec| == CellCount(statesCount, lettersCount))
      && forall i: nat, q: nat | i < CellCount(statesCount, lettersCount) && q in Targets(i) :: q < statesCount
    }

    /** The targets in a cell, wherever they are kept. */
    function Targets(cell: nat): seq<nat>
      reads this
    {
      if flat then
        (if cell + 1 < |jumpPos| && jumpPos[cell] <= jumpPos[cell + 1] <= |jumps|
            then jumps[jumpPos[cell]..jumpPos[cell + 1]] else [])
      else
        (if cell < |vec| then vec[cell] else [])
    }

    function TargetsOf(p: nat, c: nat): seq<nat>
      requires |letters| == MAX_CHAR && c < MAX_CHAR
      reads this
    {
      Targets(Cell(p, letters[c], lettersCount))
    }

    /** The scanner's cells hold exactly the edges of a. */
    ghost predicate Follows(a: Nfa)
      reads this
    {
      && Wf() && a.size == statesCount && a.initial == start
      && (forall q: nat | q < statesCount :: finals[q] <==> q in a.finals)
      && (forall p: nat, c: nat, q: nat | p < statesCount && IsLetter(c) :: q in TargetsOf(p, c) <==>
          Edge(p, c, q) in a.edges)
    }

    method Initialize(state: StateList)
      requires Wf()
      modifies state
      ensures state.states == [start] && state.flags == seq(statesCount, i => false)
    {
      state.states := [start];
      state.flags := seq(statesCount, i => false);
    }

    /** Every state that some current state leads to, each once. */
    method Next(current: StateList, next: StateList, c: nat)
      requires Wf() && current != next && c < MAX_CHAR && forall q: nat | q in current.states :: q < statesCount
      modifies next
      ensures next.Marked(statesCount)
      ensures forall q: nat :: q in next.states <==> exists p: nat :: p in current.states && q in TargetsOf(p, c)
    {
      var l := letters[c];
      next.flags := seq(statesCount, i => false);
      next.states := [];
      for i: nat := 0 to |current.states|
        invariant next.Marked(statesCount)
        invariant forall q: nat :: q in next.states <==> exists j: nat :: j < i && q in TargetsOf(current.states[j], c)
      {
        assert current.states[i] in current.states;
        CellInRange(current.states[i], l, statesCount, lettersCount);
        AddTargets(next, Targets(Cell(current.states[i], l, lettersCount)));
      }
      forall q: nat ensures q in next.states <==> exists p: nat :: p in current.states && q in TargetsOf(p, c) {
        if j: nat :| j < |current.states| && q in TargetsOf(current.states[j], c) {
          assert current.states[j] in current.states;
        }
        if p: nat :| p in current.states && q in TargetsOf(p, c) {
          var j: nat :| j < |current.states| && current.states[j] == p;
          assert q in TargetsOf(current.states[j], c);
        }
      }
    }

    method AddTargets(next: StateList, targets: seq<nat>)
      requires next.Marked(statesCount) && forall q: nat | q in targets :: q < statesCount
      modifies next
      ensures next.Marked(statesCount)
      ensures forall q: nat :: q in next.states <==> q in old(next.states) || q in targets
    {
      for k: nat := 0 to |targets|
        invariant next.Marked(statesCount)
        invariant forall q: nat :: q in next.states <==> q in old(next.states) || q in targets[..k]
      {
        ghost var before := next.states;
        assert targets[k] in targets && targets[..k + 1] == targets[..k] + [targets[k]];
        next.Add(targets[k], statesCount);
        forall q: nat ensures q in next.states <==> q in before || q == targets[k] {
          assert q in SetOf(next.states) <==> q in SetOf(before) + {targets[k]};
        }
      }
      assert targets[..|targets|] == targets;
    }

    method Final(state: StateList) returns (b: bool)
      requires Wf() && forall q: nat | q in state.states :: q < statesCount
      ensures b <==> exists q: nat :: q in state.states && finals[q]
    {
      for i: nat := 0 to |state.states|
        invariant forall j: nat | j < i :: state.states[j] < statesCount && !finals[state.states[j]]
      {
        assert state.states[i] in state.states;
        if finals[state.states[i]] {
          return true;
        }
      }
      return false;
    }
  }

  /** The cell boundaries are in order, from nothing to all jumps. */
  ghost predicate CellsCut(jumpPos: seq<nat>, jumps: seq<nat>, cells: nat) {
    && |jumpPos| == cells + 1 && jumpPos[0] == 0 && jumpPos[cells] == |jumps|
    && forall i: nat, j: nat | i <= j < |jumpPos| :: jumpPos[i] <= jumpPos[j]
  }

  // ---- what it tracks ----

  /** The next list is the next set of the automaton. */
  lemma NextIsStep(sc: SlowScanner, a: Nfa, current: seq<nat>, next: seq<nat>, c: nat)
    requires sc.Follows(a) && a.Valid() && IsLetter(c) && forall q: nat | q in current :: q < sc.statesCount
    requires forall q: nat :: q in next <==> exists p: nat :: p in current && q in sc.TargetsOf(p, c)
    ensures SetOf(next) == Deterministic.Step(a, SetOf(current), c)
  {
    forall q: nat ensures q in SetOf(next) <==> q in Deterministic.Step(a, SetOf(current), c) {
      if p: nat :| p in current && q in sc.TargetsOf(p, c) {
        assert Edge(p, c, q) in a.edges && p in SetOf(current);
        assert StepsTo(a, SetOf(current), c, q);
      }
      if StepsTo(a, SetOf(current), c, q) {
        var p: nat :| p in SetOf(current) && Edge(p, c, q) in a.edges;
        assert p in current && q in sc.TargetsOf(p, c);
      }
    }
  }

  lemma StepAllMore(a: Nfa, s: set<nat>, w: Word, c: nat)
    ensures StepAll(a, s, w + [c]) == Deterministic.Step(a, StepAll(a, s, w), c)
    decreases |w|
  {
    hide Deterministic.Step;
    if w == [] {
      assert StepAll(a, Deterministic.Step(a, s, c), []) == Deterministic.Step(a, s, c);
      assert (w + [c])[0] == c && (w + [c])[1..] == [];
    } else {
      assert (w + [c])[0] == w[0] && (w + [c])[1..] == w[1..] + [c];
      StepAllMore(a, Deterministic.Step(a, s, w[0]), w[1..], c);
    }
  }

  /** Steps through the text with two lists that change roles. */
  method Run(sc: SlowScanner, state: StateList, words: seq<Word64>, begin: nat, end: nat, ghost a: Nfa)
    requires sc.Follows(a) && a.Valid() && begin <= end <= WORD_BYTES * |words| &&
        forall q: nat | q in state.states :: q < sc.statesCount
    modifies state
    ensures SetOf(state.states) == StepAll(a, old(SetOf(state.states)), Text(words, begin, end))
    ensures forall q: nat | q in state.states :: q < sc.statesCount
    ensures begin < end ==> Unrepeated(state.states)
  {
    hide Deterministic.Step, StepAll, Text, SetOf, ByteAt;
    hide SlowScanner.Follows;
    FollowsIsWf(sc, a);
    ghost var origin := SetOf(state.states);
    var temp := new StateList(sc.statesCount);
    sc.Initialize(temp);
    var src, dest := state, temp;
    TextGrows(words, begin, begin);
    StepAllNothing(a, origin);
    for at: nat := begin to end
      invariant (src == state && dest == temp) || (src == temp && dest == state)
      invariant forall q: nat | q in src.states :: q < sc.statesCount
      invariant SetOf(src.states) == StepAll(a, origin, Text(words, begin, at)) &&
          (begin < at ==> Unrepeated(src.states))
    {
      ByteAtIsByte(words, at);
      ghost var current := src.states;
      sc.Next(src, dest, ByteAt(words, at));
      NextIsStep(sc, a, current, dest.states, ByteAt(words, at));
      TextGrows(words, begin, at);
      StepAllMore(a, origin, Text(words, begin, at), ByteAt(words, at));
      src, dest := dest, src;
    }
    if src != state {
      state.states, state.flags := src.states, src.flags;
    }
  }

  lemma FollowsIsWf(sc: SlowScanner, a: Nfa)
    requires sc.Follows(a)
    ensures sc.Wf()
  {
  }

  lemma StepAllNothing(a: Nfa, s: set<nat>)
    ensures StepAll(a, s, []) == s
  {
  }

  lemma {:induction false} TextGrows(words: seq<Word64>, begin: nat, at: nat)
    requires begin <= at <= WORD_BYTES * |words|
    ensures Text(words, begin, begin) == []
    ensures at < WORD_BYTES * |words| ==> Text(words, begin, at + 1) == Text(words, begin, at) + [ByteAt(words, at)]
    decreases (at - begin) as int
  {
    hide ByteAt;
    if begin < at {
      TextGrows(words, begin + 1, at);
    } else if at < WORD_BYTES * |words| {
      assert Text(words, at + 1, at + 1) == [];
    }
  }

  /** After any word, the states listed are those reached, so the list has a final one if and only if the word is
      accepted. */
  lemma ReachedFinal(sc: SlowScanner, a: Nfa, w: Word, states: seq<nat>)
    requires sc.Follows(a) && a.Valid() && IsEpsilonFree(a.edges) && IsWord(w)
    requires SetOf(states) == StepAll(a, {a.initial}, w) && forall q: nat | q in states :: q < sc.statesCount
    ensures forall q: nat :: q in states <==> Leads(a.edges, a.initial, w, q)
    ensures (exists q: nat :: q in states && sc.finals[q]) <==> Accepts(a, w)
  {
    forall q: nat ensures q in states <==> Leads(a.edges, a.initial, w, q) {
      StepAllLeads(a, {a.initial}, w, q);
      assert q in states <==> q in SetOf(states);
    }
    if q: nat :| q in states && sc.finals[q] {
      assert q in a.finals && Leads(a.edges, a.initial, w, q);
    }
    if Accepts(a, w) {
      var f :| f in a.finals && Leads(a.edges, a.initial, w, f);
      assert f in states && sc.finals[f];
    }
  }

  // ---- compiling ----

  /** Classing the letters again changes nothing. */
  lemma ReclassedEdges(rows: Rows, before: map<nat, nat>, after: map<nat, nat>)
    requires Classed(rows, before) && Classed(rows, after)
    ensures EdgesOf(rows, before) == EdgesOf(rows, after) && Coherent(rows, after)
  {
    ClassedIsCoherent(rows, before);
    ClassedIsCoherent(rows, after);
    forall e ensures e in EdgesOf(rows, before) <==> e in EdgesOf(rows, after) {
      EdgeOf(rows, before, e);
      EdgeOf(rows, after, e);
      assert Dest(rows, e.from, e.letter) == Dest(rows, e.from, Stand(before, e.letter));
      assert Dest(rows, e.from, e.letter) == Dest(rows, e.from, Stand(after, e.letter));
    }
  }

  /** The slow scanner of a machine, which loses its epsilon steps first. */
  method CompileSlow(fsm: Fsm) returns (r: SlowScanner)
    requires fsm.Wf()
    modifies fsm
    ensures fresh(r) && !r.flat && fsm.Wf() && fsm.Value().Valid()
    ensures r.Follows(fsm.Value()) && IsEpsilonFree(fsm.Value().edges) && SameLanguage(old(fsm.Value()), fsm.Value())
  {
    hide Within, Coherent, OverLetters, Classed, Total, EdgesOf, EpsilonFree, SameLanguage, IsEpsilonFree;
    hide SlowScanner.Follows;
    fsm.ValueIsValid();
    EpsilonFreeLanguage(fsm.Value());
    fsm.RemoveEpsilons();
    ghost var before := fsm.letters.inv;
    fsm.Sparse();
    ReclassedEdges(fsm.rows, before, fsm.letters.inv);
    fsm.ValueIsValid();
    r := new SlowScanner();
    var letters := TranslationTable(fsm.letters);
    TranslationInRange(letters, fsm.letters);
    r.flat, r.statesCount, r.lettersCount, r.start := false, fsm.Size(), fsm.letters.Size(), fsm.initial;
    r.letters := letters;
    r.vec := NoTargets(CellCount(fsm.Size(), fsm.letters.Size()));
    var finals := fsm.finals;
    r.finals := seq(fsm.Size(), i => i in finals);
    CopyStarts(fsm.rows, r.letters, fsm.letters);
    CopyTargets(fsm, r);
    CopiedFollows(fsm, r);
  }

  /** The states below `from` are done, and `from` itself but for the classes in `rest`. */
  predicate IsDone(from: nat, rest: set<nat>, p: nat, k: nat) {
    p < from || (p == from && k !in rest)
  }

  /** The cell of state p and class k lists the targets of the table, if its turn has come. */
  ghost predicate CellCopied(rows: Rows, letters: seq<nat>, classes: nat, vec: seq<seq<nat>>, from: nat,
      rest: set<nat>, p: nat, k: nat) {
    && k < |letters| && Cell(p, letters[k], classes) < |vec|
    && forall q: nat :: q in vec[Cell(p, letters[k], classes)] <==> IsDone(from, rest, p, k) && Linked(rows, p, k, q)
  }

  ghost predicate CellsCopied(rows: Rows, letters: seq<nat>, classes: Classes, vec: seq<seq<nat>>, from: nat,
      rest: set<nat>) {
    && |vec| == CellCount(|rows|, classes.Size())
    && forall p: nat, k: nat | p < |rows| && k in classes.table ::
        CellCopied(rows, letters, classes.Size(), vec, from, rest, p, k)
  }

  ghost predicate VecWithin(vec: seq<seq<nat>>, n: nat) {
    forall i: nat, q: nat | i < |vec| && q in vec[i] :: q < n
  }

  lemma VecStaysWithin(rows: Rows, before: seq<seq<nat>>, after: seq<seq<nat>>, cell: nat, p: nat, k: nat)
    requires Within(rows) && VecWithin(before, |rows|) && |after| == |before| && cell < |after|
    requires forall i: nat | i < |before| && i != cell :: after[i] == before[i]
    requires forall q: nat :: q in after[cell] <==> q in before[cell] || Linked(rows, p, k, q)
    ensures VecWithin(after, |rows|)
  {
  }

  lemma CopyStarts(rows: Rows, letters: seq<nat>, classes: Classes)
    requires OverLetters(classes) && TranslatesBy(letters, classes)
    ensures CellsCopied(rows, letters, classes, NoTargets(CellCount(|rows|, classes.Size())), 0, classes.table.Keys)
  {
    hide OverLetters, CellCopied, TranslatesBy, NoTargets;
    var vec := NoTargets(CellCount(|rows|, classes.Size()));
    forall p: nat, k: nat | p < |rows| && k in classes.table
        ensures CellCopied(rows, letters, classes.Size(), vec, 0, classes.table.Keys, p, k) {
      ClassCell(letters, classes, p, k, |rows|);
      CellStarts(rows, letters, classes.Size(), vec, classes.table.Keys, p, k);
    }
  }

  function NoTargets(cells: nat): (vec: seq<seq<nat>>)
    ensures |vec| == cells && forall i: nat | i < cells :: vec[i] == []
  {
    seq(cells, i => [])
  }

  lemma CellStarts(rows: Rows, letters: seq<nat>, classes: nat, vec: seq<seq<nat>>, rest: set<nat>, p: nat, k: nat)
    requires k < |letters| && Cell(p, letters[k], classes) < |vec| && vec[Cell(p, letters[k], classes)] == [] &&
        k in rest
    ensures CellCopied(rows, letters, classes, vec, 0, rest, p, k)
  {
    hide Cell, Linked;
  }

  lemma ClassCell(letters: seq<nat>, classes: Classes, p: nat, k: nat, states: nat)
    requires OverLetters(classes) && TranslatesBy(letters, classes) && k in classes.table && p < states
    ensures IsLetter(k) && k < |letters| && letters[k] == classes.table[k].index < classes.Size() &&
        Cell(p, letters[k], classes.Size()) < CellCount(states, classes.Size())
  {
    KeyIsItem(classes, k);
    assert classes.Index(k) == Some(letters[k]);
    CellInRange(p, letters[k], states, classes.Size());
  }

  /** The cell of one more class has been filled. */
  lemma CopyOneMore(rows: Rows, letters: seq<nat>, classes: Classes, before: seq<seq<nat>>, after: seq<seq<nat>>,
      from: nat, rest: set<nat>, k: nat)
    requires OverLetters(classes) && TranslatesBy(letters, classes) && from < |rows| && k in rest &&
        k in classes.table && k < |letters|
    requires CellsCopied(rows, letters, classes, before, from, rest) && |after| == |before|
    requires forall i: nat | i < |before| && i != Cell(from, letters[k], classes.Size()) :: after[i] == before[i]
    requires var i := Cell(from, letters[k], classes.Size());
      i < |after| && forall q: nat :: q in after[i] <==> q in before[i] || Linked(rows, from, k, q)
    ensures CellsCopied(rows, letters, classes, after, from, rest - {k})
  {
    hide OverLetters, Cell, Linked, CellCopied;
    hide Classes.Valid;
    ClassesAreValid(classes);
    forall p: nat, j: nat | p < |rows| && j in classes.table
        ensures CellCopied(rows, letters, classes.Size(), after, from, rest - {k}, p, j) {
      assert CellCopied(rows, letters, classes.Size(), before, from, rest, p, j);
      ClassCell(letters, classes, p, j, |rows|);
      ClassCell(letters, classes, from, k, |rows|);
      CellOneMore(rows, letters, classes, before, after, from, rest, k, p, j);
    }
  }

  lemma CellOneMore(rows: Rows, letters: seq<nat>, classes: Classes, before: seq<seq<nat>>, after: seq<seq<nat>>,
      from: nat, rest: set<nat>, k: nat, p: nat, j: nat)
    requires classes.Valid() && k in classes.table && j in classes.table && k < |letters| && j < |letters| &&
        |after| == |before|
    requires letters[k] == classes.table[k].index < classes.Size() &&
        letters[j] == classes.table[j].index < classes.Size()
    requires CellCopied(rows, letters, classes.Size(), before, from, rest, p, j) && k in rest
    requires forall i: nat | i < |before| && i != Cell(from, letters[k], classes.Size()) :: after[i] == before[i]
    requires var i := Cell(from, letters[k], classes.Size());
      i < |after| && forall q: nat :: q in after[i] <==> q in before[i] || Linked(rows, from, k, q)
    ensures CellCopied(rows, letters, classes.Size(), after, from, rest - {k}, p, j)
  {
    hide Linked, Cell;
    if Cell(p, letters[j], classes.Size()) == Cell(from, letters[k], classes.Size()) {
      CellsDiffer(p, letters[j], from, letters[k], classes.Size());
    }
  }

  lemma CopyNextState(rows: Rows, letters: seq<nat>, classes: Classes, vec: seq<seq<nat>>, from: nat)
    requires CellsCopied(rows, letters, classes, vec, from, {})
    ensures CellsCopied(rows, letters, classes, vec, from + 1, classes.table.Keys)
  {
    hide Linked, Cell;
    var next: nat := from + 1;
    forall p: nat, k: nat | p < |rows| && k in classes.table
        ensures CellCopied(rows, letters, classes.Size(), vec, next, classes.table.Keys, p, k) {
      assert CellCopied(rows, letters, classes.Size(), vec, from, {}, p, k);
      assert IsDone(from, {}, p, k) <==> IsDone(next, classes.table.Keys, p, k);
    }
  }

  method CopyTargets(fsm: Fsm, r: SlowScanner)
    requires fsm.Wf() && fsm.sparsed && TranslatesBy(r.letters, fsm.letters) && r.lettersCount == fsm.letters.Size()
    requires CellsCopied(fsm.rows, r.letters, fsm.letters, r.vec, 0, fsm.letters.table.Keys) &&
        VecWithin(r.vec, fsm.Size())
    modifies r`vec
    ensures CellsCopied(fsm.rows, r.letters, fsm.letters, r.vec, fsm.Size(), fsm.letters.table.Keys) &&
        VecWithin(r.vec, fsm.Size())
  {
    hide VecWithin, CellsCopied, Within, Coherent, TranslatesBy, OverLetters;
    for from: nat := 0 to fsm.Size()
      invariant CellsCopied(fsm.rows, r.letters, fsm.letters, r.vec, from, fsm.letters.table.Keys) &&
          VecWithin(r.vec, fsm.Size())
    {
      var rest: set<nat> := fsm.letters.table.Keys;
      while rest != {}
        invariant rest <= fsm.letters.table.Keys &&
            CellsCopied(fsm.rows, r.letters, fsm.letters, r.vec, from, rest) && VecWithin(r.vec, fsm.Size())
        decreases |rest|
      {
        var k: nat := Ordered.Least(rest);
        ClassCell(r.letters, fsm.letters, from, k, fsm.Size());
        CopiedSize(fsm.rows, r.letters, fsm.letters, r.vec, from, rest);
        ClassIsItself(fsm.letters, k);
        ghost var before := r.vec;
        PushTargets(fsm, r, from, k);
        VecStaysWithin(fsm.rows, before, r.vec, Cell(from, r.letters[k], r.lettersCount), from, k);
        CopyOneMore(fsm.rows, r.letters, fsm.letters, before, r.vec, from, rest, k);
        rest := rest - {k};
      }
      CopyNextState(fsm.rows, r.letters, fsm.letters, r.vec, from);
    }
  }

  lemma CopiedSize(rows: Rows, letters: seq<nat>, classes: Classes, vec: seq<seq<nat>>, from: nat, rest: set<nat>)
    requires CellsCopied(rows, letters, classes, vec, from, rest) && TranslatesBy(letters, classes)
    ensures |vec| == CellCount(|rows|, classes.Size()) && |letters| == MAX_CHAR
  {
  }

  lemma ClassIsItself(classes: Classes, k: nat)
    requires OverLetters(classes) && k in classes.table
    ensures classes.Representative(k) == k
  {
    KeyIsItem(classes, k);
  }

  /** Appends every target of the state on the class letter to its cell. */
  method PushTargets(fsm: Fsm, r: SlowScanner, from: nat, k: nat)
    requires fsm.sparsed && fsm.letters.Representative(k) == k && k < |r.letters| && k != EPSILON
    requires Cell(from, r.letters[k], r.lettersCount) < |r.vec|
    modifies r`vec
    ensures |r.vec| == |old(r.vec)|
    ensures forall i: nat | i < |r.vec| && i != Cell(from, r.letters[k], r.lettersCount) :: r.vec[i] == old(r.vec)[i]
    ensures var i := Cell(from, r.letters[k], r.lettersCount);
      forall q: nat :: q in r.vec[i] <==> q in old(r.vec)[i] || Linked(fsm.rows, from, k, q)
  {
    var rest := fsm.Destinations(from, k);
    ghost var all := rest;
    var cell := Cell(from, r.letters[k], r.lettersCount);
    while rest != {}
      invariant rest <= all && |r.vec| == |old(r.vec)|
      invariant forall i: nat | i < |r.vec| && i != cell :: r.vec[i] == old(r.vec)[i]
      invariant forall q: nat :: q in r.vec[cell] <==> q in old(r.vec)[cell] || (q in all && q !in rest)
      decreases |rest|
    {
      var to: nat := Ordered.Least(rest);
      var longer: seq<nat> := r.vec[cell] + [to];
      r.vec := r.vec[cell := longer];
      rest := rest - {to};
    }
  }

  /** Filled cells make a scanner that follows the machine. */
  lemma CopiedFollows(fsm: Fsm, r: SlowScanner)
    requires fsm.Wf() && Total(fsm.letters.inv) && TranslatesBy(r.letters, fsm.letters) && !r.flat
    requires r.statesCount == fsm.Size() && r.lettersCount == fsm.letters.Size() && r.start == fsm.initial
    requires forall c: nat | c < MAX_CHAR :: r.letters[c] < r.lettersCount
    requires |r.finals| == fsm.Size() && forall q: nat | q < fsm.Size() :: r.finals[q] <==> q in fsm.finals
    requires CellsCopied(fsm.rows, r.letters, fsm.letters, r.vec, fsm.Size(), fsm.letters.table.Keys)
    requires VecWithin(r.vec, fsm.Size())
    ensures r.Follows(fsm.Value())
  {
    hide CellsCopied, Cell, Within, Coherent, EdgesOf;
    CopiedSize(fsm.rows, r.letters, fsm.letters, r.vec, fsm.Size(), fsm.letters.table.Keys);
    var a := fsm.Value();
    forall p: nat, c: nat, q: nat | p < fsm.Size() && IsLetter(c)
        ensures q in r.TargetsOf(p, c) <==> Edge(p, c, q) in a.edges {
      CopiedEdge(fsm, r, p, c, q);
    }
  }

  lemma CopiedEdge(fsm: Fsm, r: SlowScanner, p: nat, c: nat, q: nat)
    requires fsm.Wf() && Total(fsm.letters.inv) && TranslatesBy(r.letters, fsm.letters) && !r.flat
    requires r.lettersCount == fsm.letters.Size() && p < fsm.Size() && IsLetter(c)
    requires CellsCopied(fsm.rows, r.letters, fsm.letters, r.vec, fsm.Size(), fsm.letters.table.Keys)
    ensures q in r.TargetsOf(p, c) <==> Edge(p, c, q) in fsm.Value().edges
  {
    var k: nat := fsm.letters.inv[c];
    RepresentativeIsClassed(fsm.letters, c);
    KeyIsItem(fsm.letters, k);
    assert fsm.letters.Index(c) == Some(r.letters[c]) && fsm.letters.Index(k) == Some(r.letters[k]);
    assert CellCopied(fsm.rows, r.letters, r.lettersCount, r.vec, fsm.Size(), fsm.letters.table.Keys, p, k);
    EdgeOf(fsm.rows, fsm.letters.inv, Edge(p, c, q));
  }
}
