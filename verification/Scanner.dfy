/** The packed scanner: a transition table by letter class, a table of accepted regexps, and exit masks. */
module Scanners {
  import opened Automaton
  import opened Transitions
  import opened Options
  import opened Partitions
  import opened Letters
  import Ordered
  import opened RegularLanguages
  import opened Tables
  import opened Deterministic
  import opened SubsetTables
  import opened Minimality
  import opened SurroundingLanguages
  import opened FiniteStateMachine
  import opened EpsilonRemoval
  import opened VisitedSubsets
  import opened WordMasks
  import opened Runners
  import opened Shortcuts

  datatype Flags = Flags(final: bool, dead: bool)

  // ---- lists of accepted regexps ----

  /** One entry of the table that holds the lists of all states, each closed by an end mark. */
  datatype FinalEntry = Regexp(id: nat) | ListEnd

  /** The list that starts at i. */
  function ListAt(final: seq<FinalEntry>, i: nat): seq<nat>
    requires i <= |final|
    decreases |final| - i
  {
    if i == |final| || final[i].ListEnd? then [] else [final[i].id] + ListAt(final, i + 1)
  }

  ghost predicate HasList(final: seq<FinalEntry>, at: nat, ids: seq<nat>) {
    && at + |ids| < |final|
    && (forall k: nat | k < |ids| :: final[at + k] == Regexp(ids[k]))
    && final[at + |ids|] == ListEnd
  }

  lemma {:induction false} ListIsRead(final: seq<FinalEntry>, at: nat, ids: seq<nat>)
    requires HasList(final, at, ids)
    ensures ListAt(final, at) == ids
    decreases |ids|
  {
    if ids != [] {
      assert final[at + 0] == Regexp(ids[0]);
      forall k: nat | k < |ids[1..]| ensures final[at + 1 + k] == Regexp(ids[1..][k]) {
        assert final[at + (k + 1)] == Regexp(ids[k + 1]);
      }
      ListIsRead(final, at + 1, ids[1..]);
      assert ids == [ids[0]] + ids[1..];
    }
  }

  /** The room that these lists take. */
  function TableSize(lists: seq<seq<nat>>): nat {
    if lists == [] then 0 else TableSize(lists[..|lists| - 1]) + |lists[|lists| - 1]| + 1
  }

  lemma {:induction false} TableSizeGrows(lists: seq<seq<nat>>, n: nat)
    requires n < |lists|
    ensures TableSize(lists[..n + 1]) == TableSize(lists[..n]) + |lists[n]| + 1 &&
        TableSize(lists[..n + 1]) <= TableSize(lists)
    decreases |lists| - n
  {
    assert lists[..n + 1][..n] == lists[..n];
    if n + 1 < |lists| {
      TableSizeGrows(lists, n + 1);
    } else {
      assert lists[..n + 1] == lists;
    }
  }

  /** The lists of the first n states lie one after the other. */
  ghost predicate ListsLaid(final: seq<FinalEntry>, index: seq<nat>, lists: seq<seq<nat>>, n: nat) {
    && n <= |lists| <= |index|
    && forall s: nat | s < n :: index[s] == TableSize(lists[..s]) && HasList(final, index[s], lists[s])
  }

  lemma NoListsLaid(final: seq<FinalEntry>, index: seq<nat>, lists: seq<seq<nat>>)
    requires |lists| <= |index|
    ensures ListsLaid(final, index, lists, 0) && TableSize(lists[..0]) == 0
  {
  }

  lemma IndexAppends(final: seq<FinalEntry>, index: seq<nat>, lists: seq<seq<nat>>, n: nat, at: nat)
    requires n < |index| && ListsLaid(final, index, lists, n)
    ensures ListsLaid(final, index[n := at], lists, n)
  {
  }

  lemma ListWritten(final: seq<FinalEntry>, at: nat, ids: seq<nat>)
    requires at + |ids| < |final| && final[at + |ids|] == ListEnd
    requires forall k: nat | k < |ids| :: final[at + k] == Regexp(ids[k])
    ensures HasList(final, at, ids)
  {
  }

  lemma NextList(before: seq<FinalEntry>, after: seq<FinalEntry>, index: seq<nat>, lists: seq<seq<nat>>, n: nat)
    requires n < |lists| <= |index| && |before| == |after| && ListsLaid(before, index, lists, n)
    requires forall i: nat | i < |before| && i < TableSize(lists[..n]) :: after[i] == before[i]
    requires index[n] == TableSize(lists[..n]) && HasList(after, index[n], lists[n])
    ensures ListsLaid(after, index, lists, n + 1)
  {
    forall s: nat | s < n ensures HasList(after, index[s], lists[s]) {
      TableSizeGrows(lists[..n], s);
      assert lists[..n][..s] == lists[..s] && lists[..n][s] == lists[s];
      forall k: nat | k < |lists[s]| ensures after[index[s] + k] == Regexp(lists[s][k]) {
        assert before[index[s] + k] == Regexp(lists[s][k]);
      }
    }
  }

  // ---- counting final states ----

  function FlagLists(flags: seq<Flags>): (lists: seq<seq<nat>>)
    ensures |lists| == |flags|
  {
    seq(|flags|, i requires 0 <= i < |flags| => if flags[i].final then [0] else [])
  }

  ghost predicate FlagsAre(flags: seq<Flags>, finals: set<nat>) {
    forall q: nat :: q in finals <==> q < |flags| && flags[q].final
  }

  /** As many lists have an element as there are final states. */
  lemma {:induction false} FlagListsSize(flags: seq<Flags>, finals: set<nat>)
    requires FlagsAre(flags, finals)
    ensures TableSize(FlagLists(flags)) == |finals| + |flags|
    decreases |flags|
  {
    var lists := FlagLists(flags);
    if flags == [] {
      assert finals == {};
    } else {
      var n := |flags| - 1;
      assert FlagLists(flags[..n]) == lists[..n];
      FlagListsSize(flags[..n], finals - {n});
    }
  }

  // ---- transitions ----

  /** The step through a letter table and a transition table. */
  function Stepper(letters: seq<nat>, transitions: seq<seq<nat>>): (nat, nat) -> nat {
    (s: nat, c: nat) => if s < |transitions| && c < |letters| && letters[c] < |transitions[s]|
        then transitions[s][letters[c]] else 0
  }

  function WithJump(transitions: seq<seq<nat>>, s: nat, k: nat, t: nat): seq<seq<nat>>
    requires s < |transitions| && k < |transitions[s]|
  {
    var row: seq<nat> := transitions[s][k := t];
    transitions[s := row]
  }

  function IsFinal(flags: seq<Flags>): nat -> bool {
    (s: nat) => s < |flags| && flags[s].final
  }

  function IsDead(flags: seq<Flags>): nat -> bool {
    (s: nat) => s < |flags| && flags[s].dead
  }

  /** Two machines that agree on the alphabet. */
  ghost predicate SameMachine(d: Dfa, e: Dfa) {
    && d.size == e.size && d.initial == e.initial && d.finals == e.finals
    && forall p: nat, c: nat | p < d.size && IsLetter(c) :: d.next(p, c) == e.next(p, c)
  }

  lemma {:induction false} SameRun(d: Dfa, e: Dfa, p: nat, w: Word)
    requires SameMachine(d, e) && d.Valid() && p < d.size && IsWord(w)
    ensures Run(d, p, w) == Run(e, p, w)
    decreases |w|
  {
    if w != [] {
      TailIsWord(w);
      SameRun(d, e, d.next(p, w[0]), w[1..]);
    }
  }

  class Scanner {
    /** How many exit masks a row has; none means that runs are never shortened. */
    const maskCount: nat
    var lettersCount: nat
    var regexpsCount: nat
    var initial: nat
    /** The class of every letter. */
    var letters: seq<nat>
    var final: seq<FinalEntry>
    var finalEnd: nat
    var finalIndex: seq<nat>
    var transitions: seq<seq<nat>>
    var flags: seq<Flags>
    var masks: seq<seq<Word64>>

    function Size(): nat
      reads this`transitions
    {
      |transitions|
    }

    ghost predicate Wf()
      reads this
    {
      && |flags| == |masks| == |finalIndex| == Size() && initial < Size()
      && |letters| == MAX_CHAR && (forall c: nat | c < MAX_CHAR :: letters[c] < lettersCount)
      && (forall s: nat | s < Size() :: |transitions[s]| == lettersCount && |masks[s]| == maskCount)
      && (forall s: nat, k: nat | s < Size() && k < lettersCount :: transitions[s][k] < Size())
    }

    /** The automaton that this scanner steps through. */
    ghost function Machine(): Dfa
      reads this
    {
      Dfa(Size(), Stepper(letters, transitions), initial, set s: nat | s < |flags| && flags[s].final)
    }

    lemma Shape()
      requires Wf()
      ensures |flags| == |masks| == |finalIndex| == Size() && |letters| == MAX_CHAR
    {
    }

    lemma MachineIsValid()
      requires Wf()
      ensures Machine().Valid()
    {
      var d := Machine();
      forall p: nat, c: nat | p < d.size && IsLetter(c) ensures d.next(p, c) < d.size {
        assert letters[c] < lettersCount;
      }
    }

    /** Every state has its list, and the table is filled to the end. */
    ghost predicate ListsComplete(lists: seq<seq<nat>>)
      reads this`final, this`finalEnd, this`finalIndex
    {
      && |lists| == |finalIndex|
      && finalEnd == |final| == TableSize(lists)
      && ListsLaid(final, finalIndex, lists, |lists|)
    }

    /** The masks of every row mark exactly the bytes that leave its state. */
    ghost predicate MasksComplete()
      requires Wf()
      reads this
    {
      forall s: nat | s < Size() :: MasksMark(masks[s], Exits(letters, transitions[s], s))
    }

    /** A dead state is one from which no word is accepted. */
    ghost predicate DeadComplete()
      reads this
    {
      forall s: nat | s < Size() && s < |flags| :: flags[s].dead <==>
          forall w | IsWord(w) :: !AcceptsFrom(Machine(), s, w)
    }

    ghost predicate Ready(lists: seq<seq<nat>>)
      reads this
    {
      && Wf() && ListsComplete(lists) && MasksComplete() && DeadComplete()
      && forall s: nat | s < Size() :: flags[s].final <==> lists[s] != []
    }

    // ---- queries ----

    function Next(state: nat, c: nat): nat
      requires Wf() && state < Size() && c < MAX_CHAR
      reads this
    {
      transitions[state][letters[c]]
    }

    function Final(state: nat): bool
      requires Wf() && state < Size()
      reads this
    {
      flags[state].final
    }

    /** Walks the list of a state. */
    method AcceptedRegexps(state: nat) returns (ids: seq<nat>)
      requires Wf() && state < Size() && finalIndex[state] <= |final|
      ensures ids == ListAt(final, finalIndex[state])
    {
      var e := finalIndex[state];
      ids := [];
      while e < |final| && !final[e].ListEnd?
        invariant finalIndex[state] <= e <= |final|
        invariant ListAt(final, finalIndex[state]) == ids + ListAt(final, e)
        decreases |final| - e
      {
        assert ids + ([final[e].id] + ListAt(final, e + 1)) == ids + [final[e].id] + ListAt(final, e + 1);
        ids := ids + [final[e].id];
        e := e + 1;
      }
      assert ids + [] == ids;
    }

    // ---- building ----

    constructor Init(states: nat, classes: Classes, finalEntries: nat, start: nat, regexps: nat, maskCount: nat)
      requires OverLetters(classes) && Total(classes.inv) && start < states
      ensures Wf() && Size() == states && initial == start && regexpsCount == regexps && this.maskCount == maskCount
      ensures |final| == finalEntries + states && finalEnd == 0
      ensures TranslatesBy(letters, classes) && lettersCount == classes.Size()
      ensures forall s: nat | s < states :: flags[s] == Flags(false, false)
    {
      this.maskCount := maskCount;
      lettersCount, regexpsCount, initial := classes.Size(), regexps, start;
      letters := seq(MAX_CHAR, i => 0);
      final, finalEnd := seq(finalEntries + states, i => ListEnd), 0;
      finalIndex := seq(states, i => 0);
      transitions := seq(states, i => seq(classes.Size(), j => 0));
      flags := seq(states, i => Flags(false, false));
      masks := seq(states, i => seq(maskCount, j => NO_SHORTCUT_MASK));
      new;
      letters := TranslationTable(classes);
      TranslationInRange(letters, classes);
    }

    method SetJump(oldState: nat, c: nat, newState: nat)
      requires Wf() && oldState < Size() && newState < Size() && c < MAX_CHAR
      modifies this`transitions
      ensures Wf() && transitions == WithJump(old(transitions), oldState, letters[c], newState)
    {
      transitions := WithJump(transitions, oldState, letters[c], newState);
    }

    method SetTag(state: nat, value: Flags)
      requires Wf() && state < Size()
      modifies this`flags
      ensures Wf() && flags == old(flags)[state := value]
    {
      flags := flags[state := value];
    }

    /** Fills the exit masks of all states. */
    method BuildShortcuts()
      requires Wf()
      modifies this`masks
      ensures Wf() && MasksComplete()
    {
      var chars := CharsByClass(letters, lettersCount);
      for i: nat := 0 to Size()
        invariant Wf() && forall s: nat | s < i :: MasksMark(masks[s], Exits(letters, transitions[s], s))
      {
        hide MasksMark, Exits;
        var row := ShortcutRow(masks[i], transitions[i], i, chars, letters);
        masks := masks[i := row];
      }
    }

    /** Writes the list of one state, shifted, and closes it. */
    method WriteList(state: nat, ids: seq<nat>, ghost lists: seq<seq<nat>>)
      requires state < |lists| <= |finalIndex| && ids == lists[state] && |final| == TableSize(lists)
      requires ListsLaid(final, finalIndex, lists, state) && finalEnd == TableSize(lists[..state])
      modifies this`final, this`finalEnd, this`finalIndex
      ensures |final| == |old(final)| && |finalIndex| == |old(finalIndex)| && (old(Wf()) ==> Wf())
      ensures ListsLaid(final, finalIndex, lists, state + 1) && finalEnd == TableSize(lists[..state + 1])
    {
      hide ListsLaid, TableSize, HasList;
      TableSizeGrows(lists, state);
      ghost var before, index := final, finalIndex;
      IndexAppends(final, finalIndex, lists, state, finalEnd);
      finalIndex := finalIndex[state := finalEnd];
      for k: nat := 0 to |ids|
        invariant |final| == |before| && finalEnd == TableSize(lists[..state]) + k && |finalIndex| == |index|
        invariant finalIndex == index[state := TableSize(lists[..state])]
        invariant forall i: nat | i < TableSize(lists[..state]) :: final[i] == before[i]
        invariant forall j: nat | j < k :: final[TableSize(lists[..state]) + j] == Regexp(ids[j])
      {
        final := final[finalEnd := Regexp(ids[k])];
        finalEnd := finalEnd + 1;
      }
      final := final[finalEnd := ListEnd];
      finalEnd := finalEnd + 1;
      ListWritten(final, TableSize(lists[..state]), ids);
      NextList(before, final, finalIndex, lists, state);
    }

    /** Fills the table of final states, exactly, and the shortcuts. */
    method FinishBuild()
      requires Wf() && finalEnd == 0 && |final| == TableSize(FlagLists(flags))
      modifies this`final, this`finalEnd, this`finalIndex, this`masks
      ensures Wf() && ListsComplete(FlagLists(flags)) && MasksComplete()
    {
      hide MasksMark, Exits, HasList, ListsLaid, TableSize;
      ghost var lists := FlagLists(flags);
      NoListsLaid(final, finalIndex, lists);
      for state: nat := 0 to Size()
        invariant Wf() && |final| == TableSize(lists)
        invariant ListsLaid(final, finalIndex, lists, state) && finalEnd == TableSize(lists[..state])
      {
        WriteList(state, if flags[state].final then [0] else [], lists);
      }
      assert lists[..|lists|] == lists;
      BuildShortcuts();
    }
  }

  // ---- which regexps are accepted ----

  /** The ids, in ascending order, are the numbers of the patterns that accept w. */
  ghost predicate Lists(ids: seq<nat>, patterns: seq<Nfa>, w: Word) {
    && (forall i: nat :: i in ids <==> i < |patterns| && Accepts(patterns[i], w))
    && (forall j: nat, k: nat | j < k < |ids| :: ids[j] < ids[k])
  }

  /** The list read after every word holds the numbers of the patterns that accept it. */
  ghost predicate Recognises(sc: Scanner, patterns: seq<Nfa>)
    reads sc
  {
    sc.Wf() && sc.regexpsCount == |patterns| && forall w | IsWord(w) :: RecognisesOn(sc, patterns, w)
  }

  ghost predicate RecognisesOn(sc: Scanner, patterns: seq<Nfa>, w: Word)
    requires sc.Wf()
    reads sc
  {
    var s := Run(sc.Machine(), sc.initial, w);
    s < sc.Size() && sc.finalIndex[s] <= |sc.final| && Lists(ListAt(sc.final, sc.finalIndex[s]), patterns, w)
  }

  lemma ListOfState(sc: Scanner, lists: seq<seq<nat>>, s: nat)
    requires sc.Wf() && sc.ListsComplete(lists) && s < sc.Size()
    ensures sc.finalIndex[s] <= |sc.final| && |lists| == sc.Size() && ListAt(sc.final, sc.finalIndex[s]) == lists[s]
  {
    ListIsRead(sc.final, sc.finalIndex[s], lists[s]);
  }

  lemma RunInRange(sc: Scanner, w: Word)
    requires sc.Wf() && IsWord(w)
    ensures Run(sc.Machine(), sc.initial, w) < sc.Size()
  {
    sc.MachineIsValid();
    RunStays(sc.Machine(), sc.initial, w);
  }

  lemma CompiledRecognises(sc: Scanner, a: Nfa)
    requires sc.Ready(FlagLists(sc.flags)) && sc.regexpsCount == 1 && Accepting(sc, a)
    ensures Recognises(sc, [a])
  {
    hide Accepts, ListAt;
    hide Scanner.MasksComplete;
    hide Scanner.DeadComplete;
    hide Scanner.ListsComplete;
    forall w | IsWord(w) ensures RecognisesOn(sc, [a], w) {
      RunInRange(sc, w);
      var s := Run(sc.Machine(), sc.initial, w);
      ListOfState(sc, FlagLists(sc.flags), s);
      assert IsFinal(sc.flags)(s) <==> Accepts(a, w);
    }
  }

  /** Tags every state and copies every transition of a determined machine. */
  method BuildScanner(fsm: Fsm, r: Scanner)
    requires fsm.Valid() && fsm.determined && r.Wf() && r.Size() == fsm.Size() && r.initial == fsm.initial
    requires TranslatesBy(r.letters, fsm.letters) && r.finalEnd == 0 && |r.final| == |fsm.finals| + fsm.Size()
    modifies r
    ensures r.Wf() && r.ListsComplete(FlagLists(r.flags)) && r.MasksComplete()
    ensures SameMachine(fsm.Machine(), r.Machine()) && r.regexpsCount == old(r.regexpsCount)
    ensures forall s: nat | s < r.Size() :: r.flags[s].dead <==> SurroundingLanguages.IsDead(fsm.Value(), s)
  {
    hide MasksMark, Exits, ListsLaid, Total, Functional, AllReached, Coherent, Within, SurroundingLanguages.IsDead;
    hide Scanner.ListsComplete;
    hide Scanner.MasksComplete;
    TagStates(fsm, r);
    CopyJumps(fsm, r);
    FlagListsSize(r.flags, fsm.finals);
    r.FinishBuild();
    assert r.Machine().finals == fsm.finals;
  }

  method TagStates(fsm: Fsm, r: Scanner)
    requires fsm.Wf() && r.Wf() && r.Size() == fsm.Size()
    modifies r`flags
    ensures r.Wf() && FlagsAre(r.flags, fsm.finals)
    ensures forall s: nat | s < r.Size() :: r.flags[s].dead <==> SurroundingLanguages.IsDead(fsm.Value(), s)
  {
    hide SurroundingLanguages.IsDead, Within, Coherent, OverLetters;
    var dead := fsm.DeadStates();
    for state: nat := 0 to fsm.Size()
      invariant r.Wf() && forall s: nat | s < state :: r.flags[s] == Flags(s in fsm.finals, s in dead)
    {
      r.SetTag(state, Flags(state in fsm.finals, state in dead));
    }
  }

  /** The row agrees with the machine on the letters of the classes in `done`. */
  ghost predicate RowJumps(letters: seq<nat>, row: seq<nat>, classes: Classes, rows: Rows, from: nat, rest: set<nat>) {
    forall k: nat | k in classes.table && k !in rest ::
        k < |letters| && letters[k] < |row| && Linked(rows, from, k, row[letters[k]])
  }

  method CopyJumps(fsm: Fsm, r: Scanner)
    requires fsm.Valid() && fsm.determined && r.Wf() && r.Size() == fsm.Size() && TranslatesBy(r.letters, fsm.letters)
    modifies r`transitions
    ensures r.Wf() && r.Size() == fsm.Size()
    ensures forall p: nat, c: nat | p < fsm.Size() && IsLetter(c) ::
        fsm.Machine().next(p, c) == Stepper(r.letters, r.transitions)(p, c)
  {
    for from: nat := 0 to fsm.Size()
      invariant r.Wf() && r.Size() == fsm.Size()
      invariant forall p: nat | p < from :: RowJumps(r.letters, r.transitions[p], fsm.letters, fsm.rows, p, {})
    {
      CopyRow(fsm, r, from);
    }
    forall p: nat, c: nat | p < fsm.Size() && IsLetter(c)
      ensures fsm.Machine().next(p, c) == Stepper(r.letters, r.transitions)(p, c)
    {
      JumpsFollow(fsm, r.letters, r.transitions, p, c);
    }
  }

  lemma JumpsFollow(fsm: Fsm, letters: seq<nat>, transitions: seq<seq<nat>>, p: nat, c: nat)
    requires fsm.Valid() && fsm.determined && TranslatesBy(letters, fsm.letters) && p < fsm.Size() == |transitions| &&
        IsLetter(c)
    requires RowJumps(letters, transitions[p], fsm.letters, fsm.rows, p, {})
    ensures fsm.Machine().next(p, c) == Stepper(letters, transitions)(p, c)
  {
    var k: nat := fsm.letters.inv[c];
    RepresentativeIsClassed(fsm.letters, c);
    KeyIsItem(fsm.letters, k);
    assert fsm.letters.Index(c) == Some(letters[c]) && fsm.letters.Index(k) == Some(letters[k]);
    TargetIsLinked(fsm.rows, fsm.letters, p, c);
  }

  method CopyRow(fsm: Fsm, r: Scanner, from: nat)
    requires fsm.Valid() && fsm.determined && r.Wf() && r.Size() == fsm.Size() &&
        TranslatesBy(r.letters, fsm.letters) && from < fsm.Size()
    modifies r`transitions
    ensures r.Wf() && r.Size() == fsm.Size() &&
        RowJumps(r.letters, r.transitions[from], fsm.letters, fsm.rows, from, {})
    ensures forall p: nat | p < fsm.Size() && p != from :: r.transitions[p] == old(r.transitions)[p]
  {
    var rest: set<nat> := fsm.letters.table.Keys;
    while rest != {}
      invariant rest <= fsm.letters.table.Keys && r.Wf() && r.Size() == fsm.Size()
      invariant RowJumps(r.letters, r.transitions[from], fsm.letters, fsm.rows, from, rest)
      invariant forall p: nat | p < fsm.Size() && p != from :: r.transitions[p] == old(r.transitions)[p]
      decreases |rest|
    {
      var k: nat := Ordered.Least(rest);
      KeyIsItem(fsm.letters, k);
      ghost var before := r.transitions[from];
      CopyTargets(fsm, r, from, k);
      OneMoreJump(r.letters, before, r.transitions[from], fsm.letters, fsm.rows, from, rest, k);
      rest := rest - {k};
    }
  }

  method CopyTargets(fsm: Fsm, r: Scanner, from: nat, k: nat)
    requires fsm.Valid() && fsm.determined && r.Wf() && r.Size() == fsm.Size() && from < fsm.Size()
    requires k in fsm.letters.table && IsLetter(k) && fsm.letters.Representative(k) == k
    modifies r`transitions
    ensures r.Wf() && r.Size() == fsm.Size() && Linked(fsm.rows, from, k, r.transitions[from][r.letters[k]])
    ensures forall i: nat | i < r.lettersCount && i != r.letters[k] ::
        r.transitions[from][i] == old(r.transitions)[from][i]
    ensures forall p: nat | p < fsm.Size() && p != from :: r.transitions[p] == old(r.transitions)[p]
  {
    var rest := fsm.Destinations(from, k);
    ghost var all := rest;
    OneTarget(fsm, from, k);
    while rest != {}
      invariant rest <= all && r.Wf() && r.Size() == fsm.Size()
      invariant rest == all || (exists to: nat :: to in all && r.transitions[from][r.letters[k]] == to)
      invariant forall i: nat | i < r.lettersCount && i != r.letters[k] ::
          r.transitions[from][i] == old(r.transitions)[from][i]
      invariant forall p: nat | p < fsm.Size() && p != from :: r.transitions[p] == old(r.transitions)[p]
      decreases |rest|
    {
      var to: nat := Ordered.Least(rest);
      r.SetJump(from, k, to);
      rest := rest - {to};
    }
  }

  lemma OneTarget(fsm: Fsm, from: nat, k: nat)
    requires fsm.Valid() && fsm.determined && from < fsm.Size() && k in fsm.letters.table && k != EPSILON &&
        fsm.letters.Representative(k) == k
    ensures fsm.Destinations(from, k) != {}
    ensures forall to: nat | to in fsm.Destinations(from, k) :: to < fsm.Size() && Linked(fsm.rows, from, k, to)
  {
    assert HasLink(fsm.rows, from, k);
    var q: nat :| Linked(fsm.rows, from, k, q);
    assert q in fsm.Destinations(from, k);
    forall to: nat | to in fsm.Destinations(from, k) ensures to < fsm.Size() && Linked(fsm.rows, from, k, to) {
      assert Linked(fsm.rows, from, k, to);
    }
  }

  lemma OneMoreJump(letters: seq<nat>, before: seq<nat>, after: seq<nat>, classes: Classes, rows: Rows, from: nat,
      rest: set<nat>, k: nat)
    requires OverLetters(classes) && TranslatesBy(letters, classes) && k in classes.table && IsLetter(k) &&
        |after| == |before|
    requires RowJumps(letters, before, classes, rows, from, rest) && k in rest
    requires letters[k] < |after| && Linked(rows, from, k, after[letters[k]])
    requires forall i: nat | i < |before| && i != letters[k] :: after[i] == before[i]
    ensures RowJumps(letters, after, classes, rows, from, rest - {k})
  {
    forall j: nat | j in classes.table && j !in rest - {k}
      ensures j < |letters| && letters[j] < |after| && Linked(rows, from, j, after[letters[j]])
    {
      KeyIsItem(classes, j);
      KeyIsItem(classes, k);
      assert classes.Index(j) == Some(letters[j]) && classes.Index(k) == Some(letters[k]);
    }
  }

  /** Letters of one class, and only they, are translated to the index of the class. */
  ghost predicate TranslatesBy(letters: seq<nat>, classes: Classes) {
    && |letters| == MAX_CHAR
    && forall c: nat | IsLetter(c) :: classes.Index(c) == Some(letters[c])
  }

  method TranslationTable(classes: Classes) returns (letters: seq<nat>)
    requires OverLetters(classes) && Total(classes.inv)
    ensures TranslatesBy(letters, classes) && letters[EPSILON] == 0
  {
    letters := seq(MAX_CHAR, i => 0);
    var rest: set<nat> := classes.table.Keys;
    while rest != {}
      invariant rest <= classes.table.Keys && |letters| == MAX_CHAR && letters[EPSILON] == 0
      invariant forall c: nat | c in classes.inv && classes.inv[c] !in rest :: classes.Index(c) == Some(letters[c])
      decreases |rest|
    {
      hide Classes.Valid;
      var k: nat := Ordered.Least(rest);
      var items := classes.table[k].items;
      ClassLetters(classes, k);
      ghost var before := letters;
      for i: nat := 0 to |items|
        invariant |letters| == MAX_CHAR && letters[EPSILON] == 0
        invariant forall c: nat | c < MAX_CHAR :: letters[c] == if c in items[..i] then classes.table[k].index
            else before[c]
      {
        assert items[i] in items && items[..i + 1] == items[..i] + [items[i]];
        letters := letters[items[i] := classes.table[k].index];
      }
      assert items[..|items|] == items;
      rest := rest - {k};
    }
  }

  lemma ClassLetters(classes: Classes, k: nat)
    requires OverLetters(classes) && k in classes.table
    ensures forall c: nat :: c in classes.table[k].items <==> c in classes.inv && classes.inv[c] == k
    ensures forall c | c in classes.table[k].items :: IsLetter(c)
  {
    forall c: nat ensures c in classes.table[k].items <==> c in classes.inv && classes.inv[c] == k {
      assert Has(classes.table, k, c) <==> c in classes.inv && classes.inv[c] == k;
    }
  }

  lemma TranslationInRange(letters: seq<nat>, classes: Classes)
    requires OverLetters(classes) && Total(classes.inv) && TranslatesBy(letters, classes) && letters[EPSILON] == 0
    ensures forall c: nat | c < MAX_CHAR :: letters[c] < classes.Size()
  {
    assert 0 in classes.inv && classes.Index(0) == Some(letters[0]);
    forall c: nat | c < MAX_CHAR ensures letters[c] < classes.Size() {
      if c != EPSILON { assert classes.Index(c) == Some(letters[c]); }
    }
  }

  // ---- compiling ----

  /** The scanner of a machine, which is made canonical first; no scanner is the error that the library throws. */
  method Compile(fsm: Fsm, maskCount: nat) returns (r: Option<Scanner>)
    requires fsm.Valid()
    modifies fsm
    ensures fsm.Valid() && SameLanguage(old(fsm.Value()), fsm.Value())
    ensures r.Some? ==> fresh(r.value) && r.value.maskCount == maskCount && r.value.regexpsCount == 1
    ensures r.Some? ==> r.value.Ready(FlagLists(r.value.flags)) && Accepting(r.value, old(fsm.Value()))
    ensures r.Some? ==> Recognises(r.value, [old(fsm.Value())])
    ensures r.Some? ==> Reduced(r.value.Machine()) && AllReached(r.value.Machine())
    ensures r.Some? <==> old(fsm.Determinable(0))
  {
    hide SameLanguage, Accepting, MasksMark, Exits, ListsLaid, Total, Functional, AllReached, Coherent, Within,
        SurroundingLanguages.IsDead, Reduced;
    hide Scanner.ListsComplete;
    hide Scanner.MasksComplete;
    hide Scanner.DeadComplete;
    hide IsUnion, VisitsMore, EpsilonFree, Recognises;
    ghost var a := fsm.Value();
    fsm.ValueIsValid();
    var ok := fsm.Canonize();
    if !ok {
      return None;
    }
    var sc := new Scanner.Init(fsm.Size(), fsm.letters, |fsm.finals|, fsm.initial, 1, maskCount);
    BuildScanner(fsm, sc);
    CompiledScanner(a, fsm, sc);
    CompiledRecognises(sc, a);
    return Some(sc);
  }

  /** The scanner is final after a word of the alphabet if and only if the automaton accepts the word. */
  ghost predicate Accepting(sc: Scanner, a: Nfa)
    reads sc
  {
    sc.Wf() && forall w | IsWord(w) :: IsFinal(sc.flags)(Run(sc.Machine(), sc.initial, w)) <==> Accepts(a, w)
  }

  lemma CompiledScanner(a: Nfa, fsm: Fsm, sc: Scanner)
    requires fsm.Valid() && fsm.determined && SameLanguage(a, fsm.Value()) && sc.Wf() &&
        SameMachine(fsm.Machine(), sc.Machine())
    requires Reduced(fsm.Machine())
    requires forall s: nat | s < sc.Size() :: sc.flags[s].dead <==> SurroundingLanguages.IsDead(fsm.Value(), s)
    ensures Accepting(sc, a) && sc.DeadComplete() && Reduced(sc.Machine()) && AllReached(sc.Machine())
  {
    var d, e := fsm.Machine(), sc.Machine();
    fsm.MachineLanguage();
    forall w | IsWord(w) ensures IsFinal(sc.flags)(Run(e, sc.initial, w)) <==> Accepts(a, w) {
      FinalAgrees(fsm, sc, 0, w);
      assert Accepts(a, w) <==> Accepts(fsm.Value(), w);
    }
    forall s: nat | s < sc.Size() ensures sc.flags[s].dead <==> forall w | IsWord(w) :: !AcceptsFrom(e, s, w) {
      DeadAgrees(fsm, s);
      forall w | IsWord(w) ensures AcceptsFrom(e, s, w) <==> AcceptsFrom(d, s, w) {
        SameRun(d, e, s, w);
      }
    }
    SameReduced(d, e);
  }

  lemma FinalAgrees(fsm: Fsm, sc: Scanner, s: nat, w: Word)
    requires fsm.Machine().Valid() && sc.Wf() && SameMachine(fsm.Machine(), sc.Machine()) && IsWord(w) && s < sc.Size()
    ensures IsFinal(sc.flags)(Run(sc.Machine(), s, w)) <==> AcceptsFrom(fsm.Machine(), s, w)
  {
    SameRun(fsm.Machine(), sc.Machine(), s, w);
    RunStays(fsm.Machine(), s, w);
    var q := Run(fsm.Machine(), s, w);
    assert q in sc.Machine().finals <==> sc.flags[q].final;
  }

  /** In a complete deterministic machine without unreachable states, dead means accepting nothing. */
  lemma DeadAgrees(fsm: Fsm, s: nat)
    requires fsm.Valid() && fsm.determined && s < fsm.Size()
    ensures SurroundingLanguages.IsDead(fsm.Value(), s) <==> forall w | IsWord(w) :: !AcceptsFrom(fsm.Machine(), s, w)
  {
    var a, d := fsm.Value(), fsm.Machine();
    fsm.MachineLanguage();
    assert SubsetTables.Reaches(d, s);
    var u :| IsWord(u) && Run(d, d.initial, u) == s;
    RepresentedRun(a, d, d.initial, u, s);
    assert IsReached(a, s);
    if CanEnd(a, s) {
      var w, f :| f in a.finals && Leads(a.edges, s, w, f);
      LeadsReadsLetters(a.edges, s, w, f);
      RepresentedRun(a, d, s, w, f);
      assert AcceptsFrom(d, s, w);
    }
    if w :| IsWord(w) && AcceptsFrom(d, s, w) {
      RepresentedRun(a, d, s, w, Run(d, s, w));
      assert CanEnd(a, s);
    }
  }

  lemma SameReduced(d: Dfa, e: Dfa)
    requires SameMachine(d, e) && d.Valid() && Reduced(d) && AllReached(d)
    ensures Reduced(e) && AllReached(e)
  {
    forall p: nat, q: nat | p < e.size && q < e.size && Equivalent(e, p, q) ensures p == q {
      forall w | IsWord(w) ensures AcceptsFrom(d, p, w) <==> AcceptsFrom(d, q, w) {
        SameRun(d, e, p, w);
        SameRun(d, e, q, w);
        assert AcceptsFrom(e, p, w) <==> AcceptsFrom(e, q, w);
      }
      assert Equivalent(d, p, q);
    }
    forall p: nat | p < e.size ensures SubsetTables.Reaches(e, p) {
      assert SubsetTables.Reaches(d, p);
      var w :| IsWord(w) && Run(d, d.initial, w) == p;
      SameRun(d, e, d.initial, w);
    }
  }
}
