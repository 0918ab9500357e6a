/** Agglutinating two scanners into one that answers for both. */
module Glueing {
  import opened Automaton
  import opened Cells
  import opened Options
  import opened Partitions
  import opened Letters
  import opened Deterministic
  import opened Determination
  import opened FiniteStateMachine
  import opened Shortcuts
  import opened Scanners
  import opened PairSearch
  import Minimality
  import VisitedSubsets

  /** The default limit of new states. */
  const DEF_MAX_SIZE: nat := 80000
  /** The size of the lookup table of glued states. */
  const TABLE_SIZE: nat := 256 * 1024

  // ---- the product ----

  /** d steps through pairs of states of dl and dr. */
  ghost predicate Glued(d: Dfa, dl: Dfa, dr: Dfa, states: seq<Pair>) {
    && d.size == |states| > 0 && d.initial == 0 && states[0] == Pair(dl.initial, dr.initial)
    && (forall i: nat | i < d.size :: states[i].left < dl.size && states[i].right < dr.size)
    && (forall i: nat, c: nat | i < d.size && IsLetter(c) :: GluedStep(d, dl, dr, states, i, c))
  }

  ghost predicate GluedStep(d: Dfa, dl: Dfa, dr: Dfa, states: seq<Pair>, i: nat, c: nat)
    requires i < |states|
  {
    var j := d.next(i, c);
    j < |states| && states[j] == Pair(dl.next(states[i].left, c), dr.next(states[i].right, c))
  }

  /** Running the glued machine runs both. */
  lemma {:induction false} GluedRun(d: Dfa, dl: Dfa, dr: Dfa, states: seq<Pair>, i: nat, w: Word)
    requires Glued(d, dl, dr, states) && i < d.size && IsWord(w)
    ensures Run(d, i, w) < |states|
    ensures states[Run(d, i, w)] == Pair(Run(dl, states[i].left, w), Run(dr, states[i].right, w))
    decreases |w|
  {
    if w != [] {
      TailIsWord(w);
      assert GluedStep(d, dl, dr, states, i, w[0]);
      GluedRun(d, dl, dr, states, d.next(i, w[0]), w[1..]);
    }
  }

  /** Exploring stays within both scanners. */
  lemma {:induction false} ExploresWithin(dl: Dfa, dr: Dfa, letters: set<nat>, s: Pair, w: seq<nat>, t: Pair)
    requires dl.Valid() && dr.Valid() && s.left < dl.size && s.right < dr.size && forall k | k in letters :: IsLetter(k)
    requires Explores(GlueTask(dl.next, dl.initial, dr.next, dr.initial), letters, s, w, t)
    ensures t.left < dl.size && t.right < dr.size
    decreases |w|
  {
    if w != [] {
      ExploresWithin(dl, dr, letters, Pair(dl.next(s.left, w[0]), dr.next(s.right, w[0])), w[1..], t);
    }
  }

  lemma ReachedWithin(dl: Dfa, dr: Dfa, letters: set<nat>, states: seq<Pair>)
    requires dl.Valid() && dr.Valid() && forall k | k in letters :: IsLetter(k)
    requires Complete(GlueTask(dl.next, dl.initial, dr.next, dr.initial), letters, states)
    ensures forall i: nat | i < |states| :: states[i].left < dl.size && states[i].right < dr.size
  {
    var task := GlueTask(dl.next, dl.initial, dr.next, dr.initial);
    forall i: nat | i < |states| ensures states[i].left < dl.size && states[i].right < dr.size {
      assert Reachable(task, letters, states[i]);
      var w :| Explores(task, letters, task.initial, w, states[i]);
      ExploresWithin(dl, dr, letters, task.initial, w, states[i]);
    }
  }

  // ---- letters ----

  /** What both scanners make of a letter. */
  function LetterKeys(left: seq<nat>, right: seq<nat>): map<nat, Pair>
    requires |left| == |right| == MAX_CHAR
  {
    map c: nat | c < MAX_CHAR :: Pair(left[c], right[c])
  }

  /** Both scanners step alike on the letters of one class. */
  lemma ClassStepsAlike(classes: Classes, left: Scanner, right: Scanner, c: nat)
    requires left.Wf() && right.Wf() && OverLetters(classes) && Total(classes.inv) && IsLetter(c)
    requires classes.Separates(LetterKeys(left.letters, right.letters))
    ensures classes.inv[c] in classes.table && IsLetter(classes.inv[c])
    ensures left.letters[classes.inv[c]] == left.letters[c] && right.letters[classes.inv[c]] == right.letters[c]
  {
    var key := LetterKeys(left.letters, right.letters);
    RepresentativeAndIndex(classes, key, c, c);
    assert At(key, c) == At(key, classes.inv[c]);
  }

  // ---- how many pairs there are ----

  /** Some word leads the two machines to the two states of the pair. */
  ghost predicate Meets(dl: Dfa, dr: Dfa, s: Pair) {
    exists w :: IsWord(w) && s == Pair(Run(dl, dl.initial, w), Run(dr, dr.initial, w))
  }

  /** The machines meet in more than n pairs of states. */
  ghost predicate MeetsMore(dl: Dfa, dr: Dfa, n: nat) {
    exists seen: seq<Pair> :: |seen| > n && Distinct(seen) && AllMeet(dl, dr, seen)
  }

  ghost predicate AllMeet(dl: Dfa, dr: Dfa, seen: seq<Pair>) {
    forall i: nat | i < |seen| :: Meets(dl, dr, seen[i])
  }

  lemma {:induction false} ExploresIsRun(dl: Dfa, dr: Dfa, letters: set<nat>, s: Pair, w: seq<nat>, t: Pair)
    requires forall k | k in letters :: IsLetter(k)
    requires Explores(GlueTask(dl.next, dl.initial, dr.next, dr.initial), letters, s, w, t)
    ensures IsWord(w) && t == Pair(Run(dl, s.left, w), Run(dr, s.right, w))
    decreases |w|
  {
    if w != [] {
      ExploresIsRun(dl, dr, letters, Pair(dl.next(s.left, w[0]), dr.next(s.right, w[0])), w[1..], t);
      assert w == [w[0]] + w[1..];
    }
  }

  lemma {:induction false} RunIsExplored(classes: Classes, left: Scanner, right: Scanner, s: Pair, w: Word)
    requires left.Wf() && right.Wf() && OverLetters(classes) && Total(classes.inv) && IsWord(w)
    requires classes.Separates(LetterKeys(left.letters, right.letters))
    ensures Explores(GlueTask(left.Machine().next, left.initial, right.Machine().next, right.initial),
        classes.table.Keys, s,
      VisitedSubsets.Standing(classes.inv, w), Pair(Run(left.Machine(), s.left, w), Run(right.Machine(), s.right, w)))
    decreases |w|
  {
    hide Classes.Separates;
    if w != [] {
      TailIsWord(w);
      ClassStepsAlike(classes, left, right, w[0]);
      var v := VisitedSubsets.Standing(classes.inv, w);
      assert v[0] == classes.inv[w[0]] && v[1..] == VisitedSubsets.Standing(classes.inv, w[1..]);
      RunIsExplored(classes, left, right,
          Pair(left.Machine().next(s.left, w[0]), right.Machine().next(s.right, w[0])), w[1..]);
    }
  }

  lemma TooManyMeet(dl: Dfa, dr: Dfa, letters: set<nat>, seen: seq<Pair>, limit: nat)
    requires forall k | k in letters :: IsLetter(k)
    requires TooMany(GlueTask(dl.next, dl.initial, dr.next, dr.initial), letters, seen, limit)
    ensures MeetsMore(dl, dr, limit + 1)
  {
    hide MeetsMore, GlueTask;
    ManyMeet(dl, dr, letters, seen);
  }

  lemma InitialPair(dl: Dfa, dr: Dfa)
    ensures GlueTask(dl.next, dl.initial, dr.next, dr.initial).initial == Pair(dl.initial, dr.initial)
  {
  }

  lemma CompleteMeetsNoMore(classes: Classes, left: Scanner, right: Scanner, states: seq<Pair>, limit: nat)
    requires left.Wf() && right.Wf() && OverLetters(classes) && Total(classes.inv) && |states| <= limit
    requires classes.Separates(LetterKeys(left.letters, right.letters))
    requires Complete(GlueTask(left.Machine().next, left.initial, right.Machine().next, right.initial),
        classes.table.Keys, states)
    ensures !MeetsMore(left.Machine(), right.Machine(), limit)
  {
    hide Explores, GlueTask, Total, OverLetters;
    hide Classes.Separates;
    var dl, dr := left.Machine(), right.Machine();
    var task := GlueTask(dl.next, dl.initial, dr.next, dr.initial);
    InitialPair(dl, dr);
    if MeetsMore(dl, dr, limit) {
      var seen: seq<Pair> :| |seen| > limit && Distinct(seen) && AllMeet(dl, dr, seen);
      forall i: nat | i < |seen| ensures Holds(states, seen[i]) {
        assert Meets(dl, dr, seen[i]);
        var w :| IsWord(w) && seen[i] == Pair(Run(dl, dl.initial, w), Run(dr, dr.initial, w));
        RunIsExplored(classes, left, right, Pair(dl.initial, dr.initial), w);
        assert Reachable(task, classes.table.Keys, seen[i]);
      }
      VisitedSubsets.NoMoreThanHeld(seen, states);
    }
  }

  /** There are no more pairs than the product of the sizes. */
  lemma NoMoreThanProduct(dl: Dfa, dr: Dfa, n: nat)
    requires dl.Valid() && dr.Valid() && dl.size * dr.size <= n
    ensures !MeetsMore(dl, dr, n)
  {
    hide Cell;
    if MeetsMore(dl, dr, n) {
      var seen: seq<Pair> :| |seen| > n && Distinct(seen) && AllMeet(dl, dr, seen);
      forall i: nat | i < |seen| ensures seen[i].left < dl.size && seen[i].right < dr.size {
        MetWithin(dl, dr, seen[i]);
      }
      PairsFit(seen, dl.size, dr.size);
    }
  }

  lemma MetWithin(dl: Dfa, dr: Dfa, s: Pair)
    requires dl.Valid() && dr.Valid() && Meets(dl, dr, s)
    ensures s.left < dl.size && s.right < dr.size
  {
    var w :| IsWord(w) && s == Pair(Run(dl, dl.initial, w), Run(dr, dr.initial, w));
    RunStays(dl, dl.initial, w);
    RunStays(dr, dr.initial, w);
  }

  lemma PairsFit(seen: seq<Pair>, rows: nat, columns: nat)
    requires Distinct(seen) && forall i: nat | i < |seen| :: seen[i].left < rows && seen[i].right < columns
    ensures |seen| <= rows * columns
  {
    hide Cell;
    var h: seq<nat> := seq(|seen|, (i: int) requires 0 <= i < |seen| => Cell(seen[i].left, seen[i].right, columns));
    forall i: nat | i < |h| ensures h[i] < CellCount(rows, columns) {
      CellInRange(seen[i].left, seen[i].right, rows, columns);
    }
    forall i: nat, j: nat | i < |h| && j < |h| && h[i] == h[j] ensures i == j {
      CellsDiffer(seen[i].left, seen[i].right, seen[j].left, seen[j].right, columns);
      assert seen[i] == seen[j];
    }
    Minimality.Pigeonhole(h, CellCount(rows, columns));
  }

  // ---- accepted regexps ----

  function ShiftIds(ids: seq<nat>, n: nat): seq<nat> {
    seq(|ids|, i requires 0 <= i < |ids| => ids[i] + n)
  }

  /** The regexps of the left scanner, then those of the right one, renumbered. */
  function GluedLists(ll: seq<seq<nat>>, rl: seq<seq<nat>>, n: nat, states: seq<Pair>): (lists: seq<seq<nat>>)
    requires forall i: nat | i < |states| :: states[i].left < |ll| && states[i].right < |rl|
    ensures |lists| == |states|
    ensures forall i: nat | i < |states| :: lists[i] == ll[states[i].left] + ShiftIds(rl[states[i].right], n)
  {
    seq(|states|, i requires 0 <= i < |states| => ll[states[i].left] + ShiftIds(rl[states[i].right], n))
  }

  method ReadList(sc: Scanner, state: nat, ghost lists: seq<seq<nat>>) returns (ids: seq<nat>)
    requires sc.Wf() && sc.ListsComplete(lists) && state < sc.Size()
    ensures ids == lists[state]
  {
    ListIsRead(sc.final, sc.finalIndex[state], lists[state]);
    ids := sc.AcceptedRegexps(state);
  }

  /** How many entries the lists of all pairs need. */
  method CountEntries(left: Scanner, ghost ll: seq<seq<nat>>, right: Scanner, ghost rl: seq<seq<nat>>,
      states: seq<Pair>) returns (entries: nat)
    requires left.Wf() && left.ListsComplete(ll) && right.Wf() && right.ListsComplete(rl)
    requires forall i: nat | i < |states| :: states[i].left < left.Size() && states[i].right < right.Size()
    ensures entries + |states| == TableSize(GluedLists(ll, rl, left.regexpsCount, states))
  {
    hide ListsLaid, TableSize;
    ghost var lists := GluedLists(ll, rl, left.regexpsCount, states);
    entries := 0;
    NoListsLaid([], seq(|lists|, i => 0), lists);
    for i: nat := 0 to |states|
      invariant entries + i == TableSize(lists[..i])
    {
      var a := ReadList(left, states[i].left, ll);
      var b := ReadList(right, states[i].right, rl);
      TableSizeGrows(lists, i);
      entries := entries + |a| + |b|;
    }
    assert lists[..|states|] == lists;
  }

  /** The product of two scanners: for every word, what it accepts, and whether it is final or dead. */
  ghost predicate AnswersForBoth(sc: Scanner, lists: seq<seq<nat>>, left: Scanner, ll: seq<seq<nat>>, right: Scanner,
      rl: seq<seq<nat>>)
    requires sc.Ready(lists) && left.Ready(ll) && right.Ready(rl)
    reads sc, left, right
  {
    && sc.regexpsCount == left.regexpsCount + right.regexpsCount
    && forall w | IsWord(w) :: AnswersOn(sc, lists, left, ll, right, rl, w)
  }

  ghost predicate AnswersOn(sc: Scanner, lists: seq<seq<nat>>, left: Scanner, ll: seq<seq<nat>>, right: Scanner,
      rl: seq<seq<nat>>, w: Word)
    requires sc.Ready(lists) && left.Ready(ll) && right.Ready(rl)
    reads sc, left, right
  {
    var s, p, q := Run(sc.Machine(), sc.initial, w), Run(left.Machine(), left.initial, w),
        Run(right.Machine(), right.initial, w);
    && s < sc.Size() && p < left.Size() && q < right.Size()
    && lists[s] == ll[p] + ShiftIds(rl[q], left.regexpsCount)
    && (sc.flags[s].final <==> left.flags[p].final || right.flags[q].final)
    && (sc.flags[s].dead <==> left.flags[p].dead && right.flags[q].dead)
  }

  /** After every word the glued scanner lists the patterns of the left one, then those of the right one, that accept
      it. */
  lemma GluedRecognises(sc: Scanner, lists: seq<seq<nat>>, left: Scanner, ll: seq<seq<nat>>, right: Scanner,
      rl: seq<seq<nat>>, ps: seq<Nfa>, qs: seq<Nfa>)
    requires sc.Ready(lists) && left.Ready(ll) && right.Ready(rl) && AnswersForBoth(sc, lists, left, ll, right, rl)
    requires Recognises(left, ps) && Recognises(right, qs)
    ensures Recognises(sc, ps + qs)
  {
    hide Lists, ListAt, Run;
    hide Scanner.MasksComplete;
    hide Scanner.DeadComplete;
    hide Scanner.ListsComplete;
    forall w | IsWord(w) ensures RecognisesOn(sc, ps + qs, w) {
      assert AnswersOn(sc, lists, left, ll, right, rl, w) && RecognisesOn(left, ps, w) && RecognisesOn(right, qs, w);
      var s, p, q := Run(sc.Machine(), sc.initial, w), Run(left.Machine(), left.initial, w),
          Run(right.Machine(), right.initial, w);
      ListOfState(sc, lists, s);
      ListOfState(left, ll, p);
      ListOfState(right, rl, q);
      BothList(ll[p], ps, rl[q], qs, w);
    }
  }

  lemma BothList(a: seq<nat>, ps: seq<Nfa>, b: seq<nat>, qs: seq<Nfa>, w: Word)
    requires Lists(a, ps, w) && Lists(b, qs, w)
    ensures Lists(a + ShiftIds(b, |ps|), ps + qs, w)
  {
    hide Accepts;
    var ids := a + ShiftIds(b, |ps|);
    forall i: nat ensures i in ids <==> i < |ps + qs| && Accepts((ps + qs)[i], w) {
      Shifted(b, |ps|, i);
      if i < |ps| { assert (ps + qs)[i] == ps[i]; }
      else if i < |ps + qs| { assert (ps + qs)[i] == qs[i - |ps|]; }
    }
    forall j: nat, k: nat | j < k < |ids| ensures ids[j] < ids[k] {
      if j < |a| { assert a[j] in a; }
    }
  }

  lemma Shifted(b: seq<nat>, n: nat, i: nat)
    ensures i in ShiftIds(b, n) <==> i >= n && i - n in b
  {
    if i >= n && i - n in b {
      var k: nat :| k < |b| && b[k] == i - n;
      assert ShiftIds(b, n)[k] == i;
    }
  }

  // ---- building the product ----

  /** Tags of a pair. */
  function GluedFlags(left: seq<Flags>, right: seq<Flags>, s: Pair): Flags
    requires s.left < |left| && s.right < |right|
  {
    Flags(left[s.left].final || right[s.right].final, left[s.left].dead && right[s.right].dead)
  }

  /** Makes the scanner for the pairs found, with their lists and tags, but without transitions. */
  method AcceptStates(left: Scanner, ghost ll: seq<seq<nat>>, right: Scanner, ghost rl: seq<seq<nat>>,
      letters: Classes, states: seq<Pair>) returns (sc: Scanner)
    requires left.Wf() && left.ListsComplete(ll) && right.Wf() && right.ListsComplete(rl) && |states| > 0
    requires OverLetters(letters) && Total(letters.inv)
    requires forall i: nat | i < |states| :: states[i].left < left.Size() && states[i].right < right.Size()
    ensures fresh(sc) && sc.Wf() && sc.Size() == |states| && sc.initial == 0 && TranslatesBy(sc.letters, letters)
    ensures sc.maskCount == left.maskCount && sc.regexpsCount == left.regexpsCount + right.regexpsCount
    ensures sc.ListsComplete(GluedLists(ll, rl, left.regexpsCount, states))
    ensures forall i: nat | i < |states| :: sc.flags[i] == GluedFlags(left.flags, right.flags, states[i])
  {
    hide ListsLaid, TableSize, OverLetters, Total, TranslatesBy, GluedFlags;
    hide Scanner.Wf;
    left.Shape();
    right.Shape();
    ghost var lists := GluedLists(ll, rl, left.regexpsCount, states);
    var finalTableSize := CountEntries(left, ll, right, rl, states);
    sc := new Scanner.Init(|states|, letters, finalTableSize, 0, left.regexpsCount + right.regexpsCount,
        left.maskCount);
    sc.Shape();
    NoListsLaid(sc.final, sc.finalIndex, lists);
    for state: nat := 0 to |states|
      invariant sc.Wf() && |sc.flags| == |sc.finalIndex| == |states| && sc.Size() == |states| &&
          |sc.final| == TableSize(lists)
      invariant ListsLaid(sc.final, sc.finalIndex, lists, state) && sc.finalEnd == TableSize(lists[..state])
      invariant sc.initial == 0 && TranslatesBy(sc.letters, letters) &&
          sc.regexpsCount == left.regexpsCount + right.regexpsCount
      invariant forall i: nat | i < state :: sc.flags[i] == GluedFlags(left.flags, right.flags, states[i])
    {
      var a := ReadList(left, states[state].left, ll);
      var b := ReadList(right, states[state].right, rl);
      sc.WriteList(state, a + ShiftIds(b, left.regexpsCount), lists);
      sc.SetTag(state, GluedFlags(left.flags, right.flags, states[state]));
    }
    assert lists[..|lists|] == lists;
  }

  /** The first m calls are in the table. */
  ghost predicate JumpsMade(letters: seq<nat>, transitions: seq<seq<nat>>, calls: seq<Call>, m: nat) {
    m <= |calls| && forall n: nat | n < m :: JumpMade(letters, transitions, calls[n])
  }

  ghost predicate JumpMade(letters: seq<nat>, transitions: seq<seq<nat>>, call: Call) {
    && call.from < |transitions| && call.letter < |letters| && letters[call.letter] < |transitions[call.from]|
    && transitions[call.from][letters[call.letter]] == call.to
  }

  method ConnectCalls(sc: Scanner, letters: Classes, calls: seq<Call>, ghost task: Task<Pair>, ghost states: seq<Pair>)
    requires sc.Wf() && sc.Size() == |states| && OverLetters(letters) && TranslatesBy(sc.letters, letters)
    requires Connects(task, letters.table.Keys, states, calls)
    modifies sc`transitions
    ensures sc.Wf() && sc.Size() == |states| && JumpsMade(sc.letters, sc.transitions, calls, |calls|)
  {
    hide TranslatesBy, OverLetters, JumpMade, Connects;
    for m: nat := 0 to |calls|
      invariant sc.Wf() && sc.Size() == |states| && JumpsMade(sc.letters, sc.transitions, calls, m)
    {
      CallInRange(letters, calls, task, states, m);
      ghost var before := sc.transitions;
      sc.SetJump(calls[m].from, calls[m].letter, calls[m].to);
      forall n: nat | n < m ensures JumpMade(sc.letters, sc.transitions, calls[n]) {
        JumpKept(sc.letters, before, sc.transitions, letters, calls, task, states, n, m);
      }
      JumpDone(sc.letters, before, sc.transitions, calls[m]);
    }
  }

  lemma CallInRange(letters: Classes, calls: seq<Call>, task: Task<Pair>, states: seq<Pair>, m: nat)
    requires OverLetters(letters) && Connects(task, letters.table.Keys, states, calls) && m < |calls|
    ensures calls[m].from < |states| && calls[m].to < |states| && calls[m].letter in letters.table &&
        IsLetter(calls[m].letter)
  {
    assert RightCall(task, letters.table.Keys, states, calls[m]);
    KeyIsItem(letters, calls[m].letter);
  }

  lemma JumpDone(table: seq<nat>, before: seq<seq<nat>>, after: seq<seq<nat>>, call: Call)
    requires call.from < |before| && call.letter < |table| && table[call.letter] < |before[call.from]|
    requires after == WithJump(before, call.from, table[call.letter], call.to)
    ensures JumpMade(table, after, call)
  {
  }

  /** Another call fills another cell. */
  lemma JumpKept(table: seq<nat>, before: seq<seq<nat>>, after: seq<seq<nat>>, letters: Classes, calls: seq<Call>,
      task: Task<Pair>, states: seq<Pair>, n: nat, m: nat)
    requires OverLetters(letters) && TranslatesBy(table, letters) && Connects(task, letters.table.Keys, states, calls)
    requires n < m < |calls| && calls[m].from < |before| && calls[m].letter < |table| &&
        table[calls[m].letter] < |before[calls[m].from]|
    requires after == WithJump(before, calls[m].from, table[calls[m].letter], calls[m].to) &&
        JumpMade(table, before, calls[n])
    ensures JumpMade(table, after, calls[n])
  {
    assert !SameSource(calls[n], calls[m]);
    CallInRange(letters, calls, task, states, n);
    CallInRange(letters, calls, task, states, m);
    var a, b := calls[n].letter, calls[m].letter;
    KeyIsItem(letters, a);
    KeyIsItem(letters, b);
    assert letters.Index(a) == Some(table[a]) && letters.Index(b) == Some(table[b]);
    assert table[a] == table[b] ==> a == b;
  }

  lemma CompleteStarts(dl: Dfa, dr: Dfa, letters: set<nat>, states: seq<Pair>)
    requires Complete(GlueTask(dl.next, dl.initial, dr.next, dr.initial), letters, states)
    ensures |states| > 0 && states[0] == Pair(dl.initial, dr.initial)
  {
  }

  /** With all calls made, the scanner steps through the pairs. */
  lemma CallsGlue(sc: Scanner, left: Scanner, right: Scanner, letters: Classes, states: seq<Pair>, calls: seq<Call>)
    requires sc.Wf() && left.Wf() && right.Wf() && sc.Size() == |states| && sc.initial == 0
    requires OverLetters(letters) && Total(letters.inv) && TranslatesBy(sc.letters, letters)
    requires letters.Separates(LetterKeys(left.letters, right.letters))
    requires var task := GlueTask(left.Machine().next, left.initial, right.Machine().next, right.initial);
      Complete(task, letters.table.Keys, states) && Connects(task, letters.table.Keys, states, calls)
    requires JumpsMade(sc.letters, sc.transitions, calls, |calls|)
    ensures Glued(sc.Machine(), left.Machine(), right.Machine(), states)
  {
    hide Connects, Complete, JumpsMade, TranslatesBy, Total, OverLetters, GluedStep, GlueTask, Stepper;
    hide Classes.Separates;
    var d, dl, dr := sc.Machine(), left.Machine(), right.Machine();
    left.MachineIsValid();
    right.MachineIsValid();
    LettersAreKeys(letters);
    CompleteStarts(dl, dr, letters.table.Keys, states);
    ReachedWithin(dl, dr, letters.table.Keys, states);
    forall i: nat, c: nat | i < d.size && IsLetter(c) ensures GluedStep(d, dl, dr, states, i, c) {
      CallGlues(sc, left, right, letters, states, calls, i, c);
    }
  }

  lemma CallGlues(sc: Scanner, left: Scanner, right: Scanner, letters: Classes, states: seq<Pair>, calls: seq<Call>,
      i: nat, c: nat)
    requires sc.Wf() && left.Wf() && right.Wf() && sc.Size() == |states|
    requires OverLetters(letters) && Total(letters.inv) && TranslatesBy(sc.letters, letters)
    requires letters.Separates(LetterKeys(left.letters, right.letters))
    requires Connects(GlueTask(left.Machine().next, left.initial, right.Machine().next, right.initial),
        letters.table.Keys, states, calls)
    requires JumpsMade(sc.letters, sc.transitions, calls, |calls|)
    requires i < |states| && IsLetter(c) && states[i].left < left.Size() && states[i].right < right.Size()
    ensures GluedStep(sc.Machine(), left.Machine(), right.Machine(), states, i, c)
  {
    hide Scanner.ListsComplete;
    var task := GlueTask(left.Machine().next, left.initial, right.Machine().next, right.initial);
    ClassStepsAlike(letters, left, right, c);
    var k: nat := letters.inv[c];
    KeyIsItem(letters, k);
    assert letters.Index(c) == Some(sc.letters[c]) && letters.Index(k) == Some(sc.letters[k]);
    assert Called(calls, i, k);
    var m: nat :| m < |calls| && calls[m].from == i && calls[m].letter == k;
    assert RightCall(task, letters.table.Keys, states, calls[m]);
    assert JumpMade(sc.letters, sc.transitions, calls[m]);
    assert sc.Machine().next(i, c) == calls[m].to;
  }

  /** A scanner that steps through the pairs, with their lists and tags, answers for both. */
  lemma GluedAnswers(sc: Scanner, lists: seq<seq<nat>>, left: Scanner, ll: seq<seq<nat>>, right: Scanner,
      rl: seq<seq<nat>>, states: seq<Pair>)
    requires sc.Wf() && sc.ListsComplete(lists) && sc.MasksComplete() && left.Ready(ll) && right.Ready(rl)
    requires Glued(sc.Machine(), left.Machine(), right.Machine(), states)
    requires sc.regexpsCount == left.regexpsCount + right.regexpsCount
    requires lists == GluedLists(ll, rl, left.regexpsCount, states)
    requires forall i: nat | i < |states| :: sc.flags[i] == GluedFlags(left.flags, right.flags, states[i])
    ensures sc.Ready(lists) && AnswersForBoth(sc, lists, left, ll, right, rl)
  {
    hide Scanner.ListsComplete;
    hide Scanner.MasksComplete;
    hide Glued, GluedFlags;
    hide Scanner.DeadComplete;
    GluedShape(sc.Machine(), left.Machine(), right.Machine(), states);
    forall i: nat | i < sc.Size() ensures sc.flags[i].final <==> lists[i] != [] {
      FinalListed(sc, lists, left, ll, right, rl, states, i);
    }
    GluedDead(sc, left, right, states);
    forall w | IsWord(w) ensures AnswersOn(sc, lists, left, ll, right, rl, w) {
      GluedRun(sc.Machine(), left.Machine(), right.Machine(), states, 0, w);
      FlagsOfPair(sc, left, right, states, Run(sc.Machine(), 0, w));
    }
  }

  lemma GluedShape(d: Dfa, dl: Dfa, dr: Dfa, states: seq<Pair>)
    requires Glued(d, dl, dr, states)
    ensures d.size == |states| > 0 && d.initial == 0 && states[0] == Pair(dl.initial, dr.initial)
    ensures forall i: nat | i < d.size :: states[i].left < dl.size && states[i].right < dr.size
  {
  }

  lemma FlagsOfPair(sc: Scanner, left: Scanner, right: Scanner, states: seq<Pair>, i: nat)
    requires sc.Wf() && left.Wf() && right.Wf() && i < |states| == sc.Size() && states[i].left < left.Size() &&
        states[i].right < right.Size()
    requires sc.flags[i] == GluedFlags(left.flags, right.flags, states[i])
    ensures sc.flags[i].final <==> left.flags[states[i].left].final || right.flags[states[i].right].final
    ensures sc.flags[i].dead <==> left.flags[states[i].left].dead && right.flags[states[i].right].dead
  {
  }

  lemma FinalListed(sc: Scanner, lists: seq<seq<nat>>, left: Scanner, ll: seq<seq<nat>>, right: Scanner,
      rl: seq<seq<nat>>, states: seq<Pair>, i: nat)
    requires sc.Wf() && left.Ready(ll) && right.Ready(rl) && i < |states| == sc.Size()
    requires forall i: nat | i < |states| :: states[i].left < left.Size() && states[i].right < right.Size()
    requires lists == GluedLists(ll, rl, left.regexpsCount, states)
    requires sc.flags[i] == GluedFlags(left.flags, right.flags, states[i])
    ensures sc.flags[i].final <==> lists[i] != []
  {
    hide Scanner.ListsComplete;
    hide Scanner.MasksComplete;
    hide Scanner.DeadComplete;
    ReadyLists(left, ll, states[i].left);
    ReadyLists(right, rl, states[i].right);
    assert |ShiftIds(rl[states[i].right], left.regexpsCount)| == |rl[states[i].right]|;
  }

  lemma ReadyParts(sc: Scanner, lists: seq<seq<nat>>)
    requires sc.Ready(lists)
    ensures sc.Wf() && sc.ListsComplete(lists) && |lists| == sc.Size()
  {
  }

  lemma ReadyLists(sc: Scanner, lists: seq<seq<nat>>, s: nat)
    requires sc.Ready(lists) && s < sc.Size()
    ensures |lists| == sc.Size() && (sc.flags[s].final <==> lists[s] != [])
  {
  }

  /** A glued state is dead when no word is accepted by either scanner. */
  lemma GluedDead(sc: Scanner, left: Scanner, right: Scanner, states: seq<Pair>)
    requires sc.Wf() && left.Wf() && right.Wf() && left.DeadComplete() && right.DeadComplete()
    requires Glued(sc.Machine(), left.Machine(), right.Machine(), states)
    requires forall i: nat | i < |states| :: states[i].left < left.Size() && states[i].right < right.Size()
    requires forall i: nat | i < |states| :: sc.flags[i] == GluedFlags(left.flags, right.flags, states[i])
    ensures sc.DeadComplete()
  {
    var d, dl, dr := sc.Machine(), left.Machine(), right.Machine();
    forall i: nat | i < sc.Size() ensures sc.flags[i].dead <==> forall w | IsWord(w) :: !AcceptsFrom(d, i, w) {
      forall w | IsWord(w) ensures AcceptsFrom(d, i, w) <==>
          AcceptsFrom(dl, states[i].left, w) || AcceptsFrom(dr, states[i].right, w) {
        GluedAccepts(sc, left, right, states, i, w);
      }
    }
  }

  lemma GluedAccepts(sc: Scanner, left: Scanner, right: Scanner, states: seq<Pair>, i: nat, w: Word)
    requires sc.Wf() && left.Wf() && right.Wf() && Glued(sc.Machine(), left.Machine(), right.Machine(), states) &&
        i < |states| && IsWord(w)
    requires forall i: nat | i < |states| :: states[i].left < left.Size() && states[i].right < right.Size()
    requires forall i: nat | i < |states| :: sc.flags[i] == GluedFlags(left.flags, right.flags, states[i])
    ensures AcceptsFrom(sc.Machine(), i, w) <==>
        AcceptsFrom(left.Machine(), states[i].left, w) || AcceptsFrom(right.Machine(), states[i].right, w)
  {
    GluedRun(sc.Machine(), left.Machine(), right.Machine(), states, i, w);
    FlagsOfPair(sc, left, right, states, Run(sc.Machine(), i, w));
  }

  function GlueLimit(maxSize: nat): nat {
    if maxSize != 0 then maxSize else DEF_MAX_SIZE
  }

  /** The rows of two scanners lie at different addresses. */
  ghost predicate PlacesOf(places: Places, left: Scanner, right: Scanner)
    reads left, right
  {
    places.Valid() && |places.left| == left.Size() && |places.right| == right.Size()
  }

  lemma PairsArePlaced(places: Places, dl: Dfa, dr: Dfa, letters: set<nat>)
    requires dl.Valid() && dr.Valid() && forall k | k in letters :: IsLetter(k)
    requires |places.left| == dl.size && |places.right| == dr.size
    ensures AllPlacedIn(places, GlueTask(dl.next, dl.initial, dr.next, dr.initial), letters)
  {
    var task := GlueTask(dl.next, dl.initial, dr.next, dr.initial);
    forall s: Pair | Reachable(task, letters, s) ensures places.Has(s) {
      var w :| Explores(task, letters, task.initial, w, s);
      ExploresWithin(dl, dr, letters, task.initial, w, s);
    }
  }

  /** Makes the scanner for the pairs found. */
  method BuildGlued(left: Scanner, ghost ll: seq<seq<nat>>, right: Scanner, ghost rl: seq<seq<nat>>, letters: Classes,
      states: seq<Pair>, calls: seq<Call>) returns (sc: Scanner, ghost lists: seq<seq<nat>>)
    requires left.Ready(ll) && right.Ready(rl)
    requires OverLetters(letters) && Total(letters.inv) && letters.Separates(LetterKeys(left.letters, right.letters))
    requires var task := GlueTask(left.Machine().next, left.initial, right.Machine().next, right.initial);
      Complete(task, letters.table.Keys, states) && Connects(task, letters.table.Keys, states, calls)
    ensures fresh(sc) && sc.Ready(lists) && sc.Size() == |states| && AnswersForBoth(sc, lists, left, ll, right, rl)
  {
    hide GlueTask, Stepper, OverLetters, ListsLaid, Total, TranslatesBy, Complete, Connects;
    hide JumpsMade, Glued, AnswersForBoth, AnswersOn, MasksMark, GluedFlags;
    hide Scanner.Ready;
    hide Scanner.DeadComplete;
    hide Scanner.ListsComplete;
    hide Classes.Separates;
    ReadyParts(left, ll);
    ReadyParts(right, rl);
    left.MachineIsValid();
    right.MachineIsValid();
    LettersAreKeys(letters);
    ghost var task := GlueTask(left.Machine().next, left.initial, right.Machine().next, right.initial);
    CompleteStarts(left.Machine(), right.Machine(), letters.table.Keys, states);
    ReachedWithin(left.Machine(), right.Machine(), letters.table.Keys, states);
    sc := AcceptStates(left, ll, right, rl, letters, states);
    lists := GluedLists(ll, rl, left.regexpsCount, states);
    ConnectCalls(sc, letters, calls, task, states);
    CallsGlue(sc, left, right, letters, states, calls);
    sc.BuildShortcuts();
    GluedAnswers(sc, lists, left, ll, right, rl, states);
  }

  /** How the agglutination of two scanners ends. */
  ghost predicate GlueEnds(r: Option<Scanner>, lost: bool, dl: Dfa, dr: Dfa, limit: nat)
  {
    && (lost ==> limit >= 262142 && r.None? && MeetsMore(dl, dr, 262142))
    && (limit >= 262143 && MeetsMore(dl, dr, 262144) ==> lost)
    && (!lost ==> (r.Some? <==> !MeetsMore(dl, dr, limit + 1)))
  }

  /** The pairs are looked up in a table of fixed size, and `lost` says that a search in it ended at no slot: nothing
      is promised then. Below a limit of two less than the table has slots, or with so few pairs, that does not
      happen, and it is bound to happen when both exceed the table. Otherwise there is a result exactly if the pairs
      do not exceed the limit. */
  method GlueBoth(left: Scanner, ghost ll: seq<seq<nat>>, right: Scanner, ghost rl: seq<seq<nat>>, places: Places,
      limit: nat) returns (r: Option<Scanner>, lost: bool, ghost lists: seq<seq<nat>>)
    requires left.Ready(ll) && right.Ready(rl) && PlacesOf(places, left, right)
    ensures GlueEnds(r, lost, left.Machine(), right.Machine(), limit)
    ensures r.Some? ==> r.value.Ready(lists) && AnswersForBoth(r.value, lists, left, ll, right, rl)
    ensures r.Some? ==> r.value.Size() <= limit + 1
    ensures r.Some? ==> forall ps, qs | Recognises(left, ps) && Recognises(right, qs) :: Recognises(r.value, ps + qs)
    ensures left.Size() * right.Size() <= limit + 1 && left.Size() * right.Size() <= 262142 ==> r.Some?
  {
    hide MeetsMore, TooMany, GlueTask, Stepper, OverLetters, Total, Complete, Connects, AnswersForBoth, AllPlacedIn;
    hide Distinct, AllReachable, Recognises;
    hide Scanner.Ready;
    hide Classes.Separates;
    hide Places.Valid;
    ReadyParts(left, ll);
    ReadyParts(right, rl);
    left.MachineIsValid();
    right.MachineIsValid();
    ghost var dl, dr := left.Machine(), right.Machine();
    FewPairsFit(dl, dr, limit);
    lists := [];
    var letters := ClassAll(LetterKeys(left.letters, right.letters));
    LettersAreKeys(letters);
    PairsArePlaced(places, dl, dr, letters.table.Keys);
    var end, seen := DeterminePairs(GlueTask(Stepper(left.letters, left.transitions), left.initial,
        Stepper(right.letters, right.transitions), right.initial), letters, limit, places, TABLE_SIZE);
    if end.Overflow? {
      ManyMeet(dl, dr, letters.table.Keys, seen);
      MeetsFewer(dl, dr, TABLE_SIZE - 2, |seen| - 1);
      return None, true, lists;
    }
    if end.outcome.Failure? {
      TooManyMeet(dl, dr, letters.table.Keys, seen, limit);
      return None, false, lists;
    }
    CompleteMeetsNoMore(letters, left, right, end.outcome.states, limit + 1);
    CompleteMeetsNoMore(letters, left, right, end.outcome.states, TABLE_SIZE);
    var sc;
    sc, lists := BuildGlued(left, ll, right, rl, letters, end.outcome.states, end.outcome.calls);
    r, lost := Some(sc), false;
    forall ps, qs | Recognises(left, ps) && Recognises(right, qs) ensures Recognises(sc, ps + qs) {
      GluedRecognises(sc, lists, left, ll, right, rl, ps, qs);
    }
  }

  lemma FewPairsFit(dl: Dfa, dr: Dfa, limit: nat)
    requires dl.Valid() && dr.Valid()
    ensures dl.size * dr.size <= limit + 1 ==> !MeetsMore(dl, dr, limit + 1)
    ensures dl.size * dr.size <= 262142 ==> !MeetsMore(dl, dr, 262142)
  {
    hide MeetsMore;
    if dl.size * dr.size <= limit + 1 { NoMoreThanProduct(dl, dr, limit + 1); }
    if dl.size * dr.size <= 262142 { NoMoreThanProduct(dl, dr, 262142); }
  }

  /** Agglutinates two scanners; an empty one is neutral. */
  method Glue(lhs: Option<Scanner>, ghost ll: seq<seq<nat>>, rhs: Option<Scanner>, ghost rl: seq<seq<nat>>,
      places: Places, maxSize: nat := 0)
    returns (r: Option<Scanner>, lost: bool, ghost lists: seq<seq<nat>>)
    requires lhs.Some? ==> lhs.value.Ready(ll)
    requires rhs.Some? ==> rhs.value.Ready(rl)
    requires lhs.Some? && rhs.Some? ==> PlacesOf(places, lhs.value, rhs.value)
    ensures lhs.None? ==> r == rhs && !lost
    ensures lhs.Some? && rhs.None? ==> r == lhs && !lost
    ensures lhs.Some? && rhs.Some? ==>
        GlueEnds(r, lost, lhs.value.Machine(), rhs.value.Machine(), if maxSize == 0 then 80000 else maxSize)
    ensures lhs.Some? && rhs.Some? && r.Some? ==> r.value.Ready(lists)
    ensures lhs.Some? && rhs.Some? && r.Some? ==> AnswersForBoth(r.value, lists, lhs.value, ll, rhs.value, rl)
    ensures lhs.Some? && rhs.Some? && r.Some? ==> r.value.Size() <= if maxSize == 0 then 80001 else maxSize + 1
    ensures lhs.Some? && rhs.Some? && r.Some? ==>
        forall ps, qs | Recognises(lhs.value, ps) && Recognises(rhs.value, qs) :: Recognises(r.value, ps + qs)
    ensures maxSize == 0 ==> !lost
    ensures maxSize == 0 && lhs.Some? && rhs.Some? && lhs.value.Size() * rhs.value.Size() <= 80001 ==> r.Some?
  {
    hide MeetsMore, AnswersForBoth, Recognises;
    hide Scanner.Ready;
    lists := [];
    if lhs.None? {
      return rhs, false, lists;
    }
    if rhs.None? {
      return lhs, false, lists;
    }
    r, lost, lists := GlueBoth(lhs.value, ll, rhs.value, rl, places, GlueLimit(maxSize));
  }

  /** There are machines that meet in any number of pairs, so a limit above the size of the table can be too much for
      it. */
  lemma ManyPairs(n: nat) returns (dl: Dfa, dr: Dfa)
    ensures dl.Valid() && dr.Valid() && MeetsMore(dl, dr, n)
  {
    dl := Dfa(n + 1, (p: nat, c: nat) => if p < n then p + 1 else p, 0, {});
    dr := Dfa(1, (p: nat, c: nat) => 0, 0, {});
    var seen: seq<Pair> := seq(n + 1, i requires 0 <= i < n + 1 => Pair(i, 0));
    forall i: nat | i < n + 1 ensures Meets(dl, dr, seen[i]) {
      CountsTo(dl, dr, n, i);
    }
    assert AllMeet(dl, dr, seen);
  }

  lemma {:induction false} CountsTo(dl: Dfa, dr: Dfa, n: nat, i: nat)
    requires i <= n && dl.initial == 0 && dr.initial == 0
    requires (forall p: nat, c: nat | p < n :: dl.next(p, c) == p + 1) && forall p: nat, c: nat :: dr.next(p, c) == 0
    ensures Meets(dl, dr, Pair(i, 0))
  {
    if i == 0 {
      assert IsWord([]) && Pair(0, 0) == Pair(Run(dl, 0, []), Run(dr, 0, []));
    } else {
      CountsTo(dl, dr, n, i - 1);
      var w :| IsWord(w) && Pair(i - 1, 0) == Pair(Run(dl, 0, w), Run(dr, 0, w));
      RunJoin(dl, 0, w, [0]);
      RunJoin(dr, 0, w, [0]);
      assert IsWord(w + [0]) && Run(dl, i - 1, [0]) == i && Run(dr, 0, [0]) == 0;
    }
  }

  /** Distinct pairs that are reached are met. */
  lemma ManyMeet(dl: Dfa, dr: Dfa, letters: set<nat>, seen: seq<Pair>)
    requires forall k | k in letters :: IsLetter(k)
    requires Distinct(seen) && seen != []
    requires AllReachable(GlueTask(dl.next, dl.initial, dr.next, dr.initial), letters, seen)
    ensures MeetsMore(dl, dr, |seen| - 1)
  {
    hide Explores, GlueTask;
    var task := GlueTask(dl.next, dl.initial, dr.next, dr.initial);
    InitialPair(dl, dr);
    forall i: nat | i < |seen| ensures Meets(dl, dr, seen[i]) {
      assert Reachable(task, letters, seen[i]);
      var w :| Explores(task, letters, task.initial, w, seen[i]);
      ExploresIsRun(dl, dr, letters, task.initial, w, seen[i]);
    }
    assert AllMeet(dl, dr, seen);
  }

  lemma MeetsFewer(dl: Dfa, dr: Dfa, m: nat, n: nat)
    requires m <= n && MeetsMore(dl, dr, n)
    ensures MeetsMore(dl, dr, m)
  {
  }

  lemma LettersAreKeys(letters: Classes)
    requires OverLetters(letters)
    ensures letters.Valid() && forall k | k in letters.table.Keys :: IsLetter(k)
  {
    forall k | k in letters.table.Keys ensures IsLetter(k) {
      KeyIsItem(letters, k);
    }
  }
}
