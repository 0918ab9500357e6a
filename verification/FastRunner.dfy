/** Running a packed scanner, skipping the words that cannot change its state. */
module FastRunning {
  import opened Automaton
  import opened Options
  import opened Deterministic
  import opened WordMasks
  import opened Runners
  import opened Shortcuts
  import opened Scanners
  import opened Skipping

  function TableOf(sc: Scanner): Table
    reads sc
  {
    Table(sc.letters, sc.transitions, sc.maskCount)
  }

  lemma TableIsSound(sc: Scanner)
    requires sc.Wf()
    ensures Sound(TableOf(sc)) && Next(TableOf(sc)) == Stepper(sc.letters, sc.transitions)
    ensures Closed(TableOf(sc), InTable(TableOf(sc))) && Inside(TableOf(sc), InTable(TableOf(sc)))
    ensures forall s: nat :: InTable(TableOf(sc))(s) <==> s < sc.Size()
  {
  }

  // ---- masks ----

  lemma LaneLeaves(w: Word64, exits: seq<nat>, i: nat)
    requires i < WORD_BYTES
    ensures Lane(w, i) as nat in exits ==> LeavesBelow(w, exits, |exits|)
  {
    hide Lane;
    ByteIsSmall(Lane(w, i));
    if Lane(w, i) as nat in exits {
      var j: nat :| j < |exits| && exits[j] == Lane(w, i) as nat;
      assert HasByte(w, ToByte(exits[j]));
    }
  }

  /** The bytes of a word in memory. */
  lemma BytesOfWord(words: seq<Word64>, k: nat, i: nat)
    requires k < |words| && i < WORD_BYTES
    ensures ByteAt(words, WORD_BYTES * k + i) == Lane(words[k], i) as nat < BYTE_COUNT
  {
    hide Lane;
    assert (WORD_BYTES * k + i) / WORD_BYTES == k && (WORD_BYTES * k + i) % WORD_BYTES == i;
    ByteIsSmall(Lane(words[k], i));
  }

  lemma WordLeaves(t: Table, words: seq<Word64>, k: nat, s: nat)
    requires Sound(t) && s < |t.transitions| && k < |words|
    requires LeavesBelow(words[k], ExitsAt(t, s), |ExitsAt(t, s)|)
    ensures !Stays(Next(t), words, WORD_BYTES * k, WORD_BYTES * k + WORD_BYTES, s)
  {
    hide Lane, ExitsAt, Next, Sound, ByteAt, ToByte;
    var exits := ExitsAt(t, s);
    ExitsOf(t, s);
    var j: nat :| j < |exits| && exits[j] < BYTE_COUNT && HasByte(words[k], ToByte(exits[j]));
    var i: nat :| i < WORD_BYTES && Lane(words[k], i) == ToByte(exits[j]);
    ByteOf(exits[j]);
    BytesOfWord(words, k, i);
    assert exits[j] in exits && Next(t)(s, exits[j]) != s;
  }

  lemma WordKept(t: Table, words: seq<Word64>, k: nat, s: nat)
    requires Sound(t) && s < |t.transitions| && k < |words|
    requires !LeavesBelow(words[k], ExitsAt(t, s), |ExitsAt(t, s)|)
    ensures Stays(Next(t), words, WORD_BYTES * k, WORD_BYTES * k + WORD_BYTES, s)
  {
    hide Lane, ExitsAt, Next, Sound, ByteAt, LeavesBelow;
    ExitsOf(t, s);
    forall a: nat | WORD_BYTES * k <= a < WORD_BYTES * k + WORD_BYTES ensures Next(t)(s, ByteAt(words, a)) == s {
      var i: nat := a - WORD_BYTES * k;
      BytesOfWord(words, k, i);
      LaneLeaves(words[k], ExitsAt(t, s), i);
    }
  }

  /** A word keeps the state exactly if it has none of the bytes that leave it. */
  lemma WordStays(t: Table, words: seq<Word64>, k: nat, s: nat)
    requires Sound(t) && s < |t.transitions| && k < |words|
    ensures Stays(Next(t), words, WORD_BYTES * k, WORD_BYTES * k + WORD_BYTES, s) <==>
      !LeavesBelow(words[k], ExitsAt(t, s), |ExitsAt(t, s)|)
  {
    hide ExitsAt, Next, Sound, Stays, LeavesBelow;
    if LeavesBelow(words[k], ExitsAt(t, s), |ExitsAt(t, s)|) {
      WordLeaves(t, words, k, s);
    } else {
      WordKept(t, words, k, s);
    }
  }

  predicate NoExit(sc: Scanner, state: nat)
    requires sc.Wf() && state < sc.Size()
    reads sc
  {
    sc.maskCount > 0 && sc.masks[state][0] == NO_EXIT_MASK
  }

  predicate NoShortcut(sc: Scanner, state: nat)
    requires sc.Wf() && state < sc.Size()
    reads sc
  {
    sc.maskCount == 0 || sc.masks[state][0] == NO_SHORTCUT_MASK
  }

  /** The first mask of a row tells whether its state is left, and whether by too many bytes. */
  lemma MasksTell(sc: Scanner, state: nat)
    requires sc.Wf() && sc.MasksComplete() && state < sc.Size()
    ensures NoExit(sc, state) <==> NeverLeft(TableOf(sc), state)
    ensures NoShortcut(sc, state) <==> Plain(TableOf(sc), state)
    ensures MasksMark(sc.masks[state], ExitsAt(TableOf(sc), state)) && |sc.masks[state]| == sc.maskCount
  {
    hide Exits;
    var exits := Exits(sc.letters, sc.transitions[state], state);
    assert MasksMark(sc.masks[state], exits);
    if sc.maskCount > 0 { FirstMaskTells(sc.masks[state], exits); }
  }

  /** No chunk of the word has a byte with a mask up to n. */
  predicate CheckWord(masks: seq<Word64>, n: nat, words: seq<Word64>, at: nat, wordSize: nat)
    requires n < |masks| && at + wordSize <= |words|
  {
    forall k: nat | at <= k < at + wordSize :: CheckMasks(masks, n, words[k])
  }

  /** Looks for the first machine word with a byte that leaves the state; stops exactly there. */
  method SkipWords(masks: seq<Word64>, words: seq<Word64>, head: nat, tail: nat, wordSize: nat, ghost exits: seq<nat>)
      returns (skipEnd: nat)
    requires MasksMark(masks, exits) && Unrepeated(exits) && 0 < |exits| <= |masks|
    requires head <= tail <= |words| && Whole(wordSize, tail - head)
    ensures head <= skipEnd <= tail && Whole(wordSize, tail - skipEnd)
    ensures forall k: nat | head <= k < skipEnd :: !LeavesBelow(words[k], exits, |exits|)
    ensures skipEnd < tail ==> exists k: nat ::
        skipEnd <= k < skipEnd + wordSize <= |words| && LeavesBelow(words[k], exits, |exits|)
  {
    hide LeavesBelow, MasksMark, CheckMasks;
    var n := 0;
    while n + 1 < |masks| && masks[n] != masks[n + 1]
      invariant n < |exits|
      decreases |masks| - n
    {
      EqualMasksAreLast(masks, exits, n);
      n := n + 1;
    }
    if n + 1 < |masks| { EqualMasksAreLast(masks, exits, n); }
    skipEnd := head;
    forall k: nat | k < |words| ensures CheckMasks(masks, n, words[k]) <==> !LeavesBelow(words[k], exits, |exits|) {
      CheckedBelow(masks, exits, n, words[k]);
    }
    while skipEnd != tail && CheckWord(masks, n, words, skipEnd, wordSize)
      invariant head <= skipEnd <= tail && Whole(wordSize, tail - skipEnd)
      invariant forall k: nat | head <= k < skipEnd :: !LeavesBelow(words[k], exits, |exits|)
      decreases tail - skipEnd
    {
      skipEnd := skipEnd + wordSize;
    }
  }

  // ---- the fast run ----

  /** Skipping as far as possible, the next machine word is stepped through in any case. */
  lemma {:induction false} SkipsTo<P>(t: Table, pred: (nat, nat, P) -> (Action, P), words: seq<Word64>, head: nat,
      skipEnd: nat, tail: nat, end: nat, wordSize: nat, s: nat, p: P)
    requires head <= skipEnd <= tail <= end <= |words| && Whole(wordSize, tail - head) &&
        Whole(wordSize, tail - skipEnd)
    requires Sound(t) && s < |t.transitions| && !Plain(t, s) && !NeverLeft(t, s)
    requires forall k: nat | head <= k < skipEnd :: !LeavesBelow(words[k], ExitsAt(t, s), |ExitsAt(t, s)|)
    requires skipEnd < tail ==> exists k: nat ::
        skipEnd <= k < skipEnd + wordSize <= |words| && LeavesBelow(words[k], ExitsAt(t, s), |ExitsAt(t, s)|)
    ensures SkipLoop(t, pred, words, head, tail, end, wordSize, false, s, p) ==
      SkipLoop(t, pred, words, skipEnd, tail, end, wordSize, true, s, p)
    decreases skipEnd - head
  {
    hide ByteLoop, ByteAt, LeavesBelow, Plain, NeverLeft, ExitsAt, Sound, Next, Asked;
    if head < skipEnd {
      MachineWordStays(t, words, head, wordSize, s);
      SkipsTo(t, pred, words, head + wordSize, skipEnd, tail, end, wordSize, s, p);
    } else if head < tail {
      MachineWordStays(t, words, head, wordSize, s);
    }
  }

  /** A machine word keeps the state exactly if none of its chunks has a byte that leaves it. */
  lemma MachineWordStays(t: Table, words: seq<Word64>, at: nat, wordSize: nat, s: nat)
    requires Sound(t) && s < |t.transitions| && at + wordSize <= |words| && (wordSize == 1 || wordSize == 2)
    ensures Stays(Next(t), words, WORD_BYTES * at, WORD_BYTES * (at + wordSize), s) <==>
      forall k: nat | at <= k < at + wordSize :: !LeavesBelow(words[k], ExitsAt(t, s), |ExitsAt(t, s)|)
  {
    hide ByteAt, LeavesBelow, ExitsAt, Sound, Next;
    WordStays(t, words, at, s);
    if wordSize == 2 { WordStays(t, words, at + 1, s); }
    var mid, to := WORD_BYTES * at + WORD_BYTES, WORD_BYTES * (at + wordSize);
    assert Stays(Next(t), words, WORD_BYTES * at, to, s) <==>
      Stays(Next(t), words, WORD_BYTES * at, mid, s) && Stays(Next(t), words, mid, to, s);
  }

  /** What is stepped through for want of a shortcut is stepped through. */
  lemma PlainIsSlow<P>(t: Table, pred: (nat, nat, P) -> (Action, P), words: seq<Word64>, at: nat, tail: nat, end: nat,
      wordSize: nat, slow: bool, s: nat, p: P)
    requires at <= tail <= end <= |words| && Whole(wordSize, tail - at) && slow == Plain(t, s)
    ensures SkipLoop(t, pred, words, at, tail, end, wordSize, slow, s, p) ==
      SkipLoop(t, pred, words, at, tail, end, wordSize, false, s, p)
  {
    hide ByteLoop, Plain, NeverLeft, Stays, Next, Asked;
  }

  /** Runs through whole chunks, skipping the machine words that cannot change the state. */
  method RunAligned<P(!new)>(sc: Scanner, pred: (nat, nat, P) -> (Action, P), words: seq<Word64>, s: nat, found: P,
      begin: nat, end: nat, wordSize: nat)
    returns (out: Outcome<nat, P>)
    requires sc.Wf() && sc.MasksComplete() && s < sc.Size()
    requires begin <= end <= |words| && (wordSize == 1 || wordSize == 2)
    ensures out.state < sc.Size()
    ensures out == SkipAligned(TableOf(sc), pred, words, begin, end, wordSize, s, found)
  {
    hide ByteLoop, Exits, ExitsAt, MasksMark, LeavesBelow, CheckMasks, Stays, Plain, NeverLeft, NoExit, NoShortcut;
    hide SkipLoop, Sound, Closed, Inside;
    hide Scanner.Wf;
    hide Scanner.MasksComplete;
    ghost var t := TableOf(sc);
    TableIsSound(sc);
    var next := Stepper(sc.letters, sc.transitions);
    var head, tail := HeadOf(begin, wordSize), TailOf(end, wordSize);
    var first := if head <= end then head else end;
    LoopInRange(sc, pred, words, WORD_BYTES * begin, WORD_BYTES * first, s, found);
    out := Runners.RunAligned(next, pred, words, s, found, begin, first);
    if out.action == Stop || first == end {
      return;
    }
    MasksTell(sc, out.state);
    if NoExit(sc, out.state) {
      var (action, q) := pred(out.state, WORD_BYTES * end, out.found);
      return Outcome(out.state, q, action);
    }
    var noShortcut := NoShortcut(sc, out.state);
    PlainIsSlow(t, pred, words, head, tail, end, wordSize, noShortcut, out.state, out.found);
    ghost var goal := SkipLoop(t, pred, words, head, tail, end, wordSize, noShortcut, out.state, out.found);
    while true
      invariant head <= tail <= end && Whole(wordSize, tail - head)
      invariant out.state < sc.Size() && out.action == Continue
      invariant goal == SkipLoop(t, pred, words, head, tail, end, wordSize, noShortcut, out.state, out.found)
      invariant !noShortcut ==> !NoShortcut(sc, out.state)
      decreases tail - head, if noShortcut then 0 else 1
    {
      ghost var start, slow := head, noShortcut;
      while noShortcut && head != tail
        invariant start <= head && (slow && head == start ==> noShortcut)
        invariant head <= tail <= end && Whole(wordSize, tail - head)
        invariant out.state < sc.Size() && out.action == Continue
        invariant goal == SkipLoop(t, pred, words, head, tail, end, wordSize, noShortcut, out.state, out.found)
        invariant !noShortcut ==> !NoShortcut(sc, out.state)
        decreases tail - head
      {
        SlowStep(t, pred, words, head, tail, end, wordSize, out.state, out.found);
        LoopInRange(sc, pred, words, WORD_BYTES * head, WORD_BYTES * (head + wordSize), out.state, out.found);
        out := Runners.RunAligned(next, pred, words, out.state, out.found, head, head + wordSize);
        if out.action == Stop {
          return;
        }
        head := head + wordSize;
        noShortcut := NoShortcut(sc, out.state);
        MasksTell(sc, out.state);
        PlainIsSlow(t, pred, words, head, tail, end, wordSize, noShortcut, out.state, out.found);
      }
      if head == tail {
        break;
      }
      MasksTell(sc, out.state);
      if NoExit(sc, out.state) {
        EndsAtOnce(t, pred, words, head, tail, end, wordSize, out.state, out.found);
        var (action, q) := pred(out.state, WORD_BYTES * end, out.found);
        return Outcome(out.state, q, action);
      }
      ghost var exits := ExitsAt(t, out.state);
      ExitsOf(t, out.state);
      ShortcutHere(t, out.state);
      ScannerShape(sc);
      var skipEnd := SkipWords(sc.masks[out.state], words, head, tail, wordSize, exits);
      SkipsTo(t, pred, words, head, skipEnd, tail, end, wordSize, out.state, out.found);
      head := skipEnd;
      noShortcut := true;
    }
    LoopInRange(sc, pred, words, WORD_BYTES * tail, WORD_BYTES * end, out.state, out.found);
    TailIsLoop(t, pred, words, tail, end, wordSize, noShortcut, out.state, out.found);
    out := Runners.RunAligned(next, pred, words, out.state, out.found, tail, end);
  }

  lemma SlowStep<P>(t: Table, pred: (nat, nat, P) -> (Action, P), words: seq<Word64>, at: nat, tail: nat, end: nat,
      wordSize: nat, s: nat, p: P)
    requires at < tail <= end <= |words| && Whole(wordSize, tail - at)
    ensures SkipLoop(t, pred, words, at, tail, end, wordSize, true, s, p) ==
      var out := ByteLoop(Next(t), pred, words, WORD_BYTES * at, WORD_BYTES * (at + wordSize), s, p);
      if out.action == Stop then out
      else SkipLoop(t, pred, words, at + wordSize, tail, end, wordSize, false, out.state, out.found)
  {
    hide ByteLoop;
  }

  lemma EndsAtOnce<P>(t: Table, pred: (nat, nat, P) -> (Action, P), words: seq<Word64>, at: nat, tail: nat, end: nat,
      wordSize: nat, s: nat, p: P)
    requires at < tail <= end <= |words| && Whole(wordSize, tail - at) && !Plain(t, s) && NeverLeft(t, s)
    ensures SkipLoop(t, pred, words, at, tail, end, wordSize, false, s, p) == Asked(pred, s, WORD_BYTES * end, p)
  {
    hide ByteLoop;
  }

  lemma TailIsLoop<P>(t: Table, pred: (nat, nat, P) -> (Action, P), words: seq<Word64>, tail: nat, end: nat,
      wordSize: nat, slow: bool, s: nat, p: P)
    requires tail <= end <= |words| && Whole(wordSize, 0)
    ensures SkipLoop(t, pred, words, tail, tail, end, wordSize, slow, s, p) ==
      ByteLoop(Next(t), pred, words, WORD_BYTES * tail, WORD_BYTES * end, s, p)
  {
    hide ByteLoop;
  }

  lemma ShortcutHere(t: Table, state: nat)
    requires !NeverLeft(t, state) && !Plain(t, state)
    ensures 0 < |ExitsAt(t, state)| <= t.masks
  {
    hide ExitsAt;
  }

  lemma {:induction false} LoopInRange<P>(sc: Scanner, pred: (nat, nat, P) -> (Action, P), words: seq<Word64>,
      from: nat, to: nat, s: nat, p: P)
    requires sc.Wf() && s < sc.Size() && from <= to <= WORD_BYTES * |words|
    ensures ByteLoop<nat, P>(Stepper(sc.letters, sc.transitions), pred, words, from, to, s, p).state < sc.Size()
    decreases (to - from) as int
  {
    hide ByteAt;
    if from < to {
      ByteAtIsByte(words, from);
      var t := Stepper(sc.letters, sc.transitions)(s, ByteAt(words, from));
      var (action, q) := pred(t, from + 1, p);
      LoopInRange(sc, pred, words, from + 1, to, t, q);
    }
  }

  lemma ScannerShape(sc: Scanner)
    requires sc.Wf()
    ensures BYTE_COUNT <= |sc.letters| && |sc.masks| == |sc.flags| == sc.Size()
  {
  }

  /** Runs from address `begin` to `end`, whatever their alignment. */
  method DoRun<P(!new)>(sc: Scanner, pred: (nat, nat, P) -> (Action, P), words: seq<Word64>, s: nat, found: P,
      begin: nat, end: nat, wordSize: nat)
    returns (out: Outcome<nat, P>)
    requires sc.Wf() && sc.MasksComplete() && s < sc.Size()
    requires begin <= end <= WORD_BYTES * |words| && (wordSize == 1 || wordSize == 2)
    ensures out.state < sc.Size()
    ensures out == SkipRun(TableOf(sc), pred, words, begin, end, wordSize, s, found)
  {
    hide ByteLoop, SkipAligned, Sound, Closed, Inside;
    hide Scanner.Wf;
    hide Scanner.MasksComplete;
    TableIsSound(sc);
    var next := Stepper(sc.letters, sc.transitions);
    var head, tail := begin / WORD_BYTES, end / WORD_BYTES;
    var headSize, tailSize := WORD_BYTES * head + WORD_BYTES - begin, end - WORD_BYTES * tail;
    if head == tail {
      LoopInRange(sc, pred, words, begin, end, s, found);
      out := RunChunk(next, pred, words, s, found, head, WORD_BYTES - headSize, end - begin);
      return;
    }
    out := Outcome(s, found, Continue);
    EmptyLoop(next, pred, words, begin, s, found);
    if begin != WORD_BYTES * head {
      LoopInRange(sc, pred, words, begin, begin + headSize, s, found);
      out := RunChunk(next, pred, words, s, found, head, WORD_BYTES - headSize, headSize);
      if out.action == Stop {
        return;
      }
      head := head + 1;
    }
    out := RunAligned(sc, pred, words, out.state, out.found, head, tail, wordSize);
    if out.action == Stop {
      return;
    }
    EmptyLoop(next, pred, words, end, out.state, out.found);
    if tailSize != 0 {
      LoopInRange(sc, pred, words, WORD_BYTES * tail, end, out.state, out.found);
      out := RunChunk(next, pred, words, out.state, out.found, tail, 0, tailSize);
    }
  }

  // ---- what the runs promise ----

  lemma RunPasses<P(!new)>()
    ensures Uniform(RunPred<nat, P>())
    ensures forall s: nat :: Passing(RunPred<nat, P>(), s)
    ensures forall s: nat :: Quiet(RunPred<nat, P>(), s) && Settles(RunPred<nat, P>(), s)
  {
  }

  lemma ShortestPasses(final: nat -> bool, dead: nat -> bool)
    ensures Uniform(ShortestPrefixPred(final, dead))
    ensures forall s: nat :: Passing(ShortestPrefixPred(final, dead), s) <==> !final(s) && !dead(s)
    ensures forall s: nat | !final(s) :: Quiet(ShortestPrefixPred(final, dead), s)
    ensures forall s: nat | !final(s) :: Settles(ShortestPrefixPred(final, dead), s)
  {
    var pred := ShortestPrefixPred(final, dead);
    forall s: nat ensures Passing(pred, s) <==> !final(s) && !dead(s) {
      assert pred(s, 0, None).0 == Continue <==> !final(s) && !dead(s);
    }
  }

  /** Running, however the memory is aligned and whatever is skipped, means stepping through every byte. */
  method Run(sc: Scanner, words: seq<Word64>, s: nat, begin: nat, end: nat, wordSize: nat) returns (t: nat)
    requires sc.Wf() && sc.MasksComplete() && s < sc.Size()
    requires begin <= end <= WORD_BYTES * |words| && (wordSize == 1 || wordSize == 2)
    ensures t < sc.Size() && t == After(Stepper(sc.letters, sc.transitions), words, begin, end, s)
  {
    hide ByteLoop, SkipRun, Sound, Closed, Inside, InTable, Uniform, Passing, Quiet, Settles, Plain, NeverLeft;
    hide Scanner.Wf;
    hide Scanner.MasksComplete;
    TableIsSound(sc);
    RunPasses<bool>();
    RunSteps(Stepper(sc.letters, sc.transitions), words, begin, end, s, false);
    SkipRunFollows(TableOf(sc), RunPred<nat, bool>(), InTable(TableOf(sc)), words, begin, end, wordSize, s, false);
    var out := DoRun(sc, RunPred<nat, bool>(), words, s, false, begin, end, wordSize);
    t := out.state;
  }

  /** The end of the shortest prefix that leads to a final state, in spite of skipping. */
  method ShortestPrefix(sc: Scanner, words: seq<Word64>, begin: nat, end: nat, wordSize: nat) returns (r: Option<nat>)
    requires sc.Wf() && sc.MasksComplete() && sc.DeadComplete()
    requires begin <= end <= WORD_BYTES * |words| && (wordSize == 1 || wordSize == 2)
    ensures match r
            case Some(e) => begin <= e <= end && FinalAfter(sc, words, begin, e) && forall x: nat | begin <= x < e ::
                !FinalAfter(sc, words, begin, x)
            case None => forall x: nat | begin <= x <= end :: !FinalAfter(sc, words, begin, x)
  {
    hide ByteLoop, SkipRun, Sound, Closed, Inside, InTable, Uniform, Passing, Quiet, Settles, Plain, NeverLeft,
        NeverReports;
    hide DeadIsDead, FinalAt, ShortestPrefixPred;
    hide Scanner.MasksComplete;
    hide Scanner.DeadComplete;
    ghost var next, final, dead := Stepper(sc.letters, sc.transitions), IsFinal(sc.flags), IsDead(sc.flags);
    TableIsSound(sc);
    BeginFinal(next, final, words, begin, sc.initial);
    if sc.Final(sc.initial) {
      return Some(begin);
    }
    DeadIsClosed(sc);
    ShortestPasses(final, dead);
    DeadIsMute(TableOf(sc), final, dead);
    ShortestLoop(next, final, dead, words, begin, end, sc.initial);
    ghost var pred := ShortestPrefixPred(final, dead);
    if dead(sc.initial) {
      SkipRunStaysMute(TableOf(sc), pred, dead, words, begin, end, wordSize, sc.initial, None);
      forall x: nat | begin <= x <= end ensures !FinalAfter(sc, words, begin, x) {
        DeadStays(next, final, dead, words, begin, x, sc.initial);
      }
    } else {
      SkipRunFollows(TableOf(sc), pred, InTable(TableOf(sc)), words, begin, end, wordSize, sc.initial, None);
    }
    var out := DoRun(sc, ShortestPrefixPred(IsFinal(sc.flags), IsDead(sc.flags)), words, sc.initial, None, begin, end,
        wordSize);
    r := out.found;
  }

  /** The end of the longest prefix that leads to a final state, unless words are skipped in a final state. */
  method LongestPrefix(sc: Scanner, words: seq<Word64>, begin: nat, end: nat, wordSize: nat) returns (r: Option<nat>)
    requires sc.Wf() && sc.MasksComplete() && sc.DeadComplete()
    requires begin <= end <= WORD_BYTES * |words| && (wordSize == 1 || wordSize == 2)
    ensures r == LongestSkipping(TableOf(sc), IsFinal(sc.flags), IsDead(sc.flags), sc.initial, words, begin, end,
        wordSize)
    ensures FinalsAreSeen(TableOf(sc), IsFinal(sc.flags), sc.initial) ==>
      IsLongest(TableOf(sc), IsFinal(sc.flags), sc.initial, words, begin, end, r)
  {
    hide ByteLoop, SkipRun, Sound, Closed, Inside, FinalsAreSeen, IsLongest, DeadIsDead, LongestPrefixPred;
    hide Scanner.MasksComplete;
    hide Scanner.DeadComplete;
    TableIsSound(sc);
    DeadIsClosed(sc);
    r := if sc.Final(sc.initial) then Some(begin) else None;
    var out := DoRun(sc, LongestPrefixPred(IsFinal(sc.flags), IsDead(sc.flags)), words, sc.initial, r, begin, end,
        wordSize);
    r := out.found;
    if FinalsAreSeen(TableOf(sc), IsFinal(sc.flags), sc.initial) {
      LongestSeen(TableOf(sc), IsFinal(sc.flags), IsDead(sc.flags), sc.initial, words, begin, end, wordSize);
    }
  }

  /** For a scanner, the condition is exact: the longest prefix is found in every text, wherever it lies, if and only
      if every final state that bytes lead to is either never left, or left by too many bytes for a shortcut. */
  lemma LongestPrefixIsExact(sc: Scanner, wordSize: nat)
    requires sc.Wf() && sc.DeadComplete() && sc.maskCount < BYTE_COUNT && (wordSize == 1 || wordSize == 2)
    ensures LongestAlwaysSeen(TableOf(sc), IsFinal(sc.flags), IsDead(sc.flags), sc.initial, wordSize) <==>
      FinalsAreSeen(TableOf(sc), IsFinal(sc.flags), sc.initial)
  {
    hide LongestAlwaysSeen, FinalsAreSeen, DeadIsDead, Sound;
    hide Scanner.DeadComplete;
    TableIsSound(sc);
    DeadIsClosed(sc);
    LongestExactly(TableOf(sc), IsFinal(sc.flags), IsDead(sc.flags), sc.initial, wordSize);
  }

  /** No byte leads from a dead state to one that is not. */
  lemma DeadIsClosed(sc: Scanner)
    requires sc.Wf() && sc.DeadComplete()
    ensures DeadIsDead(Stepper(sc.letters, sc.transitions), IsFinal(sc.flags), IsDead(sc.flags))
  {
    var next, final, dead := Stepper(sc.letters, sc.transitions), IsFinal(sc.flags), IsDead(sc.flags);
    forall s: nat | dead(s) ensures !final(s) {
      DeadStep(sc, s, 0);
    }
    forall s: nat, c: nat | dead(s) && c < 256 ensures dead(next(s, c)) {
      DeadStep(sc, s, c);
    }
  }

  lemma DeadStep(sc: Scanner, s: nat, c: nat)
    requires sc.Wf() && sc.DeadComplete() && IsDead(sc.flags)(s) && c < 256
    ensures !IsFinal(sc.flags)(s) && IsDead(sc.flags)(Stepper(sc.letters, sc.transitions)(s, c))
  {
    var d := sc.Machine();
    var t := d.next(s, c);
    assert !AcceptsFrom(d, s, []);
    forall w | IsWord(w) ensures !AcceptsFrom(d, t, w) {
      var longer := [c] + w;
      assert longer[0] == c && longer[1..] == w;
      assert AcceptsFrom(d, s, longer) <==> AcceptsFrom(d, t, w);
    }
  }

  /** The scanner is final after the bytes at begin..e. */
  ghost predicate FinalAfter(sc: Scanner, words: seq<Word64>, begin: nat, e: nat)
    reads sc
  {
    FinalAt(Stepper(sc.letters, sc.transitions), IsFinal(sc.flags), words, begin, sc.initial, e)
  }
}
