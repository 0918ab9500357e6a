/** What a run that skips words does, as a function of the table; when the answer is that of the byte loop, and when
    not. */
module Skipping {
  import opened Automaton
  import opened Options
  import opened WordMasks
  import opened Runners
  import opened Shortcuts
  import opened Scanners
  import Minimality

  /** The part of a scanner that decides its run: letter classes, jumps, and how many exit masks a row has. */
  datatype Table = Table(letters: seq<nat>, transitions: seq<seq<nat>>, masks: nat)

  function Next(t: Table): (nat, nat) -> nat {
    Stepper(t.letters, t.transitions)
  }

  /** Every byte leads to a state. */
  ghost predicate Sound(t: Table) {
    && BYTE_COUNT <= |t.letters|
    && (forall s: nat, c: nat | s < |t.transitions| && c < BYTE_COUNT :: t.letters[c] < |t.transitions[s]|)
    && (forall s: nat, k: nat | s < |t.transitions| && k < |t.transitions[s]| :: t.transitions[s][k] < |t.transitions|)
  }

  /** The states of the table. */
  function InTable(t: Table): nat -> bool {
    (s: nat) => s < |t.transitions|
  }

  /** The bytes that leave a state. */
  function ExitsAt(t: Table, s: nat): seq<nat> {
    if s < |t.transitions| && BYTE_COUNT <= |t.letters| then Exits(t.letters, t.transitions[s], s) else []
  }

  /** No byte leaves the state, and the masks say so. */
  predicate NeverLeft(t: Table, s: nat) {
    t.masks > 0 && ExitsAt(t, s) == []
  }

  /** The state has no shortcut: there are too many bytes that leave it. */
  predicate Plain(t: Table, s: nat) {
    t.masks == 0 || |ExitsAt(t, s)| > t.masks
  }

  /** No byte at from..to changes the state. */
  ghost predicate Stays(next: (nat, nat) -> nat, words: seq<Word64>, from: nat, to: nat, s: nat) {
    forall a: nat | from <= a < to && a < WORD_BYTES * |words| :: next(s, ByteAt(words, a)) == s
  }

  /** A stretch of whole machine words, each of one or two chunks. */
  predicate Whole(wordSize: nat, chunks: nat) {
    wordSize == 1 || (wordSize == 2 && chunks % 2 == 0)
  }

  /** Where the whole machine words of begin..end start and end. */
  function HeadOf(begin: nat, wordSize: nat): nat {
    if wordSize == 2 then begin + begin % 2 else begin
  }

  function TailOf(end: nat, wordSize: nat): nat {
    if wordSize == 2 then end - end % 2 else end
  }

  // ---- the run ----

  /** The predicate is asked once. */
  function Asked<P>(pred: (nat, nat, P) -> (Action, P), s: nat, at: nat, p: P): Outcome<nat, P> {
    var (action, q) := pred(s, at, p);
    Outcome(s, q, action)
  }

  /** From chunk `at` on: `slow` means that the next machine word is stepped through in any case, as it is after a
      skip. */
  ghost function SkipLoop<P>(t: Table, pred: (nat, nat, P) -> (Action, P), words: seq<Word64>, at: nat, tail: nat,
      end: nat, wordSize: nat, slow: bool, s: nat, p: P): Outcome<nat, P>
    requires at <= tail <= end <= |words| && Whole(wordSize, tail - at)
    decreases tail - at, if slow then 0 else 1
  {
    if at == tail then ByteLoop(Next(t), pred, words, WORD_BYTES * tail, WORD_BYTES * end, s, p)
    else if slow || Plain(t, s) then
      var out := ByteLoop(Next(t), pred, words, WORD_BYTES * at, WORD_BYTES * (at + wordSize), s, p);
      if out.action == Stop then out
      else SkipLoop(t, pred, words, at + wordSize, tail, end, wordSize, false, out.state, out.found)
    else if NeverLeft(t, s) then Asked(pred, s, WORD_BYTES * end, p)
    else if Stays(Next(t), words, WORD_BYTES * at, WORD_BYTES * (at + wordSize), s) then
      SkipLoop(t, pred, words, at + wordSize, tail, end, wordSize, false, s, p)
    else SkipLoop(t, pred, words, at, tail, end, wordSize, true, s, p)
  }

  /** A run over the chunks begin..end. */
  ghost function SkipAligned<P>(t: Table, pred: (nat, nat, P) -> (Action, P), words: seq<Word64>, begin: nat, end: nat,
      wordSize: nat, s: nat, p: P): Outcome<nat, P>
    requires begin <= end <= |words| && (wordSize == 1 || wordSize == 2)
  {
    var head := HeadOf(begin, wordSize);
    var first := if head <= end then head else end;
    var out := ByteLoop(Next(t), pred, words, WORD_BYTES * begin, WORD_BYTES * first, s, p);
    if out.action == Stop || first == end then out
    else if NeverLeft(t, out.state) then Asked(pred, out.state, WORD_BYTES * end, out.found)
    else SkipLoop(t, pred, words, head, TailOf(end, wordSize), end, wordSize, false, out.state, out.found)
  }

  /** A run over the bytes at begin..end. */
  ghost function SkipRun<P>(t: Table, pred: (nat, nat, P) -> (Action, P), words: seq<Word64>, begin: nat, end: nat,
      wordSize: nat, s: nat, p: P): Outcome<nat, P>
    requires begin <= end <= WORD_BYTES * |words| && (wordSize == 1 || wordSize == 2)
  {
    var head, tail := begin / WORD_BYTES, end / WORD_BYTES;
    if head == tail then ByteLoop(Next(t), pred, words, begin, end, s, p)
    else
      var first := if begin == WORD_BYTES * head then head else head + 1;
      var out := ByteLoop(Next(t), pred, words, begin, WORD_BYTES * first, s, p);
      if out.action == Stop then out
      else
        var later := SkipAligned(t, pred, words, first, tail, wordSize, out.state, out.found);
        if later.action == Stop then later
        else ByteLoop(Next(t), pred, words, WORD_BYTES * tail, end, later.state, later.found)
  }

  // ---- predicates that skipping does not disturb ----

  /** The predicate never stops in this state. */
  ghost predicate Passing<P(!new)>(pred: (nat, nat, P) -> (Action, P), s: nat) {
    forall pos: nat, p: P :: pred(s, pos, p).0 == Continue
  }

  /** Whether the predicate stops depends on the state alone. */
  ghost predicate Uniform<P(!new)>(pred: (nat, nat, P) -> (Action, P)) {
    forall s: nat, pos: nat, p: P | pred(s, pos, p).0 == Continue :: Passing(pred, s)
  }

  /** Nothing is reported in this state. */
  ghost predicate Quiet<P(!new)>(pred: (nat, nat, P) -> (Action, P), s: nat) {
    forall pos: nat, p: P :: pred(s, pos, p).1 == p
  }

  /** Only the last report made in this state counts. */
  ghost predicate Settles<P(!new)>(pred: (nat, nat, P) -> (Action, P), s: nat) {
    forall a: nat, b: nat, p: P :: pred(s, b, pred(s, a, p).1) == pred(s, b, p)
  }

  ghost predicate Closed(t: Table, region: nat -> bool) {
    forall s: nat, c: nat | region(s) && c < BYTE_COUNT :: region(Next(t)(s, c))
  }

  /** In the states of the region that words are skipped in, nothing is reported, and where a run ends at once, only
      the last report counts. */
  ghost predicate Undisturbed<P(!new)>(t: Table, pred: (nat, nat, P) -> (Action, P), region: nat -> bool) {
    && Uniform(pred) && Closed(t, region)
    && forall s: nat | region(s) && Passing(pred, s) :: Harmless(t, pred, s)
  }

  ghost predicate Harmless<P(!new)>(t: Table, pred: (nat, nat, P) -> (Action, P), s: nat) {
    if NeverLeft(t, s) then Settles(pred, s) else Plain(t, s) || Quiet(pred, s)
  }

  lemma {:induction false} StayingLoop<P(!new)>(next: (nat, nat) -> nat, pred: (nat, nat, P) -> (Action, P),
      words: seq<Word64>, from: nat, to: nat, s: nat, p: P)
    requires from <= to <= WORD_BYTES * |words| && Stays(next, words, from, to, s)
    requires Passing(pred, s) && Quiet(pred, s)
    ensures ByteLoop(next, pred, words, from, to, s, p) == Outcome(s, p, Continue)
    decreases (to - from) as int
  {
    hide ByteAt;
    if from < to {
      assert pred(s, from + 1, p) == (Continue, p);
      StayingLoop(next, pred, words, from + 1, to, s, p);
    }
  }

  /** Where only the last report counts, it is enough to ask at the end. */
  lemma {:induction false} SettledLoop<P(!new)>(next: (nat, nat) -> nat, pred: (nat, nat, P) -> (Action, P),
      words: seq<Word64>, from: nat, to: nat, s: nat, p: P)
    requires from < to <= WORD_BYTES * |words| && Stays(next, words, from, to, s)
    requires Passing(pred, s) && Settles(pred, s)
    ensures ByteLoop(next, pred, words, from, to, s, p) == Asked(pred, s, to, p)
    decreases (to - from) as int
  {
    hide ByteAt;
    if from + 1 < to {
      SettledLoop(next, pred, words, from + 1, to, s, pred(s, from + 1, p).1);
    } else {
      EmptyLoop(next, pred, words, to, s, pred(s, to, p).1);
    }
  }

  lemma {:induction false} LoopPasses<P(!new)>(t: Table, pred: (nat, nat, P) -> (Action, P), region: nat -> bool,
      words: seq<Word64>, from: nat, to: nat, s: nat, p: P)
    requires from <= to <= WORD_BYTES * |words| && Uniform(pred) && Closed(t, region)
    requires Passing(pred, s) && region(s)
    ensures region(ByteLoop(Next(t), pred, words, from, to, s, p).state)
    ensures var out := ByteLoop(Next(t), pred, words, from, to, s, p);
      out.action == Continue ==> Passing(pred, out.state)
    decreases (to - from) as int
  {
    hide ByteAt, Passing, Next;
    if from < to {
      ByteAtIsByte(words, from);
      var u := Next(t)(s, ByteAt(words, from));
      if pred(u, from + 1, p).0 == Continue {
        LoopPasses(t, pred, region, words, from + 1, to, u, pred(u, from + 1, p).1);
      }
    }
  }

  /** The exits are exactly the bytes that leave the state. */
  lemma ExitsOf(t: Table, s: nat)
    requires Sound(t) && s < |t.transitions|
    ensures forall c: nat :: c in ExitsAt(t, s) <==> c < BYTE_COUNT && Next(t)(s, c) != s
    ensures Unrepeated(ExitsAt(t, s))
  {
    ExitsLeave(t.letters, t.transitions[s], s, |t.transitions[s]|);
  }

  lemma NeverLeftStays(t: Table, words: seq<Word64>, from: nat, to: nat, s: nat)
    requires Sound(t) && s < |t.transitions| && NeverLeft(t, s)
    ensures Stays(Next(t), words, from, to, s)
  {
    hide ByteAt, ExitsAt;
    ExitsOf(t, s);
    forall a: nat | from <= a < to && a < WORD_BYTES * |words| ensures Next(t)(s, ByteAt(words, a)) == s {
      ByteAtIsByte(words, a);
    }
  }

  /** The region consists of states of the table. */
  ghost predicate Inside(t: Table, region: nat -> bool) {
    forall s: nat | region(s) :: s < |t.transitions|
  }

  lemma {:induction false} SkipLoopFollows<P(!new)>(t: Table, pred: (nat, nat, P) -> (Action, P), region: nat -> bool,
      words: seq<Word64>, at: nat, tail: nat, end: nat, wordSize: nat, slow: bool, s: nat, p: P)
    requires at <= tail <= end <= |words| && Whole(wordSize, tail - at)
    requires Sound(t) && Inside(t, region) && Undisturbed(t, pred, region) && region(s) && Passing(pred, s)
    ensures SkipLoop(t, pred, words, at, tail, end, wordSize, slow, s, p) ==
      ByteLoop(Next(t), pred, words, WORD_BYTES * at, WORD_BYTES * end, s, p)
    decreases tail - at, if slow then 0 else 1
  {
    hide ByteLoop, Passing, Uniform, Closed, Stays, Quiet, Settles, NeverLeft, Plain, Sound, Next, Asked;
    if at < tail {
      assert Harmless(t, pred, s);
      var from, mid, to := WORD_BYTES * at, WORD_BYTES * (at + wordSize), WORD_BYTES * end;
      LoopJoins(Next(t), pred, words, from, mid, to, s, p);
      if slow || Plain(t, s) {
        LoopPasses(t, pred, region, words, from, mid, s, p);
        var out := ByteLoop(Next(t), pred, words, from, mid, s, p);
        if out.action == Continue {
          SkipLoopFollows(t, pred, region, words, at + wordSize, tail, end, wordSize, false, out.state, out.found);
        }
      } else if NeverLeft(t, s) {
        NeverLeftStays(t, words, from, to, s);
        SettledLoop(Next(t), pred, words, from, to, s, p);
      } else if Stays(Next(t), words, from, mid, s) {
        StayingLoop(Next(t), pred, words, from, mid, s, p);
        SkipLoopFollows(t, pred, region, words, at + wordSize, tail, end, wordSize, false, s, p);
      } else {
        SkipLoopFollows(t, pred, region, words, at, tail, end, wordSize, true, s, p);
      }
    }
  }

  lemma SkipAlignedFollows<P(!new)>(t: Table, pred: (nat, nat, P) -> (Action, P), region: nat -> bool,
      words: seq<Word64>, begin: nat, end: nat, wordSize: nat, s: nat, p: P)
    requires begin <= end <= |words| && (wordSize == 1 || wordSize == 2)
    requires Sound(t) && Inside(t, region) && Undisturbed(t, pred, region) && region(s) && Passing(pred, s)
    ensures SkipAligned(t, pred, words, begin, end, wordSize, s, p) ==
      ByteLoop(Next(t), pred, words, WORD_BYTES * begin, WORD_BYTES * end, s, p)
  {
    hide ByteLoop, Passing, Uniform, Closed, Stays, Quiet, Settles, NeverLeft, Plain, Sound, Next, Asked, SkipLoop;
    var head := HeadOf(begin, wordSize);
    var first := if head <= end then head else end;
    var from, mid, to := WORD_BYTES * begin, WORD_BYTES * first, WORD_BYTES * end;
    LoopJoins(Next(t), pred, words, from, mid, to, s, p);
    LoopPasses(t, pred, region, words, from, mid, s, p);
    var out := ByteLoop(Next(t), pred, words, from, mid, s, p);
    if out.action == Continue {
      if first == end {
        EmptyLoop(Next(t), pred, words, to, out.state, out.found);
      } else if NeverLeft(t, out.state) {
        assert Harmless(t, pred, out.state);
        NeverLeftStays(t, words, mid, to, out.state);
        SettledLoop(Next(t), pred, words, mid, to, out.state, out.found);
      } else {
        SkipLoopFollows(t, pred, region, words, head, TailOf(end, wordSize), end, wordSize, false, out.state,
            out.found);
      }
    }
  }

  /** Where skipping does not disturb the predicate, the run is the byte loop. */
  lemma SkipRunFollows<P(!new)>(t: Table, pred: (nat, nat, P) -> (Action, P), region: nat -> bool,
      words: seq<Word64>, begin: nat, end: nat, wordSize: nat, s: nat, p: P)
    requires begin <= end <= WORD_BYTES * |words| && (wordSize == 1 || wordSize == 2)
    requires Sound(t) && Inside(t, region) && Undisturbed(t, pred, region) && region(s) && Passing(pred, s)
    ensures SkipRun(t, pred, words, begin, end, wordSize, s, p) == ByteLoop(Next(t), pred, words, begin, end, s, p)
  {
    hide ByteLoop, Passing, Harmless, Sound, Next, SkipAligned, Closed;
    var head, tail := begin / WORD_BYTES, end / WORD_BYTES;
    if head != tail {
      var first := if begin == WORD_BYTES * head then head else head + 1;
      var from, to := WORD_BYTES * first, WORD_BYTES * tail;
      LoopJoins(Next(t), pred, words, begin, from, end, s, p);
      LoopPasses(t, pred, region, words, begin, from, s, p);
      var out := ByteLoop(Next(t), pred, words, begin, from, s, p);
      if out.action == Continue {
        LoopJoins(Next(t), pred, words, from, to, end, out.state, out.found);
        SkipAlignedFollows(t, pred, region, words, first, tail, wordSize, out.state, out.found);
      }
    }
  }

  // ---- states in which nothing is reported any more ----

  /** From the states in `mute` on, nothing is ever reported. */
  ghost predicate NeverReports<P(!new)>(t: Table, pred: (nat, nat, P) -> (Action, P), mute: nat -> bool) {
    Closed(t, mute) && forall s: nat | mute(s) :: Quiet(pred, s)
  }

  lemma {:induction false} LoopStaysMute<P(!new)>(t: Table, pred: (nat, nat, P) -> (Action, P), mute: nat -> bool,
      words: seq<Word64>, from: nat, to: nat, s: nat, p: P)
    requires from <= to <= WORD_BYTES * |words| && NeverReports(t, pred, mute) && mute(s)
    ensures var out := ByteLoop(Next(t), pred, words, from, to, s, p); mute(out.state) && out.found == p
    decreases (to - from) as int
  {
    hide ByteAt, Next;
    if from < to {
      ByteAtIsByte(words, from);
      var u := Next(t)(s, ByteAt(words, from));
      assert Quiet(pred, u);
      LoopStaysMute(t, pred, mute, words, from + 1, to, u, p);
    }
  }

  lemma {:induction false} SkipLoopStaysMute<P(!new)>(t: Table, pred: (nat, nat, P) -> (Action, P), mute: nat -> bool,
      words: seq<Word64>, at: nat, tail: nat, end: nat, wordSize: nat, slow: bool, s: nat, p: P)
    requires at <= tail <= end <= |words| && Whole(wordSize, tail - at) && NeverReports(t, pred, mute) && mute(s)
    ensures var out := SkipLoop(t, pred, words, at, tail, end, wordSize, slow, s, p); mute(out.state) && out.found == p
    decreases tail - at, if slow then 0 else 1
  {
    hide ByteLoop, Closed, Stays, NeverLeft, Plain, Next;
    assert Quiet(pred, s);
    if at == tail {
      LoopStaysMute(t, pred, mute, words, WORD_BYTES * tail, WORD_BYTES * end, s, p);
    } else if slow || Plain(t, s) {
      LoopStaysMute(t, pred, mute, words, WORD_BYTES * at, WORD_BYTES * (at + wordSize), s, p);
      var out := ByteLoop(Next(t), pred, words, WORD_BYTES * at, WORD_BYTES * (at + wordSize), s, p);
      if out.action == Continue {
        SkipLoopStaysMute(t, pred, mute, words, at + wordSize, tail, end, wordSize, false, out.state, out.found);
      }
    } else if !NeverLeft(t, s) {
      if Stays(Next(t), words, WORD_BYTES * at, WORD_BYTES * (at + wordSize), s) {
        SkipLoopStaysMute(t, pred, mute, words, at + wordSize, tail, end, wordSize, false, s, p);
      } else {
        SkipLoopStaysMute(t, pred, mute, words, at, tail, end, wordSize, true, s, p);
      }
    }
  }

  /** Skipping or not, nothing is reported from a mute state on. */
  lemma SkipRunStaysMute<P(!new)>(t: Table, pred: (nat, nat, P) -> (Action, P), mute: nat -> bool,
      words: seq<Word64>, begin: nat, end: nat, wordSize: nat, s: nat, p: P)
    requires begin <= end <= WORD_BYTES * |words| && (wordSize == 1 || wordSize == 2)
    requires NeverReports(t, pred, mute) && mute(s)
    ensures SkipRun(t, pred, words, begin, end, wordSize, s, p).found == p
  {
    hide ByteLoop, Closed, SkipLoop, Next;
    var head, tail := begin / WORD_BYTES, end / WORD_BYTES;
    LoopStaysMute(t, pred, mute, words, begin, end, s, p);
    if head != tail {
      var first := if begin == WORD_BYTES * head then head else head + 1;
      LoopStaysMute(t, pred, mute, words, begin, WORD_BYTES * first, s, p);
      var out := ByteLoop(Next(t), pred, words, begin, WORD_BYTES * first, s, p);
      SkipAlignedStaysMute(t, pred, mute, words, first, tail, wordSize, out.state, out.found);
      var later := SkipAligned(t, pred, words, first, tail, wordSize, out.state, out.found);
      LoopStaysMute(t, pred, mute, words, WORD_BYTES * tail, end, later.state, later.found);
    }
  }

  lemma SkipAlignedStaysMute<P(!new)>(t: Table, pred: (nat, nat, P) -> (Action, P), mute: nat -> bool,
      words: seq<Word64>, begin: nat, end: nat, wordSize: nat, s: nat, p: P)
    requires begin <= end <= |words| && (wordSize == 1 || wordSize == 2) && NeverReports(t, pred, mute) && mute(s)
    ensures var out := SkipAligned(t, pred, words, begin, end, wordSize, s, p); mute(out.state) && out.found == p
  {
    hide ByteLoop, Closed, SkipLoop, NeverLeft, Next;
    var head := HeadOf(begin, wordSize);
    var first := if head <= end then head else end;
    LoopStaysMute(t, pred, mute, words, WORD_BYTES * begin, WORD_BYTES * first, s, p);
    var out := ByteLoop(Next(t), pred, words, WORD_BYTES * begin, WORD_BYTES * first, s, p);
    assert Quiet(pred, out.state);
    if first != end {
      SkipLoopStaysMute(t, pred, mute, words, head, TailOf(end, wordSize), end, wordSize, false, out.state, out.found);
    }
  }

  // ---- the longest prefix ----

  function Over(next: (nat, nat) -> nat, s: nat, v: seq<nat>): nat
    decreases |v|
  {
    if v == [] then s else Over(next, next(s, v[0]), v[1..])
  }

  ghost predicate AreBytes(v: seq<nat>) {
    forall c | c in v :: c < BYTE_COUNT
  }

  /** Some bytes lead from the initial state to s. */
  ghost predicate Reached(t: Table, initial: nat, s: nat) {
    exists v :: AreBytes(v) && Over(Next(t), initial, v) == s
  }

  lemma {:induction false} OverMore(next: (nat, nat) -> nat, s: nat, v: seq<nat>, c: nat)
    ensures Over(next, s, v + [c]) == next(Over(next, s, v), c)
    decreases |v|
  {
    if v == [] {
      assert (v + [c])[1..] == [];
    } else {
      assert (v + [c])[0] == v[0] && (v + [c])[1..] == v[1..] + [c];
      OverMore(next, next(s, v[0]), v[1..], c);
    }
  }

  lemma ReachedIsClosed(t: Table, initial: nat)
    requires Sound(t) && initial < |t.transitions|
    ensures Closed(t, (s: nat) => Reached(t, initial, s)) && Inside(t, (s: nat) => Reached(t, initial, s))
    ensures Reached(t, initial, initial)
  {
    assert AreBytes([]) && Over(Next(t), initial, []) == initial;
    forall s: nat, c: nat | Reached(t, initial, s) && c < BYTE_COUNT ensures Reached(t, initial, Next(t)(s, c)) {
      var v :| AreBytes(v) && Over(Next(t), initial, v) == s;
      OverMore(Next(t), initial, v, c);
      assert AreBytes(v + [c]);
    }
    forall s: nat | Reached(t, initial, s) ensures s < |t.transitions| {
      var v :| AreBytes(v) && Over(Next(t), initial, v) == s;
      OverInside(t, initial, v);
    }
  }

  lemma {:induction false} OverInside(t: Table, s: nat, v: seq<nat>)
    requires Sound(t) && s < |t.transitions| && AreBytes(v)
    ensures Over(Next(t), s, v) < |t.transitions|
    decreases |v|
  {
    if v != [] {
      assert v[0] in v && forall c | c in v[1..] :: c in v;
      OverInside(t, Next(t)(s, v[0]), v[1..]);
    }
  }

  /** What LongestPrefix reports when words are skipped. */
  ghost function LongestSkipping(t: Table, final: nat -> bool, dead: nat -> bool, initial: nat, words: seq<Word64>,
      begin: nat, end: nat, wordSize: nat): Option<nat>
    requires begin <= end <= WORD_BYTES * |words| && (wordSize == 1 || wordSize == 2)
  {
    SkipRun(t, LongestPrefixPred(final, dead), words, begin, end, wordSize, initial,
      if final(initial) then Some(begin) else None).found
  }

  /** r is the end of the longest prefix that leads to a final state, or there is none. */
  ghost predicate IsLongest(t: Table, final: nat -> bool, initial: nat, words: seq<Word64>, begin: nat, end: nat,
      r: Option<nat>) {
    match r
    case Some(e) =>
      && begin <= e <= end && FinalAt(Next(t), final, words, begin, initial, e)
      && forall x: nat | e < x <= end :: !FinalAt(Next(t), final, words, begin, initial, x)
    case None => forall x: nat | begin <= x <= end :: !FinalAt(Next(t), final, words, begin, initial, x)
  }

  /** Words are never skipped in a final state that is reached, unless it is never left. */
  ghost predicate FinalsAreSeen(t: Table, final: nat -> bool, initial: nat) {
    forall s: nat | Reached(t, initial, s) && final(s) :: NeverLeft(t, s) || Plain(t, s)
  }

  lemma LongestPasses(final: nat -> bool, dead: nat -> bool)
    ensures Uniform(LongestPrefixPred(final, dead))
    ensures forall s: nat :: Passing(LongestPrefixPred(final, dead), s) <==> !dead(s)
    ensures forall s: nat :: Settles(LongestPrefixPred(final, dead), s)
    ensures forall s: nat | !final(s) :: Quiet(LongestPrefixPred(final, dead), s)
  {
    var pred := LongestPrefixPred(final, dead);
    forall s: nat ensures Passing(pred, s) <==> !dead(s) {
      assert pred(s, 0, None).0 == Continue <==> !dead(s);
    }
  }

  /** Then the longest prefix is found, for every text, alignment and word size. */
  lemma LongestSeen(t: Table, final: nat -> bool, dead: nat -> bool, initial: nat, words: seq<Word64>, begin: nat,
      end: nat, wordSize: nat)
    requires begin <= end <= WORD_BYTES * |words| && (wordSize == 1 || wordSize == 2)
    requires Sound(t) && initial < |t.transitions| && DeadIsDead(Next(t), final, dead)
    requires FinalsAreSeen(t, final, initial)
    ensures IsLongest(t, final, initial, words, begin, end,
      LongestSkipping(t, final, dead, initial, words, begin, end, wordSize))
  {
    hide ByteLoop, SkipRun, FinalAt, Next, Reached, Closed, Inside, LongestPrefixPred, NeverLeft, Plain, Settles, Quiet;
    hide Passing, Uniform, Sound;
    var pred := LongestPrefixPred(final, dead);
    var region, start := (s: nat) => Reached(t, initial, s), if final(initial) then Some(begin) else None;
    ReachedIsClosed(t, initial);
    LongestPasses(final, dead);
    BeginFinal(Next(t), final, words, begin, initial);
    if dead(initial) {
      DeadIsMute(t, final, dead);
      SkipRunStaysMute(t, pred, dead, words, begin, end, wordSize, initial, start);
      forall x: nat | begin <= x <= end ensures !FinalAt(Next(t), final, words, begin, initial, x) {
        DeadStays(Next(t), final, dead, words, begin, x, initial);
      }
    } else {
      hide DeadIsDead;
      SkipRunFollows(t, pred, region, words, begin, end, wordSize, initial, start);
      LongestLoop(Next(t), final, dead, words, begin, end, initial, start);
    }
  }

  lemma DeadIsMute(t: Table, final: nat -> bool, dead: nat -> bool)
    requires DeadIsDead(Next(t), final, dead)
    ensures NeverReports(t, LongestPrefixPred(final, dead), dead)
    ensures NeverReports(t, ShortestPrefixPred(final, dead), dead)
  {
    hide Next;
  }

  // ---- a text for which the longest prefix is missed ----

  lemma {:induction false} AfterJoins(next: (nat, nat) -> nat, words: seq<Word64>, from: nat, mid: nat, to: nat, s: nat)
    requires from <= mid <= to <= WORD_BYTES * |words|
    ensures After(next, words, from, to, s) == After(next, words, mid, to, After(next, words, from, mid, s))
    decreases (mid - from) as int
  {
    hide ByteAt;
    if from < mid { AfterJoins(next, words, from + 1, mid, to, next(s, ByteAt(words, from))); }
  }

  lemma {:induction false} AfterStays(next: (nat, nat) -> nat, words: seq<Word64>, from: nat, to: nat, s: nat)
    requires from <= to <= WORD_BYTES * |words| && Stays(next, words, from, to, s)
    ensures After(next, words, from, to, s) == s
    decreases (to - from) as int
  {
    hide ByteAt;
    if from < to { AfterStays(next, words, from + 1, to, s); }
  }

  lemma {:induction false} AfterInside(t: Table, words: seq<Word64>, from: nat, to: nat, s: nat)
    requires from <= to <= WORD_BYTES * |words| && Sound(t) && s < |t.transitions|
    ensures After<nat>(Next(t), words, from, to, s) < |t.transitions|
    decreases (to - from) as int
  {
    hide ByteAt;
    if from < to {
      ByteAtIsByte(words, from);
      AfterInside(t, words, from + 1, to, Next(t)(s, ByteAt(words, from)));
    }
  }

  ghost predicate NotBehind(p: Option<nat>, x: nat) {
    p.Some? ==> p.value <= x
  }

  lemma {:induction false} DeadAfter(next: (nat, nat) -> nat, final: nat -> bool, dead: nat -> bool, words: seq<Word64>,
      from: nat, to: nat, s: nat)
    requires from <= to <= WORD_BYTES * |words| && DeadIsDead(next, final, dead) && dead(s)
    ensures dead(After(next, words, from, to, s))
    decreases (to - from) as int
  {
    hide ByteAt;
    if from < to {
      ByteAtIsByte(words, from);
      DeadAfter(next, final, dead, words, from + 1, to, next(s, ByteAt(words, from)));
    }
  }

  /** Stepping through bytes reports no place behind them, and is not stopped on the way to a live state. */
  lemma {:induction false} LongestReports(next: (nat, nat) -> nat, final: nat -> bool, dead: nat -> bool,
      words: seq<Word64>, from: nat, to: nat, s: nat, p: Option<nat>)
    requires from <= to <= WORD_BYTES * |words| && DeadIsDead(next, final, dead) && NotBehind(p, from)
    requires !dead(After(next, words, from, to, s))
    ensures var out := ByteLoop(next, LongestPrefixPred(final, dead), words, from, to, s, p);
      out.action == Continue && out.state == After(next, words, from, to, s) && NotBehind(out.found, to)
    decreases (to - from) as int
  {
    hide ByteAt, DeadIsDead;
    if from < to {
      var u := next(s, ByteAt(words, from));
      if dead(u) { DeadAfter(next, final, dead, words, from + 1, to, u); }
      LongestReports(next, final, dead, words, from + 1, to, u, if final(u) then Some(from + 1) else p);
    }
  }

  /** The state at `mid` is final and one that words are skipped in, as is the last machine word, behind `mid`. */
  ghost predicate Overlooks(t: Table, final: nat -> bool, dead: nat -> bool, words: seq<Word64>, mid: nat,
      wordSize: nat, target: nat) {
    && mid + wordSize <= |words| && (wordSize == 1 || wordSize == 2)
    && final(target) && !dead(target) && !NeverLeft(t, target) && !Plain(t, target)
    && Stays(Next(t), words, WORD_BYTES * mid, WORD_BYTES * (mid + wordSize), target)
  }

  lemma LeftAtLast(t: Table, words: seq<Word64>, from: nat, to: nat, s: nat)
    requires from <= to <= WORD_BYTES * |words| && Sound(t) && s < |t.transitions|
    ensures NeverLeft(t, s) ==> After(Next(t), words, from, to, s) == s
  {
    hide NeverLeft;
    if NeverLeft(t, s) {
      NeverLeftStays(t, words, from, to, s);
      AfterStays(Next(t), words, from, to, s);
    }
  }

  lemma {:induction false} LoopOverlooks(t: Table, final: nat -> bool, dead: nat -> bool, words: seq<Word64>, at: nat,
      mid: nat, wordSize: nat, slow: bool, s: nat, p: Option<nat>)
    requires at <= mid && mid + wordSize <= |words| && (wordSize == 1 || wordSize == 2) && Whole(wordSize, mid - at)
    requires Sound(t) && s < |t.transitions| && DeadIsDead(Next(t), final, dead)
    requires Overlooks(t, final, dead, words, mid, wordSize,
      After(Next(t), words, WORD_BYTES * at, WORD_BYTES * mid, s))
    requires (at == mid ==> !slow) && NotBehind(p, WORD_BYTES * at)
    ensures NotBehind(SkipLoop(t, LongestPrefixPred(final, dead), words, at, mid + wordSize, mid + wordSize, wordSize,
      slow, s, p).found, WORD_BYTES * mid)
    decreases mid - at, if slow then 0 else 1
  {
    hide ByteLoop, After, Stays, NeverLeft, Plain, Sound, Next, DeadIsDead, LongestPrefixPred, Asked;
    var pred, next := LongestPrefixPred(final, dead), Next(t);
    var from, to := WORD_BYTES * at, WORD_BYTES * mid;
    LeftAtLast(t, words, from, to, s);
    if at == mid {
      AfterNothing(next, words, to, s);
      var tail := mid + wordSize;
      EmptyLoop(next, pred, words, WORD_BYTES * tail, s, p);
      assert SkipLoop(t, pred, words, tail, tail, tail, wordSize, false, s, p) == Outcome(s, p, Continue);
    } else {
      var later := WORD_BYTES * (at + wordSize);
      AfterJoins(next, words, from, later, to, s);
      AfterInside(t, words, from, later, s);
      if slow || Plain(t, s) {
        var u := After(next, words, from, later, s);
        if dead(u) { DeadAfter(next, final, dead, words, later, to, u); }
        LongestReports(next, final, dead, words, from, later, s, p);
        var out := ByteLoop(next, pred, words, from, later, s, p);
        LoopOverlooks(t, final, dead, words, at + wordSize, mid, wordSize, false, u, out.found);
      } else if Stays(next, words, from, later, s) {
        AfterStays(next, words, from, later, s);
        LoopOverlooks(t, final, dead, words, at + wordSize, mid, wordSize, false, s, p);
      } else {
        LoopOverlooks(t, final, dead, words, at, mid, wordSize, true, s, p);
      }
    }
  }

  lemma AfterNothing(next: (nat, nat) -> nat, words: seq<Word64>, at: nat, s: nat)
    requires at <= WORD_BYTES * |words|
    ensures After(next, words, at, at, s) == s
  {
  }

  lemma AlignedOverlooks(t: Table, final: nat -> bool, dead: nat -> bool, words: seq<Word64>, begin: nat, mid: nat,
      wordSize: nat, s: nat, p: Option<nat>)
    requires begin <= mid && mid + wordSize <= |words| && (wordSize == 1 || wordSize == 2) && Whole(wordSize, mid)
    requires Sound(t) && s < |t.transitions| && DeadIsDead(Next(t), final, dead)
    requires Overlooks(t, final, dead, words, mid, wordSize,
      After(Next(t), words, WORD_BYTES * begin, WORD_BYTES * mid, s))
    requires NotBehind(p, WORD_BYTES * begin)
    ensures NotBehind(SkipAligned(t, LongestPrefixPred(final, dead), words, begin, mid + wordSize, wordSize, s,
        p).found,
      WORD_BYTES * mid)
  {
    hide ByteLoop, After, Stays, NeverLeft, Plain, Sound, Next, DeadIsDead, LongestPrefixPred, Asked, SkipLoop;
    var pred, next, head := LongestPrefixPred(final, dead), Next(t), HeadOf(begin, wordSize);
    var from, first, to := WORD_BYTES * begin, WORD_BYTES * head, WORD_BYTES * mid;
    AfterJoins(next, words, from, first, to, s);
    AfterInside(t, words, from, first, s);
    var u := After(next, words, from, first, s);
    if dead(u) { DeadAfter(next, final, dead, words, first, to, u); }
    LongestReports(next, final, dead, words, from, first, s, p);
    var out := ByteLoop(next, pred, words, from, first, s, p);
    LeftAtLast(t, words, first, to, u);
    LoopOverlooks(t, final, dead, words, head, mid, wordSize, false, u, out.found);
  }

  /** When a run comes to a final state that has few exits, and then to a last machine word without such a byte, no
      place in that word is reported, though all are ends of accepted prefixes. */
  lemma RunOverlooks(t: Table, final: nat -> bool, dead: nat -> bool, words: seq<Word64>, begin: nat, mid: nat,
      wordSize: nat, initial: nat)
    requires begin <= WORD_BYTES * mid && mid + wordSize <= |words| && (wordSize == 1 || wordSize == 2)
    requires Whole(wordSize, mid) && Sound(t) && initial < |t.transitions| && DeadIsDead(Next(t), final, dead)
    requires Overlooks(t, final, dead, words, mid, wordSize,
      After(Next(t), words, begin, WORD_BYTES * mid, initial))
    ensures NotBehind(LongestSkipping(t, final, dead, initial, words, begin, WORD_BYTES * (mid + wordSize), wordSize),
      WORD_BYTES * mid)
    ensures FinalAt(Next(t), final, words, begin, initial, WORD_BYTES * (mid + wordSize))
  {
    hide ByteLoop, After, Stays, NeverLeft, Plain, Sound, Next, DeadIsDead, LongestPrefixPred, Asked, SkipAligned;
    var pred, next := LongestPrefixPred(final, dead), Next(t);
    var to, end := WORD_BYTES * mid, WORD_BYTES * (mid + wordSize);
    var target := After(next, words, begin, to, initial);
    AfterJoins(next, words, begin, to, end, initial);
    AfterStays(next, words, to, end, target);
    var head, start := begin / WORD_BYTES, if final(initial) then Some(begin) else None;
    var first := if begin == WORD_BYTES * head then head else head + 1;
    assert end / WORD_BYTES == mid + wordSize;
    var from := WORD_BYTES * first;
    AfterJoins(next, words, begin, from, to, initial);
    AfterInside(t, words, begin, from, initial);
    var u := After(next, words, begin, from, initial);
    if dead(u) { DeadAfter(next, final, dead, words, from, to, u); }
    LongestReports(next, final, dead, words, begin, from, initial, start);
    var out := ByteLoop(next, pred, words, begin, from, initial, start);
    AlignedOverlooks(t, final, dead, words, first, mid, wordSize, u, out.found);
    var later := SkipAligned(t, pred, words, first, mid + wordSize, wordSize, u, out.found);
    EmptyLoop(next, pred, words, end, later.state, later.found);
  }

  // ---- the condition is exact ----

  /** Memory that holds the given bytes. */
  ghost function Memory(bytes: seq<nat>): seq<Word64>
    requires |bytes| % WORD_BYTES == 0
    ensures |Memory(bytes)| == |bytes| / WORD_BYTES
  {
    if bytes == [] then [] else [WordOf(bytes[..WORD_BYTES])] + Memory(bytes[WORD_BYTES..])
  }

  ghost function WordOf(b: seq<nat>): Word64
    requires |b| == WORD_BYTES
  {
    Pack(seq(WORD_BYTES, i requires 0 <= i < WORD_BYTES => ToByte(b[i])))
  }

  lemma {:induction false} MemoryHolds(bytes: seq<nat>, a: nat)
    requires |bytes| % WORD_BYTES == 0 && a < |bytes| && bytes[a] < BYTE_COUNT
    ensures ByteAt(Memory(bytes), a) == bytes[a]
  {
    hide Lane, Pack;
    var first, rest := bytes[..WORD_BYTES], bytes[WORD_BYTES..];
    if a < WORD_BYTES {
      LaneOfPack(seq(WORD_BYTES, i requires 0 <= i < WORD_BYTES => ToByte(first[i])), a);
      ByteOf(first[a]);
    } else {
      MemoryHolds(rest, a - WORD_BYTES);
      assert (a - WORD_BYTES) / WORD_BYTES == a / WORD_BYTES - 1 && (a - WORD_BYTES) % WORD_BYTES == a % WORD_BYTES;
    }
  }

  lemma {:induction false} AfterOver(next: (nat, nat) -> nat, words: seq<Word64>, from: nat, s: nat, v: seq<nat>)
    requires from + |v| <= WORD_BYTES * |words|
    requires forall i: nat | i < |v| :: ByteAt(words, from + i) == v[i]
    ensures After(next, words, from, from + |v|, s) == Over(next, s, v)
    decreases |v|
  {
    hide ByteAt;
    if v != [] {
      assert ByteAt(words, from + 0) == v[0];
      forall i: nat | i < |v[1..]| ensures ByteAt(words, from + 1 + i) == v[1..][i] {
        assert ByteAt(words, from + (i + 1)) == v[i + 1];
      }
      AfterOver(next, words, from + 1, next(s, v[0]), v[1..]);
    }
  }

  /** Fewer than 256 bytes leave a byte out. */
  lemma SomeByteStays(exits: seq<nat>) returns (c: nat)
    requires |exits| < BYTE_COUNT
    ensures c < BYTE_COUNT && c !in exits
  {
    if forall b: nat | b < BYTE_COUNT :: b in exits {
      var h: seq<nat> := seq(BYTE_COUNT, (b: int) requires 0 <= b < BYTE_COUNT && b in exits => PlaceOf(exits, b));
      Minimality.Pigeonhole(h, |exits|);
    }
    c :| c < BYTE_COUNT && c !in exits;
  }

  ghost function PlaceOf(exits: seq<nat>, b: nat): nat
    requires b in exits
    ensures PlaceOf(exits, b) < |exits| && exits[PlaceOf(exits, b)] == b
  {
    var i: nat :| i < |exits| && exits[i] == b;
    i
  }

  /** Is the longest prefix found whatever the text, and wherever it lies? */
  ghost predicate LongestAlwaysSeen(t: Table, final: nat -> bool, dead: nat -> bool, initial: nat, wordSize: nat)
    requires wordSize == 1 || wordSize == 2
  {
    forall words: seq<Word64>, begin: nat, end: nat | begin <= end <= WORD_BYTES * |words| ::
      IsLongest(t, final, initial, words, begin, end,
        LongestSkipping(t, final, dead, initial, words, begin, end, wordSize))
  }

  /** Some bytes behind as many zeros, and then a machine word of bytes c. */
  ghost function TextOf(v: seq<nat>, pad: nat, wordSize: nat, c: nat): seq<nat> {
    seq(pad, i => 0) + v + seq(8 * wordSize, i => c)
  }

  lemma Eights(q: nat, wordSize: nat)
    ensures (16 * q + 8 * wordSize) % 8 == 0 && (16 * q + 8 * wordSize) / 8 == 2 * q + wordSize
  {
  }

  lemma TextSize(v: seq<nat>, pad: nat, q: nat, wordSize: nat, c: nat)
    requires pad + |v| == 16 * q
    ensures |TextOf(v, pad, wordSize, c)| == 16 * q + 8 * wordSize && |TextOf(v, pad, wordSize, c)| % 8 == 0
    ensures |Memory(TextOf(v, pad, wordSize, c))| == 2 * q + wordSize
  {
    hide Memory;
    Eights(q, wordSize);
  }

  lemma TextHolds(v: seq<nat>, pad: nat, q: nat, wordSize: nat, c: nat, a: nat)
    requires AreBytes(v) && c < BYTE_COUNT && pad + |v| == 16 * q && pad <= a < 16 * q + 8 * wordSize
    requires |TextOf(v, pad, wordSize, c)| % 8 == 0
    requires 16 * q + 8 * wordSize <= 8 * |Memory(TextOf(v, pad, wordSize, c))|
    ensures ByteAt(Memory(TextOf(v, pad, wordSize, c)), a) == if a < 16 * q then v[a - pad] else c
  {
    hide Memory, ByteAt;
    var bytes := TextOf(v, pad, wordSize, c);
    if a < 16 * q { assert bytes[a] == v[a - pad] && v[a - pad] in v; }
    MemoryHolds(bytes, a);
  }

  /** Bytes that lead to a final state with few exits, so that they end at the end of a machine word, and then a
      machine word of a byte that keeps the state. */
  lemma MissedText(t: Table, final: nat -> bool, dead: nat -> bool, initial: nat, wordSize: nat, v: seq<nat>)
    requires wordSize == 1 || wordSize == 2
    requires Sound(t) && initial < |t.transitions| && DeadIsDead(Next(t), final, dead) && t.masks < BYTE_COUNT
    requires AreBytes(v) && final(Over(Next(t), initial, v))
    requires !NeverLeft(t, Over(Next(t), initial, v)) && !Plain(t, Over(Next(t), initial, v))
    ensures !LongestAlwaysSeen(t, final, dead, initial, wordSize)
  {
    hide Next, NeverLeft, Plain, ExitsAt, Sound, Over, FinalAt, LongestSkipping, Whole, Memory, TextOf, ByteAt,
        AreBytes;
    hide DeadIsDead, IsLongest, Stays;
    var target := Over(Next(t), initial, v);
    OverInside(t, initial, v);
    var c := StayingByte(t, target);
    var q: nat := (|v| + 15) / 16;
    var pad: nat := 16 * q - |v|;
    TextSize(v, pad, q, wordSize, c);
    var words, mid := Memory(TextOf(v, pad, wordSize, c)), 2 * q;
    forall i: nat | i < |v| ensures ByteAt(words, pad + i) == v[i] {
      TextHolds(v, pad, q, wordSize, c, pad + i);
    }
    AfterOver(Next(t), words, pad, initial, v);
    StaysOnByte(t, words, 8 * mid, 8 * (mid + wordSize), target, c, v, pad, q, wordSize);
    WholeEven(wordSize, mid);
    DeadIsNotFinal(t, final, dead, target);
    RunOverlooks(t, final, dead, words, pad, mid, wordSize, initial);
    NotTheLongest(t, final, initial, words, pad, 8 * mid, 8 * (mid + wordSize),
      LongestSkipping(t, final, dead, initial, words, pad, 8 * (mid + wordSize), wordSize));
  }

  lemma StayingByte(t: Table, s: nat) returns (c: nat)
    requires Sound(t) && s < |t.transitions| && !Plain(t, s) && t.masks < BYTE_COUNT
    ensures c < BYTE_COUNT && Next(t)(s, c) == s
  {
    hide Next, ExitsAt, Sound;
    c := SomeByteStays(ExitsAt(t, s));
    ExitsOf(t, s);
  }

  lemma StaysOnByte(t: Table, words: seq<Word64>, from: nat, to: nat, s: nat, c: nat, v: seq<nat>, pad: nat, q: nat,
      wordSize: nat)
    requires AreBytes(v) && c < BYTE_COUNT && Next(t)(s, c) == s && pad + |v| == 16 * q
    requires |TextOf(v, pad, wordSize, c)| % 8 == 0 && words == Memory(TextOf(v, pad, wordSize, c))
    requires 16 * q + 8 * wordSize <= 8 * |words| && from == 16 * q && to == 16 * q + 8 * wordSize
    ensures Stays(Next(t), words, from, to, s)
  {
    hide Next, Memory, TextOf, ByteAt, AreBytes;
    forall a: nat | from <= a < to && a < WORD_BYTES * |words| ensures Next(t)(s, ByteAt(words, a)) == s {
      TextHolds(v, pad, q, wordSize, c, a);
    }
  }

  lemma DeadIsNotFinal(t: Table, final: nat -> bool, dead: nat -> bool, s: nat)
    requires DeadIsDead(Next(t), final, dead) && final(s)
    ensures !dead(s)
  {
  }

  /** A later place is accepted, so this is not the longest prefix. */
  lemma NotTheLongest(t: Table, final: nat -> bool, initial: nat, words: seq<Word64>, begin: nat, mid: nat, end: nat,
      r: Option<nat>)
    requires begin <= mid < end && NotBehind(r, mid) && FinalAt(Next(t), final, words, begin, initial, end)
    ensures !IsLongest(t, final, initial, words, begin, end, r)
  {
    hide FinalAt;
  }

  lemma WholeEven(wordSize: nat, n: nat)
    requires (wordSize == 1 || wordSize == 2) && n % 2 == 0
    ensures Whole(wordSize, n)
  {
  }

  /** With skipping, the longest prefix is found for every text, wherever it lies, exactly if words are never skipped
      in a final state that bytes lead to, unless it is never left. */
  lemma LongestExactly(t: Table, final: nat -> bool, dead: nat -> bool, initial: nat, wordSize: nat)
    requires wordSize == 1 || wordSize == 2
    requires Sound(t) && initial < |t.transitions| && DeadIsDead(Next(t), final, dead) && t.masks < BYTE_COUNT
    ensures LongestAlwaysSeen(t, final, dead, initial, wordSize) <==> FinalsAreSeen(t, final, initial)
  {
    hide Next, NeverLeft, Plain, Sound, Over, IsLongest, LongestSkipping, DeadIsDead;
    if FinalsAreSeen(t, final, initial) {
      forall words: seq<Word64>, begin: nat, end: nat | begin <= end <= WORD_BYTES * |words|
        ensures IsLongest(t, final, initial, words, begin, end,
          LongestSkipping(t, final, dead, initial, words, begin, end, wordSize))
      {
        LongestSeen(t, final, dead, initial, words, begin, end, wordSize);
      }
    } else {
      var s: nat :| Reached(t, initial, s) && final(s) && !NeverLeft(t, s) && !Plain(t, s);
      var v :| AreBytes(v) && Over(Next(t), initial, v) == s;
      MissedText(t, final, dead, initial, wordSize, v);
    }
  }

  /** The table of a scanner with two exit masks that is final until it reads a zero byte. */
  ghost function UntilZero(): Table {
    Table(seq(MAX_CHAR, c => if c == 0 then 1 else 0), [[0, 1], [1, 1]], 2)
  }

  /** One input: in eight bytes other than zero, at the start of a word, no prefix but the empty one is reported,
      though all of them are accepted. */
  lemma MissedPrefix(words: seq<Word64>)
    requires |words| == 1 && forall a: nat | a < 8 :: ByteAt(words, a) != 0
    ensures var final, dead := (s: nat) => s == 0, (s: nat) => s == 1;
      && IsLongest(UntilZero(), final, 0, words, 0, 8, Some(8))
      && NotBehind(LongestSkipping(UntilZero(), final, dead, 0, words, 0, 8, 1), 0)
  {
    hide ByteAt, ExitsAt, SkipRun, FinalAt;
    var t, final, dead := UntilZero(), (s: nat) => s == 0, (s: nat) => s == 1;
    ExitsOf(t, 0);
    FewExits(t);
    forall a: nat | a < 8 ensures Next(t)(0, ByteAt(words, a)) == 0 { ByteAtIsByte(words, a); }
    AfterNothing(Next(t), words, 0, 0);
    ZeroIsDead(t);
    RunOverlooks(t, final, dead, words, 0, 0, 1, 0);
  }

  lemma ZeroIsDead(t: Table)
    requires t == UntilZero()
    ensures Sound(t) && DeadIsDead(Next(t), (s: nat) => s == 0, (s: nat) => s == 1)
  {
  }

  lemma FewExits(t: Table)
    requires t == UntilZero()
    ensures !NeverLeft(t, 0) && !Plain(t, 0)
  {
    hide Exits;
    ExitsOf(t, 0);
    var exits := ExitsAt(t, 0);
    assert 0 in exits && forall c | c in exits :: c == 0;
    forall i: nat | i < |exits| ensures exits[i] < 1 { assert exits[i] in exits; }
    Minimality.Pigeonhole(exits, 1);
  }
}
