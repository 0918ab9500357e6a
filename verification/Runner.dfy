/** Running a scanner over a stretch of memory, word by word, with a predicate that may stop it after any byte. */
module Runners {
  import opened WordMasks
  import opened Options

  datatype Action = Continue | Stop

  /** Where a run ended, what the predicate has reported, and whether it stopped the run. */
  datatype Outcome<S, P> = Outcome(state: S, found: P, action: Action)

  // ---- the meaning: a byte loop ----

  /** The byte at address a of memory that is read in words. */
  function ByteAt(words: seq<Word64>, a: nat): nat
    requires a < WORD_BYTES * |words|
  {
    Lane(words[a / WORD_BYTES], a % WORD_BYTES) as nat
  }

  /** Steps through the bytes at addresses from..to and asks the predicate after each. */
  function ByteLoop<S, P>(next: (S, nat) -> S, pred: (S, nat, P) -> (Action, P), words: seq<Word64>, from: nat,
      to: nat, s: S, p: P): Outcome<S, P>
    requires from <= to <= WORD_BYTES * |words|
    decreases (to - from) as int
  {
    if from == to then Outcome(s, p, Continue)
    else
      var t := next(s, ByteAt(words, from));
      var (action, q) := pred(t, from + 1, p);
      if action == Stop then Outcome(t, q, Stop)
      else ByteLoop(next, pred, words, from + 1, to, t, q)
  }

  /** A loop may be cut in two anywhere. */
  lemma {:induction false} LoopJoins<S, P>(next: (S, nat) -> S, pred: (S, nat, P) -> (Action, P), words: seq<Word64>,
                                           from: nat, mid: nat, to: nat, s: S, p: P)
    requires from <= mid <= to <= WORD_BYTES * |words|
    ensures ByteLoop(next, pred, words, from, to, s, p) ==
            var first := ByteLoop(next, pred, words, from, mid, s, p);
            if first.action == Stop then first else ByteLoop(next, pred, words, mid, to, first.state, first.found)
    decreases mid - from
  {
    hide ByteAt;
    if from < mid {
      var t := next(s, ByteAt(words, from));
      var (action, q) := pred(t, from + 1, p);
      if action == Continue {
        LoopJoins(next, pred, words, from + 1, mid, to, t, q);
      }
    }
  }

  lemma LoopOnce<S, P>(next: (S, nat) -> S, pred: (S, nat, P) -> (Action, P), words: seq<Word64>, at: nat, s: S, p: P)
    requires at < WORD_BYTES * |words|
    ensures ByteLoop(next, pred, words, at, at + 1, s, p) ==
            var t := next(s, ByteAt(words, at));
            var (action, q) := pred(t, at + 1, p);
            Outcome(t, q, action)
  {
    hide ByteAt;
    assert ByteLoop(next, pred, words, at + 1, at + 1, s, p) == Outcome(s, p, Continue);
  }

  /** One more byte at the end of a loop that has not been stopped. */
  lemma LoopGrows<S, P>(next: (S, nat) -> S, pred: (S, nat, P) -> (Action, P), words: seq<Word64>, from: nat, at: nat,
      s: S, p: P, so: Outcome<S, P>)
    requires from <= at < WORD_BYTES * |words|
    requires so == ByteLoop(next, pred, words, from, at, s, p) && so.action == Continue
    ensures ByteLoop(next, pred, words, from, at + 1, s, p) ==
            var t := next(so.state, ByteAt(words, at));
            var (action, q) := pred(t, at + 1, so.found);
            Outcome(t, q, action)
  {
    hide ByteAt, ByteLoop;
    LoopJoins(next, pred, words, from, at, at + 1, s, p);
    LoopOnce(next, pred, words, at, so.state, so.found);
  }

  // ---- words ----

  /** Runs through `size` bytes of one word, shifting them out of a register. */
  method RunChunk<S, P>(next: (S, nat) -> S, pred: (S, nat, P) -> (Action, P), words: seq<Word64>, s: S, found: P,
      word: nat, pos: nat, size: nat)
    returns (out: Outcome<S, P>)
    requires pos + size <= WORD_BYTES && WORD_BYTES * word + pos + size <= WORD_BYTES * |words|
    ensures out == ByteLoop(next, pred, words, WORD_BYTES * word + pos, WORD_BYTES * word + pos + size, s, found)
  {
    hide ByteLoop, ByteAt, Lane, ShiftBytes, HoldsLanes, LowByte, Down;
    ghost var begin := WORD_BYTES * word + pos;
    out := Outcome(s, found, Continue);
    EmptyLoop(next, pred, words, begin, s, found);
    if size == 0 {
      return;
    }
    var chunk := ShiftBytes(words[word], pos);
    LanesStart(words[word], pos, size);
    var ptr := WORD_BYTES * word + pos + size + 1;
    for i: nat := size downto 0
      invariant out == ByteLoop(next, pred, words, begin, begin + size - i, s, found) && out.action == Continue
      invariant HoldsLanes(chunk, words[word], pos + size - i, i)
    {
      ghost var at := begin + size - i - 1;
      LowestLane(words, word, pos + size - i - 1, chunk, i);
      LoopGrows(next, pred, words, begin, at, s, found, out);
      var t := next(out.state, LowByte(chunk));
      var (action, q) := pred(t, ptr - i - 1, out.found);
      out := Outcome(t, q, action);
      if action == Stop {
        LoopJoins(next, pred, words, begin, at + 1, begin + size, s, found);
        return;
      }
      LanesShift(chunk, words[word], pos + size - i - 1, i);
      chunk := Down(chunk);
    }
  }

  lemma EmptyLoop<S, P>(next: (S, nat) -> S, pred: (S, nat, P) -> (Action, P), words: seq<Word64>, at: nat, s: S, p: P)
    requires at <= WORD_BYTES * |words|
    ensures ByteLoop(next, pred, words, at, at, s, p) == Outcome(s, p, Continue)
  {
  }

  /** The low n bytes of a register are those of the word from pos on. */
  ghost predicate HoldsLanes(chunk: Word64, w: Word64, pos: nat, n: nat) {
    forall k: nat | k < n :: Lane(chunk, k) == Lane(w, pos + k)
  }

  function LowByte(chunk: Word64): nat {
    (chunk & 0xFF) as nat
  }

  lemma LowestLane(words: seq<Word64>, word: nat, pos: nat, chunk: Word64, i: nat)
    requires word < |words| && pos < WORD_BYTES && HoldsLanes(chunk, words[word], pos, i + 1)
    ensures LowByte(chunk) == ByteAt(words, WORD_BYTES * word + pos)
  {
    hide Lane, Low, LowByte;
    assert (WORD_BYTES * word + pos) / WORD_BYTES == word && (WORD_BYTES * word + pos) % WORD_BYTES == pos;
    assert Lane(chunk, 0) == Lane(words[word], pos + 0);
    LowIsLane(chunk);
  }

  lemma LowIsLane(chunk: Word64)
    ensures LowByte(chunk) == Lane(chunk, 0) as nat
  {
  }

  lemma LanesStart(w: Word64, pos: nat, size: nat)
    requires pos + size <= WORD_BYTES
    ensures HoldsLanes(ShiftBytes(w, pos), w, pos, size)
  {
    hide Lane, ShiftBytes;
    forall i: nat | i < size ensures Lane(ShiftBytes(w, pos), i) == Lane(w, pos + i) {
      ShiftLanes(w, pos, i);
    }
  }

  lemma LanesShift(chunk: Word64, w: Word64, pos: nat, n: nat)
    requires HoldsLanes(chunk, w, pos, n + 1)
    ensures HoldsLanes(Down(chunk), w, pos + 1, n)
  {
    hide Low, Down;
    var rest := Down(chunk);
    forall k: nat | k < n ensures Lane(rest, k) == Lane(w, pos + 1 + k) {
      assert Lane(chunk, k + 1) == Lane(w, pos + (k + 1));
    }
  }

  /** The generic runner of whole words. */
  method RunAligned<S, P>(next: (S, nat) -> S, pred: (S, nat, P) -> (Action, P), words: seq<Word64>, s: S, found: P,
      begin: nat, end: nat)
    returns (out: Outcome<S, P>)
    requires begin <= end <= |words|
    ensures out == ByteLoop(next, pred, words, WORD_BYTES * begin, WORD_BYTES * end, s, found)
  {
    hide ByteLoop;
    out := Outcome(s, found, Continue);
    EmptyLoop(next, pred, words, WORD_BYTES * begin, s, found);
    for word: nat := begin to end
      invariant out == ByteLoop(next, pred, words, WORD_BYTES * begin, WORD_BYTES * word, s, found) &&
          out.action == Continue
    {
      LoopJoins(next, pred, words, WORD_BYTES * begin, WORD_BYTES * word, WORD_BYTES * word + WORD_BYTES, s, found);
      out := RunChunk(next, pred, words, out.state, out.found, word, 0, WORD_BYTES);
      if out.action == Stop {
        LoopJoins(next, pred, words, WORD_BYTES * begin, WORD_BYTES * word + WORD_BYTES, WORD_BYTES * end, s, found);
        return;
      }
    }
  }

  /** Runs from address `begin` to `end`, whatever their alignment: the end of a word, whole words, the start of a
      word. */
  method DoRun<S, P>(next: (S, nat) -> S, pred: (S, nat, P) -> (Action, P), words: seq<Word64>, s: S, found: P,
      begin: nat, end: nat)
    returns (out: Outcome<S, P>)
    requires begin <= end <= WORD_BYTES * |words|
    ensures out == ByteLoop(next, pred, words, begin, end, s, found)
  {
    hide ByteLoop;
    var head, tail := begin / WORD_BYTES, end / WORD_BYTES;
    var headSize, tailSize := WORD_BYTES * head + WORD_BYTES - begin, end - WORD_BYTES * tail;
    if head == tail {
      out := RunChunk(next, pred, words, s, found, head, WORD_BYTES - headSize, end - begin);
      return;
    }
    out := Outcome(s, found, Continue);
    EmptyLoop(next, pred, words, begin, s, found);
    if begin != WORD_BYTES * head {
      out := RunChunk(next, pred, words, s, found, head, WORD_BYTES - headSize, headSize);
      LoopJoins(next, pred, words, begin, begin + headSize, end, s, found);
      if out.action == Stop {
        return;
      }
      head := head + 1;
    }
    LoopJoins(next, pred, words, WORD_BYTES * head, WORD_BYTES * tail, end, out.state, out.found);
    out := RunAligned(next, pred, words, out.state, out.found, head, tail);
    if out.action == Stop {
      return;
    }
    EmptyLoop(next, pred, words, end, out.state, out.found);
    if tailSize != 0 {
      out := RunChunk(next, pred, words, out.state, out.found, tail, 0, tailSize);
    }
  }

  // ---- predicates ----

  /** Never stops, reports nothing. */
  function RunPred<S, P>(): (S, nat, P) -> (Action, P) {
    (s: S, pos: nat, p: P) => (Continue, p)
  }

  /** Stops at the first final state and reports its position; also stops where no final state can come. */
  function ShortestPrefixPred<S>(final: S -> bool, dead: S -> bool): (S, nat, Option<nat>) -> (Action, Option<nat>) {
    (s: S, pos: nat, p: Option<nat>) => if final(s) then (Stop, Some(pos)) else (if dead(s) then Stop else Continue, p)
  }

  /** Reports every final state. */
  function LongestPrefixPred<S>(final: S -> bool, dead: S -> bool): (S, nat, Option<nat>) -> (Action, Option<nat>) {
    (s: S, pos: nat, p: Option<nat>) => (if dead(s) then Stop else Continue, if final(s) then Some(pos) else p)
  }

  /** The state after stepping through the bytes at from..to. */
  function After<S>(next: (S, nat) -> S, words: seq<Word64>, from: nat, to: nat, s: S): S
    requires from <= to <= WORD_BYTES * |words|
    decreases (to - from) as int
  {
    if from == to then s else After(next, words, from + 1, to, next(s, ByteAt(words, from)))
  }

  /** No final state ever follows a dead one. */
  ghost predicate DeadIsDead<S(!new)>(next: (S, nat) -> S, final: S -> bool, dead: S -> bool) {
    && (forall s: S | dead(s) :: !final(s))
    && (forall s: S, c: nat | dead(s) && c < 256 :: dead(next(s, c)))
  }

  lemma ByteAtIsByte(words: seq<Word64>, a: nat)
    requires a < WORD_BYTES * |words|
    ensures ByteAt(words, a) < 256
  {
    ByteIsSmall(Lane(words[a / WORD_BYTES], a % WORD_BYTES));
  }

  ghost predicate FinalAt<S>(next: (S, nat) -> S, final: S -> bool, words: seq<Word64>, from: nat, s: S, e: nat) {
    from <= e <= WORD_BYTES * |words| && final(After(next, words, from, e, s))
  }

  /** Running means stepping through every byte. */
  lemma {:induction false} RunSteps<S, P>(next: (S, nat) -> S, words: seq<Word64>, from: nat, to: nat, s: S, p: P)
    requires from <= to <= WORD_BYTES * |words|
    ensures ByteLoop(next, RunPred(), words, from, to, s, p) == Outcome(After(next, words, from, to, s), p, Continue)
    decreases (to - from) as int
  {
    hide ByteAt;
    if from < to {
      RunSteps(next, words, from + 1, to, next(s, ByteAt(words, from)), p);
    }
  }

  lemma {:induction false} DeadStays<S(!new)>(next: (S, nat) -> S, final: S -> bool, dead: S -> bool,
      words: seq<Word64>, from: nat, e: nat, s: S)
    requires DeadIsDead(next, final, dead) && dead(s) && from <= e <= WORD_BYTES * |words|
    ensures !FinalAt(next, final, words, from, s, e)
    decreases (e - from) as int
  {
    hide ByteAt;
    if from < e {
      ByteAtIsByte(words, from);
      DeadStays(next, final, dead, words, from + 1, e, next(s, ByteAt(words, from)));
    }
  }

  /** r is the first place after `from`, up to `to`, where a final state is reached. */
  ghost predicate IsFirstFinal<S>(next: (S, nat) -> S, final: S -> bool, words: seq<Word64>, from: nat, to: nat, s: S,
      r: Option<nat>) {
    match r
    case Some(e) => from < e <= to && FinalAt(next, final, words, from, s, e) && forall x: nat | from < x < e ::
        !FinalAt(next, final, words, from, s, x)
    case None => forall x: nat | from < x <= to :: !FinalAt(next, final, words, from, s, x)
  }

  lemma FinalLater<S>(next: (S, nat) -> S, final: S -> bool, words: seq<Word64>, from: nat, s: S, x: nat)
    requires from < x <= WORD_BYTES * |words|
    ensures FinalAt(next, final, words, from, s, x) <==>
        FinalAt(next, final, words, from + 1, next(s, ByteAt(words, from)), x)
  {
    hide ByteAt;
  }

  /** The loop of ShortestPrefix reports the first final state. */
  lemma {:induction false} ShortestLoop<S(!new)>(next: (S, nat) -> S, final: S -> bool, dead: S -> bool,
      words: seq<Word64>, from: nat, to: nat, s: S)
    requires DeadIsDead(next, final, dead) && from <= to <= WORD_BYTES * |words|
    ensures IsFirstFinal(next, final, words, from, to, s,
        ByteLoop(next, ShortestPrefixPred(final, dead), words, from, to, s, None).found)
    decreases (to - from) as int
  {
    hide ByteAt, DeadIsDead, FinalAt;
    if from < to {
      var t, later: nat := next(s, ByteAt(words, from)), from + 1;
      NowFinal(next, final, words, from, s);
      forall x: nat | from < x <= to ensures FinalAt(next, final, words, from, s, x) <==>
          FinalAt(next, final, words, later, t, x) {
        FinalLater(next, final, words, from, s, x);
      }
      if final(t) {
        assert FinalAt(next, final, words, from, s, from + 1);
      } else if dead(t) {
        forall x: nat | from < x <= to ensures !FinalAt(next, final, words, later, t, x) {
          DeadStays(next, final, dead, words, later, x, t);
        }
      } else {
        ShortestLoop(next, final, dead, words, from + 1, to, t);
      }
    }
  }

  lemma NowFinal<S>(next: (S, nat) -> S, final: S -> bool, words: seq<Word64>, from: nat, s: S)
    requires from < WORD_BYTES * |words|
    ensures FinalAt(next, final, words, from, s, from + 1) <==> final(next(s, ByteAt(words, from)))
    ensures FinalAt(next, final, words, from + 1, next(s, ByteAt(words, from)), from + 1) <==>
        final(next(s, ByteAt(words, from)))
  {
    hide ByteAt;
    assert After(next, words, from + 1, from + 1, next(s, ByteAt(words, from))) == next(s, ByteAt(words, from));
  }

  /** r is the last place after `from`, up to `to`, where a final state is reached, or else the place known before. */
  ghost predicate IsLastFinal<S>(next: (S, nat) -> S, final: S -> bool, words: seq<Word64>, from: nat, to: nat, s: S,
      before: Option<nat>, r: Option<nat>) {
    || (r == before && forall x: nat | from < x <= to :: !FinalAt(next, final, words, from, s, x))
    || (r.Some? && from < r.value <= to && FinalAt(next, final, words, from, s, r.value)
        && forall x: nat | r.value < x <= to :: !FinalAt(next, final, words, from, s, x))
  }

  /** The loop of LongestPrefix reports the last final state. */
  lemma {:induction false} LongestLoop<S(!new)>(next: (S, nat) -> S, final: S -> bool, dead: S -> bool,
      words: seq<Word64>, from: nat, to: nat, s: S, p: Option<nat>)
    requires DeadIsDead(next, final, dead) && from <= to <= WORD_BYTES * |words|
    ensures IsLastFinal(next, final, words, from, to, s, p,
        ByteLoop(next, LongestPrefixPred(final, dead), words, from, to, s, p).found)
    decreases (to - from) as int
  {
    hide ByteAt, DeadIsDead, FinalAt;
    if from < to {
      var t, later: nat := next(s, ByteAt(words, from)), from + 1;
      NowFinal(next, final, words, from, s);
      forall x: nat | from < x <= to ensures FinalAt(next, final, words, from, s, x) <==>
          FinalAt(next, final, words, later, t, x) {
        FinalLater(next, final, words, from, s, x);
      }
      if dead(t) {
        forall x: nat | from < x <= to ensures !FinalAt(next, final, words, later, t, x) {
          DeadStays(next, final, dead, words, later, x, t);
        }
      } else {
        LongestLoop(next, final, dead, words, from + 1, to, t, if final(t) then Some(from + 1) else p);
      }
    }
  }

  /** The end of the shortest prefix that leads to a final state. */
  method ShortestPrefix<S(!new)>(next: (S, nat) -> S, final: S -> bool, dead: S -> bool, initial: S,
      words: seq<Word64>, begin: nat, end: nat)
    returns (r: Option<nat>)
    requires begin <= end <= WORD_BYTES * |words| && DeadIsDead(next, final, dead)
    ensures match r
            case Some(e) => begin <= e <= end && FinalAt(next, final, words, begin, initial, e)
                            && forall x: nat | begin <= x < e :: !FinalAt(next, final, words, begin, initial, x)
            case None => forall x: nat | begin <= x <= end :: !FinalAt(next, final, words, begin, initial, x)
  {
    hide ByteAt, DeadIsDead, FinalAt, ByteLoop, ShortestPrefixPred;
    BeginFinal(next, final, words, begin, initial);
    if final(initial) {
      return Some(begin);
    }
    ShortestLoop(next, final, dead, words, begin, end, initial);
    var out := DoRun(next, ShortestPrefixPred(final, dead), words, initial, None, begin, end);
    r := out.found;
  }

  lemma BeginFinal<S>(next: (S, nat) -> S, final: S -> bool, words: seq<Word64>, begin: nat, s: S)
    requires begin <= WORD_BYTES * |words|
    ensures FinalAt(next, final, words, begin, s, begin) <==> final(s)
  {
  }

  /** The end of the longest prefix that leads to a final state. */
  method LongestPrefix<S(!new)>(next: (S, nat) -> S, final: S -> bool, dead: S -> bool, initial: S,
      words: seq<Word64>, begin: nat, end: nat)
    returns (r: Option<nat>)
    requires begin <= end <= WORD_BYTES * |words| && DeadIsDead(next, final, dead)
    ensures match r
            case Some(e) => begin <= e <= end && FinalAt(next, final, words, begin, initial, e)
                            && forall x: nat | e < x <= end :: !FinalAt(next, final, words, begin, initial, x)
            case None => forall x: nat | begin <= x <= end :: !FinalAt(next, final, words, begin, initial, x)
  {
    hide ByteAt, DeadIsDead, FinalAt, ByteLoop, LongestPrefixPred;
    BeginFinal(next, final, words, begin, initial);
    r := if final(initial) then Some(begin) else None;
    LongestLoop(next, final, dead, words, begin, end, initial, r);
    var out := DoRun(next, LongestPrefixPred(final, dead), words, initial, r, begin, end);
    r := out.found;
  }
}
