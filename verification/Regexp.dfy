/** The easy interface: a fast scanner where the machine can be determined, a slow one where it cannot. */
module Regexps {
  import opened Automaton
  import opened Transitions
  import opened EpsilonRemoval
  import opened Options
  import opened Letters
  import Ordered
  import opened RegularLanguages
  import opened Tables
  import opened Deterministic
  import opened SurroundingLanguages
  import opened VisitedSubsets
  import opened FiniteStateMachine
  import opened WordMasks
  import opened Scanners
  import opened SlowScanners
  import opened Matching

  // ---- patterns that begin with ^ ----

  /** Only silent steps and the mark of the beginning leave the states that are reached silently. */
  ghost predicate OnlyMarkLeaves(fsm: Fsm)
    reads fsm
  {
    forall p: nat | p < |fsm.rows| && Silent(fsm.Value().edges, fsm.initial, p) :: MarkLeaves(fsm.rows[p])
  }

  predicate MarkLeaves(row: Row): (r: bool)
    ensures r <==> forall c | c in row :: c == 257 || c == 258
  {
    row.Keys <= {EPSILON, BEGIN_MARK}
  }

  /** Letter by letter: what leaves such a state is epsilon or the mark. */
  lemma CircumflexSpelled(fsm: Fsm)
    ensures OnlyMarkLeaves(fsm) <==> forall p: nat, c: nat ::
      p < |fsm.rows| && Silent(fsm.Value().edges, fsm.initial, p) && c in fsm.rows[p] ==> c == 257 || c == 258
  {
    hide Silent;
  }

  /** The states found so far: reached silently, and closed up to the queue. */
  ghost predicate Exploring(fsm: Fsm, handled: set<nat>, queue: seq<nat>)
    reads fsm
  {
    && fsm.initial in handled
    && (forall p: nat | p in queue :: p in handled)
    && (forall p: nat | p in handled :: p < |fsm.rows| && Silent(fsm.Value().edges, fsm.initial, p))
    && (forall p: nat | p in handled && p !in queue :: MarkLeaves(fsm.rows[p]) && Dest(fsm.rows, p, EPSILON) <= handled)
  }

  lemma ExploredAll(fsm: Fsm, handled: set<nat>)
    requires fsm.Wf() && Exploring(fsm, handled, [])
    ensures OnlyMarkLeaves(fsm)
  {
    var a := fsm.Value();
    forall p: nat | p < |fsm.rows| && Silent(a.edges, fsm.initial, p) ensures p in handled {
      var path :| IsPath(a.edges, fsm.initial, path, p) && Label(path) == [];
      SilentPathHandled(fsm, handled, fsm.initial, path, p);
    }
  }

  lemma {:induction false} SilentPathHandled(fsm: Fsm, handled: set<nat>, p: nat, path: Path, q: nat)
    requires fsm.Wf() && Exploring(fsm, handled, []) && p in handled
    requires IsPath(fsm.Value().edges, p, path, q) && Label(path) == []
    ensures q in handled
    decreases |path|
  {
    if path != [] {
      var e, rest: Path := path[0], path[1..];
      EdgeOf(fsm.rows, fsm.letters.inv, e);
      assert e.letter == EPSILON && Label(rest) == [];
      SilentPathHandled(fsm, handled, e.to, rest, q);
    }
  }

  lemma SilentTarget(fsm: Fsm, p: nat, q: nat)
    requires fsm.Wf() && p < |fsm.rows| && Silent(fsm.Value().edges, fsm.initial, p) && q in Dest(fsm.rows, p, EPSILON)
    ensures q < |fsm.rows| && Silent(fsm.Value().edges, fsm.initial, q)
  {
    var e := Edge(p, EPSILON, q);
    assert Linked(fsm.rows, p, EPSILON, q);
    EdgeOf(fsm.rows, fsm.letters.inv, e);
    LeadsLast(fsm.Value().edges, fsm.initial, [], e);
  }

  method BeginsWithCircumflex(fsm: Fsm) returns (r: bool)
    requires fsm.Wf()
    ensures r <==> OnlyMarkLeaves(fsm)
  {
    hide Within, OverLetters, Coherent, EdgesOf, Silent;
    var queue, handled := [fsm.initial], {fsm.initial};
    LeadsNowhere(fsm.Value().edges, fsm.initial);
    InitialIsSilent(fsm);
    while queue != []
      invariant Exploring(fsm, handled, queue)
      decreases StatesBelow(|fsm.rows|) - handled, |queue|
    {
      var p := queue[0];
      assert p in queue;
      ghost var before, waiting := handled, queue;
      var rest := Dest(fsm.rows, p, EPSILON);
      while rest != {}
        invariant rest <= Dest(fsm.rows, p, EPSILON) && before <= handled && |queue| >= |waiting| &&
            queue[..|waiting|] == waiting
        invariant (forall q: nat | q in queue :: q in handled) &&
            (forall q: nat :: q in handled ==> q in before || q in queue[|waiting|..])
        invariant forall q: nat | q in handled :: q < |fsm.rows| && Silent(fsm.Value().edges, fsm.initial, q)
        invariant Dest(fsm.rows, p, EPSILON) - rest <= handled
        invariant handled == before ==> queue == waiting
        decreases |rest|
      {
        var q: nat := Ordered.Least(rest);
        SilentTarget(fsm, p, q);
        if q !in handled {
          handled := handled + {q};
          assert (queue + [q])[|waiting|..] == queue[|waiting|..] + [q];
          queue := queue + [q];
        }
        rest := rest - {q};
      }
      if !MarkLeaves(fsm.rows[p]) {
        return false;
      }
      ExploredOne(fsm, before, handled, waiting, queue, p);
      FewerLeft(fsm, before, handled);
      queue := queue[1..];
    }
    ExploredAll(fsm, handled);
    return true;
  }

  lemma InitialIsSilent(fsm: Fsm)
    ensures Silent(fsm.Value().edges, fsm.initial, fsm.initial)
  {
    LeadsNowhere(fsm.Value().edges, fsm.initial);
  }

  lemma ExploredOne(fsm: Fsm, before: set<nat>, handled: set<nat>, waiting: seq<nat>, queue: seq<nat>, p: nat)
    requires Exploring(fsm, before, waiting) && waiting != [] && p == waiting[0] && before <= handled
    requires |queue| >= |waiting| && queue[..|waiting|] == waiting && (forall q: nat | q in queue :: q in handled)
    requires forall q: nat :: q in handled ==> q in before || q in queue[|waiting|..]
    requires forall q: nat | q in handled :: q < |fsm.rows| && Silent(fsm.Value().edges, fsm.initial, q)
    requires p < |fsm.rows| && MarkLeaves(fsm.rows[p]) && Dest(fsm.rows, p, EPSILON) <= handled
    ensures Exploring(fsm, handled, queue[1..])
  {
    hide Dest, MarkLeaves, Silent;
    var later := queue[1..];
    assert queue == [p] + later;
    forall q: nat | q in handled && q !in later
        ensures MarkLeaves(fsm.rows[q]) && Dest(fsm.rows, q, EPSILON) <= handled {
      if q != p {
        assert q !in queue;
        assert q !in queue[|waiting|..] && q in before;
        InPrefix(queue, |waiting|, q);
      }
    }
  }

  lemma InPrefix(s: seq<nat>, n: nat, q: nat)
    requires n <= |s|
    ensures q in s[..n] ==> q in s
  {
  }

  lemma FewerLeft(fsm: Fsm, before: set<nat>, handled: set<nat>)
    requires before <= handled && forall q: nat | q in handled :: q < |fsm.rows|
    ensures StatesBelow(|fsm.rows|) - handled <= StatesBelow(|fsm.rows|) - before
    ensures before != handled ==> StatesBelow(|fsm.rows|) - handled != StatesBelow(|fsm.rows|) - before
  {
    if before != handled {
      var q: nat :| q in handled && q !in before;
      assert Below(q, |fsm.rows|);
      assert q in StatesBelow(|fsm.rows|) - before;
    }
  }

  /** The mark of the beginning and the letters above it: no byte is one. */
  predicate IsMark(c: nat) {
    BEGIN_MARK <= c < MAX_CHAR
  }

  /** Every word accepted is empty or begins with a mark, and the mark of the beginning would do as well. */
  ghost predicate StartsWithMark(a: Nfa) {
    forall w | Accepts(a, w) && w != [] :: IsMark(w[0]) && Accepts(a, [BEGIN_MARK] + w[1..])
  }

  /** That holds if only the mark leaves the states reached silently: letters of its class cannot be told from it, and
      as a representative it is the least of its class. */
  lemma OnlyMarkStarts(fsm: Fsm)
    requires fsm.Wf() && OnlyMarkLeaves(fsm)
    ensures StartsWithMark(fsm.Value())
  {
    hide OnlyMarkLeaves, EdgesOf;
    var a := fsm.Value();
    fsm.ValueIsValid();
    forall w | Accepts(a, w) && w != [] ensures IsMark(w[0]) && Accepts(a, [BEGIN_MARK] + w[1..]) {
      var f :| f in a.finals && Leads(a.edges, a.initial, w, f);
      AcceptsOnlyWords(a, w);
      TailIsWord(w);
      assert w == [w[0]] + w[1..];
      LeadsLetter(a.edges, a.initial, w[0], w[1..], f);
      var r, s :| Leads(a.edges, a.initial, [], r) && Edge(r, w[0], s) in a.edges && Leads(a.edges, s, w[1..], f);
      FirstLetterIsMark(fsm, r, w[0], s);
      LeadsFirst(a.edges, Edge(r, BEGIN_MARK, s), w[1..], f);
      LeadsSilently(a.edges, a.initial, r, [BEGIN_MARK] + w[1..], f);
    }
  }

  lemma FirstLetterIsMark(fsm: Fsm, r: nat, c: nat, s: nat)
    requires fsm.Wf() && OnlyMarkLeaves(fsm) && IsLetter(c)
    requires Silent(fsm.Value().edges, fsm.initial, r) && Edge(r, c, s) in fsm.Value().edges
    ensures IsMark(c) && Edge(r, BEGIN_MARK, s) in fsm.Value().edges
  {
    EdgeOf(fsm.rows, fsm.letters.inv, Edge(r, c, s));
    EdgeOf(fsm.rows, fsm.letters.inv, Edge(r, BEGIN_MARK, s));
    var k: nat := Stand(fsm.letters.inv, c);
    assert MarkLeaves(fsm.rows[r]) && k in fsm.rows[r].Keys;
    if c in fsm.letters.inv { RepresentativeIsClassed(fsm.letters, c); }
  }

  /** In a marked text such a word is found at the beginning or nowhere. */
  lemma FactorIsPrefix(a: Nfa, text: Word)
    requires StartsWithMark(a) && forall i: nat | i < |text| :: text[i] < BYTE_COUNT
    ensures HasFactorIn(a, Marked(text)) <==> HasPrefixIn(a, Marked(text))
  {
    hide Accepts, IsWord;
    EmptyIsWord();
    var w := Marked(text);
    MarkedIsWord(text);
    if HasFactorIn(a, w) {
      var x, u, y :| w == x + u + y && IsWord(x) && Accepts(a, u) && IsWord(y);
      if u == [] {
        assert w == u + w;
      } else {
        MarksAreOutside(text, |x|);
        assert w[|x|] == u[0];
        if x == [] {
          assert w == u + y;
        } else {
          assert u[1..] == [] && [BEGIN_MARK] + u[1..] == [BEGIN_MARK];
          MarkedTail(text);
        }
      }
    }
    if HasPrefixIn(a, w) {
      var u, y :| w == u + y && Accepts(a, u) && IsWord(y);
      assert w == [] + u + y;
    }
  }

  lemma EmptyIsWord()
    ensures IsWord([])
  {
  }

  lemma MarksAreOutside(text: Word, i: nat)
    requires forall j: nat | j < |text| :: text[j] < BYTE_COUNT
    ensures i < |Marked(text)| && IsMark(Marked(text)[i]) ==> i == 0 || i == |Marked(text)| - 1
  {
  }

  lemma MarkedTail(text: Word)
    requires forall j: nat | j < |text| :: text[j] < BYTE_COUNT
    ensures Marked(text) == [BEGIN_MARK] + (text + [END_MARK]) && IsWord(text + [END_MARK])
  {
    MarkedIsWord(text);
    forall c | c in text + [END_MARK] ensures IsLetter(c) { assert c in Marked(text); }
  }

  // ---- compiling and matching ----

  /** What the pattern is compiled to: anything may follow, and come before unless it begins with the mark. */
  ghost function Target(a: Nfa, anchored: bool): Nfa {
    if anchored then Extended(a) else Extended(Prepended(a))
  }

  ghost function Readable(fast: Option<Scanner>, slow: Option<SlowScanner>): set<object> {
    (if fast.Some? then {fast.value} else {}) + if slow.Some? then {slow.value} else {}
  }

  /** Exactly one scanner is there, and it follows an automaton with the language of `target`. */
  ghost predicate DecidesBy(fast: Option<Scanner>, slow: Option<SlowScanner>, target: Nfa, followed: Nfa)
    reads Readable(fast, slow)
  {
    && (fast.Some? <==> slow.None?)
    && (fast.Some? ==> fast.value.Wf() && fast.value.MasksComplete() && Accepting(fast.value, target))
    && (slow.Some? ==> slow.value.Follows(followed) && followed.Valid())
    && (slow.Some? ==> IsEpsilonFree(followed.edges) && SameLanguage(target, followed))
  }

  /** From now on anything may follow, and come before unless the pattern begins with the mark. */
  method MakeTarget(fsm: Fsm)
    requires fsm.Valid()
    modifies fsm
    ensures fsm.Valid() && !fsm.determined
    ensures fsm.Value() == Target(old(fsm.Value()), old(OnlyMarkLeaves(fsm)))
  {
    hide OnlyMarkLeaves, Extended, Prepended, Nfa.Valid;
    hide Fsm.Valid;
    ghost var a := fsm.Value();
    ValidIsWf(fsm);
    var anchored := BeginsWithCircumflex(fsm);
    if !anchored {
      fsm.PrependAnything();
    }
    fsm.AppendAnything();
    TargetIs(a, anchored, fsm.Value());
  }

  /** Tries to determine the machine; only if that takes too many states, the slow scanner is used. */
  method BuildScanners(fsm: Fsm) returns (fast: Option<Scanner>, slow: Option<SlowScanner>, ghost followed: Nfa)
    requires fsm.Valid()
    modifies fsm
    ensures DecidesBy(fast, slow, Target(old(fsm.Value()), old(OnlyMarkLeaves(fsm))), followed)
    ensures fast.Some? <==> !VisitsMore(EpsilonFree(Target(old(fsm.Value()), old(OnlyMarkLeaves(fsm)))), 200001)
    ensures old(fsm.Size()) <= 15 ==> fast.Some?
  {
    hide VisitsMore, EpsilonFree, Accepting, Target, SameLanguage, IsEpsilonFree, OnlyMarkLeaves, Extended, Prepended,
        Nfa.Valid;
    hide Fsm.Valid;
    hide SlowScanner.Follows;
    ValidIsWf(fsm);
    if fsm.Size() <= 15 { SmallTarget(fsm.Value(), OnlyMarkLeaves(fsm)); }
    MakeTarget(fsm);
    ghost var target := fsm.Value();
    var ok := fsm.Determine();
    ghost var determined := fsm.Value();
    fast, slow, followed := None, None, determined;
    if ok {
      fast := Compile(fsm, 2);
      AcceptingSame(fast.value, target, determined);
    } else {
      ValidIsWf(fsm);
      var sc := CompileSlow(fsm);
      slow, followed := Some(sc), fsm.Value();
      SameLanguageJoin(target, determined, fsm.Value());
    }
  }

  lemma SmallTarget(a: Nfa, anchored: bool)
    requires a.initial < a.size <= 15
    ensures !VisitsMore(EpsilonFree(Target(a, anchored)), 200001)
  {
    hide VisitsMore, EpsilonFree;
    FewFit(Target(a, anchored));
  }

  class Regexp {
    var fast: Option<Scanner>
    var slow: Option<SlowScanner>

    ghost predicate Decides(target: Nfa, followed: Nfa)
      reads this, Readable(fast, slow)
    {
      DecidesBy(fast, slow, target, followed)
    }

    constructor ()
    {
      fast, slow := None, None;
    }

    method Init(fsm: Fsm) returns (ghost followed: Nfa)
      requires fsm.Valid()
      modifies this, fsm
      ensures Decides(Target(old(fsm.Value()), old(OnlyMarkLeaves(fsm))), followed)
    {
      hide Target, OnlyMarkLeaves, Accepting, SameLanguage, IsEpsilonFree, Nfa.Valid;
      hide Fsm.Valid;
      hide SlowScanner.Follows;
      hide Scanner.Wf;
      hide Scanner.MasksComplete;
      var f, s;
      f, s, followed := BuildScanners(fsm);
      fast, slow := f, s;
    }

    /** Runs whichever scanner there is over the marked text. */
    method Matches(words: seq<Word64>, begin: nat, end: nat, wordSize: nat, ghost target: Nfa, ghost followed: Nfa)
        returns (found: bool)
      requires Decides(target, followed) && begin <= end <= WORD_BYTES * |words| && (wordSize == 1 || wordSize == 2)
      ensures found <==> Accepts(target, Marked(Text(words, begin, end)))
    {
      hide Marked, Text, Accepts, SameLanguage, IsEpsilonFree, Nfa.Valid;
      hide SlowScanner.Follows;
      hide Scanner.MasksComplete;
      TextIsWord(words, begin, end);
      MarkedIsWord(Text(words, begin, end));
      if fast.Some? {
        var s := RunMarks(fast.value, words, begin, end, wordSize);
        found := fast.value.Final(s);
      } else {
        found := SlowMatches(slow.value, words, begin, end, followed);
        SameLanguageOn(target, followed, Marked(Text(words, begin, end)));
      }
    }
  }

  lemma ValidIsWf(fsm: Fsm)
    requires fsm.Valid()
    ensures fsm.Wf()
  {
  }

  lemma TargetIs(a: Nfa, anchored: bool, v: Nfa)
    requires v == if anchored then Extended(a) else Extended(Prepended(a))
    ensures v == Target(a, anchored)
  {
  }

  lemma AcceptingSame(sc: Scanner, a: Nfa, b: Nfa)
    requires Accepting(sc, b) && SameLanguage(a, b)
    ensures Accepting(sc, a)
  {
    hide Accepts;
  }

  /** Steps the slow scanner through the marked text. */
  method SlowMatches(sc: SlowScanner, words: seq<Word64>, begin: nat, end: nat, ghost a: Nfa) returns (found: bool)
    requires sc.Follows(a) && a.Valid() && IsEpsilonFree(a.edges) && begin <= end <= WORD_BYTES * |words|
    ensures found <==> Accepts(a, Marked(Text(words, begin, end)))
  {
    hide Text, StepAll, SetOf, IsEpsilonFree, Nfa.Valid, Deterministic.Step;
    hide SlowScanner.Follows;
    FollowsIsWf(sc, a);
    StartFollows(sc, a);
    ghost var text := Text(words, begin, end);
    var state := new StateList(sc.statesCount);
    var other := new StateList(sc.statesCount);
    sc.Initialize(state);
    StepAllNothing(a, {a.initial});
    OneStart(sc, a);
    sc.Next(state, other, BEGIN_MARK);
    NextIsStep(sc, a, state.states, other.states, BEGIN_MARK);
    StepAllMore(a, {a.initial}, [], BEGIN_MARK);
    SlowScanners.Run(sc, other, words, begin, end, a);
    StepAllJoin(a, {a.initial}, [BEGIN_MARK], text);
    sc.Next(other, state, END_MARK);
    NextIsStep(sc, a, other.states, state.states, END_MARK);
    StepAllMore(a, {a.initial}, [BEGIN_MARK] + text, END_MARK);
    TextIsWord(words, begin, end);
    MarkedIsWord(text);
    ReachedFinal(sc, a, Marked(text), state.states);
    found := sc.Final(state);
  }

  lemma StartFollows(sc: SlowScanner, a: Nfa)
    requires sc.Follows(a)
    ensures sc.start == a.initial < sc.statesCount
  {
  }

  lemma OneStart(sc: SlowScanner, a: Nfa)
    requires sc.start == a.initial
    ensures SetOf([sc.start]) == {a.initial} && [] + [BEGIN_MARK] == [BEGIN_MARK]
  {
  }

  lemma {:induction false} StepAllJoin(a: Nfa, s: set<nat>, u: Word, v: Word)
    ensures StepAll(a, s, u + v) == StepAll(a, StepAll(a, s, u), v)
    decreases |u|
  {
    hide Deterministic.Step;
    if u == [] {
      assert u + v == v;
    } else {
      assert (u + v)[0] == u[0] && (u + v)[1..] == u[1..] + v;
      StepAllJoin(a, Deterministic.Step(a, s, u[0]), u[1..], v);
    }
  }

  /** Anchored or not, the target finds the pattern in the marked text. */
  lemma TargetFinds(a: Nfa, anchored: bool, text: Word)
    requires a.Valid() && (anchored ==> StartsWithMark(a)) && forall i: nat | i < |text| :: text[i] < BYTE_COUNT
    ensures Accepts(Target(a, anchored), Marked(text)) <==> HasFactorIn(a, Marked(text))
  {
    hide Accepts, HasFactorIn, HasPrefixIn, Extended, Prepended, Marked;
    if anchored {
      ExtendedLanguage(a, Marked(text));
      FactorIsPrefix(a, text);
    } else {
      SurroundedLanguage(a, Marked(text));
    }
  }

  /** From pattern to answer: whether the marked text has a part in the language of the pattern, by either scanner. */
  method CompileAndMatch(fsm: Fsm, words: seq<Word64>, begin: nat, end: nat, wordSize: nat) returns (found: bool)
    requires fsm.Valid() && begin <= end <= WORD_BYTES * |words| && (wordSize == 1 || wordSize == 2)
    modifies fsm
    ensures found <==> HasFactorIn(old(fsm.Value()), Marked(Text(words, begin, end)))
  {
    hide Marked, Text, Accepts, HasFactorIn, OnlyMarkLeaves, Target, Nfa.Valid, StartsWithMark;
    hide Fsm.Valid;
    hide Regexp.Decides;
    ghost var a, anchored := fsm.Value(), OnlyMarkLeaves(fsm);
    ValidIsWf(fsm);
    fsm.ValueIsValid();
    if anchored { OnlyMarkStarts(fsm); }
    var re := new Regexp();
    ghost var followed := re.Init(fsm);
    found := re.Matches(words, begin, end, wordSize, Target(a, anchored), followed);
    TextIsWord(words, begin, end);
    TargetFinds(a, anchored, Text(words, begin, end));
  }
}
