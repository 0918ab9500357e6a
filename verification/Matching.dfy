/** The entry points: compiling a parsed pattern and matching a text against it. */
module Matching {
  import opened Automaton
  import opened Options
  import opened EpsilonRemoval
  import opened Deterministic
  import opened SurroundingLanguages
  import opened VisitedSubsets
  import opened FiniteStateMachine
  import opened WordMasks
  import opened Runners
  import opened Scanners
  import FastRunning

  /** The bytes of the text at begin..end, as letters. */
  function Text(words: seq<Word64>, begin: nat, end: nat): Word
    requires begin <= end <= WORD_BYTES * |words|
    decreases (end - begin) as int
  {
    if begin == end then [] else [ByteAt(words, begin)] + Text(words, begin + 1, end)
  }

  lemma {:induction false} TextIsWord(words: seq<Word64>, begin: nat, end: nat)
    requires begin <= end <= WORD_BYTES * |words|
    ensures |Text(words, begin, end)| == end - begin
    ensures forall i: nat | i < end - begin :: Text(words, begin, end)[i] == ByteAt(words, begin + i) < 256
    decreases (end - begin) as int
  {
    hide ByteAt;
    if begin < end {
      ByteAtIsByte(words, begin);
      TextIsWord(words, begin + 1, end);
    }
  }

  lemma {:induction false} AfterIsRun(d: Dfa, words: seq<Word64>, begin: nat, end: nat, s: nat)
    requires begin <= end <= WORD_BYTES * |words|
    ensures After(d.next, words, begin, end, s) == Run(d, s, Text(words, begin, end))
    decreases (end - begin) as int
  {
    hide ByteAt;
    if begin < end {
      AfterIsRun(d, words, begin + 1, end, d.next(s, ByteAt(words, begin)));
      var text := Text(words, begin, end);
      assert text[0] == ByteAt(words, begin) && text[1..] == Text(words, begin + 1, end);
    }
  }

  /** The text between the marks of its beginning and its end. */
  function Marked(text: Word): Word {
    [BEGIN_MARK] + text + [END_MARK]
  }

  lemma MarkedIsWord(text: Word)
    requires forall i: nat | i < |text| :: text[i] < BYTE_COUNT
    ensures IsWord(Marked(text)) && Marked(text) == [258] + text + [259]
  {
    forall c | c in Marked(text) ensures IsLetter(c) {
      if c in text {
        var i: nat :| i < |text| && text[i] == c;
      }
    }
  }

  lemma RunMarked(d: Dfa, s: nat, text: Word)
    ensures Run(d, s, Marked(text)) == d.next(Run(d, d.next(s, BEGIN_MARK), text), END_MARK)
  {
    var w := Marked(text);
    assert w[0] == BEGIN_MARK && w[1..] == text + [END_MARK];
    RunJoin(d, d.next(s, BEGIN_MARK), text, [END_MARK]);
    assert Run(d, Run(d, d.next(s, BEGIN_MARK), text), [END_MARK]) == d.next(Run(d, d.next(s, BEGIN_MARK), text),
        END_MARK);
  }

  /** Can the pattern, with anything before and behind it, be determined with the 200000 new states allowed? */
  ghost predicate Compilable(a: Nfa) {
    !VisitsMore(EpsilonFree(Extended(Prepended(a))), 200001)
  }

  /** Surrounding adds two states, and 17 states have fewer subsets than that. */
  lemma SmallCompiles(a: Nfa)
    requires a.size <= 15
    ensures Compilable(a)
  {
    hide VisitsMore, EpsilonFree;
    FewFit(Extended(Prepended(a)));
  }


  /** The patterns with anything before and behind each. */
  ghost function Surroundings(patterns: seq<Nfa>): (r: seq<Nfa>)
    ensures |r| == |patterns| && forall i: nat | i < |r| :: r[i] == Extended(Prepended(patterns[i]))
  {
    seq(|patterns|, i requires 0 <= i < |patterns| => Extended(Prepended(patterns[i])))
  }

  /** A scanner glued for two lists of surrounded patterns is one for the joined list. */
  lemma GluedPatterns(sc: Scanner, left: seq<Nfa>, right: seq<Nfa>)
    requires Recognises(sc, Surroundings(left) + Surroundings(right))
    ensures Recognises(sc, Surroundings(left + right))
  {
    hide Extended, Prepended, Recognises;
    assert Surroundings(left + right) == Surroundings(left) + Surroundings(right);
  }

  /** From now on finds the pattern anywhere. No scanner is the error that the library throws. */
  method CompileRegexp(fsm: Fsm) returns (r: Option<Scanner>)
    requires fsm.Valid()
    modifies fsm
    ensures r.Some? ==> fresh(r.value) && r.value.Ready(FlagLists(r.value.flags)) && Finding(r.value, old(fsm.Value()))
    ensures r.Some? ==> Recognises(r.value, Surroundings([old(fsm.Value())]))
    ensures r.Some? <==> Compilable(old(fsm.Value()))
    ensures old(fsm.Size()) <= 15 ==> r.Some?
  {
    hide Accepting, AcceptsFactors, SameLanguage, Finding, VisitsMore, EpsilonFree, Extended, Prepended, Recognises;
    hide Fsm.Valid;
    hide Scanner.Ready;
    ghost var a := fsm.Value();
    if a.size <= 15 { SmallCompiles(a); }
    fsm.Surround();
    ghost var surrounded := fsm.Value();
    r := Compile(fsm, 2);
    assert Surroundings([a]) == [surrounded];
    if r.Some? { SurroundedIsFinding(r.value, surrounded, a); }
  }

  /** The scanner is final after a word if and only if some part of the word is in the language of a. */
  ghost predicate Finding(sc: Scanner, a: Nfa)
    reads sc
  {
    sc.Wf() && forall w | IsWord(w) :: IsFinal(sc.flags)(Run(sc.Machine(), sc.initial, w)) <==> HasFactorIn(a, w)
  }

  lemma SurroundedIsFinding(sc: Scanner, surrounded: Nfa, a: Nfa)
    requires Accepting(sc, surrounded) && AcceptsFactors(surrounded, a)
    ensures Finding(sc, a)
  {
    hide Accepts, HasFactorIn;
    forall w | IsWord(w) ensures IsFinal(sc.flags)(Run(sc.Machine(), sc.initial, w)) <==> HasFactorIn(a, w) {
      assert Accepts(surrounded, w) <==> HasFactorIn(a, w);
    }
  }

  /** Steps through the mark of the beginning, the text and the mark of the end. */
  method RunMarks(sc: Scanner, words: seq<Word64>, begin: nat, end: nat, wordSize: nat) returns (s: nat)
    requires sc.Wf() && sc.MasksComplete() && begin <= end <= WORD_BYTES * |words| && (wordSize == 1 || wordSize == 2)
    ensures s < sc.Size() && s == Run(sc.Machine(), sc.initial, Marked(Text(words, begin, end)))
  {
    hide Marked;
    hide Scanner.MasksComplete;
    ghost var d := sc.Machine();
    s := sc.Next(sc.initial, BEGIN_MARK);
    AfterIsRun(d, words, begin, end, s);
    RunMarked(d, sc.initial, Text(words, begin, end));
    s := FastRunning.Run(sc, words, s, begin, end, wordSize);
    s := sc.Next(s, END_MARK);
  }

  /** Does the marked text contain a part that the pattern accepts? */
  method Matches(sc: Scanner, words: seq<Word64>, begin: nat, end: nat, wordSize: nat, ghost a: Nfa)
      returns (found: bool)
    requires sc.Wf() && sc.MasksComplete() && begin <= end <= WORD_BYTES * |words| && (wordSize == 1 || wordSize == 2)
    ensures Finding(sc, a) ==> (found <==> HasFactorIn(a, Marked(Text(words, begin, end))))
  {
    hide Marked, Text, HasFactorIn;
    hide Scanner.MasksComplete;
    var s := RunMarks(sc, words, begin, end, wordSize);
    TextIsWord(words, begin, end);
    MarkedIsWord(Text(words, begin, end));
    found := sc.Final(s);
  }

  /** The numbers of the patterns, compiled and glued in this order, that have a part in the marked text. */
  method AcceptedIn(sc: Scanner, ghost lists: seq<seq<nat>>, words: seq<Word64>, begin: nat, end: nat, wordSize: nat,
      ghost patterns: seq<Nfa>) returns (ids: seq<nat>)
    requires sc.Ready(lists) && begin <= end <= WORD_BYTES * |words| && (wordSize == 1 || wordSize == 2)
    requires Recognises(sc, Surroundings(patterns)) && forall i: nat | i < |patterns| :: patterns[i].Valid()
    ensures forall i: nat :: i in ids <==> i < |patterns| && HasFactorIn(patterns[i], Marked(Text(words, begin, end)))
    ensures forall j: nat, k: nat | j < k < |ids| :: ids[j] < ids[k]
  {
    hide Marked, Text, HasFactorIn, Extended, Prepended, ListAt, Accepts, Nfa.Valid;
    hide Scanner.MasksComplete;
    hide Scanner.DeadComplete;
    hide Scanner.ListsComplete;
    ghost var w := Marked(Text(words, begin, end));
    ghost var wider := Surroundings(patterns);
    TextIsWord(words, begin, end);
    MarkedIsWord(Text(words, begin, end));
    var s := RunMarks(sc, words, begin, end, wordSize);
    assert RecognisesOn(sc, wider, w);
    ids := sc.AcceptedRegexps(s);
    forall i: nat | i < |patterns| ensures Accepts(wider[i], w) <==> HasFactorIn(patterns[i], w) {
      SurroundedLanguage(patterns[i], w);
    }
  }

  /** The whole pipeline: whatever the alignment, the answer is whether the marked text has a part in the language of
      the pattern; there is an answer exactly if the pattern can be compiled. */
  method CompileAndMatch(fsm: Fsm, words: seq<Word64>, begin: nat, end: nat, wordSize: nat)
      returns (answer: Option<bool>)
    requires fsm.Valid() && begin <= end <= WORD_BYTES * |words| && (wordSize == 1 || wordSize == 2)
    modifies fsm
    ensures answer.Some? ==> (answer.value <==> HasFactorIn(old(fsm.Value()), Marked(Text(words, begin, end))))
    ensures answer.Some? <==> Compilable(old(fsm.Value()))
    ensures old(fsm.Size()) <= 15 ==> answer.Some?
  {
    hide Compilable, Finding, HasFactorIn, Marked, Text;
    hide Fsm.Valid;
    ghost var a := fsm.Value();
    var r := CompileRegexp(fsm);
    if r.None? {
      return None;
    }
    var found := Matches(r.value, words, begin, end, wordSize, a);
    return Some(found);
  }
}
