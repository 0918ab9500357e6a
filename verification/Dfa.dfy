/** Complete deterministic automata and the subset construction with its cut-off at terminal states. */
module Deterministic {
  import opened Automaton
  import opened EpsilonRemoval

  datatype Dfa = Dfa(size: nat, next: (nat, nat) -> nat, initial: nat, finals: set<nat>) {
    ghost predicate Valid() {
      && initial < size
      && (forall q | q in finals :: q < size)
      && forall p: nat, c: nat | p < size && IsLetter(c) :: next(p, c) < size
    }
  }

  function Run(d: Dfa, p: nat, w: Word): nat
    decreases |w|
  {
    if w == [] then p else Run(d, d.next(p, w[0]), w[1..])
  }

  predicate AcceptsFrom(d: Dfa, p: nat, w: Word) {
    Run(d, p, w) in d.finals
  }

  lemma {:induction false} RunStays(d: Dfa, p: nat, w: Word)
    requires d.Valid() && p < d.size && IsWord(w)
    ensures Run(d, p, w) < d.size
    decreases |w|
  {
    if w != [] {
      TailIsWord(w);
      RunStays(d, d.next(p, w[0]), w[1..]);
    }
  }

  lemma {:induction false} RunJoin(d: Dfa, p: nat, u: Word, v: Word)
    ensures Run(d, p, u + v) == Run(d, Run(d, p, u), v)
    decreases |u|
  {
    if u == [] {
      assert u + v == v;
    } else {
      assert (u + v)[0] == u[0] && (u + v)[1..] == u[1..] + v;
      RunJoin(d, d.next(p, u[0]), u[1..], v);
    }
  }

  lemma TailIsWord(w: Word)
    requires IsWord(w) && w != []
    ensures IsLetter(w[0]) && IsWord(w[1..])
  {
    assert w[0] in w;
    forall x | x in w[1..] ensures IsLetter(x) { assert x in w; }
  }

  /** a has exactly the transitions of d. */
  ghost predicate Represents(a: Nfa, d: Dfa) {
    && a.size == d.size && a.initial == d.initial && a.finals == d.finals
    && forall e :: e in a.edges <==> e.from < d.size && IsLetter(e.letter) && e.to == d.next(e.from, e.letter)
  }

  lemma RepresentsValid(a: Nfa, d: Dfa)
    requires Represents(a, d) && d.Valid()
    ensures a.Valid()
  {
  }

  lemma {:induction false} RepresentedRun(a: Nfa, d: Dfa, p: nat, w: Word, q: nat)
    requires Represents(a, d) && d.Valid() && p < d.size && IsWord(w)
    ensures Leads(a.edges, p, w, q) <==> q == Run(d, p, w)
    decreases |w|
  {
    if w == [] {
      LeadsNowhere(a.edges, p);
      if Leads(a.edges, p, w, q) { LeadsCases(a.edges, p, w, q); }
    } else {
      TailIsWord(w);
      var e := Edge(p, w[0], d.next(p, w[0]));
      RepresentedRun(a, d, e.to, w[1..], q);
      assert w == Read(w[0]) + w[1..];
      if Leads(a.edges, p, w, q) {
        LeadsCases(a.edges, p, w, q);
        var e', v :| e' in a.edges && e'.from == p && w == Read(e'.letter) + v && Leads(a.edges, e'.to, v, q);
        assert v == w[1..] && e'.letter == w[0];
      }
      if q == Run(d, p, w) {
        LeadsFirst(a.edges, e, w[1..], q);
      }
    }
  }

  /** A represented automaton accepts by running. */
  lemma RepresentedLanguage(a: Nfa, d: Dfa, w: Word)
    requires Represents(a, d) && d.Valid() && IsWord(w)
    ensures Accepts(a, w) <==> AcceptsFrom(d, d.initial, w)
  {
    RepresentedRun(a, d, d.initial, w, Run(d, d.initial, w));
    if Accepts(a, w) {
      var q :| q in a.finals && Leads(a.edges, a.initial, w, q);
      RepresentedRun(a, d, d.initial, w, q);
    }
  }

  // ---- the subset construction ----

  ghost function Step(a: Nfa, s: set<nat>, c: nat): set<nat> {
    set q: nat | q < a.size && StepsTo(a, s, c, q)
  }

  ghost predicate StepsTo(a: Nfa, s: set<nat>, c: nat, q: nat) {
    exists p: nat :: p in s && Edge(p, c, q) in a.edges
  }

  ghost function StepAll(a: Nfa, s: set<nat>, w: Word): set<nat>
    decreases |w|
  {
    if w == [] then s else StepAll(a, Step(a, s, w[0]), w[1..])
  }

  lemma {:induction false} StepAllLeads(a: Nfa, s: set<nat>, w: Word, q: nat)
    requires a.Valid() && IsEpsilonFree(a.edges) && IsWord(w)
    ensures q in StepAll(a, s, w) <==> exists p: nat :: p in s && Leads(a.edges, p, w, q)
    decreases |w|
  {
    if w == [] {
      if q in s { LeadsNowhere(a.edges, q); }
      forall p: nat | p in s && Leads(a.edges, p, w, q) ensures p == q {
        SilentIsStill(a, p, q);
      }
    } else {
      TailIsWord(w);
      assert w == [w[0]] + w[1..];
      var t := Step(a, s, w[0]);
      StepAllLeads(a, t, w[1..], q);
      if q in StepAll(a, s, w) {
        var r: nat :| r in t && Leads(a.edges, r, w[1..], q);
        var p: nat :| p in s && Edge(p, w[0], r) in a.edges;
        LeadsFirst(a.edges, Edge(p, w[0], r), w[1..], q);
      }
      forall p: nat | p in s && Leads(a.edges, p, w, q) ensures q in StepAll(a, s, w) {
        LeadsLetter(a.edges, p, w[0], w[1..], q);
        var p', r :| Leads(a.edges, p, [], p') && Edge(p', w[0], r) in a.edges && Leads(a.edges, r, w[1..], q);
        SilentIsStill(a, p, p');
        assert StepsTo(a, s, w[0], r);
      }
    }
  }

  lemma SilentIsStill(a: Nfa, p: nat, q: nat)
    requires IsEpsilonFree(a.edges) && Leads(a.edges, p, [], q)
    ensures p == q
  {
    LeadsCases(a.edges, p, [], q);
  }

  /** d is the subset construction of a: its states are subsets, followed only while free of terminal states. */
  ghost predicate IsSubsetDfa(a: Nfa, terminals: set<nat>, states: seq<set<nat>>, d: Dfa) {
    && d.size == |states| > 0 && d.initial == 0 && states[0] == {a.initial}
    && (forall i: nat, c: nat | i < d.size && IsLetter(c) :: SubsetStep(a, terminals, states, d, i, c))
    && (forall i: nat :: i in d.finals <==> i < d.size && states[i] * a.finals != {})
  }

  ghost predicate SubsetStep(a: Nfa, terminals: set<nat>, states: seq<set<nat>>, d: Dfa, i: nat, c: nat)
    requires i < |states|
  {
    var j := d.next(i, c);
    && j < |states|
    && if states[i] * terminals == {} then states[j] == Step(a, states[i], c) else j == i
  }

  /** Terminal states are final and step to themselves on every letter. */
  ghost predicate Terminal(a: Nfa, terminals: set<nat>) {
    forall t: nat | t in terminals :: t in a.finals && t < a.size && forall c: nat | IsLetter(c) ::
        Edge(t, c, t) in a.edges
  }

  lemma {:induction false} TerminalStays(a: Nfa, terminals: set<nat>, s: set<nat>, w: Word, t: nat)
    requires Terminal(a, terminals) && t in terminals && t in s && IsWord(w)
    ensures t in StepAll(a, s, w)
    decreases |w|
  {
    if w != [] {
      TailIsWord(w);
      assert StepsTo(a, s, w[0], t);
      TerminalStays(a, terminals, Step(a, s, w[0]), w[1..], t);
    }
  }

  lemma {:induction false} StaysPut(d: Dfa, i: nat, w: Word)
    requires IsWord(w) && forall c: nat | IsLetter(c) :: d.next(i, c) == i
    ensures Run(d, i, w) == i
    decreases |w|
  {
    if w != [] {
      TailIsWord(w);
      StaysPut(d, i, w[1..]);
    }
  }

  /** A subset state accepts what some member accepts, though subsets with a terminal state are never followed. */
  lemma {:induction false} SubsetAccepts(a: Nfa, terminals: set<nat>, states: seq<set<nat>>, d: Dfa, i: nat, w: Word)
    requires a.Valid() && Terminal(a, terminals) && IsSubsetDfa(a, terminals, states, d) && i < |states| && IsWord(w)
    ensures AcceptsFrom(d, i, w) <==> StepAll(a, states[i], w) * a.finals != {}
    decreases |w|
  {
    if w != [] {
      if states[i] * terminals == {} {
        TailIsWord(w);
        assert SubsetStep(a, terminals, states, d, i, w[0]);
        SubsetAccepts(a, terminals, states, d, d.next(i, w[0]), w[1..]);
      } else {
        var t: nat := Pick(states[i] * terminals);
        TerminalStays(a, terminals, states[i], w, t);
        assert t in StepAll(a, states[i], w) * a.finals;
        forall c: nat | IsLetter(c) ensures d.next(i, c) == i {
          assert SubsetStep(a, terminals, states, d, i, c);
        }
        StaysPut(d, i, w);
        assert t in states[i] * a.finals;
      }
    }
  }

  lemma Pick(s: set<nat>) returns (x: nat)
    requires s != {}
    ensures x in s
  {
    x :| x in s;
  }

  /** The subset construction keeps the language. */
  lemma SubsetLanguage(a: Nfa, terminals: set<nat>, states: seq<set<nat>>, d: Dfa, w: Word)
    requires a.Valid() && IsEpsilonFree(a.edges) && Terminal(a, terminals) && IsSubsetDfa(a, terminals, states, d) &&
        IsWord(w)
    ensures AcceptsFrom(d, d.initial, w) <==> Accepts(a, w)
  {
    SubsetAccepts(a, terminals, states, d, 0, w);
    var reached := StepAll(a, {a.initial}, w);
    if reached * a.finals != {} {
      var q: nat := Pick(reached * a.finals);
      StepAllLeads(a, {a.initial}, w, q);
    }
    if Accepts(a, w) {
      var q :| q in a.finals && Leads(a.edges, a.initial, w, q);
      StepAllLeads(a, {a.initial}, w, q);
      assert q in reached * a.finals;
    }
  }
}
