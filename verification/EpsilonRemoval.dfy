/** Silent connections and the automaton without them. */
module EpsilonRemoval {
  import opened Automaton

  ghost predicate Silent(edges: set<Edge>, p: nat, q: nat) {
    Leads(edges, p, [], q)
  }

  ghost predicate IsEpsilonFree(edges: set<Edge>) {
    forall e | e in edges :: e.letter != EPSILON
  }

  /** Every state takes over the letters and the finality of the states it silently reaches. */
  ghost function EpsilonFree(a: Nfa): Nfa {
    Nfa(a.size,
        set p: nat, c: nat, q: nat | p < a.size && c < MAX_CHAR && q < a.size && Takes(a.edges, p, c, q) ::
            Edge(p, c, q),
        a.initial,
        set p: nat | p < a.size && EndsSilently(a, p))
  }

  ghost predicate EndsSilently(a: Nfa, p: nat) {
    exists r :: r in a.finals && Silent(a.edges, p, r)
  }

  ghost predicate Takes(edges: set<Edge>, p: nat, c: nat, q: nat) {
    c != EPSILON && exists r :: Silent(edges, p, r) && Edge(r, c, q) in edges
  }

  lemma EpsilonFreeShape(a: Nfa)
    ensures EpsilonFree(a) == Nfa(a.size, EpsilonFree(a).edges, a.initial, EpsilonFree(a).finals)
    ensures forall q | q in EpsilonFree(a).finals :: q < a.size
  {
  }

  lemma EpsilonFreeEdge(a: Nfa, e: Edge)
    requires a.Valid()
    ensures e in EpsilonFree(a).edges <==> Takes(a.edges, e.from, e.letter, e.to)
  {
    if Takes(a.edges, e.from, e.letter, e.to) {
      var r :| Silent(a.edges, e.from, r) && Edge(r, e.letter, e.to) in a.edges;
      StaysWithin(a, e.from, [], r);
      assert Edge(e.from, e.letter, e.to) == e;
    }
  }

  /** A path that ends in the automaton lies in it. */
  lemma StaysWithin(a: Nfa, p: nat, w: Word, q: nat)
    requires a.Valid() && Leads(a.edges, p, w, q) && q < a.size
    ensures p < a.size
  {
    LeadsCases(a.edges, p, w, q);
  }

  /** Removing epsilons keeps the language. */
  lemma EpsilonFreeLanguage(a: Nfa)
    requires a.Valid()
    ensures SameLanguage(a, EpsilonFree(a)) && EpsilonFree(a).Valid() && IsEpsilonFree(EpsilonFree(a).edges)
  {
    var b := EpsilonFree(a);
    assert b.Valid();
    forall w ensures Accepts(a, w) <==> Accepts(b, w) {
      if Accepts(a, w) {
        AcceptsOnlyWords(a, w);
        var f :| f in a.finals && Leads(a.edges, a.initial, w, f);
        WithoutEpsilons(a, a.initial, w, f);
      }
      if Accepts(b, w) {
        var f :| f in b.finals && Leads(b.edges, b.initial, w, f);
        WithEpsilons(a, b.initial, w, f);
        var r :| r in a.finals && Silent(a.edges, f, r);
        LeadsJoin(a.edges, a.initial, w, f, [], r);
        assert w + [] == w;
      }
    }
  }

  lemma {:induction false} WithoutEpsilons(a: Nfa, p: nat, w: Word, f: nat)
    requires a.Valid() && f in a.finals && IsWord(w) && Leads(a.edges, p, w, f)
    ensures exists g :: g in EpsilonFree(a).finals && Leads(EpsilonFree(a).edges, p, w, g)
    decreases |w|
  {
    var b := EpsilonFree(a);
    if w == [] {
      StaysWithin(a, p, w, f);
      assert p in b.finals;
      LeadsNowhere(b.edges, p);
    } else {
      var c, rest := w[0], w[1..];
      assert c in w && w == [c] + rest;
      LeadsLetter(a.edges, p, c, rest, f);
      var r, s :| Leads(a.edges, p, [], r) && Edge(r, c, s) in a.edges && Leads(a.edges, s, rest, f);
      forall x | x in rest ensures IsLetter(x) { assert x in w; }
      WithoutEpsilons(a, s, rest, f);
      var g :| g in b.finals && Leads(b.edges, s, rest, g);
      assert Silent(a.edges, p, r) && Takes(a.edges, p, c, s);
      EpsilonFreeEdge(a, Edge(p, c, s));
      LeadsFirst(b.edges, Edge(p, c, s), rest, g);
    }
  }

  lemma WithEpsilons(a: Nfa, p: nat, w: Word, q: nat)
    requires a.Valid() && Leads(EpsilonFree(a).edges, p, w, q)
    ensures Leads(a.edges, p, w, q)
  {
    var b := EpsilonFree(a);
    forall e | e in b.edges ensures Leads(a.edges, e.from, Read(e.letter), e.to) {
      EpsilonFreeEdge(a, e);
      var r :| Silent(a.edges, e.from, r) && Edge(r, e.letter, e.to) in a.edges;
      LeadsByEdge(a.edges, Edge(r, e.letter, e.to));
      LeadsSilently(a.edges, e.from, r, Read(e.letter), e.to);
    }
    LeadsSimulated(b.edges, a.edges, p, w, q);
  }

  /** A transitive relation that contains the epsilon edges and only silent connections is all of them. */
  lemma {:induction false} ClosureIsSilent(edges: set<Edge>, t: (nat, nat) -> bool, p: nat, q: nat)
    requires forall e | e in edges && e.letter == EPSILON :: t(e.from, e.to)
    requires forall x, y, z | t(x, y) && t(y, z) :: t(x, z)
    requires forall x, y | t(x, y) :: Silent(edges, x, y)
    ensures Silent(edges, p, q) <==> p == q || t(p, q)
  {
    if p == q { LeadsNowhere(edges, p); }
    if Silent(edges, p, q) {
      var path :| IsPath(edges, p, path, q) && Label(path) == [];
      SilentPathInClosure(edges, t, p, path, q);
    }
  }

  lemma {:induction false} SilentPathInClosure(edges: set<Edge>, t: (nat, nat) -> bool, p: nat, path: Path, q: nat)
    requires forall e | e in edges && e.letter == EPSILON :: t(e.from, e.to)
    requires forall x, y, z | t(x, y) && t(y, z) :: t(x, z)
    requires IsPath(edges, p, path, q) && Label(path) == []
    ensures p == q || t(p, q)
    decreases |path|
  {
    if path != [] {
      var e, rest: Path := path[0], path[1..];
      assert e.letter == EPSILON && Label(rest) == [];
      SilentPathInClosure(edges, t, e.to, rest, q);
    }
  }
}
