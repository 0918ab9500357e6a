/** What surrounding, complementing and cutting down to prefixes accept. */
module SurroundingLanguages {
  import opened Automaton
  import opened Deterministic
  import opened RegularLanguages

  // ---- anything before and after ----

  function AllLoops(m: nat): set<Edge> {
    set c: nat | c < MAX_CHAR && IsIndex(c) :: Edge(m, c, m)
  }

  predicate IsIndex(c: nat) {
    c < MAX_CHAR
  }

  lemma AllLoop(m: nat, e: Edge)
    ensures e in AllLoops(m) <==> e.from == m && e.to == m && e.letter < MAX_CHAR
  {
    if e.from == m && e.to == m && e.letter < MAX_CHAR {
      assert IsIndex(e.letter) && e == Edge(m, e.letter, m);
    }
  }

  function Prepended(a: Nfa): Nfa {
    Nfa(a.size + 1, a.edges + AllLoops(a.size) + {Edge(a.size, EPSILON, a.initial)}, a.size, a.finals)
  }

  lemma PrependedEdge(a: Nfa, e: Edge)
    ensures e in Prepended(a).edges <==>
      e in a.edges || (e.from == a.size && e.to == a.size && e.letter < MAX_CHAR) ||
          e == Edge(a.size, EPSILON, a.initial)
  {
    AllLoop(a.size, e);
  }

  lemma {:induction false} LoopLeads(edges: set<Edge>, m: nat, w: Word)
    requires AllLoops(m) <= edges && IsWord(w)
    ensures Leads(edges, m, w, m)
    decreases |w|
  {
    if w == [] {
      LeadsNowhere(edges, m);
    } else {
      TailIsWord(w);
      LoopLeads(edges, m, w[1..]);
      AllLoop(m, Edge(m, w[0], m));
      LeadsFirst(edges, Edge(m, w[0], m), w[1..], m);
      assert Read(w[0]) + w[1..] == w;
    }
  }

  /** w ends with a word that a accepts. */
  ghost predicate HasSuffixIn(a: Nfa, w: Word) {
    exists x, u :: w == x + u && IsWord(x) && Accepts(a, u)
  }

  lemma {:induction false} PrependedPath(a: Nfa, path: Path, f: nat)
    requires a.Valid() && f in a.finals && IsPath(Prepended(a).edges, a.size, path, f)
    ensures HasSuffixIn(a, Label(path))
    decreases |path|
  {
    var e, rest: Path := path[0], path[1..];
    PrependedEdge(a, e);
    if e.to == a.size {
      PrependedPath(a, rest, f);
      var x, u :| Label(rest) == x + u && IsWord(x) && Accepts(a, u);
      Associative(Read(e.letter), x, u);
      assert Label(path) == (Read(e.letter) + x) + u && IsWord(Read(e.letter) + x);
    } else {
      assert Leads(Prepended(a).edges, a.initial, Label(rest), f);
      forall g: Edge | g in Prepended(a).edges && g.from < a.size ensures g in a.edges && g.to < a.size {
        PrependedEdge(a, g);
      }
      LeadsConfined(Prepended(a).edges, a.edges, (p: nat) => p < a.size, a.initial, Label(rest), f);
      assert Label(path) == [] + Label(rest) && Accepts(a, Label(rest));
    }
  }

  lemma PrependedLanguage(a: Nfa, w: Word)
    requires a.Valid()
    ensures Accepts(Prepended(a), w) <==> HasSuffixIn(a, w)
  {
    var p := Prepended(a);
    if Accepts(p, w) {
      var f :| f in p.finals && Leads(p.edges, a.size, w, f);
      var path :| IsPath(p.edges, a.size, path, f) && Label(path) == w;
      PrependedPath(a, path, f);
    }
    if HasSuffixIn(a, w) {
      var x, u :| w == x + u && IsWord(x) && Accepts(a, u);
      var f :| f in a.finals && Leads(a.edges, a.initial, u, f);
      LeadsGrows(a.edges, p.edges, a.initial, u, f);
      LeadsFirst(p.edges, Edge(a.size, EPSILON, a.initial), u, f);
      assert Read(EPSILON) + u == u;
      LoopLeads(p.edges, a.size, x);
      LeadsJoin(p.edges, a.size, x, a.size, u, f);
    }
  }

  function Extended(a: Nfa): Nfa {
    Nfa(a.size + 1, a.edges + AllLoops(a.size) + EdgesFrom(a.finals, EPSILON, a.size), a.initial, {a.size})
  }

  lemma ExtendedEdge(a: Nfa, e: Edge)
    ensures e in Extended(a).edges <==>
      e in a.edges || (e.from == a.size && e.to == a.size && e.letter < MAX_CHAR) ||
          (e.from in a.finals && e.letter == EPSILON && e.to == a.size)
  {
    AllLoop(a.size, e);
    EdgeFrom(a.finals, EPSILON, a.size, e);
  }

  /** w starts with a word that a accepts. */
  ghost predicate HasPrefixIn(a: Nfa, w: Word) {
    exists u, y :: w == u + y && Accepts(a, u) && IsWord(y)
  }

  lemma {:induction false} ExtendedPath(a: Nfa, p: nat, path: Path)
    requires a.Valid() && p < a.size && IsPath(Extended(a).edges, p, path, a.size)
    ensures exists u, f, y :: Label(path) == u + y && f in a.finals && Leads(a.edges, p, u, f) && IsWord(y)
    decreases |path|
  {
    var e, rest: Path := path[0], path[1..];
    ExtendedEdge(a, e);
    if e in a.edges {
      ExtendedPath(a, e.to, rest);
      var u, f, y :| Label(rest) == u + y && f in a.finals && Leads(a.edges, e.to, u, f) && IsWord(y);
      LeadsFirst(a.edges, e, u, f);
      Associative(Read(e.letter), u, y);
      assert Label(path) == (Read(e.letter) + u) + y;
    } else {
      LeadsNowhere(a.edges, p);
      forall g | g in Extended(a).edges ensures g.letter < MAX_CHAR {
        ExtendedEdge(a, g);
      }
      PathReadsLetters(Extended(a).edges, a.size, rest, a.size);
      assert Label(path) == [] + Label(rest);
    }
  }

  lemma ExtendedLanguage(a: Nfa, w: Word)
    requires a.Valid()
    ensures Accepts(Extended(a), w) <==> HasPrefixIn(a, w)
  {
    var x := Extended(a);
    if Accepts(x, w) {
      var path :| IsPath(x.edges, a.initial, path, a.size) && Label(path) == w;
      ExtendedPath(a, a.initial, path);
      var u, f, y :| Label(path) == u + y && f in a.finals && Leads(a.edges, a.initial, u, f) && IsWord(y);
      assert Accepts(a, u);
    }
    if HasPrefixIn(a, w) {
      var u, y :| w == u + y && Accepts(a, u) && IsWord(y);
      var f :| f in a.finals && Leads(a.edges, a.initial, u, f);
      LeadsGrows(a.edges, x.edges, a.initial, u, f);
      LeadsLast(x.edges, a.initial, u, Edge(f, EPSILON, a.size));
      assert u + Read(EPSILON) == u;
      LoopLeads(x.edges, a.size, y);
      LeadsJoin(x.edges, a.initial, u, a.size, y, a.size);
      assert a.size in x.finals;
    }
  }

  /** Some part of w is a word that a accepts. */
  ghost predicate HasFactorIn(a: Nfa, w: Word) {
    exists x, u, y :: w == x + u + y && IsWord(x) && Accepts(a, u) && IsWord(y)
  }

  /** Surrounding: anything, then a word of a, then anything. */
  lemma SurroundedLanguage(a: Nfa, w: Word)
    requires a.Valid()
    ensures Prepended(a).Valid() && (Accepts(Extended(Prepended(a)), w) <==> HasFactorIn(a, w))
  {
    var p := Prepended(a);
    PrependedValid(a);
    ExtendedLanguage(p, w);
    if HasPrefixIn(p, w) {
      var v, y :| w == v + y && Accepts(p, v) && IsWord(y);
      PrependedLanguage(a, v);
      var x, u :| v == x + u && IsWord(x) && Accepts(a, u);
      assert w == x + u + y;
    }
    if HasFactorIn(a, w) {
      var x, u, y :| w == x + u + y && IsWord(x) && Accepts(a, u) && IsWord(y);
      assert HasSuffixIn(a, x + u);
      PrependedLanguage(a, x + u);
      assert w == (x + u) + y;
    }
  }

  ghost predicate AcceptsFactors(c: Nfa, a: Nfa) {
    forall w :: Accepts(c, w) <==> HasFactorIn(a, w)
  }

  lemma SurroundedFactors(a: Nfa)
    requires a.Valid()
    ensures AcceptsFactors(Extended(Prepended(a)), a)
  {
    hide Accepts, HasFactorIn, Extended, Prepended;
    forall w ensures Accepts(Extended(Prepended(a)), w) <==> HasFactorIn(a, w) {
      SurroundedLanguage(a, w);
    }
  }

  lemma PrependedValid(a: Nfa)
    requires a.Valid()
    ensures Prepended(a).Valid()
  {
    forall e | e in Prepended(a).edges ensures e.from < a.size + 1 && e.letter < MAX_CHAR && e.to < a.size + 1 {
      PrependedEdge(a, e);
    }
  }

  // ---- complement ----

  /** The states that were not final, the new one included, step silently to a single new final state. */
  function Complemented(a: Nfa): Nfa {
    Nfa(a.size + 1, a.edges + set p: nat | p <= a.size && p !in a.finals ::
        Edge(p, EPSILON, a.size), a.initial, {a.size})
  }

  lemma ComplementedShape(a: Nfa)
    ensures Complemented(a) == Nfa(a.size + 1, Complemented(a).edges, a.initial, {a.size})
  {
  }

  lemma ComplementedEdge(a: Nfa, e: Edge)
    ensures e in Complemented(a).edges <==>
        e in a.edges || (e.from <= a.size && e.from !in a.finals && e.letter == EPSILON && e.to == a.size)
  {
    if e.from <= a.size && e.from !in a.finals && e.letter == EPSILON && e.to == a.size {
      assert e == Edge(e.from, EPSILON, a.size);
    }
  }

  lemma {:induction false} ComplementedPath(a: Nfa, p: nat, path: Path)
    requires a.Valid() && p < a.size && IsPath(Complemented(a).edges, p, path, a.size)
    ensures exists r: nat :: r < a.size && r !in a.finals && Leads(a.edges, p, Label(path), r)
    decreases |path|
  {
    var e, rest: Path := path[0], path[1..];
    ComplementedEdge(a, e);
    if e in a.edges {
      ComplementedPath(a, e.to, rest);
      var r: nat :| r < a.size && r !in a.finals && Leads(a.edges, e.to, Label(rest), r);
      LeadsFirst(a.edges, e, Label(rest), r);
    } else {
      LeadsNowhere(a.edges, p);
      NewFinalIsSilent(a, rest);
      assert Label(path) == [] + [];
    }
  }

  /** The new final state only steps silently to itself. */
  lemma {:induction false} NewFinalIsSilent(a: Nfa, path: Path)
    requires a.Valid() && IsPath(Complemented(a).edges, a.size, path, a.size)
    ensures Label(path) == []
    decreases |path|
  {
    if path != [] {
      ComplementedEdge(a, path[0]);
      NewFinalIsSilent(a, path[1..]);
    }
  }

  /** On a complete deterministic machine this is the complement over the alphabet. */
  lemma ComplementLanguage(a: Nfa, d: Dfa, w: Word)
    requires Represents(a, d) && d.Valid()
    ensures Accepts(Complemented(a), w) <==> IsWord(w) && !Accepts(a, w)
  {
    RepresentsValid(a, d);
    var c := Complemented(a);
    if Accepts(c, w) {
      var path :| IsPath(c.edges, a.initial, path, a.size) && Label(path) == w;
      ComplementedPath(a, a.initial, path);
      var r: nat :| r < a.size && r !in a.finals && Leads(a.edges, a.initial, w, r);
      LeadsReadsLetters(a.edges, a.initial, w, r);
      RepresentedRun(a, d, a.initial, w, r);
      RepresentedLanguage(a, d, w);
    }
    if IsWord(w) && !Accepts(a, w) {
      var r := Run(d, d.initial, w);
      RunStays(d, d.initial, w);
      RepresentedRun(a, d, a.initial, w, r);
      RepresentedLanguage(a, d, w);
      var e := Edge(r, EPSILON, a.size);
      ComplementedEdge(a, e);
      LeadsGrows(a.edges, c.edges, a.initial, w, r);
      LeadsLast(c.edges, a.initial, w, e);
      assert w + Read(EPSILON) == w && a.size in c.finals;
    }
  }

  /** c accepts the other words over the alphabet. */
  ghost predicate AcceptsOthers(c: Nfa, a: Nfa) {
    forall w :: Accepts(c, w) <==> IsWord(w) && !Accepts(a, w)
  }

  lemma ComplementOthers(origin: Nfa, a: Nfa, d: Dfa)
    requires Represents(a, d) && d.Valid() && SameLanguage(origin, a)
    ensures AcceptsOthers(Complemented(a), origin)
  {
    hide Complemented, Accepts;
    forall w ensures Accepts(Complemented(a), w) <==> IsWord(w) && !Accepts(origin, w) {
      ComplementLanguage(a, d, w);
    }
  }

  ghost predicate AcceptsBoth(c: Nfa, a: Nfa, b: Nfa) {
    forall w :: Accepts(c, w) <==> Accepts(a, w) && Accepts(b, w)
  }

  lemma DeMorgan(a: Nfa, b: Nfa, a': Nfa, b': Nfa, union: Nfa, c: Nfa)
    requires a.Valid() && b.Valid()
    requires AcceptsOthers(a', a) && AcceptsOthers(b', b) && AcceptsEither(union, a', b') && AcceptsOthers(c, union)
    ensures AcceptsBoth(c, a, b)
  {
    hide Accepts;
    forall w ensures Accepts(c, w) <==> Accepts(a, w) && Accepts(b, w) {
      if Accepts(a, w) { AcceptsOnlyWords(a, w); }
    }
  }

  ghost predicate AcceptsNotBoth(c: Nfa, a: Nfa, b: Nfa) {
    forall w :: Accepts(c, w) <==> IsWord(w) && !(Accepts(a, w) && Accepts(b, w))
  }

  /** The union of two complements is the complement of the intersection. */
  lemma NotBoth(a: Nfa, b: Nfa, a': Nfa, b': Nfa, union: Nfa, c: Nfa)
    requires AcceptsOthers(a', a) && AcceptsOthers(b', b) && AcceptsEither(union, a', b') && SameLanguage(c, union)
    ensures AcceptsNotBoth(c, a, b)
  {
    hide Accepts;
  }

  // ---- dead states and prefixes ----

  /** p is reached from the initial state. */
  ghost predicate IsReached(a: Nfa, p: nat) {
    exists w :: Leads(a.edges, a.initial, w, p)
  }

  /** A final state is reached from p. */
  ghost predicate CanEnd(a: Nfa, p: nat) {
    exists w, f :: f in a.finals && Leads(a.edges, p, w, f)
  }

  /** Every word can be continued to an accepted one. */
  ghost predicate EveryWordExtends(a: Nfa) {
    forall w | IsWord(w) :: Extends(a, w)
  }

  ghost predicate Extends(a: Nfa, w: Word) {
    exists v :: Accepts(a, w + v)
  }

  ghost predicate IsDead(a: Nfa, p: nat) {
    p < a.size && !(IsReached(a, p) && CanEnd(a, p))
  }

  /** Every state but the dead ones keeps its edges to states that are not dead. */
  ghost function WithoutDead(a: Nfa): Nfa {
    a.(edges := set e | e in a.edges && !IsDead(a, e.from) && !IsDead(a, e.to))
  }

  /** An accepting path avoids dead states. */
  lemma {:induction false} LivePath(a: Nfa, u: Word, p: nat, path: Path, f: nat)
    requires a.Valid() && f in a.finals && Leads(a.edges, a.initial, u, p) && IsPath(a.edges, p, path, f)
    ensures Leads(WithoutDead(a).edges, p, Label(path), f)
    decreases |path|
  {
    var b := WithoutDead(a);
    if path == [] {
      LeadsNowhere(b.edges, p);
    } else {
      var e, rest: Path := path[0], path[1..];
      LeadsLast(a.edges, a.initial, u, e);
      LivePath(a, u + Read(e.letter), e.to, rest, f);
      assert Leads(a.edges, e.from, Label(path), f) && Leads(a.edges, e.to, Label(rest), f);
      assert CanEnd(a, e.from) && CanEnd(a, e.to) && IsReached(a, e.from) && IsReached(a, e.to);
      LeadsFirst(b.edges, e, Label(rest), f);
    }
  }

  /** Removing dead ends keeps the language. */
  lemma WithoutDeadLanguage(a: Nfa)
    requires a.Valid()
    ensures SameLanguage(a, WithoutDead(a))
  {
    var b := WithoutDead(a);
    forall w ensures Accepts(a, w) <==> Accepts(b, w) {
      if Accepts(a, w) {
        var f :| f in a.finals && Leads(a.edges, a.initial, w, f);
        var path :| IsPath(a.edges, a.initial, path, f) && Label(path) == w;
        LeadsNowhere(a.edges, a.initial);
        LivePath(a, [], a.initial, path, f);
      }
      if Accepts(b, w) {
        var f :| f in b.finals && Leads(b.edges, b.initial, w, f);
        LeadsGrows(b.edges, a.edges, a.initial, w, f);
      }
    }
  }

  ghost predicate IsPrefix(a: Nfa, w: Word) {
    exists v :: IsWord(w) && Accepts(a, w + v)
  }

  /** b is a without dead ends, all live states being final. */
  lemma PrefixLanguage(a: Nfa, b: Nfa, w: Word)
    requires a.Valid() && b.initial == a.initial && b.edges == WithoutDead(a).edges
    requires forall p: nat | p < a.size && !IsDead(a, p) :: p in b.finals
    requires forall p: nat | p in b.finals && IsDead(a, p) :: p in a.finals
    requires forall p: nat | p in b.finals :: p < a.size
    ensures Accepts(b, w) <==> IsPrefix(a, w)
  {
    if Accepts(b, w) {
      var q :| q in b.finals && Leads(b.edges, b.initial, w, q);
      LeadsGrows(b.edges, a.edges, a.initial, w, q);
      LeadsReadsLetters(a.edges, a.initial, w, q);
      assert IsReached(a, q);
      if IsDead(a, q) {
        assert w + [] == w && Accepts(a, w + []);
      } else {
        var v, f :| f in a.finals && Leads(a.edges, q, v, f);
        LeadsJoin(a.edges, a.initial, w, q, v, f);
        assert Accepts(a, w + v);
      }
    }
    if IsPrefix(a, w) {
      var v :| IsWord(w) && Accepts(a, w + v);
      WithoutDeadLanguage(a);
      assert Accepts(WithoutDead(a), w + v);
      var f :| f in a.finals && Leads(b.edges, a.initial, w + v, f);
      LeadsSplit(b.edges, a.initial, w, v, f);
      var r :| Leads(b.edges, a.initial, w, r) && Leads(b.edges, r, v, f);
      LeadsGrows(b.edges, a.edges, a.initial, w, r);
      LeadsGrows(b.edges, a.edges, r, v, f);
      assert IsReached(a, r) && CanEnd(a, r);
      EndWithin(a, w, r);
    }
  }

  lemma EndWithin(a: Nfa, w: Word, r: nat)
    requires a.Valid() && Leads(a.edges, a.initial, w, r)
    ensures r < a.size
  {
    LeadsConfined(a.edges, a.edges, (p: nat) => p < a.size, a.initial, w, r);
  }
}
