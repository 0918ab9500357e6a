/** Automata with epsilon transitions as values, the words they accept, and the path arguments shared by every
    language theorem of the project. */
module Automaton {
  const EPSILON: nat := 257
  const BEGIN_MARK: nat := 258
  const END_MARK: nat := 259
  /** Size of letter tables: 260 rounded up to a multiple of an 8-byte pointer. */
  const MAX_CHAR: nat := 264

  const BYTE_COUNT: nat := 256

  type Word = seq<nat>

  /** The bytes, the marks, and what pads a letter table. */
  predicate IsLetter(c: nat): (r: bool)
    ensures r <==> c < 257 || 257 < c < 264
  {
    c < MAX_CHAR && c != EPSILON
  }

  predicate IsWord(w: Word) {
    forall c | c in w :: IsLetter(c)
  }

  /** No item occurs twice. */
  ghost predicate Unrepeated(s: seq<nat>) {
    forall i: nat, j: nat | i < |s| && j < |s| && s[i] == s[j] :: i == j
  }

  datatype Edge = Edge(from: nat, letter: nat, to: nat)

  datatype Nfa = Nfa(size: nat, edges: set<Edge>, initial: nat, finals: set<nat>) {
    ghost predicate Valid() {
      && initial < size
      && (forall q | q in finals :: q < size)
      && EdgesWithin(edges, size)
    }
  }

  ghost predicate EdgesWithin(edges: set<Edge>, size: nat) {
    forall e | e in edges :: e.from < size && e.letter < MAX_CHAR && e.to < size
  }

  type Path = seq<Edge>

  ghost predicate IsPath(edges: set<Edge>, p: nat, path: Path, q: nat)
    decreases |path|
  {
    if path == [] then p == q
    else path[0] in edges && path[0].from == p && IsPath(edges, path[0].to, path[1..], q)
  }

  /** The letters read along a path: epsilon reads nothing. */
  function Label(path: Path): Word {
    if path == [] then []
    else Read(path[0].letter) + Label(path[1..])
  }

  function Read(c: nat): Word {
    if c == EPSILON then [] else [c]
  }

  ghost predicate Leads(edges: set<Edge>, p: nat, w: Word, q: nat) {
    exists path :: IsPath(edges, p, path, q) && Label(path) == w
  }

  ghost predicate Accepts(a: Nfa, w: Word) {
    exists q :: q in a.finals && Leads(a.edges, a.initial, w, q)
  }

  ghost predicate SameLanguage(a: Nfa, b: Nfa) {
    forall w :: Accepts(a, w) <==> Accepts(b, w)
  }

  lemma SameLanguageSelf(a: Nfa)
    ensures SameLanguage(a, a)
  {
  }

  lemma SameLanguageJoin(a: Nfa, b: Nfa, c: Nfa)
    requires SameLanguage(a, b) && SameLanguage(b, c)
    ensures SameLanguage(a, c)
  {
    forall w ensures Accepts(a, w) <==> Accepts(c, w) {
      assert Accepts(a, w) <==> Accepts(b, w);
    }
  }

  lemma SameLanguageOn(a: Nfa, b: Nfa, w: Word)
    requires SameLanguage(a, b)
    ensures Accepts(a, w) <==> Accepts(b, w)
  {
  }

  lemma SameLanguageTurned(a: Nfa, b: Nfa)
    requires SameLanguage(a, b)
    ensures SameLanguage(b, a)
  {
  }

  // ---- building paths ----

  lemma LeadsNowhere(edges: set<Edge>, p: nat)
    ensures Leads(edges, p, [], p)
  {
    assert IsPath(edges, p, [], p) && Label([]) == [];
  }

  lemma LeadsFirst(edges: set<Edge>, e: Edge, w: Word, q: nat)
    requires e in edges && Leads(edges, e.to, w, q)
    ensures Leads(edges, e.from, Read(e.letter) + w, q)
  {
    var path :| IsPath(edges, e.to, path, q) && Label(path) == w;
    var longer := [e] + path;
    assert longer[1..] == path;
    assert IsPath(edges, e.from, longer, q) && Label(longer) == Read(e.letter) + w;
  }

  lemma LeadsByEdge(edges: set<Edge>, e: Edge)
    requires e in edges
    ensures Leads(edges, e.from, Read(e.letter), e.to)
  {
    LeadsNowhere(edges, e.to);
    LeadsFirst(edges, e, [], e.to);
    assert Read(e.letter) + [] == Read(e.letter);
  }

  lemma {:induction false} PathsJoin(edges: set<Edge>, p: nat, first: Path, q: nat, second: Path, r: nat)
    requires IsPath(edges, p, first, q) && IsPath(edges, q, second, r)
    ensures IsPath(edges, p, first + second, r)
    decreases |first|
  {
    if first == [] {
      assert first + second == second;
    } else {
      PathsJoin(edges, first[0].to, first[1..], q, second, r);
      assert (first + second)[1..] == first[1..] + second && (first + second)[0] == first[0];
    }
  }

  lemma {:induction false} LabelsJoin(first: Path, second: Path)
    ensures Label(first + second) == Label(first) + Label(second)
    decreases |first|
  {
    if first == [] {
      assert first + second == second;
    } else {
      LabelsJoin(first[1..], second);
      assert (first + second)[1..] == first[1..] + second && (first + second)[0] == first[0];
      Associative(Read(first[0].letter), Label(first[1..]), Label(second));
    }
  }

  lemma Associative(u: Word, v: Word, w: Word)
    ensures u + v + w == u + (v + w)
  {
  }

  lemma LeadsJoin(edges: set<Edge>, p: nat, u: Word, q: nat, v: Word, r: nat)
    requires Leads(edges, p, u, q) && Leads(edges, q, v, r)
    ensures Leads(edges, p, u + v, r)
  {
    var first :| IsPath(edges, p, first, q) && Label(first) == u;
    var second :| IsPath(edges, q, second, r) && Label(second) == v;
    PathsJoin(edges, p, first, q, second, r);
    LabelsJoin(first, second);
  }

  lemma LeadsSilently(edges: set<Edge>, p: nat, q: nat, w: Word, r: nat)
    requires Leads(edges, p, [], q) && Leads(edges, q, w, r)
    ensures Leads(edges, p, w, r)
  {
    LeadsJoin(edges, p, [], q, w, r);
    assert [] + w == w;
  }

  lemma LeadsLast(edges: set<Edge>, p: nat, w: Word, e: Edge)
    requires e in edges && Leads(edges, p, w, e.from)
    ensures Leads(edges, p, w + Read(e.letter), e.to)
  {
    LeadsByEdge(edges, e);
    LeadsJoin(edges, p, w, e.from, Read(e.letter), e.to);
  }

  // ---- taking paths apart ----

  /** A connection is empty or starts with some edge. */
  lemma LeadsCases(edges: set<Edge>, p: nat, w: Word, q: nat)
    requires Leads(edges, p, w, q)
    ensures
      || (p == q && w == [])
      || exists e, v :: e in edges && e.from == p && w == Read(e.letter) + v && Leads(edges, e.to, v, q)
  {
    var path :| IsPath(edges, p, path, q) && Label(path) == w;
    if path != [] {
      var e: Edge, v := path[0], Label(path[1..]);
      assert Leads(edges, e.to, v, q);
      assert e in edges && e.from == p && w == Read(e.letter) + v;
    }
  }

  /** Reading a first letter c: some silent steps, an edge on c, the rest. */
  lemma {:induction false} LeadsLetter(edges: set<Edge>, p: nat, c: nat, w: Word, q: nat)
    requires c != EPSILON && Leads(edges, p, [c] + w, q)
    ensures exists r, s :: Leads(edges, p, [], r) && Edge(r, c, s) in edges && Leads(edges, s, w, q)
  {
    var path :| IsPath(edges, p, path, q) && Label(path) == [c] + w;
    PathLetter(edges, p, path, c, w, q);
  }

  lemma {:induction false} PathLetter(edges: set<Edge>, p: nat, path: Path, c: nat, w: Word, q: nat)
    requires c != EPSILON && IsPath(edges, p, path, q) && Label(path) == [c] + w
    ensures exists r, s :: Leads(edges, p, [], r) && Edge(r, c, s) in edges && Leads(edges, s, w, q)
    decreases |path|
  {
    var e, rest := path[0], path[1..];
    if e.letter == EPSILON {
      assert Label(path) == Label(rest);
      PathLetter(edges, e.to, rest, c, w, q);
      var r, s :| Leads(edges, e.to, [], r) && Edge(r, c, s) in edges && Leads(edges, s, w, q);
      LeadsFirst(edges, e, [], r);
      assert Read(e.letter) + [] == [];
    } else {
      assert Label(path) == [e.letter] + Label(rest);
      assert Label(path)[0] == c && Label(path)[1..] == w && ([e.letter] + Label(rest))[1..] == Label(rest);
      LeadsNowhere(edges, p);
      assert Leads(edges, e.to, w, q);
      assert Edge(p, c, e.to) == e;
    }
  }

  /** A path labelled u + v passes through a state between u and v. */
  lemma {:induction false} LeadsSplit(edges: set<Edge>, p: nat, u: Word, v: Word, q: nat)
    requires IsWord(u) && Leads(edges, p, u + v, q)
    ensures exists r :: Leads(edges, p, u, r) && Leads(edges, r, v, q)
    decreases |u|
  {
    if u == [] {
      assert u + v == v;
      LeadsNowhere(edges, p);
    } else {
      var c, rest := u[0], u[1..];
      assert c in u && u == [c] + rest;
      assert IsWord(rest) by {
        forall x | x in rest ensures IsLetter(x) { assert x in u; }
      }
      Associative([c], rest, v);
      LeadsLetter(edges, p, c, rest + v, q);
      var r, s :| Leads(edges, p, [], r) && Edge(r, c, s) in edges && Leads(edges, s, rest + v, q);
      LeadsSplit(edges, s, rest, v, q);
      var t :| Leads(edges, s, rest, t) && Leads(edges, t, v, q);
      LeadsFirst(edges, Edge(r, c, s), rest, t);
      LeadsSilently(edges, p, r, u, t);
    }
  }

  // ---- comparing edge sets ----

  /** A map of states that carries every edge of one automaton to an edge of another carries connections. */
  lemma {:induction false} LeadsMapped(edges: set<Edge>, target: set<Edge>, h: nat -> nat, p: nat, w: Word, q: nat)
    requires forall e | e in edges :: Edge(h(e.from), e.letter, h(e.to)) in target
    requires Leads(edges, p, w, q)
    ensures Leads(target, h(p), w, h(q))
  {
    var path :| IsPath(edges, p, path, q) && Label(path) == w;
    PathMapped(edges, target, h, p, path, q);
  }

  lemma {:induction false} PathMapped(edges: set<Edge>, target: set<Edge>, h: nat -> nat, p: nat, path: Path, q: nat)
    requires forall e | e in edges :: Edge(h(e.from), e.letter, h(e.to)) in target
    requires IsPath(edges, p, path, q)
    ensures Leads(target, h(p), Label(path), h(q))
    decreases |path|
  {
    if path == [] {
      LeadsNowhere(target, h(p));
    } else {
      var e := path[0];
      PathMapped(edges, target, h, e.to, path[1..], q);
      LeadsFirst(target, Edge(h(e.from), e.letter, h(e.to)), Label(path[1..]), h(q));
    }
  }

  /** If every edge of one automaton can be followed by some path of another, so can every path. */
  lemma {:induction false} LeadsSimulated(edges: set<Edge>, target: set<Edge>, p: nat, w: Word, q: nat)
    requires forall e | e in edges :: Leads(target, e.from, Read(e.letter), e.to)
    requires Leads(edges, p, w, q)
    ensures Leads(target, p, w, q)
  {
    var path :| IsPath(edges, p, path, q) && Label(path) == w;
    PathSimulated(edges, target, p, path, q);
  }

  lemma {:induction false} PathSimulated(edges: set<Edge>, target: set<Edge>, p: nat, path: Path, q: nat)
    requires forall e | e in edges :: Leads(target, e.from, Read(e.letter), e.to)
    requires IsPath(edges, p, path, q)
    ensures Leads(target, p, Label(path), q)
    decreases |path|
  {
    if path == [] {
      LeadsNowhere(target, p);
    } else {
      var e := path[0];
      PathSimulated(edges, target, e.to, path[1..], q);
      LeadsJoin(target, p, Read(e.letter), e.to, Label(path[1..]), q);
    }
  }

  lemma LeadsGrows(edges: set<Edge>, more: set<Edge>, p: nat, w: Word, q: nat)
    requires edges <= more && Leads(edges, p, w, q)
    ensures Leads(more, p, w, q)
  {
    forall e | e in edges ensures Edge(e.from, e.letter, e.to) in more {
      assert Edge(e.from, e.letter, e.to) == e;
    }
    LeadsMapped(edges, more, (x: nat) => x, p, w, q);
  }

  /** Nothing leaves a region whose edges stay inside it; there only the edges of the region count. */
  lemma {:induction false} LeadsConfined(edges: set<Edge>, inside: set<Edge>, region: nat -> bool, p: nat, w: Word,
      q: nat)
    requires forall e | e in edges && region(e.from) :: e in inside && region(e.to)
    requires region(p) && Leads(edges, p, w, q)
    ensures region(q) && Leads(inside, p, w, q)
  {
    var path :| IsPath(edges, p, path, q) && Label(path) == w;
    PathConfined(edges, inside, region, p, path, q);
  }

  lemma {:induction false} PathConfined(edges: set<Edge>, inside: set<Edge>, region: nat -> bool, p: nat, path: Path,
      q: nat)
    requires forall e | e in edges && region(e.from) :: e in inside && region(e.to)
    requires region(p) && IsPath(edges, p, path, q)
    ensures region(q) && Leads(inside, p, Label(path), q)
    decreases |path|
  {
    if path == [] {
      LeadsNowhere(inside, p);
    } else {
      PathConfined(edges, inside, region, path[0].to, path[1..], q);
      LeadsFirst(inside, path[0], Label(path[1..]), q);
    }
  }

  /** The mirror image: nothing enters a region from outside. */
  lemma {:induction false} LeadsConfinedBackwards(edges: set<Edge>, inside: set<Edge>, region: nat -> bool, p: nat,
      w: Word, q: nat)
    requires forall e | e in edges && region(e.to) :: e in inside && region(e.from)
    requires region(q) && Leads(edges, p, w, q)
    ensures region(p) && Leads(inside, p, w, q)
  {
    var path :| IsPath(edges, p, path, q) && Label(path) == w;
    PathConfinedBackwards(edges, inside, region, p, path, q);
  }

  lemma {:induction false} PathConfinedBackwards(edges: set<Edge>, inside: set<Edge>, region: nat -> bool, p: nat,
      path: Path, q: nat)
    requires forall e | e in edges && region(e.to) :: e in inside && region(e.from)
    requires region(q) && IsPath(edges, p, path, q)
    ensures region(p) && Leads(inside, p, Label(path), q)
    decreases |path|
  {
    if path == [] {
      LeadsNowhere(inside, p);
    } else {
      PathConfinedBackwards(edges, inside, region, path[0].to, path[1..], q);
      LeadsFirst(inside, path[0], Label(path[1..]), q);
    }
  }

  /** Only words over the alphabet are ever read. */
  lemma {:induction false} LeadsReadsLetters(edges: set<Edge>, p: nat, w: Word, q: nat)
    requires forall e | e in edges :: e.letter < MAX_CHAR
    requires Leads(edges, p, w, q)
    ensures IsWord(w)
  {
    var path :| IsPath(edges, p, path, q) && Label(path) == w;
    PathReadsLetters(edges, p, path, q);
  }

  lemma {:induction false} PathReadsLetters(edges: set<Edge>, p: nat, path: Path, q: nat)
    requires forall e | e in edges :: e.letter < MAX_CHAR
    requires IsPath(edges, p, path, q)
    ensures IsWord(Label(path))
    decreases |path|
  {
    if path != [] {
      PathReadsLetters(edges, path[0].to, path[1..], q);
    }
  }

  lemma AcceptsOnlyWords(a: Nfa, w: Word)
    requires a.Valid() && Accepts(a, w)
    ensures IsWord(w)
  {
    var q :| q in a.finals && Leads(a.edges, a.initial, w, q);
    LeadsReadsLetters(a.edges, a.initial, w, q);
  }

  /** Two valid automata that agree on words over the alphabet agree everywhere. */
  lemma SameOnWords(a: Nfa, b: Nfa)
    requires a.Valid() && b.Valid()
    requires forall w | IsWord(w) :: Accepts(a, w) <==> Accepts(b, w)
    ensures SameLanguage(a, b)
  {
    forall w ensures Accepts(a, w) <==> Accepts(b, w) {
      if Accepts(a, w) { AcceptsOnlyWords(a, w); }
      if Accepts(b, w) { AcceptsOnlyWords(b, w); }
    }
  }
}
