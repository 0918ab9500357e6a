/** What the constructions behind the regular operations accept. */
module RegularLanguages {
  import opened Automaton

  // ---- shifting ----

  function ShiftEdge(e: Edge, n: nat): Edge {
    Edge(e.from + n, e.letter, e.to + n)
  }

  function ShiftEdges(edges: set<Edge>, n: nat): set<Edge> {
    set e | e in edges :: ShiftEdge(e, n)
  }

  function ShiftStates(states: set<nat>, n: nat): set<nat> {
    set q: nat | q in states :: q + n
  }

  function Shifted(a: Nfa, n: nat): Nfa {
    Nfa(a.size + n, ShiftEdges(a.edges, n), a.initial + n, ShiftStates(a.finals, n))
  }

  lemma ShiftedEdge(edges: set<Edge>, n: nat, e: Edge)
    ensures e in ShiftEdges(edges, n) <==> e.from >= n && e.to >= n && Edge(e.from - n, e.letter, e.to - n) in edges
  {
    if e.from >= n && e.to >= n && Edge(e.from - n, e.letter, e.to - n) in edges {
      assert e == ShiftEdge(Edge(e.from - n, e.letter, e.to - n), n);
    }
  }

  lemma ShiftedLeads(edges: set<Edge>, n: nat, p: nat, w: Word, q: nat)
    ensures Leads(edges, p, w, q) <==> Leads(ShiftEdges(edges, n), p + n, w, q + n)
  {
    hide ShiftEdges, Leads;
    if Leads(edges, p, w, q) { ShiftLeads(edges, n, p, w, q); }
    if Leads(ShiftEdges(edges, n), p + n, w, q + n) { UnshiftLeads(edges, n, p, w, q); }
  }

  lemma ShiftLeads(edges: set<Edge>, n: nat, p: nat, w: Word, q: nat)
    requires Leads(edges, p, w, q)
    ensures Leads(ShiftEdges(edges, n), p + n, w, q + n)
  {
    hide ShiftEdges, Leads;
    forall e | e in edges ensures Edge(e.from + n, e.letter, e.to + n) in ShiftEdges(edges, n) {
      ShiftedEdge(edges, n, Edge(e.from + n, e.letter, e.to + n));
      assert Edge(e.from, e.letter, e.to) == e;
    }
    LeadsMapped(edges, ShiftEdges(edges, n), (x: nat) => x + n, p, w, q);
  }

  lemma UnshiftLeads(edges: set<Edge>, n: nat, p: nat, w: Word, q: nat)
    requires Leads(ShiftEdges(edges, n), p + n, w, q + n)
    ensures Leads(edges, p, w, q)
  {
    hide ShiftEdges, Leads;
    var back := (x: nat) => if x >= n then x - n else 0;
    forall e | e in ShiftEdges(edges, n) ensures Edge(back(e.from), e.letter, back(e.to)) in edges {
      ShiftedEdge(edges, n, e);
    }
    LeadsMapped(ShiftEdges(edges, n), edges, back, p + n, w, q + n);
  }

  lemma ShiftedLanguage(a: Nfa, n: nat, w: Word)
    ensures Accepts(Shifted(a, n), w) <==> Accepts(a, w)
  {
    if Accepts(a, w) {
      var q :| q in a.finals && Leads(a.edges, a.initial, w, q);
      ShiftedLeads(a.edges, n, a.initial, w, q);
      assert q + n in Shifted(a, n).finals;
    }
    if Accepts(Shifted(a, n), w) {
      var q :| q in Shifted(a, n).finals && Leads(Shifted(a, n).edges, a.initial + n, w, q);
      var r: nat :| r in a.finals && q == r + n;
      ShiftedLeads(a.edges, n, a.initial, w, r);
    }
  }

  lemma ShiftedValid(a: Nfa, n: nat)
    requires a.Valid()
    ensures Shifted(a, n).Valid()
  {
    forall e | e in Shifted(a, n).edges ensures e.from < a.size + n && e.letter < MAX_CHAR && e.to < a.size + n {
      ShiftedEdge(a.edges, n, e);
    }
  }

  lemma ShiftedState(states: set<nat>, n: nat, q: nat)
    ensures q in ShiftStates(states, n) <==> q >= n && q - n in states
  {
    if q >= n {
      var r: nat := q - n;
      assert r in states ==> r + n in ShiftStates(states, n);
    }
  }

  // ---- bundles of edges ----

  function EdgesFrom(sources: set<nat>, c: nat, to: nat): set<Edge> {
    set f | f in sources :: Edge(f, c, to)
  }

  lemma EdgeFrom(sources: set<nat>, c: nat, to: nat, e: Edge)
    ensures e in EdgesFrom(sources, c, to) <==> e.from in sources && e.letter == c && e.to == to
  {
    if e.from in sources && e.letter == c && e.to == to {
      assert e == Edge(e.from, c, to);
    }
  }

  function EpsilonsTo(from: nat, targets: set<nat>): set<Edge> {
    set t | t in targets :: Edge(from, EPSILON, t)
  }

  lemma EpsilonTo(from: nat, targets: set<nat>, e: Edge)
    ensures e in EpsilonsTo(from, targets) <==> e.from == from && e.letter == EPSILON && e.to in targets
  {
    if e.from == from && e.letter == EPSILON && e.to in targets {
      assert e == Edge(from, EPSILON, e.to);
    }
  }

  // ---- alternatives ----

  /** `entries` can stand for the initial state: from them, and never leaving `region`, a accepts its language. */
  ghost predicate Enters(a: Nfa, entries: set<nat>, region: set<nat>) {
    && entries <= region
    && (forall e | e in a.edges && e.from in region :: e.to in region)
    && (forall w :: Accepts(a, w) <==> EntryAccepts(a.edges, a.finals, entries, w))
  }

  ghost predicate EntryAccepts(edges: set<Edge>, finals: set<nat>, entries: set<nat>, w: Word) {
    exists t: nat, f: nat :: t in entries && f in finals && Leads(edges, t, w, f)
  }

  function StatesBelow(n: nat): set<nat> {
    set q: nat | q < n && Below(q, n)
  }

  predicate Below(q: nat, n: nat) {
    q < n
  }

  lemma EntersPlain(a: Nfa)
    requires a.Valid()
    ensures Enters(a, {a.initial}, StatesBelow(a.size))
  {
    forall w ensures Accepts(a, w) <==> EntryAccepts(a.edges, a.finals, {a.initial}, w) {
      if Accepts(a, w) {
        var f :| f in a.finals && Leads(a.edges, a.initial, w, f);
        assert a.initial in {a.initial} && f in a.finals && Leads(a.edges, a.initial, w, f);
      }
    }
  }

  /** The hint "this is a union": the initial state is not final, has no incoming edges and only epsilon edges out. */
  ghost predicate IsUnion(a: Nfa) {
    && a.initial !in a.finals
    && (forall e | e in a.edges :: e.to != a.initial)
    && (forall e | e in a.edges && e.from == a.initial :: e.letter == EPSILON)
  }

  function EpsilonTargets(edges: set<Edge>, p: nat): set<nat> {
    set e | e in edges && e.from == p && e.letter == EPSILON :: e.to
  }

  lemma EntersUnion(a: Nfa)
    requires a.Valid() && IsUnion(a)
    ensures Enters(a, EpsilonTargets(a.edges, a.initial), StatesBelow(a.size) - {a.initial})
  {
    var entries := EpsilonTargets(a.edges, a.initial);
    forall w ensures Accepts(a, w) <==> EntryAccepts(a.edges, a.finals, entries, w) {
      if Accepts(a, w) {
        var f :| f in a.finals && Leads(a.edges, a.initial, w, f);
        LeadsCases(a.edges, a.initial, w, f);
        var e, v :| e in a.edges && e.from == a.initial && w == Read(e.letter) + v && Leads(a.edges, e.to, v, f);
        assert w == v && e.to in entries;
      }
      if EntryAccepts(a.edges, a.finals, entries, w) {
        var t: nat, f: nat :| t in entries && f in a.finals && Leads(a.edges, t, w, f);
        var e :| e in a.edges && e.from == a.initial && e.letter == EPSILON && e.to == t;
        LeadsFirst(a.edges, e, w, f);
        assert Read(e.letter) + w == w;
      }
    }
  }

  /** u starts at a state of its own, whose only edges are epsilons to the entries of a and of b. */
  ghost predicate JoinsAt(u: Nfa, a: Nfa, aEntries: set<nat>, aRegion: set<nat>, b: Nfa, bEntries: set<nat>,
      bRegion: set<nat>) {
    && u.initial !in u.finals && u.initial !in aRegion && u.initial !in bRegion && aRegion !! bRegion
    && (forall e | e in u.edges && e.from == u.initial :: e.letter == EPSILON && (e.to in aEntries || e.to in bEntries))
    && (forall t | t in aEntries || t in bEntries :: Edge(u.initial, EPSILON, t) in u.edges)
    && (forall e: Edge | e.from in aRegion :: e in u.edges <==> e in a.edges)
    && (forall e: Edge | e.from in bRegion :: e in u.edges <==> e in b.edges)
    && (forall f | f in aRegion :: f in u.finals <==> f in a.finals)
    && (forall f | f in bRegion :: f in u.finals <==> f in b.finals)
  }

  /** Within its region, an alternative accepts in u what it accepts alone. */
  lemma RegionAccepts(u: Nfa, a: Nfa, entries: set<nat>, region: set<nat>, t: nat, w: Word, f: nat)
    requires Enters(a, entries, region) && t in region
    requires forall e: Edge | e.from in region :: e in u.edges <==> e in a.edges
    ensures Leads(u.edges, t, w, f) <==> Leads(a.edges, t, w, f)
    ensures Leads(a.edges, t, w, f) ==> f in region
  {
    var inRegion := (x: nat) => x in region;
    if Leads(u.edges, t, w, f) {
      LeadsConfined(u.edges, a.edges, inRegion, t, w, f);
    }
    if Leads(a.edges, t, w, f) {
      LeadsConfined(a.edges, u.edges, inRegion, t, w, f);
    }
  }

  /** Joined alternatives accept exactly the union. */
  lemma UnionLanguage(u: Nfa, a: Nfa, aEntries: set<nat>, aRegion: set<nat>, b: Nfa, bEntries: set<nat>,
      bRegion: set<nat>, w: Word)
    requires Enters(a, aEntries, aRegion) && Enters(b, bEntries, bRegion)
    requires JoinsAt(u, a, aEntries, aRegion, b, bEntries, bRegion)
    ensures Accepts(u, w) <==> Accepts(a, w) || Accepts(b, w)
  {
    if Accepts(u, w) {
      var f :| f in u.finals && Leads(u.edges, u.initial, w, f);
      LeadsCases(u.edges, u.initial, w, f);
      var e, v :| e in u.edges && e.from == u.initial && w == Read(e.letter) + v && Leads(u.edges, e.to, v, f);
      assert w == v;
      if e.to in aEntries {
        RegionAccepts(u, a, aEntries, aRegion, e.to, w, f);
        assert EntryAccepts(a.edges, a.finals, aEntries, w);
      } else {
        RegionAccepts(u, b, bEntries, bRegion, e.to, w, f);
        assert EntryAccepts(b.edges, b.finals, bEntries, w);
      }
    }
    if Accepts(a, w) {
      AlternativeAccepted(u, a, aEntries, aRegion, w);
    }
    if Accepts(b, w) {
      AlternativeAccepted(u, b, bEntries, bRegion, w);
    }
  }

  lemma AlternativeAccepted(u: Nfa, a: Nfa, entries: set<nat>, region: set<nat>, w: Word)
    requires Enters(a, entries, region) && Accepts(a, w)
    requires forall t | t in entries :: Edge(u.initial, EPSILON, t) in u.edges
    requires forall e: Edge | e.from in region :: e in u.edges <==> e in a.edges
    requires forall f | f in region :: f in u.finals <==> f in a.finals
    ensures Accepts(u, w)
  {
    assert EntryAccepts(a.edges, a.finals, entries, w);
    var t: nat, f: nat :| t in entries && f in a.finals && Leads(a.edges, t, w, f);
    RegionAccepts(u, a, entries, region, t, w, f);
    LeadsFirst(u.edges, Edge(u.initial, EPSILON, t), w, f);
    assert Read(EPSILON) + w == w;
  }

  ghost predicate AcceptsEither(u: Nfa, a: Nfa, b: Nfa) {
    forall w :: Accepts(u, w) <==> Accepts(a, w) || Accepts(b, w)
  }

  /** Two machines side by side, the states of b after those of a. */
  function Beside(a: Nfa, b: Nfa): Nfa {
    Nfa(a.size + b.size, a.edges + ShiftEdges(b.edges, a.size), a.initial, a.finals + ShiftStates(b.finals, a.size))
  }

  lemma BesideParts(a: Nfa, b: Nfa)
    requires a.Valid() && b.Valid()
    ensures Beside(a, b).size == a.size + b.size && Beside(a, b).initial == a.initial
    ensures forall e: Edge | e.from < a.size :: e in Beside(a, b).edges <==> e in a.edges
    ensures forall e: Edge | e.from >= a.size :: e in Beside(a, b).edges <==> e in ShiftEdges(b.edges, a.size)
    ensures forall f: nat | f < a.size :: f in Beside(a, b).finals <==> f in a.finals
    ensures forall f: nat | f >= a.size :: f in Beside(a, b).finals <==> f in ShiftStates(b.finals, a.size)
    ensures forall e | e in Beside(a, b).edges ::
        e.from < a.size + b.size && e.to < a.size + b.size && (e.from < a.size <==> e.to < a.size)
    ensures forall f | f in Beside(a, b).finals :: f < a.size + b.size
  {
    forall e: Edge
      ensures e in ShiftEdges(b.edges, a.size) ==>
        a.size <= e.from < a.size + b.size && a.size <= e.to < a.size + b.size
    {
      ShiftedEdge(b.edges, a.size, e);
    }
    forall f: nat ensures f in ShiftStates(b.finals, a.size) ==> a.size <= f < a.size + b.size {
      ShiftedState(b.finals, a.size, f);
    }
  }

  /** Entries move along when a machine is shifted. */
  lemma EntersShifted(b: Nfa, n: nat, entries: set<nat>, region: set<nat>)
    requires Enters(b, entries, region)
    ensures Enters(Shifted(b, n), ShiftStates(entries, n), ShiftStates(region, n))
  {
    var c := Shifted(b, n);
    forall e | e in c.edges && e.from in ShiftStates(region, n) ensures e.to in ShiftStates(region, n) {
      ShiftedEdge(b.edges, n, e);
      ShiftedState(region, n, e.from);
      ShiftedState(region, n, e.to);
    }
    forall w ensures Accepts(c, w) <==> EntryAccepts(c.edges, c.finals, ShiftStates(entries, n), w) {
      ShiftedLanguage(b, n, w);
      EntryShifted(b, n, entries, w);
    }
  }

  lemma EntryShifted(b: Nfa, n: nat, entries: set<nat>, w: Word)
    ensures EntryAccepts(b.edges, b.finals, entries, w) <==>
            EntryAccepts(ShiftEdges(b.edges, n), ShiftStates(b.finals, n), ShiftStates(entries, n), w)
  {
    hide Leads, ShiftEdges;
    if EntryAccepts(b.edges, b.finals, entries, w) {
      var t: nat, f: nat :| t in entries && f in b.finals && Leads(b.edges, t, w, f);
      ShiftedLeads(b.edges, n, t, w, f);
      assert t + n in ShiftStates(entries, n) && f + n in ShiftStates(b.finals, n);
    }
    if EntryAccepts(ShiftEdges(b.edges, n), ShiftStates(b.finals, n), ShiftStates(entries, n), w) {
      var t: nat, f: nat :| t in ShiftStates(entries, n) && f in ShiftStates(b.finals, n) &&
          Leads(ShiftEdges(b.edges, n), t, w, f);
      ShiftedState(entries, n, t);
      ShiftedState(b.finals, n, f);
      ShiftedLeads(b.edges, n, t - n, w, f - n);
    }
  }

  /** The states and entries of an operand: those of a union are the alternatives it already has. */
  function EntriesOf(a: Nfa, union: bool): set<nat> {
    if union then EpsilonTargets(a.edges, a.initial) else {a.initial}
  }

  function RegionOf(a: Nfa, union: bool): set<nat> {
    if union then StatesBelow(a.size) - {a.initial} else StatesBelow(a.size)
  }

  lemma OperandEnters(a: Nfa, union: bool)
    requires a.Valid() && (union ==> IsUnion(a))
    ensures Enters(a, EntriesOf(a, union), RegionOf(a, union))
  {
    hide Enters;
    if union { EntersUnion(a); } else { EntersPlain(a); }
  }

  predicate IsEntry(a: Nfa, union: bool, q: nat) {
    if union then Edge(a.initial, EPSILON, q) in a.edges else q == a.initial
  }

  predicate InRegion(a: Nfa, union: bool, q: nat) {
    q < a.size && !(union && q == a.initial)
  }

  /** The edges out of the initial state of u are epsilons to exactly the entries of a and of b. */
  ghost predicate EntersBoth(u: Nfa, a: Nfa, ua: bool, b: Nfa, ub: bool) {
    forall e: Edge | e.from == u.initial ::
      e in u.edges <==>
        e.letter == EPSILON && (IsEntry(a, ua, e.to) || (e.to >= a.size && IsEntry(b, ub, e.to - a.size)))
  }

  ghost predicate KeepsBoth(u: Nfa, a: Nfa, ua: bool, b: Nfa, ub: bool) {
    forall e: Edge | InRegion(a, ua, e.from) || (e.from >= a.size && InRegion(b, ub, e.from - a.size)) ::
      e in u.edges <==> e in Beside(a, b).edges
  }

  /** u joins a and b, placed side by side, at its initial state; `ua` and `ub` say which of them are unions. */
  ghost predicate JoinsBeside(u: Nfa, a: Nfa, ua: bool, b: Nfa, ub: bool) {
    && u.initial !in u.finals && !InRegion(a, ua, u.initial) &&
        !(u.initial >= a.size && InRegion(b, ub, u.initial - a.size))
    && EntersBoth(u, a, ua, b, ub)
    && KeepsBoth(u, a, ua, b, ub)
    && (forall f: nat | f != u.initial :: f in u.finals <==> f in Beside(a, b).finals)
  }

  lemma EpsilonTarget(edges: set<Edge>, p: nat, q: nat)
    ensures q in EpsilonTargets(edges, p) <==> Edge(p, EPSILON, q) in edges
  {
    if Edge(p, EPSILON, q) in edges {
      var e := Edge(p, EPSILON, q);
      assert e in edges && e.to == q;
    }
  }

  lemma InOperand(a: Nfa, union: bool, q: nat)
    ensures q in EntriesOf(a, union) <==> IsEntry(a, union, q)
    ensures q in RegionOf(a, union) <==> InRegion(a, union, q)
  {
    EpsilonTarget(a.edges, a.initial, q);
    assert Below(q, a.size) <==> q < a.size;
  }

  /** Placed side by side, the second operand is shifted. */
  lemma InShifted(b: Nfa, union: bool, n: nat, q: nat)
    ensures q in ShiftStates(EntriesOf(b, union), n) <==> q >= n && IsEntry(b, union, q - n)
    ensures q in ShiftStates(RegionOf(b, union), n) <==> q >= n && InRegion(b, union, q - n)
  {
    hide EntriesOf, RegionOf, ShiftStates, IsEntry, InRegion;
    ShiftedState(EntriesOf(b, union), n, q);
    ShiftedState(RegionOf(b, union), n, q);
    if q >= n { InOperand(b, union, q - n); }
  }

  lemma BesideJoins(u: Nfa, a: Nfa, ua: bool, b: Nfa, ub: bool)
    requires a.Valid() && b.Valid() && JoinsBeside(u, a, ua, b, ub)
    ensures JoinsAt(u, a, EntriesOf(a, ua), RegionOf(a, ua),
                    Shifted(b, a.size), ShiftStates(EntriesOf(b, ub), a.size), ShiftStates(RegionOf(b, ub), a.size))
  {
    hide EntriesOf, RegionOf, ShiftStates, ShiftEdges, Beside, IsEntry;
    var n := a.size;
    BesideParts(a, b);
    forall q: nat
      ensures q in EntriesOf(a, ua) <==> IsEntry(a, ua, q)
      ensures q in RegionOf(a, ua) <==> InRegion(a, ua, q)
      ensures q in ShiftStates(EntriesOf(b, ub), n) <==> q >= n && IsEntry(b, ub, q - n)
      ensures q in ShiftStates(RegionOf(b, ub), n) <==> q >= n && InRegion(b, ub, q - n)
    {
      InOperand(a, ua, q);
      InShifted(b, ub, n, q);
    }
  }

  lemma BesideUnion(u: Nfa, a: Nfa, ua: bool, b: Nfa, ub: bool)
    requires a.Valid() && b.Valid() && (ua ==> IsUnion(a)) && (ub ==> IsUnion(b))
    requires JoinsBeside(u, a, ua, b, ub)
    ensures AcceptsEither(u, a, b)
  {
    hide Enters, EntriesOf, RegionOf, Shifted, ShiftStates, JoinsBeside, JoinsAt, IsUnion, Accepts;
    var n, c := a.size, Shifted(b, a.size);
    var ea, ra := EntriesOf(a, ua), RegionOf(a, ua);
    var eb, rb := ShiftStates(EntriesOf(b, ub), n), ShiftStates(RegionOf(b, ub), n);
    OperandEnters(a, ua);
    OperandEnters(b, ub);
    EntersShifted(b, n, EntriesOf(b, ub), RegionOf(b, ub));
    BesideJoins(u, a, ua, b, ub);
    forall w ensures Accepts(u, w) <==> Accepts(a, w) || Accepts(b, w) {
      UnionLanguage(u, a, ea, ra, c, eb, rb, w);
      ShiftedLanguage(b, n, w);
    }
  }

  /** What |= makes of its operands: `ua` and `ub` say which of them are unions already. */
  function Joined(a: Nfa, ua: bool, b: Nfa, ub: bool): Nfa {
    var n, c := a.size, Beside(a, b);
    if ua && ub then
      var added := ShiftStates(EpsilonTargets(b.edges, b.initial), n);
      c.(edges := c.edges + EpsilonsTo(a.initial, added) - EpsilonsTo(b.initial + n, added))
    else if ua then
      c.(edges := c.edges + {Edge(a.initial, EPSILON, b.initial + n)})
    else if ub then
      c.(edges := c.edges + {Edge(b.initial + n, EPSILON, a.initial)}, initial := b.initial + n)
    else
      Nfa(c.size + 1, c.edges + {Edge(c.size, EPSILON, a.initial)} + {Edge(c.size, EPSILON, b.initial + n)}, c.size,
          c.finals)
  }

  /** The edges of two unions joined: those out of the second initial state now leave the first. */
  lemma JoinedEdge(a: Nfa, b: Nfa, e: Edge)
    requires a.Valid() && b.Valid() && IsUnion(a) && IsUnion(b)
    ensures e in Joined(a, true, b, true).edges <==>
      if e.from < a.size then e in a.edges ||
          (e.from == a.initial && e.letter == EPSILON && e.to >= a.size &&
          Edge(b.initial, EPSILON, e.to - a.size) in b.edges)
      else e.from != b.initial + a.size && e in ShiftEdges(b.edges, a.size)
  {
    hide Beside, EpsilonTargets, ShiftEdges, ShiftStates, EpsilonsTo;
    BesideParts(a, b);
    var n, targets := a.size, EpsilonTargets(b.edges, b.initial);
    var added := ShiftStates(targets, n);
    ShiftedState(targets, n, e.to);
    if e.to >= n { EpsilonTarget(b.edges, b.initial, e.to - n); }
    EpsilonTo(a.initial, added, e);
    EpsilonTo(b.initial + n, added, e);
    ShiftedEdge(b.edges, n, e);
  }

  lemma JoinedEnters(a: Nfa, ua: bool, b: Nfa, ub: bool)
    requires a.Valid() && b.Valid() && (ua ==> IsUnion(a)) && (ub ==> IsUnion(b))
    ensures EntersBoth(Joined(a, ua, b, ub), a, ua, b, ub)
  {
    hide Beside, EpsilonTargets, ShiftEdges, ShiftStates, EpsilonsTo;
    BesideParts(a, b);
    var u := Joined(a, ua, b, ub);
    forall e: Edge | e.from == u.initial
      ensures e in u.edges <==>
        e.letter == EPSILON && (IsEntry(a, ua, e.to) || (e.to >= a.size && IsEntry(b, ub, e.to - a.size)))
    {
      ShiftedEdge(b.edges, a.size, e);
      if ua && ub { JoinedEdge(a, b, e); }
    }
  }

  lemma JoinedKeeps(a: Nfa, ua: bool, b: Nfa, ub: bool)
    requires a.Valid() && b.Valid() && (ua ==> IsUnion(a)) && (ub ==> IsUnion(b))
    ensures KeepsBoth(Joined(a, ua, b, ub), a, ua, b, ub)
  {
    hide Beside, EpsilonTargets, ShiftEdges, ShiftStates, EpsilonsTo;
    BesideParts(a, b);
    var u := Joined(a, ua, b, ub);
    forall e: Edge | InRegion(a, ua, e.from) || (e.from >= a.size && InRegion(b, ub, e.from - a.size))
      ensures e in u.edges <==> e in Beside(a, b).edges
    {
      if ua && ub { JoinedEdge(a, b, e); }
    }
  }

  /** The new initial state is not final, and nothing comes in. */
  lemma JoinedHint(a: Nfa, ua: bool, b: Nfa, ub: bool)
    requires a.Valid() && b.Valid() && (ua ==> IsUnion(a)) && (ub ==> IsUnion(b))
    ensures IsUnion(Joined(a, ua, b, ub))
  {
    hide Beside, EpsilonTargets, ShiftEdges, ShiftStates, EpsilonsTo;
    BesideParts(a, b);
    var u := Joined(a, ua, b, ub);
    JoinedEnters(a, ua, b, ub);
    ShiftedState(b.finals, a.size, b.initial + a.size);
    forall e: Edge | e in u.edges ensures e.to != u.initial {
      ShiftedEdge(b.edges, a.size, e);
      if ua && ub { JoinedEdge(a, b, e); }
    }
  }

  /** All four branches of |= give a union, in the sense of the hint too. */
  lemma JoinedLanguage(a: Nfa, ua: bool, b: Nfa, ub: bool)
    requires a.Valid() && b.Valid() && (ua ==> IsUnion(a)) && (ub ==> IsUnion(b))
    ensures IsUnion(Joined(a, ua, b, ub)) && AcceptsEither(Joined(a, ua, b, ub), a, b)
  {
    var u := Joined(a, ua, b, ub);
    hide Beside, EpsilonTargets, ShiftEdges, ShiftStates, EpsilonsTo, EntersBoth, KeepsBoth, AcceptsEither;
    BesideParts(a, b);
    JoinedEnters(a, ua, b, ub);
    JoinedKeeps(a, ua, b, ub);
    JoinedHint(a, ua, b, ub);
    BesideUnion(u, a, ua, b, ub);
  }

  // ---- appending ----

  /** A letter to read first, and the state it leads to. */
  datatype Step = Step(letter: nat, to: nat)

  /** The steps out of a state. */
  function StepsFrom(edges: set<Edge>, p: nat): set<Step> {
    set e | e in edges && e.from == p :: Step(e.letter, e.to)
  }

  lemma StepFrom(edges: set<Edge>, p: nat, s: Step)
    ensures s in StepsFrom(edges, p) <==> Edge(p, s.letter, s.to) in edges
  {
    if Edge(p, s.letter, s.to) in edges {
      var e := Edge(p, s.letter, s.to);
      assert s == Step(e.letter, e.to);
    }
  }

  /** Every state of `ends` takes every step of `first`. */
  function Bridges(ends: set<nat>, first: set<Step>): set<Edge> {
    set f, s | f in ends && s in first :: Edge(f, s.letter, s.to)
  }

  lemma BridgeOf(ends: set<nat>, first: set<Step>, e: Edge)
    ensures e in Bridges(ends, first) <==> e.from in ends && Step(e.letter, e.to) in first
  {
    if e.from in ends && Step(e.letter, e.to) in first {
      var f, s := e.from, Step(e.letter, e.to);
      assert e == Edge(f, s.letter, s.to);
    }
  }

  lemma OneMoreBridge(ends: set<nat>, first: set<Step>, c: nat, to: nat)
    ensures Bridges(ends, first + {Step(c, to)}) == Bridges(ends, first) + EdgesFrom(ends, c, to)
    ensures Bridges(ends, {}) == {}
  {
    forall e ensures e in Bridges(ends, first + {Step(c, to)}) <==>
        e in Bridges(ends, first) || e in EdgesFrom(ends, c, to) {
      BridgeOf(ends, first + {Step(c, to)}, e);
      BridgeOf(ends, first, e);
      EdgeFrom(ends, c, to, e);
    }
  }

  /** a, from whose final states the steps of `first` lead into the edges `rest`, where `finals` are final. */
  function Attached(a: Nfa, size: nat, first: set<Step>, rest: set<Edge>, finals: set<nat>): Nfa {
    Nfa(size, a.edges + rest + Bridges(a.finals, first), a.initial, finals)
  }

  /** What is attached lies behind the states of a. */
  ghost predicate Attaches(a: Nfa, first: set<Step>, rest: set<Edge>, finals: set<nat>) {
    && a.Valid()
    && (forall s | s in first :: a.size <= s.to)
    && (forall e | e in rest :: a.size <= e.from && a.size <= e.to)
    && (forall f | f in finals :: a.size <= f)
  }

  /** w is a first step and then a path to a final state. */
  ghost predicate AcceptsStepping(first: set<Step>, rest: set<Edge>, finals: set<nat>, w: Word) {
    exists s: Step, v: Word, f: nat :: s in first && w == Read(s.letter) + v && f in finals && Leads(rest, s.to, v, f)
  }

  ghost predicate InAttached(a: Nfa, first: set<Step>, rest: set<Edge>, finals: set<nat>, w: Word) {
    exists u, v :: w == u + v && Accepts(a, u) && AcceptsStepping(first, rest, finals, v)
  }

  /** w leads from p in a to q in what is attached: u to the final state f of a, the step s, and v. */
  ghost predicate Crossing(a: Nfa, first: set<Step>, rest: set<Edge>, p: nat, w: Word, q: nat, u: Word, f: nat,
      s: Step, v: Word) {
    && w == u + (Read(s.letter) + v)
    && f in a.finals && Leads(a.edges, p, u, f)
    && s in first && Leads(rest, s.to, v, q)
  }

  /** A path from a that ends in what is attached crosses one bridge. */
  lemma {:induction false} CrossesBridge(a: Nfa, size: nat, first: set<Step>, rest: set<Edge>, finals: set<nat>,
      p: nat, path: Path, q: nat)
    requires Attaches(a, first, rest, finals) && p < a.size <= q
    requires IsPath(Attached(a, size, first, rest, finals).edges, p, path, q)
    ensures exists u, f, s, v :: Crossing(a, first, rest, p, Label(path), q, u, f, s, v)
    decreases |path|
  {
    var edges := Attached(a, size, first, rest, finals).edges;
    var e, tail: Path := path[0], path[1..];
    BridgeOf(a.finals, first, e);
    if e.to < a.size {
      CrossesBridge(a, size, first, rest, finals, e.to, tail, q);
      var u, f, s, v :| Crossing(a, first, rest, e.to, Label(tail), q, u, f, s, v);
      LeadsFirst(a.edges, e, u, f);
      Associative(Read(e.letter), u, Read(s.letter) + v);
      assert Crossing(a, first, rest, p, Label(path), q, Read(e.letter) + u, f, s, v);
    } else {
      var s := Step(e.letter, e.to);
      assert Leads(edges, e.to, Label(tail), q);
      forall x | x in edges && x.from >= a.size ensures x in rest && x.to >= a.size {
        BridgeOf(a.finals, first, x);
      }
      LeadsConfined(edges, rest, (x: nat) => x >= a.size, e.to, Label(tail), q);
      LeadsNowhere(a.edges, p);
      assert Label(path) == [] + (Read(s.letter) + Label(tail));
      assert Crossing(a, first, rest, p, Label(path), q, [], p, s, Label(tail));
    }
  }

  lemma AttachedSplits(a: Nfa, size: nat, first: set<Step>, rest: set<Edge>, finals: set<nat>, w: Word)
    requires Attaches(a, first, rest, finals) && Accepts(Attached(a, size, first, rest, finals), w)
    ensures InAttached(a, first, rest, finals, w)
  {
    var c := Attached(a, size, first, rest, finals);
    var q :| q in c.finals && Leads(c.edges, c.initial, w, q);
    var path :| IsPath(c.edges, c.initial, path, q) && Label(path) == w;
    CrossesBridge(a, size, first, rest, finals, c.initial, path, q);
    var u, f, s, v :| Crossing(a, first, rest, c.initial, w, q, u, f, s, v);
    assert Accepts(a, u);
    assert AcceptsStepping(first, rest, finals, Read(s.letter) + v);
  }

  lemma AttachedJoins(a: Nfa, size: nat, first: set<Step>, rest: set<Edge>, finals: set<nat>, u: Word, v: Word)
    requires Attaches(a, first, rest, finals) && Accepts(a, u) && AcceptsStepping(first, rest, finals, v)
    ensures Accepts(Attached(a, size, first, rest, finals), u + v)
  {
    hide Leads, Bridges;
    var c := Attached(a, size, first, rest, finals);
    var f :| f in a.finals && Leads(a.edges, a.initial, u, f);
    var s: Step, y: Word, g: nat :| s in first && v == Read(s.letter) + y && g in finals && Leads(rest, s.to, y, g);
    var bridge := Edge(f, s.letter, s.to);
    BridgeOf(a.finals, first, bridge);
    LeadsGrows(a.edges, c.edges, a.initial, u, f);
    LeadsGrows(rest, c.edges, s.to, y, g);
    LeadsFirst(c.edges, bridge, y, g);
    LeadsJoin(c.edges, a.initial, u, f, v, g);
  }

  /** Attaching accepts a word of a followed by a word of what is attached. */
  lemma AttachedLanguage(a: Nfa, size: nat, first: set<Step>, rest: set<Edge>, finals: set<nat>, w: Word)
    requires Attaches(a, first, rest, finals)
    ensures Accepts(Attached(a, size, first, rest, finals), w) <==> InAttached(a, first, rest, finals, w)
  {
    hide Attached, Accepts, AcceptsStepping;
    if Accepts(Attached(a, size, first, rest, finals), w) { AttachedSplits(a, size, first, rest, finals, w); }
    if InAttached(a, first, rest, finals, w) {
      var u, v :| w == u + v && Accepts(a, u) && AcceptsStepping(first, rest, finals, v);
      AttachedJoins(a, size, first, rest, finals, u, v);
    }
  }

  // ---- concatenation ----

  /** Words that b accepts by leaving its initial state. */
  ghost predicate AcceptsMoving(b: Nfa, w: Word) {
    AcceptsStepping(StepsFrom(b.edges, b.initial), b.edges, b.finals, w)
  }

  lemma MovingIsAccepting(b: Nfa, w: Word)
    ensures AcceptsMoving(b, w) ==> Accepts(b, w)
    ensures b.initial !in b.finals && Accepts(b, w) ==> AcceptsMoving(b, w)
    ensures Accepts(b, w) && w != [] ==> AcceptsMoving(b, w)
  {
    hide StepsFrom, Leads;
    var first := StepsFrom(b.edges, b.initial);
    if AcceptsMoving(b, w) {
      var s: Step, v: Word, f: nat :| s in first && w == Read(s.letter) + v && f in b.finals &&
          Leads(b.edges, s.to, v, f);
      StepFrom(b.edges, b.initial, s);
      LeadsFirst(b.edges, Edge(b.initial, s.letter, s.to), v, f);
    }
    if Accepts(b, w) {
      var f :| f in b.finals && Leads(b.edges, b.initial, w, f);
      LeadsCases(b.edges, b.initial, w, f);
      if w != [] || b.initial !in b.finals {
        var e, v :| e in b.edges && e.from == b.initial && w == Read(e.letter) + v && Leads(b.edges, e.to, v, f);
        var s := Step(e.letter, e.to);
        assert Edge(b.initial, s.letter, s.to) == e;
        StepFrom(b.edges, b.initial, s);
        assert s in first && w == Read(s.letter) + v && Leads(b.edges, s.to, v, f);
      }
    }
  }

  /** a and then b, whose states come after those of a. */
  function Concatenated(a: Nfa, b: Nfa): Nfa {
    Attached(a, b.size, StepsFrom(b.edges, b.initial), b.edges, b.finals)
  }

  ghost predicate Precedes(a: Nfa, b: Nfa) {
    && a.Valid() && b.Valid() && a.size <= b.initial
    && (forall e | e in b.edges :: a.size <= e.from && a.size <= e.to)
    && (forall f | f in b.finals :: a.size <= f)
  }

  ghost predicate InConcatenation(a: Nfa, b: Nfa, w: Word) {
    exists u, v :: w == u + v && Accepts(a, u) && AcceptsMoving(b, v)
  }

  /** The construction of += accepts u v with u from a and v from b by a path leaving b's initial state. */
  lemma ConcatenationLanguage(a: Nfa, b: Nfa, w: Word)
    requires Precedes(a, b)
    ensures Accepts(Concatenated(a, b), w) <==> InConcatenation(a, b, w)
  {
    forall s | s in StepsFrom(b.edges, b.initial) ensures a.size <= s.to {
      StepFrom(b.edges, b.initial, s);
    }
    AttachedLanguage(a, b.size, StepsFrom(b.edges, b.initial), b.edges, b.finals, w);
  }

  ghost predicate InProduct(a: Nfa, b: Nfa, w: Word) {
    exists u, v :: w == u + v && Accepts(a, u) && Accepts(b, v)
  }

  lemma ShiftedMoving(b: Nfa, n: nat, w: Word)
    ensures AcceptsMoving(Shifted(b, n), w) <==> AcceptsMoving(b, w)
  {
    if AcceptsMoving(b, w) { ShiftMoving(b, n, w); }
    if AcceptsMoving(Shifted(b, n), w) { UnshiftMoving(b, n, w); }
  }

  lemma ShiftMoving(b: Nfa, n: nat, w: Word)
    requires AcceptsMoving(b, w)
    ensures AcceptsMoving(Shifted(b, n), w)
  {
    hide Leads, ShiftEdges, StepsFrom;
    var c := Shifted(b, n);
    var s: Step, v: Word, f: nat :|
      s in StepsFrom(b.edges, b.initial) && w == Read(s.letter) + v && f in b.finals && Leads(b.edges, s.to, v, f);
    var t := Step(s.letter, s.to + n);
    StepFrom(b.edges, b.initial, s);
    ShiftedEdge(b.edges, n, Edge(c.initial, t.letter, t.to));
    StepFrom(c.edges, c.initial, t);
    ShiftedLeads(b.edges, n, s.to, v, f);
    assert f + n in c.finals;
    assert w == Read(t.letter) + v && Leads(c.edges, t.to, v, f + n);
  }

  lemma UnshiftMoving(b: Nfa, n: nat, w: Word)
    requires AcceptsMoving(Shifted(b, n), w)
    ensures AcceptsMoving(b, w)
  {
    hide Leads, ShiftEdges, StepsFrom, ShiftStates;
    var c := Shifted(b, n);
    var s: Step, v: Word, f: nat :|
      s in StepsFrom(c.edges, c.initial) && w == Read(s.letter) + v && f in c.finals && Leads(c.edges, s.to, v, f);
    StepFrom(c.edges, c.initial, s);
    ShiftedEdge(b.edges, n, Edge(c.initial, s.letter, s.to));
    ShiftedState(b.finals, n, f);
    var t := Step(s.letter, s.to - n);
    StepFrom(b.edges, b.initial, t);
    ShiftedLeads(b.edges, n, t.to, v, f - n);
    assert w == Read(t.letter) + v && Leads(b.edges, t.to, v, f - n);
  }

  /** What += means for a machine b appended to any machine a: concatenation, unless the empty word is accepted by b
      only for being at its initial state. */
  lemma AppendedLanguage(a: Nfa, b: Nfa, w: Word)
    requires a.Valid() && b.Valid() && (b.initial !in b.finals || AcceptsMoving(b, []))
    ensures Accepts(Concatenated(a, Shifted(b, a.size)), w) <==> InProduct(a, b, w)
  {
    hide Concatenated;
    var c := Shifted(b, a.size);
    AppendedPrecedes(a, b);
    ConcatenationLanguage(a, c, w);
    forall v ensures AcceptsMoving(c, v) <==> Accepts(b, v) {
      ShiftedMoving(b, a.size, v);
      MovingIsAccepting(b, v);
    }
  }

  ghost predicate AppendsWhole(b: Nfa) {
    b.initial !in b.finals || AcceptsMoving(b, [])
  }

  ghost predicate AcceptsProduct(c: Nfa, a: Nfa, b: Nfa) {
    forall w :: Accepts(c, w) <==> InProduct(a, b, w)
  }

  lemma AppendedProduct(a: Nfa, b: Nfa)
    requires a.Valid() && b.Valid() && AppendsWhole(b)
    ensures AcceptsProduct(Concatenated(a, Shifted(b, a.size)), a, b)
  {
    hide Concatenated, InProduct, Accepts;
    forall w ensures Accepts(Concatenated(a, Shifted(b, a.size)), w) <==> InProduct(a, b, w) {
      AppendedLanguage(a, b, w);
    }
  }

  lemma ShortestAccepted(a: Nfa, w: Word) returns (u: Word)
    requires Accepts(a, w)
    ensures Accepts(a, u) && forall x | Accepts(a, x) :: |u| <= |x|
    decreases |w|
  {
    hide Accepts;
    if x :| Accepts(a, x) && |x| < |w| {
      u := ShortestAccepted(a, x);
    } else {
      u := w;
    }
  }

  /** The condition is exact: where b accepts the empty word only for being at its initial state, a shortest word of a
      is lost, so += means concatenation only if a accepts nothing at all. */
  lemma AppendedExactly(a: Nfa, b: Nfa)
    requires a.Valid() && b.Valid()
    ensures AcceptsProduct(Concatenated(a, Shifted(b, a.size)), a, b) <==> AppendsWhole(b) || forall w :: !Accepts(a, w)
  {
    hide Concatenated, Accepts, AcceptsMoving, Shifted;
    var b' := Shifted(b, a.size);
    var c := Concatenated(a, b');
    if AppendsWhole(b) { AppendedProduct(a, b); }
    AppendedPrecedes(a, b);
    if w :| Accepts(a, w) {
      if !AppendsWhole(b) {
        var u := ShortestAccepted(a, w);
        InitialAccepts(b);
        assert u == u + [] && InProduct(a, b, u);
        ConcatenationLanguage(a, b', u);
        forall x: Word, y: Word | u == x + y && Accepts(a, x) ensures !AcceptsMoving(b', y) {
          ShiftedMoving(b, a.size, []);
          assert |u| <= |x| && y == [];
        }
      }
    } else {
      forall w ensures !Accepts(c, w) && !InProduct(a, b, w) {
        ConcatenationLanguage(a, b', w);
      }
    }
  }

  lemma InitialAccepts(b: Nfa)
    requires b.initial in b.finals
    ensures Accepts(b, [])
  {
    LeadsNowhere(b.edges, b.initial);
  }

  const EMPTY_WORD_ONLY := Nfa(1, {}, 0, {0})

  /** The fresh machine is one that cannot be appended: nothing is left of the language of a. */
  lemma FreshIsLost(a: Nfa)
    requires a.Valid()
    ensures !AppendsWhole(EMPTY_WORD_ONLY) && forall w :: !Accepts(Concatenated(a, Shifted(EMPTY_WORD_ONLY, a.size)), w)
  {
    hide Concatenated;
    var b := EMPTY_WORD_ONLY;
    forall s: Step ensures s !in StepsFrom(b.edges, b.initial) {
      StepFrom(b.edges, b.initial, s);
    }
    assert forall w :: !AcceptsMoving(b, w);
    AppendedPrecedes(a, b);
    forall w ensures !Accepts(Concatenated(a, Shifted(b, a.size)), w) {
      ConcatenationLanguage(a, Shifted(b, a.size), w);
      forall v ensures !AcceptsMoving(Shifted(b, a.size), v) {
        ShiftedMoving(b, a.size, v);
      }
    }
  }

  // ---- repetition ----

  ghost predicate InPower(a: Nfa, n: nat, w: Word) {
    if n == 0 then w == []
    else exists u, v :: w == u + v && InPower(a, n - 1, u) && Accepts(a, v)
  }

  ghost predicate AcceptsPower(c: Nfa, a: Nfa, n: nat) {
    forall w :: Accepts(c, w) <==> InPower(a, n, w)
  }

  /** The fresh machine accepts the empty word only. */
  lemma FreshPower(a: Nfa)
    ensures AcceptsPower(EMPTY_WORD_ONLY, a, 0)
  {
    var c := EMPTY_WORD_ONLY;
    forall w ensures Accepts(c, w) <==> w == [] {
      if Accepts(c, w) {
        LeadsCases(c.edges, 0, w, 0);
      }
      LeadsNowhere(c.edges, 0);
    }
  }

  lemma OneMorePower(before: Nfa, c: Nfa, a: Nfa, n: nat)
    requires AcceptsPower(before, a, n) && AcceptsProduct(c, before, a)
    ensures AcceptsPower(c, a, n + 1)
  {
    hide Accepts;
    forall w ensures Accepts(c, w) <==> InPower(a, n + 1, w) {
      if Accepts(c, w) {
        var u, v :| w == u + v && Accepts(before, u) && Accepts(a, v);
        assert InPower(a, n, u);
      }
      if InPower(a, n + 1, w) {
        var u, v :| w == u + v && InPower(a, n, u) && Accepts(a, v);
        assert Accepts(before, u);
      }
    }
  }

  /** Without the condition the empty word is lost for good, although every power accepts it. */
  lemma AppendedNeverEmpty(a: Nfa, b: Nfa)
    requires a.Valid() && b.Valid() && !AppendsWhole(b)
    ensures !Accepts(Concatenated(a, Shifted(b, a.size)), [])
  {
    hide Concatenated, Accepts, AcceptsMoving, Shifted;
    AppendedPrecedes(a, b);
    ConcatenationLanguage(a, Shifted(b, a.size), []);
    if InConcatenation(a, Shifted(b, a.size), []) {
      var u: Word, v: Word :| [] == u + v && Accepts(a, u) && AcceptsMoving(Shifted(b, a.size), v);
      assert |u + v| == 0 && v == [];
      ShiftedMoving(b, a.size, []);
    }
  }

  lemma {:induction false} EmptyInPower(b: Nfa, n: nat)
    requires b.initial in b.finals
    ensures InPower(b, n, [])
  {
    if n > 0 {
      EmptyInPower(b, n - 1);
      InitialAccepts(b);
      var none: Word := [];
      assert none == none + none;
    }
  }

  lemma PowerIsLost(c: Nfa, b: Nfa, n: nat)
    requires b.initial in b.finals && !Accepts(c, [])
    ensures !AcceptsPower(c, b, n)
  {
    EmptyInPower(b, n);
  }

  lemma AppendedPrecedes(a: Nfa, b: Nfa)
    requires a.Valid() && b.Valid()
    ensures Precedes(a, Shifted(b, a.size))
  {
    ShiftedValid(b, a.size);
    forall e | e in ShiftEdges(b.edges, a.size) ensures a.size <= e.from && a.size <= e.to {
      ShiftedEdge(b.edges, a.size, e);
    }
  }

  // ---- iteration ----

  /** w is a sequence of accepted words. */
  ghost predicate InStar(a: Nfa, w: Word)
    decreases |w|
  {
    w == [] || exists k: nat :: 0 < k <= |w| && Accepts(a, w[..k]) && InStar(a, w[k..])
  }

  lemma {:induction false} StarPrepends(a: Nfa, u: Word, v: Word)
    requires Accepts(a, u) && InStar(a, v)
    ensures InStar(a, u + v)
  {
    if u == [] {
      assert u + v == v;
    } else {
      var w := u + v;
      assert w[..|u|] == u && w[|u|..] == v;
      assert 0 < |u| <= |w|;
    }
  }

  /** a with a new initial state n and a new final state n + 1. */
  function Iterated(a: Nfa): Nfa {
    var s, e := a.size, a.size + 1;
    Nfa(a.size + 2,
        a.edges + {Edge(s, EPSILON, e), Edge(s, EPSILON, a.initial)} + EdgesFrom(a.finals, EPSILON, a.initial) +
            EdgesFrom(a.finals, EPSILON, e),
        s, {e})
  }

  lemma IteratedEdge(a: Nfa, e: Edge)
    ensures e in Iterated(a).edges <==>
      e in a.edges || (e.letter == EPSILON && (e.from == a.size || e.from in a.finals) &&
          (e.to == a.size + 1 || e.to == a.initial))
  {
    EdgeFrom(a.finals, EPSILON, a.initial, e);
    EdgeFrom(a.finals, EPSILON, a.size + 1, e);
    assert e == Edge(e.from, e.letter, e.to);
  }

  /** From inside a to the new final state: to a final state of a, then around any number of times. */
  lemma {:induction false} IteratedPath(a: Nfa, p: nat, path: Path)
    requires a.Valid() && p < a.size && IsPath(Iterated(a).edges, p, path, a.size + 1)
    ensures exists u, f, v :: Label(path) == u + v && f in a.finals && Leads(a.edges, p, u, f) && InStar(a, v)
    decreases |path|
  {
    var e, rest: Path := path[0], path[1..];
    IteratedEdge(a, e);
    if e in a.edges {
      IteratedPath(a, e.to, rest);
      var u, f, v :| Label(rest) == u + v && f in a.finals && Leads(a.edges, e.to, u, f) && InStar(a, v);
      LeadsFirst(a.edges, e, u, f);
      Associative(Read(e.letter), u, v);
      assert Label(path) == (Read(e.letter) + u) + v;
    } else {
      LeadsNowhere(a.edges, p);
      assert Label(path) == [] + Label(rest);
      if e.to == a.size + 1 {
        assert rest == [] by { NothingLeavesTheEnd(a, rest); }
      } else {
        IteratedPath(a, a.initial, rest);
        var u, f, v :| Label(rest) == u + v && f in a.finals && Leads(a.edges, a.initial, u, f) && InStar(a, v);
        assert Accepts(a, u);
        StarPrepends(a, u, v);
      }
    }
  }

  lemma NothingLeavesTheEnd(a: Nfa, path: Path)
    requires a.Valid() && IsPath(Iterated(a).edges, a.size + 1, path, a.size + 1)
    ensures path == []
  {
    if path != [] {
      IteratedEdge(a, path[0]);
    }
  }

  /** A sequence of accepted words leads from the initial state of a to the new final state. */
  lemma {:induction false} StarLeads(a: Nfa, w: Word)
    requires a.Valid() && InStar(a, w)
    ensures Leads(Iterated(a).edges, a.size, w, a.size + 1)
    decreases |w|
  {
    hide Iterated, Leads;
    var s := Iterated(a);
    if w == [] {
      IteratedEdge(a, Edge(a.size, EPSILON, a.size + 1));
      LeadsByEdge(s.edges, Edge(a.size, EPSILON, a.size + 1));
    } else {
      var k: nat :| 0 < k <= |w| && Accepts(a, w[..k]) && InStar(a, w[k..]);
      StarLeads(a, w[k..]);
      OnceAround(a, w[..k], w[k..]);
      assert w[..k] + w[k..] == w;
    }
  }

  lemma OnceAround(a: Nfa, u: Word, v: Word)
    requires a.Valid() && Accepts(a, u) && Leads(Iterated(a).edges, a.size, v, a.size + 1)
    ensures Leads(Iterated(a).edges, a.size, u + v, a.size + 1)
  {
    var s := Iterated(a);
    var f :| f in a.finals && Leads(a.edges, a.initial, u, f);
    LeadsGrows(a.edges, s.edges, a.initial, u, f);
    AroundAgain(a, f, v);
    hide Iterated, Leads;
    LeadsJoin(s.edges, a.initial, u, f, v, a.size + 1);
    var enter := Edge(a.size, EPSILON, a.initial);
    IteratedEdge(a, enter);
    LeadsFirst(s.edges, enter, u + v, a.size + 1);
    assert Read(EPSILON) + (u + v) == u + v;
  }

  /** What the new initial state can do, a final state of a can do. */
  lemma AroundAgain(a: Nfa, f: nat, w: Word)
    requires a.Valid() && f in a.finals && Leads(Iterated(a).edges, a.size, w, a.size + 1)
    ensures Leads(Iterated(a).edges, f, w, a.size + 1)
  {
    var s := Iterated(a);
    LeadsCases(s.edges, a.size, w, a.size + 1);
    var e, v :| e in s.edges && e.from == a.size && w == Read(e.letter) + v && Leads(s.edges, e.to, v, a.size + 1);
    IteratedEdge(a, e);
    IteratedEdge(a, Edge(f, EPSILON, e.to));
    LeadsFirst(s.edges, Edge(f, EPSILON, e.to), v, a.size + 1);
  }

  /** Iterate is the Kleene star. */
  lemma StarLanguage(a: Nfa, w: Word)
    requires a.Valid()
    ensures Accepts(Iterated(a), w) <==> InStar(a, w)
  {
    var s := Iterated(a);
    if Accepts(s, w) {
      var path :| IsPath(s.edges, a.size, path, a.size + 1) && Label(path) == w;
      var e, rest: Path := path[0], path[1..];
      IteratedEdge(a, e);
      assert Label(path) == Label(rest);
      if e.to == a.size + 1 {
        NothingLeavesTheEnd(a, rest);
      } else {
        IteratedPath(a, a.initial, rest);
        var u, f, v :| Label(rest) == u + v && f in a.finals && Leads(a.edges, a.initial, u, f) && InStar(a, v);
        assert Accepts(a, u);
        StarPrepends(a, u, v);
      }
    }
    if InStar(a, w) {
      StarLeads(a, w);
      assert a.size + 1 in s.finals;
    }
  }

  ghost predicate AcceptsStar(c: Nfa, a: Nfa) {
    forall w :: Accepts(c, w) <==> InStar(a, w)
  }

  lemma IteratedStar(a: Nfa)
    requires a.Valid()
    ensures AcceptsStar(Iterated(a), a)
  {
    hide Iterated, Accepts, InStar;
    forall w ensures Accepts(Iterated(a), w) <==> InStar(a, w) {
      StarLanguage(a, w);
    }
  }
}
