/** Finding the states that no accepted word passes through. */
module DeadEnds {
  import opened Automaton
  import opened Transitions
  import opened Partitions
  import Ordered
  import opened Letters
  import opened SurroundingLanguages

  /** Some entry of p names q. */
  ghost predicate Points(rows: Rows, p: nat, q: nat) {
    exists c: nat :: Linked(rows, p, c, q)
  }

  /** The states pointed to, or from when `invert`. */
  ghost predicate IsDigraph(rows: Rows, invert: bool, digraph: seq<set<nat>>) {
    && |digraph| == |rows|
    && forall p: nat, q: nat | p < |rows| && q < |rows| :: q in digraph[p] <==>
        if invert then Points(rows, q, p) else Points(rows, p, q)
  }

  ghost predicate PointsBelow(rows: Rows, p: nat, n: nat, q: nat) {
    exists c: nat :: c < n && Linked(rows, p, c, q)
  }

  lemma NoneBelow(rows: Rows, p: nat)
    ensures forall q: nat :: !PointsBelow(rows, p, 0, q)
  {
  }

  lemma OneMoreBelow(rows: Rows, p: nat, n: nat, q: nat)
    ensures PointsBelow(rows, p, n + 1, q) <==> PointsBelow(rows, p, n, q) || Linked(rows, p, n, q)
  {
    if PointsBelow(rows, p, n + 1, q) {
      var c: nat :| c < n + 1 && Linked(rows, p, c, q);
      assert c < n || c == n;
    }
  }

  lemma AllBelow(rows: Rows, p: nat, q: nat)
    requires Within(rows)
    ensures PointsBelow(rows, p, MAX_CHAR, q) <==> Points(rows, p, q)
  {
    if Points(rows, p, q) {
      var c: nat :| Linked(rows, p, c, q);
      assert p < |rows| && c in rows[p];
    }
  }

  /** The targets of a row, whatever the letter. */
  method Targets(rows: Rows, p: nat) returns (targets: set<nat>)
    requires p < |rows| && Within(rows)
    ensures forall q: nat :: q in targets <==> Points(rows, p, q)
    ensures forall q: nat | q in targets :: q < |rows|
  {
    hide Within, Points, PointsBelow;
    targets := {};
    NoneBelow(rows, p);
    for c: nat := 0 to MAX_CHAR
      invariant forall q: nat :: q in targets <==> PointsBelow(rows, p, c, q)
    {
      ghost var before := targets;
      targets := targets + Dest(rows, p, c);
      forall q: nat ensures q in targets <==> PointsBelow(rows, p, c + 1, q) {
        OneMoreBelow(rows, p, c, q);
        assert Linked(rows, p, c, q) <==> q in Dest(rows, p, c);
      }
    }
    forall q: nat ensures (q in targets <==> Points(rows, p, q)) && (q in targets ==> q < |rows|) {
      AllBelow(rows, p, q);
      PointsWithin(rows, p, q);
    }
  }

  lemma PointsWithin(rows: Rows, p: nat, q: nat)
    requires Within(rows)
    ensures Points(rows, p, q) ==> p < |rows| && q < |rows|
  {
  }

  /** The table regardless of letters, inverted if asked to. */
  method Digraph(rows: Rows, invert: bool) returns (digraph: seq<set<nat>>)
    requires Within(rows)
    ensures IsDigraph(rows, invert, digraph) && |digraph| == |rows|
    ensures forall p: nat, q: nat | p < |digraph| && q in digraph[p] :: q < |digraph|
  {
    hide Within, Points;
    digraph := seq(|rows|, i => {});
    for from: nat := 0 to |rows|
      invariant |digraph| == |rows|
      invariant forall p: nat, q: nat | p < |digraph| && q in digraph[p] :: q < |digraph|
      invariant forall p: nat, q: nat | p < |rows| && q < |rows| ::
        q in digraph[p] <==> if invert then q < from && Points(rows, q, p) else p < from && Points(rows, p, q)
    {
      ghost var before := digraph;
      var targets := Targets(rows, from);
      if invert {
        digraph := seq(|digraph|, i requires 0 <= i < |digraph| => if i in targets then digraph[i] + {from}
            else digraph[i]);
      } else {
        digraph := digraph[from := targets];
      }
    }
  }

  ghost predicate ClosedUnder(digraph: seq<set<nat>>, good: set<nat>) {
    forall p: nat, q: nat | p < |digraph| && p in good && q in digraph[p] :: q in good
  }

  /** The states still marked useless. */
  ghost function Unmarked(useless: seq<bool>): set<nat> {
    set i: nat | i < |useless| && useless[i]
  }

  ghost predicate MarksSpread(digraph: seq<set<nat>>, useless: seq<bool>) {
    && |useless| == |digraph|
    && forall p: nat, q: nat | p < |digraph| && q in digraph[p] && !useless[p] :: q < |digraph| && !useless[q]
  }

  /** Breadth-first search from the seeds: the marks taken away are those of the least closed set with the seeds. */
  method MarkUseful(digraph: seq<set<nat>>, seeds: set<nat>, ghost good: set<nat>) returns (useless: seq<bool>)
    requires forall p: nat, q: nat | p < |digraph| && q in digraph[p] :: q < |digraph|
    requires seeds <= good && ClosedUnder(digraph, good) && forall p | p in seeds :: p < |digraph|
    ensures |useless| == |digraph| && forall p: nat | p in seeds :: !useless[p]
    ensures MarksSpread(digraph, useless) && forall p: nat | p < |digraph| && !useless[p] :: p in good
  {
    useless := seq(|digraph|, i => true);
    var unchecked := seq(|digraph|, i => true);
    var queue: seq<nat> := [];
    for i: nat := 0 to |digraph|
      invariant |useless| == |digraph|
      invariant forall p: nat | p < |digraph| :: useless[p] <==> !(p < i && p in seeds)
      invariant forall p: nat :: p in queue <==> p < i && p in seeds
    {
      if i in seeds {
        useless := useless[i := false];
        queue := queue + [i];
      }
    }
    while queue != []
      invariant |useless| == |unchecked| == |digraph|
      invariant forall p: nat | p in seeds :: !useless[p]
      invariant forall p: nat | p in queue :: p < |digraph| && !useless[p]
      invariant forall p: nat | p < |digraph| && !useless[p] :: p in good && (p in queue || !unchecked[p])
      invariant forall p: nat | p < |digraph| && !unchecked[p] :: !useless[p] && forall q: nat | q in digraph[p] ::
          !useless[q]
      decreases Unmarked(useless), |queue|
    {
      var to := queue[0];
      ghost var before := queue;
      queue := queue[1..];
      ghost var waiting, marks := queue, useless;
      assert before == [to] + waiting;
      assert forall p: nat :: p in before <==> p == to || p in waiting;
      assert to in before;
      useless, queue := MarkNeighbours(digraph, to, useless, unchecked, queue, good);
      unchecked := unchecked[to := false];
      if useless != marks {
        FewerUnmarked(marks, useless);
      }
    }
  }

  /** Marks and enqueues the neighbours of a state that are still useless. */
  method MarkNeighbours(digraph: seq<set<nat>>, to: nat, marks: seq<bool>, unchecked: seq<bool>, waiting: seq<nat>,
      ghost good: set<nat>)
    returns (useless: seq<bool>, queue: seq<nat>)
    requires to < |digraph| == |marks| == |unchecked| && to in good && ClosedUnder(digraph, good)
    requires forall q: nat | q in digraph[to] :: q < |digraph|
    requires forall p: nat | p < |digraph| && !unchecked[p] :: !marks[p]
    ensures |useless| == |digraph| && forall q: nat | q in digraph[to] :: !useless[q]
    ensures forall p: nat | p < |digraph| && useless[p] :: marks[p]
    ensures forall p: nat | p < |digraph| && marks[p] && !useless[p] :: p in good && p in queue
    ensures forall p: nat :: p in queue <==> p in waiting || (p < |digraph| && marks[p] && !useless[p])
    ensures useless == marks ==> queue == waiting
  {
    useless, queue := marks, waiting;
    var rest := digraph[to];
    while rest != {}
      invariant rest <= digraph[to] && |useless| == |digraph|
      invariant forall q: nat | q in digraph[to] && q !in rest :: !useless[q]
      invariant forall p: nat | p < |digraph| && useless[p] :: marks[p]
      invariant forall p: nat | p < |digraph| && marks[p] && !useless[p] :: p in good
      invariant forall p: nat :: p in queue <==> p in waiting || (p < |digraph| && marks[p] && !useless[p])
      invariant queue == waiting || exists p: nat :: p < |digraph| && marks[p] && !useless[p]
      decreases |rest|
    {
      var fr: nat := Ordered.Least(rest);
      if unchecked[fr] && useless[fr] {
        useless := useless[fr := false];
        queue := queue + [fr];
      }
      rest := rest - {fr};
    }
  }

  lemma FewerUnmarked(before: seq<bool>, after: seq<bool>)
    requires |after| == |before| && before != after && forall i: nat | i < |after| && after[i] :: before[i]
    ensures Unmarked(after) < Unmarked(before)
  {
    var i: nat :| i < |after| && before[i] != after[i];
    assert i in Unmarked(before) && i !in Unmarked(after);
  }

  // ---- what the search finds ----

  ghost predicate HasEdge(edges: set<Edge>, p: nat, q: nat) {
    exists c: nat :: Edge(p, c, q) in edges
  }

  /** Raw entries and edges connect the same states. */
  lemma PointsByEdge(rows: Rows, classes: Classes, p: nat, q: nat)
    requires Within(rows) && OverLetters(classes) && Coherent(rows, classes.inv)
    ensures Points(rows, p, q) <==> HasEdge(EdgesOf(rows, classes.inv), p, q)
  {
    if Points(rows, p, q) {
      var c: nat :| Linked(rows, p, c, q);
      assert p < |rows| && c in rows[p];
      assert Linked(rows, p, Stand(classes.inv, c), q);
      EdgeOf(rows, classes.inv, Edge(p, c, q));
    }
    if HasEdge(EdgesOf(rows, classes.inv), p, q) {
      var c: nat :| Edge(p, c, q) in EdgesOf(rows, classes.inv);
      EdgeOf(rows, classes.inv, Edge(p, c, q));
    }
  }

  ghost function ReachedStates(a: Nfa): set<nat> {
    set p: nat | p < a.size && IsReached(a, p)
  }

  ghost function EndingStates(a: Nfa): set<nat> {
    set p: nat | p < a.size && CanEnd(a, p)
  }

  /** The digraph has the edges of a, backwards if inverted. */
  ghost predicate Outlines(a: Nfa, invert: bool, digraph: seq<set<nat>>) {
    && |digraph| == a.size
    && forall p: nat, q: nat | p < a.size && q < a.size :: q in digraph[p] <==>
        if invert then HasEdge(a.edges, q, p) else HasEdge(a.edges, p, q)
  }

  lemma DigraphOutlines(rows: Rows, classes: Classes, initial: nat, finals: set<nat>, invert: bool,
      digraph: seq<set<nat>>)
    requires Within(rows) && OverLetters(classes) && Coherent(rows, classes.inv) && IsDigraph(rows, invert, digraph)
    ensures Outlines(Nfa(|rows|, EdgesOf(rows, classes.inv), initial, finals), invert, digraph)
  {
    hide Within, OverLetters, Coherent, EdgesOf, Points, HasEdge;
    var a := Nfa(|rows|, EdgesOf(rows, classes.inv), initial, finals);
    forall p: nat, q: nat | p < a.size && q < a.size
      ensures q in digraph[p] <==> if invert then HasEdge(a.edges, q, p) else HasEdge(a.edges, p, q)
    {
      PointsByEdge(rows, classes, p, q);
      PointsByEdge(rows, classes, q, p);
    }
  }

  lemma ReachedAreClosed(a: Nfa, digraph: seq<set<nat>>)
    requires a.Valid() && Outlines(a, false, digraph) && forall p: nat, q: nat | p < |digraph| && q in digraph[p] ::
        q < |digraph|
    ensures {a.initial} <= ReachedStates(a) && ClosedUnder(digraph, ReachedStates(a))
  {
    LeadsNowhere(a.edges, a.initial);
    forall p: nat, q: nat | p < |digraph| && p in ReachedStates(a) && q in digraph[p] ensures q in ReachedStates(a) {
      var c: nat :| Edge(p, c, q) in a.edges;
      var w :| Leads(a.edges, a.initial, w, p);
      LeadsLast(a.edges, a.initial, w, Edge(p, c, q));
    }
  }

  lemma EndingAreClosed(a: Nfa, digraph: seq<set<nat>>)
    requires a.Valid() && Outlines(a, true, digraph) && forall p: nat, q: nat | p < |digraph| && q in digraph[p] ::
        q < |digraph|
    ensures a.finals <= EndingStates(a) && ClosedUnder(digraph, EndingStates(a))
  {
    forall f | f in a.finals ensures f in EndingStates(a) {
      LeadsNowhere(a.edges, f);
    }
    forall p: nat, q: nat | p < |digraph| && p in EndingStates(a) && q in digraph[p] ensures q in EndingStates(a) {
      var c: nat :| Edge(q, c, p) in a.edges;
      var w, f :| f in a.finals && Leads(a.edges, p, w, f);
      LeadsFirst(a.edges, Edge(q, c, p), w, f);
    }
  }

  lemma MarkFollowsEdge(a: Nfa, invert: bool, digraph: seq<set<nat>>, useless: seq<bool>, e: Edge)
    requires a.Valid() && Outlines(a, invert, digraph) && MarksSpread(digraph, useless) && e in a.edges
    ensures if invert then !useless[e.to] ==> !useless[e.from] else !useless[e.from] ==> !useless[e.to]
  {
    assert Edge(e.from, e.letter, e.to) == e;
    assert HasEdge(a.edges, e.from, e.to);
    if invert {
      assert e.from in digraph[e.to];
    } else {
      assert e.to in digraph[e.from];
    }
  }

  /** The forward search marks exactly the reached states. */
  lemma ForwardMarks(a: Nfa, digraph: seq<set<nat>>, useless: seq<bool>, p: nat)
    requires a.Valid() && Outlines(a, false, digraph) && MarksSpread(digraph, useless) && p < a.size
    requires !useless[a.initial] && forall p: nat | p < |digraph| && !useless[p] :: p in ReachedStates(a)
    ensures !useless[p] <==> IsReached(a, p)
  {
    hide Outlines, MarksSpread, Leads;
    SameCount(a, false, digraph, useless);
    if IsReached(a, p) {
      var w :| Leads(a.edges, a.initial, w, p);
      var useful := (q: nat) => q < |useless| && !useless[q];
      forall e | e in a.edges && useful(e.from) ensures e in a.edges && useful(e.to) {
        MarkFollowsEdge(a, false, digraph, useless, e);
      }
      LeadsConfined(a.edges, a.edges, useful, a.initial, w, p);
    }
  }

  lemma SameCount(a: Nfa, invert: bool, digraph: seq<set<nat>>, useless: seq<bool>)
    requires Outlines(a, invert, digraph) && MarksSpread(digraph, useless)
    ensures |useless| == |digraph| == a.size
  {
  }

  /** The backward search marks exactly the states from which a final one is reached. */
  lemma BackwardMarks(a: Nfa, digraph: seq<set<nat>>, useless: seq<bool>, p: nat)
    requires a.Valid() && Outlines(a, true, digraph) && MarksSpread(digraph, useless) && p < a.size
    requires (forall f | f in a.finals :: !useless[f]) && forall p: nat | p < |digraph| && !useless[p] ::
        p in EndingStates(a)
    ensures !useless[p] <==> CanEnd(a, p)
  {
    hide Outlines, MarksSpread, Leads;
    SameCount(a, true, digraph, useless);
    if CanEnd(a, p) {
      var w, f :| f in a.finals && Leads(a.edges, p, w, f);
      var useful := (q: nat) => q < |useless| && !useless[q];
      forall e | e in a.edges && useful(e.to) ensures e in a.edges && useful(e.from) {
        MarkFollowsEdge(a, true, digraph, useless, e);
      }
      LeadsConfinedBackwards(a.edges, a.edges, useful, p, w, f);
    }
  }

  // ---- taking states out ----

  /** The rows of dead states are cleared, and they are no targets any more. */
  ghost predicate WithoutStates(before: Rows, after: Rows, dead: set<nat>) {
    && |after| == |before|
    && (forall p: nat, c: nat :: Dest(after, p, c) == if p in dead then {} else Dest(before, p, c) - dead)
    && (forall p: nat, c: nat | p < |after| && c in after[p] :: c in before[p])
    && (forall p: nat | p < |before| :: after[p] != map[] <==> p !in dead && before[p] != map[])
  }

  function Erased(row: Row, q: nat): (r: Row)
    ensures forall c: nat :: c in r <==> c in row
    ensures forall c: nat | c in row :: r[c] == row[c] - {q}
    ensures r != map[] <==> row != map[]
  {
    var r: Row := map c: nat | c in row :: row[c] - {q};
    assert r == map[] ==> row == map[] by {
      if c: nat :| c in row { assert c in r; }
    }
    r
  }

  /** Clears the row of d and takes d out of all other rows. */
  method RemoveState(rows: Rows, d: nat) returns (out: Rows)
    requires d < |rows|
    ensures |out| == |rows|
    ensures forall p: nat | p < |rows| :: out[p] == if p == d then map[] else Erased(rows[p], d)
  {
    out := rows[d := map[]];
    for p: nat := 0 to |rows|
      invariant |out| == |rows|
      invariant forall i: nat | i < |rows| :: out[i] == if i == d then map[] else if i < p then Erased(rows[i], d)
          else rows[i]
    {
      if p != d {
        out := out[p := Erased(out[p], d)];
      }
    }
  }

  lemma NoneRemoved(rows: Rows)
    ensures WithoutStates(rows, rows, {})
  {
  }

  lemma OneMoreRemoved(origin: Rows, before: Rows, after: Rows, dead: set<nat>, d: nat)
    requires WithoutStates(origin, before, dead) && d < |before| == |after|
    requires forall p: nat | p < |before| :: after[p] == if p == d then map[] else Erased(before[p], d)
    ensures WithoutStates(origin, after, dead + {d})
  {
    forall p: nat, c: nat ensures Dest(after, p, c) == if p in dead + {d} then {}
        else Dest(origin, p, c) - (dead + {d}) {
      if p < |before| && p != d {
        assert after[p] == Erased(before[p], d);
        assert Dest(after, p, c) == Dest(before, p, c) - {d};
      }
    }
  }

  lemma ClearedEdges(before: Rows, after: Rows, classes: Classes, dead: set<nat>)
    requires Within(before) && Coherent(before, classes.inv) && WithoutStates(before, after, dead)
    ensures Within(after) && Coherent(after, classes.inv)
    ensures EdgesOf(after, classes.inv) == set e | e in EdgesOf(before, classes.inv) && e.from !in dead && e.to !in dead
  {
    forall e
      ensures e in EdgesOf(after, classes.inv) <==>
        e in EdgesOf(before, classes.inv) && e.from !in dead && e.to !in dead
    {
      EdgeOf(before, classes.inv, e);
      EdgeOf(after, classes.inv, e);
    }
    forall p: nat, c: nat, q: nat | Linked(after, p, c, q) ensures q < |after| {
      assert Linked(before, p, c, q);
    }
    forall p: nat, c: nat | p < |after| && c in classes.inv && c in after[p]
        ensures after[p][c] == Dest(after, p, classes.inv[c]) {
      assert Dest(after, p, c) == after[p][c];
      assert before[p][c] == Dest(before, p, classes.inv[c]);
    }
  }

  lemma RemovedValue(a: Nfa, edges: set<Edge>, dead: set<nat>)
    requires a.Valid() && (forall p: nat :: p in dead <==> IsDead(a, p))
    requires edges == set e | e in a.edges && e.from !in dead && e.to !in dead
    ensures a.(edges := edges) == WithoutDead(a)
  {
    hide IsDead;
    assert edges == WithoutDead(a).edges;
  }

  /** A live state whose row is empty is final. */
  lemma BareIsFinal(a: Nfa, rows: Rows, inv: map<nat, nat>, p: nat)
    requires a.edges == EdgesOf(rows, inv) && a.size == |rows| && p < |rows| && rows[p] == map[] && !IsDead(a, p)
    ensures p in a.finals
  {
    var w, f :| f in a.finals && Leads(a.edges, p, w, f);
    LeadsCases(a.edges, p, w, f);
    if e: Edge :| e in a.edges && e.from == p {
      EdgeOf(rows, inv, e);
      assert false;
    }
  }

  ghost predicate AcceptsPrefixes(b: Nfa, a: Nfa) {
    forall w :: Accepts(b, w) <==> IsPrefix(a, w)
  }

  /** Without dead states, and with every state that is not dead final, exactly the prefixes are accepted. */
  lemma PrefixesOf(a: Nfa, b: Nfa)
    requires a.Valid() && b.initial == a.initial && b.edges == WithoutDead(a).edges
    requires forall p: nat | p < a.size && !IsDead(a, p) :: p in b.finals
    requires forall p: nat | p in b.finals && IsDead(a, p) :: p in a.finals
    requires forall p: nat | p in b.finals :: p < a.size
    ensures AcceptsPrefixes(b, a)
  {
    hide Accepts, IsPrefix, IsDead, WithoutDead;
    forall w ensures Accepts(b, w) <==> IsPrefix(a, w) {
      PrefixLanguage(a, b, w);
    }
  }

  lemma DeadAreStates(a: Nfa)
    ensures forall p: nat | IsDead(a, p) :: p < a.size
  {
  }

  lemma RemovedRows(before: Rows, after: Rows, dead: set<nat>)
    requires WithoutStates(before, after, dead)
    ensures |after| == |before| && forall p: nat | p < |before| :: after[p] != map[] <==>
        p !in dead && before[p] != map[]
  {
  }

  lemma WithoutDeadShape(a: Nfa)
    ensures WithoutDead(a) == a.(edges := WithoutDead(a).edges)
  {
  }
}
