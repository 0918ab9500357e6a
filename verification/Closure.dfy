/** The relations between transition tables that the steps of removing epsilons establish. */
module Closure {
  import opened Automaton
  import opened Transitions
  import opened EpsilonRemoval
  import opened Letters

  predicate Eps(rows: Rows, p: nat, q: nat) {
    Linked(rows, p, EPSILON, q)
  }

  /** `inveps` lists, for every state, the states with an epsilon transition to it. */
  ghost predicate Mirror(rows: Rows, inveps: seq<set<nat>>) {
    && |inveps| == |rows|
    && forall p: nat, q: nat | q < |inveps| :: p in inveps[q] <==> Eps(rows, p, q)
  }

  ghost predicate SameLetters(before: Rows, after: Rows) {
    && |after| == |before|
    && forall p: nat, c: nat, q: nat | c != EPSILON :: Linked(after, p, c, q) <==> Linked(before, p, c, q)
  }

  /** Epsilon steps compose if they meet in a state below k. */
  ghost predicate ClosedBelow(rows: Rows, k: nat) {
    forall x: nat, y: nat, z: nat | y < k && Eps(rows, x, y) && Eps(rows, y, z) :: Eps(rows, x, z)
  }

  /** `after` has the epsilon steps of `before` and only steps that `before` can make silently. */
  ghost predicate Shortcuts(before: Rows, after: Rows) {
    && (forall x: nat, y: nat | Eps(before, x, y) :: Eps(after, x, y))
    && (forall x: nat, y: nat | Eps(after, x, y) :: Silent(EdgesOf(before, map[]), x, y))
  }

  /** `after` is `before` with state `from` short-cut past `thru` to all epsilon targets of `thru`. */
  ghost predicate ShortCut(before: Rows, after: Rows, from: nat, thru: nat) {
    && |after| == |before|
    && forall p: nat, c: nat, q: nat :: Linked(after, p, c, q) <==>
         Linked(before, p, c, q) || (p == from && c == EPSILON && Eps(before, thru, q))
  }

  /** `after` is `before` with all states below `bound` short-cut past thru. */
  ghost predicate ShortCutBelow(before: Rows, after: Rows, bound: nat, thru: nat) {
    && |after| == |before|
    && forall p: nat, c: nat, q: nat :: Linked(after, p, c, q) <==>
         Linked(before, p, c, q) || (p < bound && p != thru && c == EPSILON && Eps(before, p, thru) &&
             Eps(before, thru, q))
  }

  /** `after` is `before` with `from` given the epsilon targets of `thru` that are below `bound`. */
  ghost predicate PartShortCut(before: Rows, after: Rows, from: nat, thru: nat, bound: nat) {
    && |after| == |before|
    && forall p: nat, c: nat, q: nat :: Linked(after, p, c, q) <==>
         Linked(before, p, c, q) || (p == from && c == EPSILON && q < bound && Eps(before, thru, q))
  }

  lemma ShortCutNothing(rows: Rows, from: nat, thru: nat)
    ensures PartShortCut(rows, rows, from, thru, 0)
  {
  }

  lemma ShortCutTarget(before: Rows, middle: Rows, after: Rows, from: nat, thru: nat, to: nat)
    requires PartShortCut(before, middle, from, thru, to) && from != thru && from < |middle|
    requires if Eps(middle, thru, to) then after == Link(middle, from, EPSILON, to) else after == middle
    ensures PartShortCut(before, after, from, thru, to + 1)
  {
    hide Linked, Link;
    LinkAdds(middle, from, EPSILON, to);
    forall p: nat, c: nat, q: nat ensures Linked(after, p, c, q) <==>
        Linked(before, p, c, q) || (p == from && c == EPSILON && q < to + 1 && Eps(before, thru, q)) {
      assert Eps(middle, thru, to) <==> Eps(before, thru, to);
    }
  }

  lemma PartIsShortCut(before: Rows, after: Rows, from: nat, thru: nat)
    requires PartShortCut(before, after, from, thru, |before|) && Within(before)
    ensures ShortCut(before, after, from, thru)
  {
    assert forall q: nat | Eps(before, thru, q) :: q < |before|;
    hide Linked, Within;
  }

  lemma ShortCutSize(before: Rows, after: Rows, from: nat, thru: nat)
    requires ShortCut(before, after, from, thru)
    ensures |after| == |before|
  {
  }

  lemma MirrorAt(rows: Rows, inveps: seq<set<nat>>, p: nat, q: nat)
    requires Mirror(rows, inveps) && q < |rows|
    ensures |inveps| == |rows| && (p in inveps[q] <==> Eps(rows, p, q))
  {
  }

  lemma MirrorLink(rows: Rows, inveps: seq<set<nat>>, from: nat, to: nat)
    requires Mirror(rows, inveps) && from < |rows| && to < |rows|
    ensures Mirror(Link(rows, from, EPSILON, to), inveps[to := inveps[to] + {from}])
  {
    LinkAdds(rows, from, EPSILON, to);
  }

  lemma ShortCutNone(rows: Rows, thru: nat)
    ensures ShortCutBelow(rows, rows, 0, thru)
  {
  }

  lemma ShortCutSkip(before: Rows, after: Rows, bound: nat, thru: nat)
    requires ShortCutBelow(before, after, bound, thru) && (bound == thru || !Eps(after, bound, thru))
    ensures ShortCutBelow(before, after, bound + 1, thru)
  {
  }

  lemma ShortCutMore(before: Rows, middle: Rows, after: Rows, bound: nat, thru: nat)
    requires ShortCutBelow(before, middle, bound, thru) && bound != thru && Eps(middle, bound, thru)
    requires ShortCut(middle, after, bound, thru)
    ensures ShortCutBelow(before, after, bound + 1, thru)
  {
    hide Linked;
    forall p: nat, c: nat, q: nat ensures Linked(after, p, c, q) <==>
        Linked(before, p, c, q) || (p < bound + 1 && p != thru && c == EPSILON && Eps(before, p, thru) &&
            Eps(before, thru, q)) {
      assert Eps(middle, thru, q) <==> Eps(before, thru, q);
      assert Eps(middle, bound, thru) ==> Eps(before, bound, thru);
    }
  }

  /** Short-cutting every state past `thru` makes epsilon steps compose in `thru` too. */
  lemma ShortCutCloses(before: Rows, after: Rows, thru: nat)
    requires ClosedBelow(before, thru) && Within(before) && thru < |before|
    requires ShortCutBelow(before, after, |before|, thru)
    ensures ClosedBelow(after, thru + 1)
  {
    hide Linked, Within;
    SourcesWithin(before);
    forall x: nat, y: nat, z: nat | y < thru + 1 && Eps(after, x, y) && Eps(after, y, z) ensures Eps(after, x, z) {
      assert Eps(after, x, y) <==> Eps(before, x, y) || (x != thru && Eps(before, x, thru) && Eps(before, thru, y));
      assert Eps(after, y, z) <==> Eps(before, y, z) || (y != thru && Eps(before, y, thru) && Eps(before, thru, z));
      assert Eps(after, x, z) <==> Eps(before, x, z) || (x != thru && Eps(before, x, thru) && Eps(before, thru, z));
    }
  }

  lemma SourcesWithin(rows: Rows)
    ensures forall p: nat, c: nat, q: nat | Linked(rows, p, c, q) :: p < |rows|
  {
  }

  lemma ShortCutIsSilent(origin: Rows, before: Rows, after: Rows, thru: nat)
    requires Shortcuts(origin, before) && ShortCutBelow(before, after, |before|, thru)
    ensures Shortcuts(origin, after)
  {
    hide Linked, Silent, EdgesOf;
    forall x: nat, y: nat | Eps(after, x, y) ensures Silent(EdgesOf(origin, map[]), x, y) {
      if !Eps(before, x, y) {
        SilentJoin(EdgesOf(origin, map[]), x, thru, y);
      }
    }
  }

  lemma SilentJoin(edges: set<Edge>, p: nat, q: nat, r: nat)
    requires Silent(edges, p, q) && Silent(edges, q, r)
    ensures Silent(edges, p, r)
  {
    LeadsSilently(edges, p, q, [], r);
  }

  lemma ShortcutsStart(rows: Rows)
    requires Within(rows)
    ensures Shortcuts(rows, rows) && SameLetters(rows, rows) && ClosedBelow(rows, 0)
  {
    forall x: nat, y: nat | Eps(rows, x, y) ensures Silent(EdgesOf(rows, map[]), x, y) {
      var e := Edge(x, EPSILON, y);
      EdgeOf(rows, map[], e);
      LeadsByEdge(EdgesOf(rows, map[]), e);
    }
  }

  lemma SameLettersAfter(origin: Rows, before: Rows, after: Rows, thru: nat)
    requires SameLetters(origin, before) && ShortCutBelow(before, after, |before|, thru)
    ensures SameLetters(origin, after)
  {
  }

  // ---- merging ----

  /** x itself or a state its epsilon steps lead to. */
  predicate Reaches(rows: Rows, x: nat, r: nat) {
    x == r || Eps(rows, x, r)
  }

  ghost predicate ComesFrom(closed: Rows, x: nat, c: nat, z: nat) {
    exists r: nat :: Reaches(closed, x, r) && Linked(closed, r, c, z)
  }

  /** Every link of `after` comes from a state silently reached; epsilon steps are as before. */
  ghost predicate MergedSoundly(closed: Rows, after: Rows) {
    && |after| == |closed|
    && (forall x: nat, c: nat, z: nat | Linked(closed, x, c, z) :: Linked(after, x, c, z))
    && (forall x: nat, c: nat, z: nat | Linked(after, x, c, z) :: ComesFrom(closed, x, c, z))
    && (forall x: nat, z: nat :: Eps(after, x, z) <==> Eps(closed, x, z))
  }

  /** State x has all links of r. */
  ghost predicate Covers(closed: Rows, after: Rows, x: nat, r: nat) {
    forall c: nat, z: nat | Linked(closed, r, c, z) :: Linked(after, x, c, z)
  }

  ghost predicate CoversBelow(closed: Rows, after: Rows, x: nat, bound: nat) {
    forall r: nat | r < bound && Reaches(closed, x, r) :: Covers(closed, after, x, r)
  }

  ghost predicate Absorbed(before: Rows, after: Rows, from: nat, to: nat) {
    && |after| == |before|
    && forall p: nat, c: nat, q: nat :: Linked(after, p, c, q) <==>
        Linked(before, p, c, q) || (p == from && Linked(before, to, c, q))
  }

  lemma AbsorbSound(closed: Rows, before: Rows, after: Rows, from: nat, to: nat)
    requires ClosedBelow(closed, |closed|) && to < |closed| && MergedSoundly(closed, before)
    requires Eps(closed, from, to) && Absorbed(before, after, from, to)
    ensures MergedSoundly(closed, after)
  {
    hide Linked, ComesFrom;
    forall x: nat, c: nat, z: nat | Linked(after, x, c, z) ensures ComesFrom(closed, x, c, z) {
      if !Linked(before, x, c, z) {
        ComesFromFurther(closed, from, to, c, z);
      }
    }
    AbsorbKeepsEps(closed, before, after, from, to);
  }

  lemma AbsorbKeepsEps(closed: Rows, before: Rows, after: Rows, from: nat, to: nat)
    requires ClosedBelow(closed, |closed|) && to < |closed|
    requires forall x: nat, z: nat :: Eps(before, x, z) <==> Eps(closed, x, z)
    requires Eps(closed, from, to) && Absorbed(before, after, from, to)
    ensures forall x: nat, z: nat :: Eps(after, x, z) <==> Eps(closed, x, z)
  {
    hide Linked;
    forall x: nat, z: nat ensures Eps(after, x, z) <==> Eps(closed, x, z) {
      assert Eps(after, x, z) <==> Eps(before, x, z) || (x == from && Eps(before, to, z));
    }
  }

  lemma ComesFromFurther(closed: Rows, from: nat, to: nat, c: nat, z: nat)
    requires ClosedBelow(closed, |closed|) && to < |closed| && Eps(closed, from, to) && ComesFrom(closed, to, c, z)
    ensures ComesFrom(closed, from, c, z)
  {
    hide Linked;
    var r: nat :| Reaches(closed, to, r) && Linked(closed, r, c, z);
    assert Reaches(closed, from, r);
  }

  lemma AbsorbCovers(closed: Rows, before: Rows, after: Rows, from: nat, to: nat, x: nat, bound: nat)
    requires MergedSoundly(closed, before) && Absorbed(before, after, from, to)
    requires CoversBelow(closed, before, x, bound)
    ensures CoversBelow(closed, after, x, bound)
    ensures x == from && bound == to ==> CoversBelow(closed, after, x, bound + 1)
  {
    hide Linked, Reaches, ComesFrom;
    forall r: nat | r < bound && Reaches(closed, x, r) ensures Covers(closed, after, x, r) {
      assert Covers(closed, before, x, r);
    }
    assert x == from ==> Covers(closed, after, x, to);
  }

  lemma CoversSkip(closed: Rows, after: Rows, x: nat, bound: nat)
    requires MergedSoundly(closed, after) && CoversBelow(closed, after, x, bound)
    requires x == bound || !Eps(after, x, bound)
    ensures CoversBelow(closed, after, x, bound + 1)
  {
    hide ComesFrom;
    assert Covers(closed, after, x, x);
    assert Eps(after, x, bound) <==> Eps(closed, x, bound);
    hide Linked, MergedSoundly, Covers, Eps;
    forall r: nat | r < bound + 1 && Reaches(closed, x, r) ensures Covers(closed, after, x, r) {
    }
  }

  lemma MergeStarts(closed: Rows, x: nat)
    ensures MergedSoundly(closed, closed) && CoversBelow(closed, closed, x, 0)
  {
    hide Linked;
    forall x: nat, c: nat, z: nat | Linked(closed, x, c, z) ensures ComesFrom(closed, x, c, z) {
      assert Reaches(closed, x, x);
    }
  }

  /** `after` is `before` with the entries of `to` for letters below `bound` added to `from`. */
  ghost predicate PartAbsorbed(before: Rows, after: Rows, from: nat, to: nat, bound: nat) {
    && |after| == |before|
    && forall p: nat, c: nat, q: nat :: Linked(after, p, c, q) <==>
         Linked(before, p, c, q) || (p == from && c < bound && Linked(before, to, c, q))
  }

  lemma AbsorbNothing(rows: Rows, from: nat, to: nat)
    ensures PartAbsorbed(rows, rows, from, to, 0)
  {
  }

  lemma AbsorbLetter(before: Rows, middle: Rows, after: Rows, from: nat, to: nat, c: nat)
    requires PartAbsorbed(before, middle, from, to, c) && Within(middle)
    requires from < |middle| && to < |middle| && from != to && c < MAX_CHAR && |after| == |middle|
    requires after == if c in middle[to] then UnionAt(middle, from, c, middle[to][c]) else middle
    ensures PartAbsorbed(before, after, from, to, c + 1) && Within(after)
  {
    UnionAdds(middle, from, c, Dest(middle, to, c));
    assert Dest(middle, to, c) == {} || c in middle[to];
    assert forall q: nat :: q in Dest(middle, to, c) <==> Linked(middle, to, c, q);
    WithinUnion(middle, from, c, to);
    hide Within, UnionAt, Dest;
    forall p: nat, d: nat, q: nat ensures Linked(after, p, d, q) <==>
        Linked(before, p, d, q) || (p == from && d < c + 1 && Linked(before, to, d, q)) {
    }
  }

  function UnionAt(rows: Rows, p: nat, c: nat, s: set<nat>): Rows
    requires p < |rows|
  {
    var row: Row := rows[p][c := Dest(rows, p, c) + s];
    rows[p := row]
  }

  lemma UnionAdds(rows: Rows, p: nat, c: nat, s: set<nat>)
    requires p < |rows|
    ensures |UnionAt(rows, p, c, s)| == |rows|
    ensures forall x: nat, d: nat, q: nat :: Linked(UnionAt(rows, p, c, s), x, d, q) <==>
        Linked(rows, x, d, q) || (x == p && d == c && q in s)
  {
  }

  lemma WithinUnion(rows: Rows, p: nat, c: nat, to: nat)
    requires p < |rows| && c < MAX_CHAR && Within(rows)
    ensures Within(UnionAt(rows, p, c, Dest(rows, to, c)))
  {
    var after := UnionAt(rows, p, c, Dest(rows, to, c));
    UnionAdds(rows, p, c, Dest(rows, to, c));
    forall x: nat, d: nat, q: nat | Linked(after, x, d, q) ensures q < |after| {
      assert Linked(rows, x, d, q) || Linked(rows, to, c, q);
    }
  }

  lemma PartIsAbsorbed(before: Rows, after: Rows, from: nat, to: nat)
    requires PartAbsorbed(before, after, from, to, MAX_CHAR) && Within(before)
    ensures Absorbed(before, after, from, to)
  {
    assert forall c: nat, q: nat | Linked(before, to, c, q) :: c < MAX_CHAR;
    hide Linked, Within;
  }

  lemma AbsorbedSize(before: Rows, after: Rows, from: nat, to: nat)
    requires Absorbed(before, after, from, to)
    ensures |after| == |before|
  {
  }

  lemma CoversNone(closed: Rows, after: Rows, x: nat)
    ensures CoversBelow(closed, after, x, 0)
  {
  }

  lemma MergedKeepsEps(closed: Rows, after: Rows, x: nat, y: nat)
    requires MergedSoundly(closed, after)
    ensures |after| == |closed| && (y in Dest(after, x, EPSILON) <==> Eps(closed, x, y)) &&
        (Eps(after, x, y) <==> Eps(closed, x, y))
  {
    hide ComesFrom;
  }

  // ---- finality ----

  ghost predicate EndsFrom(closed: Rows, ends: set<nat>, x: nat) {
    exists r: nat :: r in ends && Reaches(closed, x, r)
  }

  /** Only states with a silent way to an end are final, and below `from` all of them are. */
  ghost predicate MergedFinals(closed: Rows, ends: set<nat>, finals: set<nat>, from: nat) {
    && ends <= finals
    && (forall x | x in finals :: EndsFrom(closed, ends, x))
    && (forall x: nat | x < from && EndsFrom(closed, ends, x) :: x in finals)
  }

  ghost predicate MergedFinalsHere(closed: Rows, ends: set<nat>, finals: set<nat>, from: nat, to: nat) {
    && MergedFinals(closed, ends, finals, from)
    && forall r: nat | r < to && r in ends && Reaches(closed, from, r) :: from in finals
  }

  lemma FinalsStart(closed: Rows, ends: set<nat>)
    ensures MergedFinals(closed, ends, ends, 0)
  {
    forall x | x in ends ensures EndsFrom(closed, ends, x) {
      assert Reaches(closed, x, x);
    }
  }

  lemma FinalsHereStart(closed: Rows, ends: set<nat>, finals: set<nat>, from: nat)
    requires MergedFinals(closed, ends, finals, from)
    ensures MergedFinalsHere(closed, ends, finals, from, 0)
  {
  }

  lemma FinalsHereNext(closed: Rows, ends: set<nat>, before: set<nat>, after: set<nat>, from: nat, to: nat)
    requires ClosedBelow(closed, |closed|) && to < |closed| && MergedFinalsHere(closed, ends, before, from, to)
    requires after == if Eps(closed, from, to) && to != from then before + if to in before then {from} else {}
        else before
    ensures MergedFinalsHere(closed, ends, after, from, to + 1)
  {
    if Eps(closed, from, to) && to in before {
      EndsFurther(closed, ends, from, to);
    }
    hide EndsFrom, ClosedBelow;
  }

  lemma EndsFurther(closed: Rows, ends: set<nat>, from: nat, to: nat)
    requires ClosedBelow(closed, |closed|) && to < |closed| && Eps(closed, from, to) && EndsFrom(closed, ends, to)
    ensures EndsFrom(closed, ends, from)
  {
    hide Linked;
    var r: nat :| r in ends && Reaches(closed, to, r);
    assert Reaches(closed, from, r);
  }

  lemma FinalsNext(closed: Rows, ends: set<nat>, finals: set<nat>, from: nat)
    requires MergedFinalsHere(closed, ends, finals, from, |closed|) && forall r | r in ends :: r < |closed|
    ensures MergedFinals(closed, ends, finals, from + 1)
  {
    if EndsFrom(closed, ends, from) {
      var r: nat :| r in ends && Reaches(closed, from, r);
      assert from in finals;
    }
  }

  // ---- the result ----

  ghost predicate Dropped(before: Rows, after: Rows) {
    forall p: nat, c: nat, q: nat :: Linked(after, p, c, q) <==> c != EPSILON && Linked(before, p, c, q)
  }

  lemma RowDropped(before: Rows, after: Rows, p: nat)
    requires p < |before| && after == before[p := before[p] - {EPSILON}] && Within(before)
    ensures Within(after)
    ensures forall x: nat, c: nat, q: nat :: Linked(after, x, c, q) <==>
        !(x == p && c == EPSILON) && Linked(before, x, c, q)
  {
    forall x: nat, c: nat, q: nat ensures Linked(after, x, c, q) <==>
        !(x == p && c == EPSILON) && Linked(before, x, c, q) {
      if x == p && x < |after| {
        assert c in after[x] <==> c in before[x] && c != EPSILON;
      }
    }
    forall x: nat, c: nat | x < |after| && c in after[x] ensures c < MAX_CHAR {
      assert c in before[x];
    }
  }

  lemma UnsparsedEdges(before: Rows, inv: map<nat, nat>, after: Rows)
    requires Expanded(before, inv, after)
    ensures EdgesOf(after, map[]) == EdgesOf(before, inv)
  {
    SameEdges(after, map[], before, inv);
  }

  /** The epsilon steps of the closed table are the silent connections of the automaton. */
  lemma ClosedIsSilent(a: Nfa, plain: Rows, closed: Rows, x: nat, y: nat)
    requires a.edges == EdgesOf(plain, map[]) && Within(plain) && Within(closed) && |closed| == |plain|
    requires Shortcuts(plain, closed) && ClosedBelow(closed, |closed|)
    ensures Silent(a.edges, x, y) <==> Reaches(closed, x, y)
  {
    hide Linked, EdgesOf, Silent;
    var t := (p: nat, q: nat) => Eps(closed, p, q);
    forall e | e in a.edges && e.letter == EPSILON ensures t(e.from, e.to) {
      EdgeOf(plain, map[], e);
      assert Eps(plain, e.from, e.to);
    }
    SourcesWithin(closed);
    ClosureIsSilent(a.edges, t, x, y);
  }

  /** Closing, merging and dropping epsilon steps gives the automaton free of them. */
  lemma EpsilonsRemoved(a: Nfa, plain: Rows, closed: Rows, merged: Rows, rows: Rows, inv: map<nat, nat>,
      finals: set<nat>)
    requires a.Valid() && a.edges == EdgesOf(plain, map[]) && a.size == |plain|
    requires Within(plain) && Within(closed) && Within(rows) && |closed| == |plain|
    requires SameLetters(plain, closed) && Shortcuts(plain, closed) && ClosedBelow(closed, |closed|)
    requires MergedSoundly(closed, merged) && forall x: nat | x < |merged| :: CoversBelow(closed, merged, x, |merged|)
    requires MergedFinals(closed, a.finals, finals, |merged|) && |merged| == |closed|
    requires |rows| == |merged| && Dropped(merged, rows)
    requires Uniform(rows, inv)
    ensures EdgesOf(rows, inv) == EpsilonFree(a).edges && finals == EpsilonFree(a).finals
  {
    hide Within, SameLetters, Shortcuts, ClosedBelow, MergedSoundly, CoversBelow, MergedFinals, EpsilonFree, EdgesOf,
        Dropped, Uniform;
    RemovedEdges(a, plain, closed, merged, rows, inv);
    RemovedFinals(a, plain, closed, finals);
  }

  lemma RemovedEdges(a: Nfa, plain: Rows, closed: Rows, merged: Rows, rows: Rows, inv: map<nat, nat>)
    requires a.Valid() && a.edges == EdgesOf(plain, map[]) && a.size == |plain|
    requires Within(plain) && Within(closed) && Within(rows)
    requires SameLetters(plain, closed) && Shortcuts(plain, closed) && ClosedBelow(closed, |closed|)
    requires MergedSoundly(closed, merged) && forall x: nat | x < |merged| :: CoversBelow(closed, merged, x, |merged|)
    requires |rows| == |merged| && Dropped(merged, rows)
    requires Uniform(rows, inv)
    ensures EdgesOf(rows, inv) == EpsilonFree(a).edges
  {
    forall e ensures e in EdgesOf(rows, inv) <==> e in EpsilonFree(a).edges {
      EdgeOf(rows, inv, e);
      EpsilonFreeEdge(a, e);
      assert Linked(rows, e.from, Stand(inv, e.letter), e.to) <==> Linked(rows, e.from, e.letter, e.to);
      RemovedEdge(a, plain, closed, merged, rows, e.from, e.letter, e.to);
    }
  }

  lemma RemovedEdge(a: Nfa, plain: Rows, closed: Rows, merged: Rows, rows: Rows, p: nat, c: nat, q: nat)
    requires a.Valid() && a.edges == EdgesOf(plain, map[]) && a.size == |plain|
    requires Within(plain) && Within(closed) && Within(rows)
    requires SameLetters(plain, closed) && Shortcuts(plain, closed) && ClosedBelow(closed, |closed|)
    requires MergedSoundly(closed, merged) && forall x: nat | x < |merged| :: CoversBelow(closed, merged, x, |merged|)
    requires |rows| == |merged| && Dropped(merged, rows)
    ensures Linked(rows, p, c, q) ==> p < |rows| && c < MAX_CHAR
    ensures Linked(rows, p, c, q) <==> Takes(a.edges, p, c, q)
  {
    assert Linked(rows, p, c, q) ==> p < |rows| && c < MAX_CHAR;
    if Linked(rows, p, c, q) {
      RemovedEdgeIsTaken(a, plain, closed, merged, p, c, q);
    }
    if Takes(a.edges, p, c, q) {
      TakenIsMerged(a, plain, closed, merged, p, c, q);
    }
  }

  lemma RemovedEdgeIsTaken(a: Nfa, plain: Rows, closed: Rows, merged: Rows, p: nat, c: nat, q: nat)
    requires a.edges == EdgesOf(plain, map[]) && Within(plain) && Within(closed)
    requires SameLetters(plain, closed) && Shortcuts(plain, closed) && ClosedBelow(closed, |closed|)
    requires MergedSoundly(closed, merged) && c != EPSILON && Linked(merged, p, c, q)
    ensures Takes(a.edges, p, c, q)
  {
    assert ComesFrom(closed, p, c, q);
    var r: nat :| Reaches(closed, p, r) && Linked(closed, r, c, q);
    ClosedIsSilent(a, plain, closed, p, r);
    EdgeOf(plain, map[], Edge(r, c, q));
    assert Linked(plain, r, c, q);
    LinkedWithin(plain, r, c, q);
  }

  lemma LinkedWithin(rows: Rows, p: nat, c: nat, q: nat)
    requires Within(rows) && Linked(rows, p, c, q)
    ensures p < |rows| && c < MAX_CHAR && q < |rows|
  {
  }

  lemma TakenIsMerged(a: Nfa, plain: Rows, closed: Rows, merged: Rows, p: nat, c: nat, q: nat)
    requires a.Valid() && a.edges == EdgesOf(plain, map[]) && a.size == |plain| && Within(plain) && Within(closed)
    requires SameLetters(plain, closed) && Shortcuts(plain, closed) && ClosedBelow(closed, |closed|)
    requires |merged| == |closed| && forall x: nat | x < |merged| :: CoversBelow(closed, merged, x, |merged|)
    requires Takes(a.edges, p, c, q)
    ensures c != EPSILON && Linked(merged, p, c, q)
  {
    var r :| Silent(a.edges, p, r) && Edge(r, c, q) in a.edges;
    EdgeOf(plain, map[], Edge(r, c, q));
    ClosedIsSilent(a, plain, closed, p, r);
    StaysWithin(a, p, [], r);
    assert Linked(closed, r, c, q);
    assert CoversBelow(closed, merged, p, |merged|);
    assert Covers(closed, merged, p, r);
  }

  lemma RemovedFinals(a: Nfa, plain: Rows, closed: Rows, finals: set<nat>)
    requires a.Valid() && a.edges == EdgesOf(plain, map[]) && a.size == |plain|
    requires Within(plain) && Within(closed) && |closed| == |plain| && Shortcuts(plain, closed) &&
        ClosedBelow(closed, |closed|)
    requires MergedFinals(closed, a.finals, finals, |closed|)
    ensures finals == EpsilonFree(a).finals
  {
    forall x: nat ensures x in finals <==> x in EpsilonFree(a).finals {
      forall r | r in a.finals ensures Silent(a.edges, x, r) <==> Reaches(closed, x, r) {
        ClosedIsSilent(a, plain, closed, x, r);
      }
      if x in finals {
        var r: nat :| r in a.finals && Reaches(closed, x, r);
        StaysWithin(a, x, [], r);
        assert EndsSilently(a, x);
      }
      if x in EpsilonFree(a).finals {
        var r: nat :| r in a.finals && Silent(a.edges, x, r);
        assert EndsFrom(closed, a.finals, x);
      }
    }
  }
}
