/** The mutable transition table: one row per state, mapping letters to sets of states. */
module Transitions {
  import opened Automaton

  type Row = map<nat, set<nat>>
  type Rows = seq<Row>

  function Dest(rows: Rows, p: nat, c: nat): set<nat> {
    if p < |rows| && c in rows[p] then rows[p][c] else {}
  }

  predicate Linked(rows: Rows, p: nat, c: nat, q: nat) {
    q in Dest(rows, p, c)
  }

  /** Letters are table indices and targets are states. */
  ghost predicate Within(rows: Rows) {
    && (forall p: nat, c: nat | p < |rows| && c in rows[p] :: c < MAX_CHAR)
    && (forall p: nat, c: nat, q: nat | Linked(rows, p, c, q) :: q < |rows|)
  }

  /** The letter whose entry stands for c: its class representative if letters have been classified. */
  function Stand(inv: map<nat, nat>, c: nat): nat {
    if c in inv then inv[c] else c
  }

  /** The edges a table stands for, every letter of a class having the targets of its representative. */
  function EdgesOf(rows: Rows, inv: map<nat, nat>): set<Edge> {
    set p: nat, c: nat, q: nat | p < |rows| && c < MAX_CHAR && q in Dest(rows, p, Stand(inv, c)) :: Edge(p, c, q)
  }

  /** `after` has, for every letter, the targets that `before` keeps under its representative. */
  ghost predicate Expanded(before: Rows, inv: map<nat, nat>, after: Rows) {
    && |after| == |before|
    && forall p: nat, c: nat :: Dest(after, p, c) == Dest(before, p, Stand(inv, c))
  }

  lemma EdgeOf(rows: Rows, inv: map<nat, nat>, e: Edge)
    ensures e in EdgesOf(rows, inv) <==>
        e.from < |rows| && e.letter < MAX_CHAR && Linked(rows, e.from, Stand(inv, e.letter), e.to)
  {
    assert e == Edge(e.from, e.letter, e.to);
  }

  lemma EdgesWithinRows(rows: Rows, inv: map<nat, nat>)
    requires Within(rows)
    ensures EdgesWithin(EdgesOf(rows, inv), |rows|)
  {
    forall e | e in EdgesOf(rows, inv) ensures e.from < |rows| && e.letter < MAX_CHAR && e.to < |rows| {
      EdgeOf(rows, inv, e);
    }
  }

  lemma SameEdges(a: Rows, ia: map<nat, nat>, b: Rows, ib: map<nat, nat>)
    requires |a| == |b|
    requires forall p: nat, c: nat, q: nat | p < |a| && c < MAX_CHAR :: Linked(a, p, Stand(ia, c), q) <==>
        Linked(b, p, Stand(ib, c), q)
    ensures EdgesOf(a, ia) == EdgesOf(b, ib)
  {
    forall e ensures e in EdgesOf(a, ia) <==> e in EdgesOf(b, ib) {
      EdgeOf(a, ia, e);
      EdgeOf(b, ib, e);
    }
  }

  function Link(rows: Rows, p: nat, c: nat, q: nat): Rows
    requires p < |rows|
  {
    var row: Row := rows[p][c := Dest(rows, p, c) + {q}];
    rows[p := row]
  }

  lemma LinkAdds(rows: Rows, p: nat, c: nat, q: nat)
    requires p < |rows|
    ensures |Link(rows, p, c, q)| == |rows|
    ensures forall p': nat, c': nat, q': nat :: Linked(Link(rows, p, c, q), p', c', q') <==>
        Linked(rows, p', c', q') || (p' == p && c' == c && q' == q)
    ensures Within(rows) && c < MAX_CHAR && q < |rows| ==> Within(Link(rows, p, c, q))
  {
    var more := Link(rows, p, c, q);
    forall p': nat, c': nat, q': nat
        ensures Linked(more, p', c', q') <==> Linked(rows, p', c', q') || (p' == p && c' == c && q' == q) {
    }
  }
}
