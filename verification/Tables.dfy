/** Putting transition tables side by side, every letter spelled out, and single edits of a table. */
module Tables {
  import opened Automaton
  import opened Transitions
  import opened Partitions
  import opened Letters
  import opened RegularLanguages
  import opened SurroundingLanguages

  function Entry(row: Row, c: nat): set<nat> {
    if c in row then row[c] else {}
  }

  /** Entries of one class, where present, repeat that of the representative k. */
  ghost predicate RowCoherent(row: Row, inv: map<nat, nat>) {
    forall c: nat | c in row && c in inv :: row[c] == Entry(row, inv[c])
  }

  function ShiftRow(row: Row, n: nat): Row {
    map c | c in row :: ShiftStates(row[c], n)
  }

  function ShiftRows(rows: Rows, n: nat): (r: Rows)
    ensures |r| == |rows|
  {
    seq(|rows|, i requires 0 <= i < |rows| => ShiftRow(rows[i], n))
  }

  lemma ShiftedLinks(rows: Rows, n: nat, p: nat, c: nat, q: nat)
    ensures Linked(ShiftRows(rows, n), p, c, q) <==> q >= n && Linked(rows, p, c, q - n)
  {
    if q >= n && p < |rows| && c in rows[p] && q - n in rows[p][c] {
      assert q in ShiftStates(rows[p][c], n);
    }
  }

  lemma ShiftedCoherent(rows: Rows, inv: map<nat, nat>, n: nat)
    requires Coherent(rows, inv)
    ensures Coherent(ShiftRows(rows, n), inv)
  {
    var out := ShiftRows(rows, n);
    forall p: nat, c: nat | p < |out| && c in inv && c in out[p] ensures out[p][c] == Dest(out, p, inv[c]) {
      assert rows[p][c] == Dest(rows, p, inv[c]);
      if inv[c] !in rows[p] { assert ShiftStates({}, n) == {}; }
    }
  }

  lemma CoherentRow(rows: Rows, inv: map<nat, nat>, p: nat)
    requires Coherent(rows, inv) && p < |rows|
    ensures RowCoherent(rows[p], inv)
  {
    forall c: nat | c in rows[p] && c in inv ensures rows[p][c] == Entry(rows[p], inv[c]) {
      assert rows[p][c] == Dest(rows, p, inv[c]);
    }
  }

  /** Inserts the entry of k for every item that has none. */
  method FillRow(row: Row, k: nat, items: seq<nat>) returns (r: Row)
    requires forall c: nat | c in items && c in row :: row[c] == Entry(row, k)
    ensures forall c: nat :: Entry(r, c) == Entry(row, if c in items then k else c)
    ensures forall c: nat | c in r :: c in row || c in items
  {
    r := row;
    if k !in row {
      return;
    }
    for i: nat := 0 to |items|
      invariant forall c: nat :: Entry(r, c) == if c in items[..i] then Entry(row, k) else Entry(row, c)
      invariant forall c: nat | c in r :: c in row || c in items[..i]
      invariant k in r && r[k] == row[k]
    {
      assert items[..i + 1] == items[..i] + [items[i]];
      if items[i] != k && items[i] !in r {
        r := r[items[i] := row[k]];
      }
    }
    assert items[..|items|] == items;
  }

  /** Fills a row for all letter classes. */
  method FillClasses(row: Row, classes: Classes) returns (r: Row)
    requires OverLetters(classes) && RowCoherent(row, classes.inv)
    ensures forall c: nat :: Entry(r, c) == Entry(row, Stand(classes.inv, c))
    ensures forall c: nat | c in r :: c in row || IsLetter(c)
  {
    r := row;
    var rest: set<nat> := classes.table.Keys;
    while rest != {}
      invariant rest <= classes.table.Keys
      invariant FilledRow(row, r, classes.inv, rest)
      decreases |rest|
    {
      hide FilledRow, RowCoherent, OverLetters, Entry;
      var k: nat := Ordered.Least(rest);
      BeforeFill(row, r, classes, rest, k);
      var before := r;
      r := FillRow(r, k, classes.table[k].items);
      AfterFill(row, before, r, classes, rest, k);
      rest := rest - {k};
    }
    forall c: nat ensures Entry(r, c) == Entry(row, Stand(classes.inv, c)) {
      if c in classes.inv { assert classes.inv[c] !in rest; }
    }
  }

  ghost predicate FilledRow(row: Row, r: Row, inv: map<nat, nat>, rest: set<nat>) {
    && (forall c: nat :: Entry(r, c) == Entry(row, if c in inv && inv[c] !in rest then inv[c] else c))
    && (forall c: nat | c in r :: c in row || IsLetter(c))
    && (forall c: nat | c in r && c in inv && inv[c] in rest :: c in row)
  }

  lemma BeforeFill(row: Row, r: Row, classes: Classes, rest: set<nat>, k: nat)
    requires OverLetters(classes) && RowCoherent(row, classes.inv) && FilledRow(row, r, classes.inv, rest) &&
        k in rest && k in classes.table
    ensures forall c: nat | c in classes.table[k].items && c in r :: r[c] == Entry(r, k)
  {
    KeyIsItem(classes, k);
    forall c: nat | c in classes.table[k].items && c in r ensures r[c] == Entry(r, k) {
      assert Has(classes.table, k, c);
      assert Entry(r, c) == Entry(row, c) && Entry(r, k) == Entry(row, k);
    }
  }

  lemma AfterFill(row: Row, before: Row, r: Row, classes: Classes, rest: set<nat>, k: nat)
    requires OverLetters(classes) && FilledRow(row, before, classes.inv, rest) && k in rest && k in classes.table
    requires forall c: nat :: Entry(r, c) == Entry(before, if c in classes.table[k].items then k else c)
    requires forall c: nat | c in r :: c in before || c in classes.table[k].items
    ensures FilledRow(row, r, classes.inv, rest - {k})
  {
    KeyIsItem(classes, k);
    forall c: nat ensures c in classes.table[k].items <==> c in classes.inv && classes.inv[c] == k {
      assert Has(classes.table, k, c) <==> c in classes.inv && classes.inv[c] == k;
    }
  }

  /** Spells out the entries of all classed letters, without overriding any. */
  method FillTable(table: Rows, classes: Classes) returns (out: Rows)
    requires OverLetters(classes) && Coherent(table, classes.inv)
    ensures Expanded(table, classes.inv, out) && |out| == |table|
    ensures forall p: nat, c: nat | p < |table| && c in out[p] :: c in table[p] || IsLetter(c)
  {
    out := [];
    for p: nat := 0 to |table|
      invariant |out| == p
      invariant forall p': nat, c: nat | p' < p :: Entry(out[p'], c) == Entry(table[p'], Stand(classes.inv, c))
      invariant forall p': nat, c: nat | p' < p && c in out[p'] :: c in table[p'] || IsLetter(c)
    {
      CoherentRow(table, classes.inv, p);
      hide RowCoherent, OverLetters, Coherent, Entry;
      var row := FillClasses(table[p], classes);
      out := out + [row];
    }
    forall p: nat, c: nat ensures Dest(out, p, c) == Dest(table, p, Stand(classes.inv, c)) {
      if p < |table| { assert Entry(out[p], c) == Entry(table[p], Stand(classes.inv, c)); }
    }
  }

  lemma SideBySide(left: Rows, right: Rows, p: nat, c: nat, q: nat)
    ensures Linked(left + right, p, c, q) <==>
        if p < |left| then Linked(left, p, c, q) else Linked(right, p - |left|, c, q)
  {
  }

  /** The imported table stands for the edges of both machines, those of the second shifted. */
  lemma ImportedEdges(a: Rows, ia: map<nat, nat>, b: Rows, ib: map<nat, nat>, left: Rows, right: Rows)
    requires Within(a) && Within(b)
    requires Expanded(a, ia, left) && |left| == |a|
    requires Expanded(ShiftRows(b, |a|), ib, right) && |right| == |b|
    ensures EdgesOf(left + right, map[]) == EdgesOf(a, ia) + ShiftEdges(EdgesOf(b, ib), |a|)
  {
    hide Dest, Within, ShiftRows, ShiftEdges, EdgesOf;
    forall e: Edge ensures e in EdgesOf(left + right, map[]) <==>
        e in EdgesOf(a, ia) + ShiftEdges(EdgesOf(b, ib), |a|) {
      ImportedEdge(a, ia, b, ib, left, right, e);
    }
  }

  lemma ImportedEdge(a: Rows, ia: map<nat, nat>, b: Rows, ib: map<nat, nat>, left: Rows, right: Rows, e: Edge)
    requires Within(a) && Within(b)
    requires Expanded(a, ia, left) && |left| == |a|
    requires Expanded(ShiftRows(b, |a|), ib, right) && |right| == |b|
    ensures e in EdgesOf(left + right, map[]) <==> e in EdgesOf(a, ia) || e in ShiftEdges(EdgesOf(b, ib), |a|)
  {
    hide EdgesOf, ShiftEdges, ShiftRows, Dest, Within;
    var n := |a|;
    EdgeOf(left + right, map[], e);
    EdgeOf(a, ia, e);
    SideBySide(left, right, e.from, e.letter, e.to);
    ShiftedEdge(EdgesOf(b, ib), n, e);
    if e.from >= n {
      ShiftedLinks(b, n, e.from - n, Stand(ib, e.letter), e.to);
      if e.to >= n {
        EdgeOf(b, ib, Edge(e.from - n, e.letter, e.to - n));
      }
    }
  }

  lemma ImportedWithin(a: Rows, ia: map<nat, nat>, b: Rows, ib: map<nat, nat>, left: Rows, right: Rows)
    requires Within(a) && Within(b)
    requires Expanded(a, ia, left) && |left| == |a|
    requires Expanded(ShiftRows(b, |a|), ib, right) && |right| == |b|
    requires forall p: nat, c: nat | p < |a| && c in left[p] :: c in a[p] || IsLetter(c)
    requires forall p: nat, c: nat | p < |b| && c in right[p] :: c in ShiftRows(b, |a|)[p] || IsLetter(c)
    ensures Within(left + right)
  {
    var out := left + right;
    forall p: nat, c: nat | p < |out| && c in out[p] ensures c < MAX_CHAR {
      if p < |a| {
        assert out[p] == left[p];
        assert c in a[p] || IsLetter(c);
      } else {
        var i: nat := p - |a|;
        assert out[p] == right[i] && ShiftRows(b, |a|)[i] == ShiftRow(b[i], |a|);
        assert c in right[i];
        assert c in ShiftRow(b[i], |a|) || IsLetter(c);
        assert c in b[i] || IsLetter(c);
      }
    }
    forall p: nat, c: nat, q: nat | Linked(out, p, c, q) ensures q < |out| {
      SideBySide(left, right, p, c, q);
      if p < |a| {
        assert Linked(a, p, Stand(ia, c), q);
      } else {
        ShiftedLinks(b, |a|, p - |a|, Stand(ib, c), q);
      }
    }
  }

  // ---- one edge more or less, new states ----

  /** An edge on a letter that is not classed is just added. */
  lemma LinkPlainly(rows: Rows, classes: Classes, p: nat, c: nat, q: nat)
    requires Within(rows) && OverLetters(classes) && Coherent(rows, classes.inv)
    requires p < |rows| && q < |rows| && c < MAX_CHAR && c !in classes.inv
    ensures |Link(rows, p, c, q)| == |rows| && Within(Link(rows, p, c, q)) && Coherent(Link(rows, p, c, q), classes.inv)
    ensures EdgesOf(Link(rows, p, c, q), classes.inv) == EdgesOf(rows, classes.inv) + {Edge(p, c, q)}
  {
    LinkAdds(rows, p, c, q);
    var more := Link(rows, p, c, q);
    forall x | x in classes.inv ensures classes.inv[x] != c {
      RepresentativeIsClassed(classes, x);
    }
    forall e ensures e in EdgesOf(more, classes.inv) <==> e in EdgesOf(rows, classes.inv) || e == Edge(p, c, q) {
      EdgeOf(more, classes.inv, e);
      EdgeOf(rows, classes.inv, e);
    }
    forall x: nat, d: nat | x < |more| && d in classes.inv && d in more[x]
        ensures more[x][d] == Dest(more, x, classes.inv[d]) {
      assert rows[x][d] == Dest(rows, x, classes.inv[d]);
    }
  }

  lemma RepresentativeIsClassed(classes: Classes, x: nat)
    requires classes.Valid() && x in classes.inv
    ensures classes.inv[x] in classes.inv && classes.inv[x] in classes.table
  {
    assert Has(classes.table, classes.inv[x], x);
    KeyIsItem(classes, classes.inv[x]);
  }

  function Unlink(rows: Rows, p: nat, c: nat, q: nat): Rows
    requires p < |rows|
  {
    if c in rows[p] then
      var row: Row := rows[p][c := rows[p][c] - {q}];
      rows[p := row]
    else rows
  }

  lemma UnlinkPlainly(rows: Rows, classes: Classes, p: nat, c: nat, q: nat)
    requires Within(rows) && OverLetters(classes) && Coherent(rows, classes.inv)
    requires p < |rows| && c !in classes.inv
    ensures |Unlink(rows, p, c, q)| == |rows| && Within(Unlink(rows, p, c, q)) &&
        Coherent(Unlink(rows, p, c, q), classes.inv)
    ensures EdgesOf(Unlink(rows, p, c, q), classes.inv) == EdgesOf(rows, classes.inv) - {Edge(p, c, q)}
  {
    var less := Unlink(rows, p, c, q);
    forall p': nat, c': nat, q': nat
        ensures Linked(less, p', c', q') <==> Linked(rows, p', c', q') && !(p' == p && c' == c && q' == q) {
    }
    forall x | x in classes.inv ensures classes.inv[x] != c {
      RepresentativeIsClassed(classes, x);
    }
    forall e ensures e in EdgesOf(less, classes.inv) <==> e in EdgesOf(rows, classes.inv) && e != Edge(p, c, q) {
      EdgeOf(less, classes.inv, e);
      EdgeOf(rows, classes.inv, e);
    }
    forall x: nat, d: nat | x < |less| && d in classes.inv && d in less[x]
        ensures less[x][d] == Dest(less, x, classes.inv[d]) {
      assert rows[x][d] == Dest(rows, x, classes.inv[d]);
    }
  }

  function NewStates(count: nat): Rows {
    seq(count, i => map[])
  }

  lemma NewStatesAreBare(rows: Rows, classes: Classes, count: nat)
    requires Within(rows) && Coherent(rows, classes.inv)
    ensures Within(rows + NewStates(count)) && Coherent(rows + NewStates(count), classes.inv)
    ensures EdgesOf(rows + NewStates(count), classes.inv) == EdgesOf(rows, classes.inv)
  {
    var more := rows + NewStates(count);
    forall p: nat, c: nat ensures Dest(more, p, c) == Dest(rows, p, c) {
    }
    forall p: nat, c: nat, q: nat | Linked(more, p, c, q) ensures q < |more| {
      assert Linked(rows, p, c, q);
    }
    forall e ensures e in EdgesOf(more, classes.inv) <==> e in EdgesOf(rows, classes.inv) {
      EdgeOf(more, classes.inv, e);
      EdgeOf(rows, classes.inv, e);
    }
    forall x: nat, d: nat | x < |more| && d in classes.inv && d in more[x]
        ensures more[x][d] == Dest(more, x, classes.inv[d]) {
      assert rows[x][d] == Dest(rows, x, classes.inv[d]);
    }
  }

  /** A last state that loops on every letter below c. */
  ghost predicate Looping(before: Rows, rows: Rows, c: nat) {
    && |rows| == |before| + 1
    && forall p: nat, d: nat, q: nat :: Linked(rows, p, d, q) <==>
        Linked(before, p, d, q) || (p == |before| == q && d < c)
  }

  ghost predicate SameRows(before: Rows, rows: Rows) {
    forall p: nat | p < |before| && p < |rows| :: rows[p] == before[p]
  }

  lemma LoopingStarts(before: Rows)
    ensures Looping(before, before + NewStates(1), 0) && SameRows(before, before + NewStates(1))
  {
  }

  lemma LoopsOnce(before: Rows, rows: Rows, c: nat)
    requires Looping(before, rows, c) && SameRows(before, rows)
    ensures Looping(before, Link(rows, |before|, c, |before|), c + 1) &&
        SameRows(before, Link(rows, |before|, c, |before|))
  {
    LinkAdds(rows, |before|, c, |before|);
  }

  /** A state that loops on every letter adds just its loops. */
  lemma LoopingEdges(before: Rows, rows: Rows, classes: Classes)
    requires Within(before) && OverLetters(classes) && Coherent(before, classes.inv)
    requires Looping(before, rows, MAX_CHAR) && SameRows(before, rows) && forall c | c in rows[|before|] :: c < MAX_CHAR
    ensures Within(rows) && Coherent(rows, classes.inv)
    ensures EdgesOf(rows, classes.inv) == EdgesOf(before, classes.inv) + AllLoops(|before|)
  {
    hide Within, OverLetters, EdgesOf, AllLoops, Looping, SameRows;
    LoopingWithin(before, rows);
    forall e ensures e in EdgesOf(rows, classes.inv) <==> e in EdgesOf(before, classes.inv) || e in AllLoops(|before|) {
      LoopingEdge(before, rows, classes, e);
    }
    forall p: nat, c: nat | p < |rows| && c in classes.inv && c in rows[p]
        ensures rows[p][c] == Dest(rows, p, classes.inv[c]) {
      LoopingCoherent(before, rows, classes, p, c);
    }
  }

  lemma LoopingEdge(before: Rows, rows: Rows, classes: Classes, e: Edge)
    requires OverLetters(classes) && Looping(before, rows, MAX_CHAR)
    ensures e in EdgesOf(rows, classes.inv) <==> e in EdgesOf(before, classes.inv) || e in AllLoops(|before|)
  {
    hide EdgesOf, AllLoops;
    EdgeOf(rows, classes.inv, e);
    EdgeOf(before, classes.inv, e);
    AllLoop(|before|, e);
    if e.letter in classes.inv { RepresentativeIsClassed(classes, e.letter); }
  }

  lemma LoopingWithin(before: Rows, rows: Rows)
    requires Within(before) && Looping(before, rows, MAX_CHAR) && SameRows(before, rows) &&
        forall c | c in rows[|before|] :: c < MAX_CHAR
    ensures Within(rows)
  {
    forall p: nat, c: nat, q: nat | Linked(rows, p, c, q) ensures q < |rows| {
      assert p < |before| ==> Linked(before, p, c, q);
    }
    forall p: nat, c: nat | p < |rows| && c in rows[p] ensures c < MAX_CHAR {
      if p < |before| { assert rows[p] == before[p]; }
    }
  }

  lemma LoopingCoherent(before: Rows, rows: Rows, classes: Classes, p: nat, c: nat)
    requires OverLetters(classes) && Coherent(before, classes.inv)
    requires Looping(before, rows, MAX_CHAR) && SameRows(before, rows) && p < |rows| && c in classes.inv && c in rows[p]
    ensures rows[p][c] == Dest(rows, p, classes.inv[c])
  {
    var n := |before|;
    if p < n {
      assert rows[p] == before[p] && before[p][c] == Dest(before, p, classes.inv[c]);
    } else {
      RepresentativeIsClassed(classes, c);
      var k: nat := classes.inv[c];
      forall q: nat ensures q in Dest(rows, p, c) <==> q in Dest(rows, p, k) {
        assert Linked(rows, p, c, q) <==> Linked(rows, p, k, q);
      }
    }
  }

  // ---- what the edits add up to ----

  lemma NoClassesOverLetters()
    ensures OverLetters(NO_CLASSES) && NO_CLASSES.inv == map[] && forall rows: Rows :: Coherent(rows, map[])
  {
  }

  lemma NoEdgesFrom(edges: set<Edge>, c: nat, to: nat)
    ensures edges + EdgesFrom({}, c, to) == edges
  {
  }

  lemma OneMoreSource(edges: set<Edge>, sources: set<nat>, rest: set<nat>, f: nat, c: nat, to: nat)
    requires rest <= sources && f in rest
    ensures edges + EdgesFrom(sources - rest, c, to) + {Edge(f, c, to)} == edges + EdgesFrom(sources - (rest - {f}),
        c, to)
  {
    hide EdgesFrom;
    forall e ensures e in EdgesFrom(sources - rest, c, to) || e == Edge(f, c, to) <==>
        e in EdgesFrom(sources - (rest - {f}), c, to) {
      EdgeFrom(sources - rest, c, to, e);
      EdgeFrom(sources - (rest - {f}), c, to, e);
    }
  }

  lemma SourceAdded(edges: set<Edge>, sources: set<nat>, f: nat, c: nat, to: nat)
    ensures edges + EdgesFrom(sources, c, to) + {Edge(f, c, to)} == edges + EdgesFrom(sources + {f}, c, to)
  {
    hide EdgesFrom;
    forall e ensures e in EdgesFrom(sources, c, to) || e == Edge(f, c, to) <==> e in EdgesFrom(sources + {f}, c, to) {
      EdgeFrom(sources, c, to, e);
      EdgeFrom(sources + {f}, c, to, e);
    }
  }

  lemma MoreEdges(a: set<Edge>, b: set<Edge>, c: set<Edge>)
    ensures a + b + c == a + (b + c)
  {
  }

  lemma NoneMoved(edges: set<Edge>, p: nat, q: nat)
    ensures edges + EpsilonsTo(p, {}) - EpsilonsTo(q, {}) == edges
  {
  }

  lemma OneMoreMoved(edges: set<Edge>, p: nat, q: nat, done: set<nat>, to: nat)
    requires p != q
    ensures edges + EpsilonsTo(p, done) - EpsilonsTo(q, done) + {Edge(p, EPSILON, to)} - {Edge(q, EPSILON, to)}
         == edges + EpsilonsTo(p, done + {to}) - EpsilonsTo(q, done + {to})
  {
    hide EpsilonsTo;
    forall e
      ensures e in EpsilonsTo(p, done + {to}) <==> e in EpsilonsTo(p, done) || e == Edge(p, EPSILON, to)
      ensures e in EpsilonsTo(q, done + {to}) <==> e in EpsilonsTo(q, done) || e == Edge(q, EPSILON, to)
      ensures e == Edge(p, EPSILON, to) ==> e !in EpsilonsTo(q, done)
    {
      EpsilonTo(p, done, e);
      EpsilonTo(q, done, e);
      EpsilonTo(p, done + {to}, e);
      EpsilonTo(q, done + {to}, e);
    }
  }

  lemma ShiftedStatesBelow(b: Nfa, n: nat)
    requires b.Valid()
    ensures forall f | f in ShiftStates(b.finals, n) :: f < b.size + n
  {
  }

  /** The steps out of the second initial state, read off its row. */
  lemma ImportedSteps(a: Nfa, b: Nfa, rows: Rows, p: nat, row: Row)
    requires a.Valid() && b.Valid() && Within(rows) && |rows| == a.size + b.size
    requires EdgesOf(rows, map[]) == a.edges + ShiftEdges(b.edges, a.size)
    requires p == b.initial + a.size && row == rows[p]
    ensures forall s: Step :: s in StepsFrom(ShiftEdges(b.edges, a.size), p) <==>
        s.letter < MAX_CHAR && s.to in Entry(row, s.letter)
    ensures forall c: nat, q: nat | q in Entry(row, c) :: q < |rows|
  {
    hide StepsFrom, ShiftEdges;
    forall s: Step ensures s in StepsFrom(ShiftEdges(b.edges, a.size), p) <==>
        s.letter < MAX_CHAR && s.to in Entry(row, s.letter) {
      StepFrom(ShiftEdges(b.edges, a.size), p, s);
      EdgeOf(rows, map[], Edge(p, s.letter, s.to));
    }
    forall c: nat, q: nat | q in Entry(row, c) ensures q < |rows| {
      assert Linked(rows, p, c, q);
    }
  }

  lemma BesideValue(a: Nfa, b: Nfa, v: Nfa)
    requires v.size == a.size + b.size && v.edges == a.edges + ShiftEdges(b.edges, a.size)
    requires v.initial == a.initial && v.finals == a.finals + ShiftStates(b.finals, a.size)
    ensures v == Beside(a, b)
  {
  }

  lemma ComplementedValue(a: Nfa, others: set<nat>, v: Nfa)
    requires a.Valid() && forall q: nat :: q in others <==> q < a.size + 1 && q !in a.finals
    requires v == Nfa(a.size + 1, a.edges + EdgesFrom(others, EPSILON, a.size), a.initial, {a.size})
    ensures v == Complemented(a)
  {
    hide EdgesFrom, Complemented;
    forall e ensures e in v.edges <==> e in Complemented(a).edges {
      EdgeFrom(others, EPSILON, a.size, e);
      ComplementedEdge(a, e);
    }
    ComplementedShape(a);
  }
}
