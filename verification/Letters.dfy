/** Classing letters by what the transition table does with them. */
module Letters {
  import opened Automaton
  import opened Transitions
  import opened Options
  import opened Partitions

  /** The column of letter c: which states have an entry for it, and its targets. */
  function Column(rows: Rows, c: nat): seq<Option<set<nat>>>
    ensures |Column(rows, c)| == |rows|
  {
    seq(|rows|, i requires 0 <= i < |rows| => if c in rows[i] then Some(rows[i][c]) else None)
  }

  /** Two letters are equal when no row tells them apart. */
  predicate LettersEqual(rows: Rows, a: nat, b: nat) {
    forall i: nat | i < |rows| ::
      if a !in rows[i] && b !in rows[i] then true
      else a in rows[i] && b in rows[i] && rows[i][a] == rows[i][b]
  }

  lemma LettersEqualByColumn(rows: Rows, a: nat, b: nat)
    ensures LettersEqual(rows, a, b) <==> Column(rows, a) == Column(rows, b)
  {
    var u, v := Column(rows, a), Column(rows, b);
    if u == v {
      forall i: nat | i < |rows|
        ensures if a !in rows[i] && b !in rows[i] then true
                else a in rows[i] && b in rows[i] && rows[i][a] == rows[i][b]
      {
        assert u[i] == v[i];
      }
    }
    if LettersEqual(rows, a, b) {
      forall i | 0 <= i < |u| ensures u[i] == v[i] {
      }
    }
  }

  /** Classes of letters: of the alphabet only, each represented by its least letter. */
  ghost predicate OverLetters(c: Classes) {
    && c.Valid()
    && (forall x | x in c.inv :: IsLetter(x))
    && LeastStands(c.inv)
  }

  ghost predicate LeastStands(inv: map<nat, nat>) {
    forall x | x in inv :: inv[x] <= x
  }

  /** Every letter is classed. */
  ghost predicate Total(inv: map<nat, nat>) {
    forall x: nat :: x in inv <==> IsLetter(x)
  }

  /** An entry of a classed letter, where there is one, repeats that of its representative. */
  ghost predicate Coherent(rows: Rows, inv: map<nat, nat>) {
    forall p: nat, c: nat | p < |rows| && c in inv && c in rows[p] :: rows[p][c] == Dest(rows, p, inv[c])
  }

  /** Letters of one class have equal columns. */
  ghost predicate Classed(rows: Rows, inv: map<nat, nat>) {
    forall c | c in inv :: inv[c] in inv && inv[inv[c]] == inv[c] && LettersEqual(rows, c, inv[c])
  }

  /** Looking a letter up under its representative makes no difference. */
  ghost predicate Uniform(rows: Rows, inv: map<nat, nat>) {
    forall p: nat, c: nat :: Dest(rows, p, c) == Dest(rows, p, Stand(inv, c))
  }

  lemma ClassedIsCoherent(rows: Rows, inv: map<nat, nat>)
    requires Classed(rows, inv)
    ensures Coherent(rows, inv) && Uniform(rows, inv)
  {
    forall p: nat, c: nat ensures Dest(rows, p, c) == Dest(rows, p, Stand(inv, c)) {
      if c in inv && p < |rows| {
        assert LettersEqual(rows, c, inv[c]);
      }
    }
    forall p: nat, c: nat | p < |rows| && c in inv && c in rows[p] ensures rows[p][c] == Dest(rows, p, inv[c]) {
      assert Dest(rows, p, Stand(inv, c)) == Dest(rows, p, c);
    }
  }

  lemma SeparatedIsClassed(rows: Rows, c: Classes, key: map<nat, seq<Option<set<nat>>>>)
    requires OverLetters(c) && c.Separates(key) && forall x: nat | x < MAX_CHAR :: At(key, x) == Some(Column(rows, x))
    ensures Classed(rows, c.inv)
  {
    forall x | x in c.inv ensures c.inv[x] in c.inv && c.inv[c.inv[x]] == c.inv[x] && LettersEqual(rows, x, c.inv[x]) {
      KeyIsItem(c, c.inv[x]);
      RepresentativeAndIndex(c, key, x, x);
      LettersEqualByColumn(rows, x, c.inv[x]);
    }
  }
}
