/** Splitting states by Moore's refinement, and the table of the classes it ends with. */
module Moore {
  import opened Automaton
  import opened Transitions
  import opened Options
  import opened Partitions
  import opened Letters
  import opened Deterministic
  import opened SubsetTables
  import opened Minimality

  // ---- what states are compared by ----

  /** First, whether they are final. */
  function FinalKey(finals: set<nat>, a: nat): seq<nat> {
    if a in finals then [1] else [0]
  }

  /** The class that state a goes to on letter c. */
  function GoesTo(tran: seq<seq<nat>>, prev: seq<nat>, a: nat, c: nat): nat {
    if a < |tran| && c < |tran[a]| && tran[a][c] < |prev| then prev[tran[a][c]] else 0
  }

  /** Then, their previous class and the previous classes of their targets on every distinct letter. */
  function SplitKey(tran: seq<seq<nat>>, distinct: seq<nat>, prev: seq<nat>, a: nat): seq<nat>
    ensures |SplitKey(tran, distinct, prev, a)| == |distinct| + 1
  {
    [if a < |prev| then prev[a] else 0] +
        seq(|distinct|, i requires 0 <= i < |distinct| => GoesTo(tran, prev, a, distinct[i]))
  }

  ghost predicate IsSplitKey(key: map<nat, seq<nat>>, tran: seq<seq<nat>>, distinct: seq<nat>, prev: seq<nat>) {
    forall a: nat | a < |prev| :: At(key, a) == Some(SplitKey(tran, distinct, prev, a))
  }

  function SplitKeyOf(tran: seq<seq<nat>>, distinct: seq<nat>, prev: seq<nat>): (key: map<nat, seq<nat>>)
    ensures IsSplitKey(key, tran, distinct, prev)
  {
    map a: nat | a < |prev| :: SplitKey(tran, distinct, prev, a)
  }

  /** The comparison as the states are compared, letter by letter. */
  predicate MinimizeEqual(tran: seq<seq<nat>>, distinct: seq<nat>, prev: seq<nat>, a: nat, b: nat)
    requires a < |prev| && b < |prev|
  {
    prev[a] == prev[b] && forall i: nat | i < |distinct| ::
        GoesTo(tran, prev, a, distinct[i]) == GoesTo(tran, prev, b, distinct[i])
  }

  lemma MinimizeEqualByKey(tran: seq<seq<nat>>, distinct: seq<nat>, prev: seq<nat>, a: nat, b: nat)
    requires a < |prev| && b < |prev|
    ensures MinimizeEqual(tran, distinct, prev, a, b) <==>
        SplitKey(tran, distinct, prev, a) == SplitKey(tran, distinct, prev, b)
  {
    var u, v := SplitKey(tran, distinct, prev, a), SplitKey(tran, distinct, prev, b);
    if u == v {
      assert u[0] == v[0];
      forall i: nat | i < |distinct| ensures GoesTo(tran, prev, a, distinct[i]) == GoesTo(tran, prev, b, distinct[i]) {
        assert u[i + 1] == v[i + 1];
      }
    }
    if MinimizeEqual(tran, distinct, prev, a, b) {
      forall i | 0 <= i < |u| ensures u[i] == v[i] {
        if i > 0 { assert u[i] == GoesTo(tran, prev, a, distinct[i - 1]); }
      }
    }
  }

  // ---- the refinement ----

  ghost predicate CoversStates(inv: map<nat, nat>, n: nat) {
    forall x: nat :: x in inv <==> x < n
  }

  /** Only states with different residual languages have been separated. */
  ghost predicate KeepsEquivalent(d: Dfa, inv: map<nat, nat>) {
    forall p: nat, q: nat | p in inv && q in inv && Equivalent(d, p, q) :: inv[p] == inv[q]
  }

  /** Final and other states are separate. */
  ghost predicate SeparatesFinals(d: Dfa, inv: map<nat, nat>) {
    forall p: nat, q: nat | p in inv && q in inv && inv[p] == inv[q] :: p in d.finals <==> q in d.finals
  }

  /** States of one class step to states of one class. */
  ghost predicate Stable(d: Dfa, inv: map<nat, nat>) {
    forall p: nat, q: nat, c: nat | p in inv && q in inv && inv[p] == inv[q] && IsLetter(c) ::
        SameTargets(d, inv, p, q, c)
  }

  ghost predicate SameTargets(d: Dfa, inv: map<nat, nat>, p: nat, q: nat, c: nat) {
    d.next(p, c) in inv && d.next(q, c) in inv && inv[d.next(p, c)] == inv[d.next(q, c)]
  }

  ghost predicate IsMapOf(scm: seq<nat>, inv: map<nat, nat>) {
    CoversStates(inv, |scm|) && forall x: nat | x < |scm| :: scm[x] == inv[x]
  }

  /** The fast table agrees with the machine, and the distinct letters stand for all letters. */
  ghost predicate Tabulates(d: Dfa, tran: seq<seq<nat>>, distinct: seq<nat>, stand: map<nat, nat>) {
    && |tran| == d.size
    && Total(stand)
    && (forall c: nat | IsLetter(c) :: stand[c] in distinct)
    && forall p: nat, c: nat | p < d.size && IsLetter(c) ::
         stand[c] < |tran[p]| && tran[p][stand[c]] == d.next(p, c)
  }

  lemma FirstSplit(d: Dfa, c: Classes, key: map<nat, seq<nat>>)
    requires CoversStates(c.inv, d.size) && c.Separates(key) && forall a: nat | a < d.size ::
        At(key, a) == Some(FinalKey(d.finals, a))
    ensures KeepsEquivalent(d, c.inv) && SeparatesFinals(d, c.inv)
  {
    forall p: nat, q: nat | p in c.inv && q in c.inv && Equivalent(d, p, q) ensures c.inv[p] == c.inv[q] {
      EquivalentEnds(d, p, q);
    }
  }

  /** One refinement keeps what has been established. */
  lemma RefinementKeeps(d: Dfa, tran: seq<seq<nat>>, distinct: seq<nat>, stand: map<nat, nat>, prev: seq<nat>,
                        before: map<nat, nat>, after: Classes, key: map<nat, seq<nat>>)
    requires d.Valid() && |prev| == d.size && Tabulates(d, tran, distinct, stand) && IsMapOf(prev, before)
    requires forall k | k in distinct :: IsLetter(k) && stand[k] == k
    requires CoversStates(after.inv, d.size) && after.Separates(key) && IsSplitKey(key, tran, distinct, prev)
    requires KeepsEquivalent(d, before) && SeparatesFinals(d, before)
    ensures KeepsEquivalent(d, after.inv) && SeparatesFinals(d, after.inv)
  {
    forall p: nat, q: nat | p < d.size && q < d.size && Equivalent(d, p, q) ensures after.inv[p] == after.inv[q] {
      forall i: nat | i < |distinct| ensures GoesTo(tran, prev, p, distinct[i]) == GoesTo(tran, prev, q, distinct[i]) {
        var k := distinct[i];
        assert k in distinct;
        EquivalentSteps(d, p, q, k);
        assert tran[p][stand[k]] == d.next(p, k) && tran[q][stand[k]] == d.next(q, k);
      }
      MinimizeEqualByKey(tran, distinct, prev, p, q);
      assert At(key, p) == At(key, q);
    }
    forall p: nat, q: nat | p < d.size && q < d.size && after.inv[p] == after.inv[q]
        ensures p in d.finals <==> q in d.finals {
      assert At(key, p) == At(key, q);
      MinimizeEqualByKey(tran, distinct, prev, p, q);
    }
  }

  /** When a refinement leaves the map of classes as it was, the classes are stable. */
  lemma RefinementIsStable(d: Dfa, tran: seq<seq<nat>>, distinct: seq<nat>, stand: map<nat, nat>, prev: seq<nat>,
      after: Classes, key: map<nat, seq<nat>>)
    requires d.Valid() && |prev| == d.size && Tabulates(d, tran, distinct, stand) && IsMapOf(prev, after.inv)
    requires after.Separates(key) && IsSplitKey(key, tran, distinct, prev)
    ensures Stable(d, after.inv)
  {
    forall p: nat, q: nat, c: nat | p in after.inv && q in after.inv && after.inv[p] == after.inv[q] && IsLetter(c)
      ensures SameTargets(d, after.inv, p, q, c)
    {
      assert At(key, p) == At(key, q);
      MinimizeEqualByKey(tran, distinct, prev, p, q);
      var i: nat :| i < |distinct| && distinct[i] == stand[c];
      assert GoesTo(tran, prev, p, distinct[i]) == GoesTo(tran, prev, q, distinct[i]);
      assert tran[p][stand[c]] == d.next(p, c) && tran[q][stand[c]] == d.next(q, c);
    }
  }

  lemma OneClassIsStable(d: Dfa, inv: map<nat, nat>)
    requires d.Valid() && CoversStates(inv, d.size) && forall x: nat | x in inv :: inv[x] == 0
    ensures Stable(d, inv)
  {
    forall p: nat, q: nat, c: nat | p in inv && q in inv && inv[p] == inv[q] && IsLetter(c)
      ensures SameTargets(d, inv, p, q, c)
    {
      assert d.next(p, c) < d.size && d.next(q, c) < d.size;
    }
  }

  /** Equal keys after a refinement mean equal classes before. */
  lemma SplitKeyRefines(tran: seq<seq<nat>>, distinct: seq<nat>, prev: seq<nat>, a: nat, b: nat)
    requires a < |prev| && b < |prev| && SplitKey(tran, distinct, prev, a) == SplitKey(tran, distinct, prev, b)
    ensures prev[a] == prev[b]
  {
    assert SplitKey(tran, distinct, prev, a)[0] == SplitKey(tran, distinct, prev, b)[0];
  }

  /** A refinement that opens no class changes no representative. */
  lemma SameSizeSameMap(c: Classes, e: Classes)
    requires c.Valid() && e.Valid() && c.inv.Keys == e.inv.Keys && SameNumbers(c.table, e.table) &&
        |c.table| == |e.table|
    requires forall x: nat, y: nat | x in e.inv && y in e.inv && e.inv[x] == e.inv[y] :: c.inv[x] == c.inv[y]
    ensures e.inv == c.inv
  {
    assert c.table.Keys <= e.table.Keys;
    SubsetOfSameSize(c.table.Keys, e.table.Keys);
    forall x: nat | x in e.inv ensures e.inv[x] == c.inv[x] {
      var k := e.inv[x];
      assert k in e.table && k in c.table;
      KeyIsItem(e, k);
      KeyIsItem(c, k);
      assert e.inv[k] == e.inv[x];
    }
  }

  lemma SubsetOfSameSize(a: set<nat>, b: set<nat>)
    requires a <= b && |a| == |b|
    ensures a == b
  {
    assert b == a + (b - a);
    assert |b - a| == 0;
  }

  lemma KeysAreFew(c: Classes, n: nat)
    requires c.Valid() && CoversStates(c.inv, n)
    ensures |c.table| <= n
  {
    KeysAreItems(c);
    BelowCount(c.table.Keys, n);
  }

  lemma MoreClasses(c: Classes, e: Classes)
    requires c.Valid() && e.Valid() && c.inv.Keys == e.inv.Keys && SameNumbers(c.table, e.table)
    requires forall x: nat, y: nat | x in e.inv && y in e.inv && e.inv[x] == e.inv[y] :: c.inv[x] == c.inv[y]
    ensures |c.table| <= |e.table| && (e.inv != c.inv ==> |c.table| < |e.table|)
  {
    assert c.table.Keys <= e.table.Keys;
    SubsetSize(c.table.Keys, e.table.Keys);
    if |c.table| == |e.table| {
      SameSizeSameMap(c, e);
    }
  }

  lemma SubsetSize(a: set<nat>, b: set<nat>)
    requires a <= b
    ensures |a| <= |b|
  {
    assert b == a + (b - a);
  }

  lemma {:induction false} BelowCount(s: set<nat>, n: nat)
    requires forall x | x in s :: x < n
    ensures |s| <= n
    decreases n
  {
    if n == 0 {
      if x :| x in s { assert false; }
    } else {
      var rest := s - {n - 1};
      BelowCount(rest, n - 1);
      if n - 1 in s {
        assert s == rest + {n - 1};
      } else {
        assert s == rest;
      }
    }
  }

  /** Stable classes that separate finals merge only states with the same residual language. */
  lemma {:induction false} StableAccepts(d: Dfa, inv: map<nat, nat>, p: nat, q: nat, w: Word)
    requires SeparatesFinals(d, inv) && Stable(d, inv) && p in inv && q in inv && inv[p] == inv[q] && IsWord(w)
    ensures AcceptsFrom(d, p, w) <==> AcceptsFrom(d, q, w)
    decreases |w|
  {
    if w != [] {
      TailIsWord(w);
      assert SameTargets(d, inv, p, q, w[0]);
      StableAccepts(d, inv, d.next(p, w[0]), d.next(q, w[0]), w[1..]);
    }
  }

  lemma StableIsEquivalence(d: Dfa, inv: map<nat, nat>)
    requires SeparatesFinals(d, inv) && Stable(d, inv) && KeepsEquivalent(d, inv)
    ensures forall p: nat, q: nat | p in inv && q in inv :: inv[p] == inv[q] <==> Equivalent(d, p, q)
  {
    forall p: nat, q: nat | p in inv && q in inv && inv[p] == inv[q] ensures Equivalent(d, p, q) {
      forall w | IsWord(w) ensures AcceptsFrom(d, p, w) <==> AcceptsFrom(d, q, w) {
        StableAccepts(d, inv, p, q, w);
      }
    }
  }

  // ---- the table of the classes ----

  /** cls gives every state the number of its class. */
  ghost predicate NumbersClasses(c: Classes, cls: seq<nat>) {
    && CoversStates(c.inv, |cls|)
    && forall p: nat | p < |cls| :: c.Index(p) == Some(cls[p])
  }

  lemma ClassNumbers(c: Classes, cls: seq<nat>)
    requires c.Valid() && NumbersClasses(c, cls)
    ensures forall p: nat | p < |cls| :: cls[p] < c.Size()
    ensures forall i: nat | i < c.Size() :: Hit(cls, i)
    ensures forall p: nat, q: nat | p < |cls| && q < |cls| :: cls[p] == cls[q] <==> c.inv[p] == c.inv[q]
  {
    forall i: nat | i < c.Size() ensures Hit(cls, i) {
      IndexIsOnto(c, i);
      var t: nat :| c.Contains(t) && c.Index(t) == Some(i);
      assert cls[t] == i;
    }
    forall p: nat, q: nat | p < |cls| && q < |cls| ensures cls[p] == cls[q] <==> c.inv[p] == c.inv[q] {
      assert c.inv[p] in c.table && c.inv[q] in c.table;
      assert c.Index(p) == Some(cls[p]) && c.Index(q) == Some(cls[q]);
    }
  }

  /** `out` has the transitions of the first m states of `rows`, between classes. */
  ghost predicate MergedUpTo(rows: Rows, cls: seq<nat>, out: Rows, m: nat) {
    && (forall i: nat, c: nat, j: nat :: Linked(out, i, c, j) <==> MergedLink(rows, cls, m, i, c, j))
    && (forall i: nat, c: nat | i < |out| && c in out[i] :: HasLink(out, i, c))
  }

  ghost predicate MergedLink(rows: Rows, cls: seq<nat>, m: nat, i: nat, c: nat, j: nat) {
    exists p: nat, q: nat :: p < m && IsMerged(rows, cls, p, c, q, i, j)
  }

  predicate IsMerged(rows: Rows, cls: seq<nat>, p: nat, c: nat, q: nat, i: nat, j: nat) {
    p < |cls| && q < |cls| && cls[p] == i && cls[q] == j && Linked(rows, p, c, q)
  }

  /** The merged table of a functional table under stable numbers is functional, and its machine the quotient. */
  lemma MergedIsQuotient(rows: Rows, letters: Classes, finals: set<nat>, cls: seq<nat>, out: Rows, ends: set<nat>)
    requires OverLetters(letters) && Total(letters.inv) && Functional(rows, letters.table.Keys) && Within(rows)
    requires Coherent(rows, letters.inv) && |cls| == |rows| > 0 && cls[0] == 0
    requires forall p: nat | p < |cls| :: cls[p] < |out|
    requires forall i: nat | i < |out| :: Hit(cls, i)
    requires NumbersStable(MachineOf(rows, letters.inv, 0, finals), cls)
    requires MergedUpTo(rows, cls, out, |rows|)
    requires forall i: nat :: i in ends <==> exists p: nat :: p < |rows| && p in finals && cls[p] == i
    requires forall p: nat, q: nat | p < |cls| && q < |cls| && cls[p] == cls[q] :: p in finals <==> q in finals
    ensures Functional(out, letters.table.Keys) && Within(out) && Coherent(out, letters.inv)
    ensures forall i | i in ends :: i < |out|
    ensures IsQuotient(MachineOf(rows, letters.inv, 0, finals), MachineOf(out, letters.inv, 0, ends), cls)
  {
    var d := MachineOf(rows, letters.inv, 0, finals);
    MergedIsFunctional(rows, letters, finals, cls, out);
    MergedIsWithin(rows, cls, out);
    MergedIsCoherent(rows, letters, finals, cls, out);
    var e := MachineOf(out, letters.inv, 0, ends);
    forall p: nat, c: nat | p < d.size && IsLetter(c) ensures QuotientStep(d, e, cls, p, c) {
      TargetIsLinked(rows, letters, p, c);
      TargetIsLinked(out, letters, cls[p], c);
      var k := Stand(letters.inv, c);
      assert IsMerged(rows, cls, p, k, d.next(p, c), cls[p], cls[d.next(p, c)]);
      assert MergedLink(rows, cls, |rows|, cls[p], k, cls[d.next(p, c)]);
    }
    forall p: nat | p < d.size ensures cls[p] in ends <==> p in finals {
      if cls[p] in ends {
        var p': nat :| p' < |rows| && p' in finals && cls[p'] == cls[p];
      }
    }
  }

  /** Numbers are stable when states with one number step to states with one number. */
  ghost predicate NumbersStable(d: Dfa, cls: seq<nat>) {
    forall p: nat, q: nat, c: nat | p < |cls| && q < |cls| && cls[p] == cls[q] && IsLetter(c) ::
        SameNumber(d, cls, p, q, c)
  }

  ghost predicate SameNumber(d: Dfa, cls: seq<nat>, p: nat, q: nat, c: nat) {
    d.next(p, c) < |cls| && d.next(q, c) < |cls| && cls[d.next(p, c)] == cls[d.next(q, c)]
  }

  lemma MergedIsWithin(rows: Rows, cls: seq<nat>, out: Rows)
    requires Within(rows) && MergedUpTo(rows, cls, out, |rows|)
    requires forall p: nat | p < |cls| :: cls[p] < |out|
    ensures Within(out)
  {
    forall i: nat, c: nat, j: nat | Linked(out, i, c, j) ensures c < MAX_CHAR && j < |out| {
      assert MergedLink(rows, cls, |rows|, i, c, j);
      var p: nat, q: nat :| p < |rows| && IsMerged(rows, cls, p, c, q, i, j);
    }
    forall i: nat, c: nat | i < |out| && c in out[i] ensures c < MAX_CHAR {
      assert HasLink(out, i, c);
      var j: nat :| Linked(out, i, c, j);
    }
  }

  lemma MergedIsFunctional(rows: Rows, letters: Classes, finals: set<nat>, cls: seq<nat>, out: Rows)
    requires OverLetters(letters) && Total(letters.inv) && Functional(rows, letters.table.Keys) && Within(rows)
    requires Coherent(rows, letters.inv) && |cls| == |rows| > 0
    requires forall p: nat | p < |cls| :: cls[p] < |out|
    requires forall i: nat | i < |out| :: Hit(cls, i)
    requires NumbersStable(MachineOf(rows, letters.inv, 0, finals), cls)
    requires MergedUpTo(rows, cls, out, |rows|)
    ensures Functional(out, letters.table.Keys)
  {
    forall i: nat, c: nat, j: nat, h: nat | Linked(out, i, c, j) && Linked(out, i, c, h) ensures j == h {
      MergedOne(rows, letters, finals, cls, out, i, c, j, c);
    }
    forall i: nat, k: nat | i < |out| && k in letters.table ensures HasLink(out, i, k) {
      assert Hit(cls, i);
      var p: nat :| p < |cls| && cls[p] == i;
      assert HasLink(rows, p, k);
      var q: nat :| Linked(rows, p, k, q);
      assert IsMerged(rows, cls, p, k, q, i, cls[q]);
      assert MergedLink(rows, cls, |rows|, i, k, cls[q]);
      assert Linked(out, i, k, cls[q]);
    }
    forall i: nat, c: nat | i < |out| && c in out[i] ensures c != EPSILON && HasLink(out, i, c) {
      assert HasLink(out, i, c);
      var j: nat :| Linked(out, i, c, j);
      assert MergedLink(rows, cls, |rows|, i, c, j);
      var p: nat, q: nat :| p < |rows| && IsMerged(rows, cls, p, c, q, i, j);
      assert c in rows[p];
    }
  }

  /** An entry, also one under a letter that is no class letter, is the step of the machine. */
  lemma EntryIsStep(rows: Rows, letters: Classes, finals: set<nat>, p: nat, c: nat, q: nat)
    requires OverLetters(letters) && Total(letters.inv) && Functional(rows, letters.table.Keys) && Within(rows)
    requires Coherent(rows, letters.inv) && Linked(rows, p, c, q)
    ensures IsLetter(c) && p < |rows| && q == MachineOf(rows, letters.inv, 0, finals).next(p, c)
  {
    assert c in rows[p];
    TargetIsLinked(rows, letters, p, c);
    assert rows[p][c] == Dest(rows, p, letters.inv[c]);
    assert Linked(rows, p, letters.inv[c], q);
  }

  lemma MergedOne(rows: Rows, letters: Classes, finals: set<nat>, cls: seq<nat>, out: Rows, i: nat, c: nat, j: nat,
      h: nat)
    requires OverLetters(letters) && Total(letters.inv) && Functional(rows, letters.table.Keys) && Within(rows)
    requires Coherent(rows, letters.inv) && |cls| == |rows| &&
        NumbersStable(MachineOf(rows, letters.inv, 0, finals), cls)
    requires MergedUpTo(rows, cls, out, |rows|) && Linked(out, i, c, j)
    requires Stand(letters.inv, c) == h || c == h
    ensures IsLetter(c)
    ensures forall k: nat | Linked(out, i, h, k) :: k == j
  {
    var d := MachineOf(rows, letters.inv, 0, finals);
    assert MergedLink(rows, cls, |rows|, i, c, j);
    var p: nat, q: nat :| p < |rows| && IsMerged(rows, cls, p, c, q, i, j);
    EntryIsStep(rows, letters, finals, p, c, q);
    forall k: nat | Linked(out, i, h, k) ensures k == j {
      assert MergedLink(rows, cls, |rows|, i, h, k);
      var p': nat, q': nat :| p' < |rows| && IsMerged(rows, cls, p', h, q', i, k);
      EntryIsStep(rows, letters, finals, p', h, q');
      StandStands(letters, c);
      hide Functional, Coherent, Within, Linked, MergedUpTo, MergedLink, Total;
      assert d.next(p', h) == d.next(p', c);
      assert SameNumber(d, cls, p, p', c);
    }
  }

  lemma StandStands(letters: Classes, c: nat)
    requires OverLetters(letters) && Total(letters.inv) && IsLetter(c)
    ensures Stand(letters.inv, Stand(letters.inv, c)) == Stand(letters.inv, c)
  {
    KeyIsItem(letters, letters.inv[c]);
  }

  lemma MergedIsCoherent(rows: Rows, letters: Classes, finals: set<nat>, cls: seq<nat>, out: Rows)
    requires OverLetters(letters) && Total(letters.inv) && Functional(rows, letters.table.Keys) && Within(rows)
    requires Coherent(rows, letters.inv) && |cls| == |rows| &&
        NumbersStable(MachineOf(rows, letters.inv, 0, finals), cls)
    requires MergedUpTo(rows, cls, out, |rows|) && Functional(out, letters.table.Keys)
    ensures Coherent(out, letters.inv)
  {
    forall i: nat, c: nat | i < |out| && c in letters.inv && c in out[i]
        ensures out[i][c] == Dest(out, i, letters.inv[c]) {
      MergedEntry(rows, letters, finals, cls, out, i, c);
    }
  }

  lemma MergedEntry(rows: Rows, letters: Classes, finals: set<nat>, cls: seq<nat>, out: Rows, i: nat, c: nat)
    requires OverLetters(letters) && Total(letters.inv) && Functional(rows, letters.table.Keys) && Within(rows)
    requires Coherent(rows, letters.inv) && |cls| == |rows| &&
        NumbersStable(MachineOf(rows, letters.inv, 0, finals), cls)
    requires MergedUpTo(rows, cls, out, |rows|) && Functional(out, letters.table.Keys)
    requires i < |out| && c in letters.inv && c in out[i]
    ensures out[i][c] == Dest(out, i, letters.inv[c])
  {
    var k := letters.inv[c];
    assert HasLink(out, i, c) && k in letters.table && HasLink(out, i, k);
    var j: nat :| Linked(out, i, c, j);
    var h: nat :| Linked(out, i, k, h);
    MergedOne(rows, letters, finals, cls, out, i, c, j, c);
    MergedOne(rows, letters, finals, cls, out, i, c, j, k);
    OnlyTarget(out, i, c, j);
    OnlyTarget(out, i, k, j);
  }

  lemma OnlyTarget(rows: Rows, p: nat, c: nat, j: nat)
    requires Linked(rows, p, c, j) && forall k: nat | Linked(rows, p, c, k) :: k == j
    ensures Dest(rows, p, c) == {j}
  {
    forall k: nat ensures k in Dest(rows, p, c) <==> k == j {
      assert k in Dest(rows, p, c) <==> Linked(rows, p, c, k);
    }
  }

  ghost predicate TabulatesRow(rows: Rows, p: nat, row: seq<nat>) {
    |row| == MAX_CHAR && forall c: nat, q: nat | c < MAX_CHAR && Linked(rows, p, c, q) :: row[c] == q
  }

  lemma TabulatedMachine(rows: Rows, letters: Classes, initial: nat, finals: set<nat>, tran: seq<seq<nat>>,
      distinct: seq<nat>)
    requires OverLetters(letters) && Total(letters.inv) && Functional(rows, letters.table.Keys) && |tran| == |rows|
    requires forall p: nat | p < |rows| :: TabulatesRow(rows, p, tran[p])
    requires forall k :: k in distinct <==> k in letters.table
    ensures Tabulates(MachineOf(rows, letters.inv, initial, finals), tran, distinct, letters.inv)
  {
    var d := MachineOf(rows, letters.inv, initial, finals);
    forall p: nat, c: nat | p < d.size && IsLetter(c)
      ensures letters.inv[c] < |tran[p]| && tran[p][letters.inv[c]] == d.next(p, c)
    {
      TargetIsLinked(rows, letters, p, c);
      KeyIsItem(letters, letters.inv[c]);
      assert TabulatesRow(rows, p, tran[p]);
    }
  }

  ghost predicate StartsAtZero(c: Classes) {
    0 in c.inv && c.inv[0] == 0 && 0 in c.table && c.table[0].index == 0
  }

  function ClassOf(c: Classes, p: nat): nat {
    match c.Index(p)
    case Some(i) => i
    case None => 0
  }

  function ClassNumbersOf(c: Classes, n: nat): seq<nat> {
    seq(n, (p: int) requires 0 <= p < n => ClassOf(c, p))
  }

  lemma NumbersGiven(c: Classes, n: nat)
    requires c.Valid() && CoversStates(c.inv, n)
    ensures NumbersClasses(c, ClassNumbersOf(c, n)) && |ClassNumbersOf(c, n)| == n
  {
    forall p: nat | p < n ensures c.Index(p) == Some(ClassOf(c, p)) {
      assert c.inv[p] in c.table;
    }
  }

  lemma RefinedMerges(d: Dfa, c: Classes, n: nat)
    requires c.Valid() && d.size == n && CoversStates(c.inv, n)
    requires KeepsEquivalent(d, c.inv) && SeparatesFinals(d, c.inv) && Stable(d, c.inv)
    ensures MergesEquivalent(d, ClassNumbersOf(c, n)) && c.Size() <= n
  {
    hide KeepsEquivalent, SeparatesFinals, Stable;
    NumbersGiven(c, n);
    ClassNumbers(c, ClassNumbersOf(c, n));
    StableIsEquivalence(d, c.inv);
    KeysAreFew(c, n);
  }

  lemma QuotientLanguage(a: Nfa, d: Dfa, b: Nfa, e: Dfa, cls: seq<nat>)
    requires a.Valid() && b.Valid() && Represents(a, d) && Represents(b, e) && d.Valid() && e.Valid() &&
        IsQuotient(d, e, cls)
    ensures SameLanguage(a, b)
  {
    forall w | IsWord(w) ensures Accepts(a, w) <==> Accepts(b, w) {
      RepresentedLanguage(a, d, w);
      RepresentedLanguage(b, e, w);
      QuotientAccepts(d, e, cls, d.initial, w);
    }
    SameOnWords(a, b);
  }

  lemma UnchangedAtFirst(d: Dfa, first: seq<nat>, scm: seq<nat>, c: Classes)
    requires d.Valid() && |first| == d.size && (forall x: nat | x < |first| :: first[x] == 0) && scm == first &&
        IsMapOf(scm, c.inv)
    ensures Stable(d, c.inv)
  {
    OneClassIsStable(d, c.inv);
  }

  lemma SplitKeyIsFiner(tran: seq<seq<nat>>, distinct: seq<nat>, prev: seq<nat>, c: Classes, key: map<nat, seq<nat>>,
      finer: map<nat, seq<nat>>)
    requires c.Separates(key) && IsMapOf(prev, c.inv) && IsSplitKey(finer, tran, distinct, prev)
    ensures forall x, y | x in c.inv && y in c.inv && At(finer, x) == At(finer, y) :: At(key, x) == At(key, y)
  {
    forall x, y | x in c.inv && y in c.inv && At(finer, x) == At(finer, y) ensures At(key, x) == At(key, y) {
      SplitKeyRefines(tran, distinct, prev, x, y);
    }
  }

  /** One round of refinement: what is known stays known, and unless classes were split they are stable. */
  lemma RoundDone(d: Dfa, tran: seq<seq<nat>>, distinct: seq<nat>, stand: map<nat, nat>, prev: seq<nat>,
                  before: Classes, after: Classes, key: map<nat, seq<nat>>, scm: seq<nat>, changed: bool)
    requires d.Valid() && |prev| == d.size && Tabulates(d, tran, distinct, stand) && IsMapOf(prev, before.inv)
    requires forall k | k in distinct :: IsLetter(k) && stand[k] == k
    requires before.Valid() && after.Valid() && after.inv.Keys == before.inv.Keys &&
        SameNumbers(before.table, after.table)
    requires after.Separates(key) && IsSplitKey(key, tran, distinct, prev)
    requires KeepsEquivalent(d, before.inv) && SeparatesFinals(d, before.inv)
    requires IsMapOf(scm, after.inv) && (changed <==> scm != prev)
    ensures CoversStates(after.inv, d.size) && KeepsEquivalent(d, after.inv) && SeparatesFinals(d, after.inv)
    ensures !changed ==> Stable(d, after.inv)
    ensures |before.table| <= |after.table| <= d.size && (changed ==> |before.table| < |after.table|)
  {
    hide Tabulates, KeepsEquivalent, SeparatesFinals, Stable, SameNumbers;
    hide Classes.Valid;
    hide Classes.Separates;
    CoversByKeys(before.inv, after.inv, d.size);
    RefinementKeeps(d, tran, distinct, stand, prev, before.inv, after, key);
    if !changed { RefinementIsStable(d, tran, distinct, stand, prev, after, key); }
    RoundRefines(tran, distinct, prev, before, after, key);
    MoreClasses(before, after);
    if after.inv == before.inv { MapsAgree(prev, scm, after.inv); }
    KeysAreFew(after, d.size);
  }

  lemma RoundRefines(tran: seq<seq<nat>>, distinct: seq<nat>, prev: seq<nat>, before: Classes, after: Classes,
      key: map<nat, seq<nat>>)
    requires IsMapOf(prev, before.inv) && after.inv.Keys == before.inv.Keys
    requires after.Separates(key) && IsSplitKey(key, tran, distinct, prev)
    ensures forall x: nat, y: nat | x in after.inv && y in after.inv && after.inv[x] == after.inv[y] ::
        before.inv[x] == before.inv[y]
  {
    forall x: nat, y: nat | x in after.inv && y in after.inv && after.inv[x] == after.inv[y]
        ensures before.inv[x] == before.inv[y] {
      SameClassSameKey(tran, distinct, prev, after, key, x, y);
      SplitKeyRefines(tran, distinct, prev, x, y);
    }
  }

  lemma MapsAgree(prev: seq<nat>, scm: seq<nat>, inv: map<nat, nat>)
    requires IsMapOf(prev, inv) && IsMapOf(scm, inv)
    ensures scm == prev
  {
    assert |scm| in inv <==> |scm| < |prev|;
    assert |prev| in inv <==> |prev| < |scm|;
  }

  lemma CoversByKeys(before: map<nat, nat>, after: map<nat, nat>, n: nat)
    requires CoversStates(before, n) && after.Keys == before.Keys
    ensures CoversStates(after, n)
  {
    forall x: nat ensures x in after <==> x < n {
      assert x in before <==> x < n;
    }
  }

  lemma AtZeroIsOne(c: Classes)
    requires StartsAtZero(c)
    ensures |c.table| > 0
  {
    assert |c.table.Keys| == |c.table|;
    assert c.table.Keys != {};
  }

  lemma StillAtZero(before: Classes, after: Classes)
    requires StartsAtZero(before) && after.Valid() && SameNumbers(before.table, after.table)
    ensures StartsAtZero(after)
  {
    KeyIsItem(after, 0);
  }

  /** The states appended in ascending order, of which 0 opens the first class. */
  lemma AppendedNext<K>(before: Classes, after: Classes, key: map<nat, K>, t: nat)
    requires before.Valid() && CoversStates(before.inv, t) && (t > 0 ==> StartsAtZero(before))
    requires t in after.inv && after == Put(before, t, after.inv[t], |before.table|) &&
        Belongs(key, before.table, t, after.inv[t])
    ensures CoversStates(after.inv, t + 1) && StartsAtZero(after)
  {
    if t == 0 {
      KeysAreItems(before);
      assert before.table.Keys == {};
      assert |before.table.Keys| == |before.table|;
    }
  }

  lemma SameClassSameKey(tran: seq<seq<nat>>, distinct: seq<nat>, prev: seq<nat>, c: Classes, key: map<nat, seq<nat>>,
      x: nat, y: nat)
    requires c.Separates(key) && IsSplitKey(key, tran, distinct, prev) && x in c.inv && y in c.inv &&
        c.inv[x] == c.inv[y]
    requires x < |prev| && y < |prev|
    ensures SplitKey(tran, distinct, prev, x) == SplitKey(tran, distinct, prev, y)
  {
    assert At(key, x) == At(key, y);
  }

  // ---- uniting ----

  ghost predicate EntriesAreSingle(rows: Rows) {
    forall p: nat, c: nat | p < |rows| && c in rows[p] ::
        HasLink(rows, p, c) && forall q: nat, r: nat | q in rows[p][c] && r in rows[p][c] :: q == r
  }

  lemma FunctionalIsSingle(rows: Rows, keys: set<nat>)
    requires Functional(rows, keys)
    ensures EntriesAreSingle(rows)
  {
    forall p: nat, c: nat, q: nat, r: nat | p < |rows| && c in rows[p] && q in rows[p][c] && r in rows[p][c]
        ensures q == r {
      assert Linked(rows, p, c, q) && Linked(rows, p, c, r);
    }
  }

  lemma SingleEntry(rows: Rows, p: nat, c: nat)
    requires EntriesAreSingle(rows) && p < |rows| && c in rows[p]
    ensures rows[p][c] != {}
  {
    assert HasLink(rows, p, c);
    var q: nat :| Linked(rows, p, c, q);
    assert q in rows[p][c];
  }

  lemma EntryNumbers(rows: Rows, c: Classes, cls: seq<nat>, p: nat, letter: nat, to: nat)
    requires Within(rows) && |cls| == |rows| && NumbersClasses(c, cls) && EntriesAreSingle(rows)
    requires p < |rows| && letter in rows[p] && to in rows[p][letter]
    ensures to < |cls| && ClassOf(c, p) == cls[p] && ClassOf(c, to) == cls[to]
    ensures forall q: nat :: Linked(rows, p, letter, q) <==> q == to
  {
    assert Linked(rows, p, letter, to);
  }

  lemma LinkSize(rows: Rows, p: nat, c: nat, q: nat)
    requires p < |rows|
    ensures |Link(rows, p, c, q)| == |rows|
  {
  }

  /** Merged up to state m, and of state m the letters below b. */
  ghost predicate MergedPart(rows: Rows, cls: seq<nat>, out: Rows, m: nat, b: nat) {
    && (forall i: nat, c: nat, j: nat :: Linked(out, i, c, j) <==>
          MergedLink(rows, cls, m, i, c, j) || (c < b && MergedHere(rows, cls, m, i, c, j)))
    && (forall i: nat, c: nat | i < |out| && c in out[i] :: HasLink(out, i, c))
  }

  ghost predicate MergedHere(rows: Rows, cls: seq<nat>, m: nat, i: nat, c: nat, j: nat) {
    exists q: nat :: IsMerged(rows, cls, m, c, q, i, j)
  }

  lemma MergePartStarts(rows: Rows, cls: seq<nat>, out: Rows, m: nat)
    requires MergedUpTo(rows, cls, out, m)
    ensures MergedPart(rows, cls, out, m, 0)
  {
  }

  lemma MergePartSkips(rows: Rows, cls: seq<nat>, out: Rows, m: nat, b: nat)
    requires MergedPart(rows, cls, out, m, b) && m < |rows| && b !in rows[m]
    ensures MergedPart(rows, cls, out, m, b + 1)
  {
    forall i: nat, j: nat ensures !MergedHere(rows, cls, m, i, b, j) {
    }
    hide MergedHere, MergedLink, Linked, HasLink;
  }

  lemma MergePartLinks(rows: Rows, cls: seq<nat>, out: Rows, m: nat, b: nat, to: nat)
    requires MergedPart(rows, cls, out, m, b) && m < |cls| && to < |cls| && cls[m] < |out|
    requires forall q: nat :: Linked(rows, m, b, q) <==> q == to
    ensures MergedPart(rows, cls, Link(out, cls[m], b, cls[to]), m, b + 1)
  {
    var more := Link(out, cls[m], b, cls[to]);
    LinkAdds(out, cls[m], b, cls[to]);
    LinkKeepsEntries(out, cls[m], b, cls[to]);
    forall i: nat, j: nat ensures MergedHere(rows, cls, m, i, b, j) <==> i == cls[m] && j == cls[to] {
      if i == cls[m] && j == cls[to] { assert IsMerged(rows, cls, m, b, to, i, j); }
    }
    hide MergedHere, MergedLink, Linked, HasLink, Link;
    forall i: nat, c: nat, j: nat ensures Linked(more, i, c, j) <==>
        MergedLink(rows, cls, m, i, c, j) || (c < b + 1 && MergedHere(rows, cls, m, i, c, j)) {
    }
  }

  lemma MergePartEnds(rows: Rows, cls: seq<nat>, out: Rows, m: nat)
    requires MergedPart(rows, cls, out, m, MAX_CHAR) && Within(rows) && m < |rows|
    ensures MergedUpTo(rows, cls, out, m + 1)
  {
    forall i: nat, c: nat, j: nat ensures Linked(out, i, c, j) <==> MergedLink(rows, cls, m + 1, i, c, j) {
      MergedLinkStep(rows, cls, m, i, c, j);
      assert MergedHere(rows, cls, m, i, c, j) ==> c < MAX_CHAR;
    }
  }

  lemma MergedLinkStep(rows: Rows, cls: seq<nat>, m: nat, i: nat, c: nat, j: nat)
    ensures MergedLink(rows, cls, m + 1, i, c, j) <==>
        MergedLink(rows, cls, m, i, c, j) || MergedHere(rows, cls, m, i, c, j)
  {
    if MergedHere(rows, cls, m, i, c, j) {
      var q: nat :| IsMerged(rows, cls, m, c, q, i, j);
      assert MergedLink(rows, cls, m + 1, i, c, j);
    }
    if MergedLink(rows, cls, m + 1, i, c, j) {
      var p: nat, q: nat :| p < m + 1 && IsMerged(rows, cls, p, c, q, i, j);
      if p == m { assert MergedHere(rows, cls, m, i, c, j); }
    }
  }

  ghost predicate MergedEnds(finals: set<nat>, cls: seq<nat>, ends: set<nat>, m: nat) {
    forall i: nat :: i in ends <==> EndsBelow(finals, cls, m, i)
  }

  ghost predicate EndsBelow(finals: set<nat>, cls: seq<nat>, m: nat, i: nat) {
    exists p: nat :: p < m && p < |cls| && p in finals && cls[p] == i
  }

  lemma EndsMerged(finals: set<nat>, c: Classes, cls: seq<nat>, before: set<nat>, after: set<nat>, m: nat)
    requires MergedEnds(finals, cls, before, m) && NumbersClasses(c, cls) && m < |cls|
    requires after == if m in finals then before + {ClassOf(c, m)} else before
    ensures MergedEnds(finals, cls, after, m + 1)
  {
    assert c.Index(m) == Some(cls[m]);
    forall i: nat ensures i in after <==> EndsBelow(finals, cls, m + 1, i) {
      if i in after && i !in before { assert cls[m] == i; }
      if EndsBelow(finals, cls, m, i) {
        var p: nat :| p < m && p < |cls| && p in finals && cls[p] == i;
        assert EndsBelow(finals, cls, m + 1, i);
      }
    }
  }

  lemma UniteStarts(rows: Rows, finals: set<nat>, cls: seq<nat>, out: Rows, n: nat)
    requires |out| == n && forall i: nat | i < n :: out[i] == map[]
    ensures MergedUpTo(rows, cls, out, 0) && MergedEnds(finals, cls, {}, 0)
  {
  }

  lemma UnitedIsQuotient(rows: Rows, letters: Classes, finals: set<nat>, c: Classes, cls: seq<nat>, out: Rows,
      ends: set<nat>)
    requires OverLetters(letters) && Total(letters.inv) && Functional(rows, letters.table.Keys) && Within(rows) &&
        Coherent(rows, letters.inv)
    requires |rows| == |cls| > 0 && c.Valid() && StartsAtZero(c) && CoversStates(c.inv, |rows|) &&
        NumbersClasses(c, cls) && |out| == c.Size()
    requires SeparatesFinals(MachineOf(rows, letters.inv, 0, finals), c.inv) &&
        Stable(MachineOf(rows, letters.inv, 0, finals), c.inv)
    requires MergedUpTo(rows, cls, out, |rows|) && MergedEnds(finals, cls, ends, |rows|)
    ensures Functional(out, letters.table.Keys) && Within(out) && Coherent(out, letters.inv) && |out| > 0
    ensures forall i | i in ends :: i < |out|
    ensures IsQuotient(MachineOf(rows, letters.inv, 0, finals), MachineOf(out, letters.inv, 0, ends), cls)
  {
    var d := MachineOf(rows, letters.inv, 0, finals);
    ClassNumbers(c, cls);
    assert c.Index(0) == Some(cls[0]) && cls[0] == 0;
    hide Functional, Within, Coherent, MergedUpTo, OverLetters, Total;
    StableNumbers(d, c, cls);
    forall i: nat ensures i in ends <==> exists p: nat :: p < |rows| && p in finals && cls[p] == i {
      assert i in ends <==> EndsBelow(finals, cls, |rows|, i);
    }
    MergedIsQuotient(rows, letters, finals, cls, out, ends);
  }

  lemma StableNumbers(d: Dfa, c: Classes, cls: seq<nat>)
    requires SeparatesFinals(d, c.inv) && Stable(d, c.inv) && CoversStates(c.inv, |cls|)
    requires forall p: nat, q: nat | p < |cls| && q < |cls| :: cls[p] == cls[q] <==> c.inv[p] == c.inv[q]
    ensures NumbersStable(d, cls)
    ensures forall p: nat, q: nat | p < |cls| && q < |cls| && cls[p] == cls[q] :: p in d.finals <==> q in d.finals
  {
    forall p: nat, q: nat, l: nat | p < |cls| && q < |cls| && cls[p] == cls[q] && IsLetter(l)
        ensures SameNumber(d, cls, p, q, l) {
      assert SameTargets(d, c.inv, p, q, l);
    }
  }
}
