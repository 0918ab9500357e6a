/** Residual equivalence of states, quotients, and what is minimal about a minimized machine. */
module Minimality {
  import opened Automaton
  import opened Deterministic
  import opened SubsetTables

  /** Two states have the same residual language. */
  ghost predicate Equivalent(d: Dfa, p: nat, q: nat) {
    forall w | IsWord(w) :: AcceptsFrom(d, p, w) <==> AcceptsFrom(d, q, w)
  }

  lemma EquivalentSteps(d: Dfa, p: nat, q: nat, c: nat)
    requires Equivalent(d, p, q) && IsLetter(c)
    ensures Equivalent(d, d.next(p, c), d.next(q, c))
  {
    forall w | IsWord(w) ensures AcceptsFrom(d, d.next(p, c), w) <==> AcceptsFrom(d, d.next(q, c), w) {
      var longer := [c] + w;
      assert longer[0] == c && longer[1..] == w && IsWord(longer);
      assert AcceptsFrom(d, p, longer) <==> AcceptsFrom(d, q, longer);
    }
  }

  lemma EquivalentEnds(d: Dfa, p: nat, q: nat)
    requires Equivalent(d, p, q)
    ensures p in d.finals <==> q in d.finals
  {
    assert AcceptsFrom(d, p, []) <==> AcceptsFrom(d, q, []);
  }

  /** `cls` maps the states of d onto the states of e, commuting with steps and keeping finality. */
  ghost predicate IsQuotient(d: Dfa, e: Dfa, cls: seq<nat>) {
    && |cls| == d.size
    && (forall p: nat | p < d.size :: cls[p] < e.size)
    && (forall i: nat | i < e.size :: Hit(cls, i))
    && (forall p: nat, c: nat | p < d.size && IsLetter(c) :: QuotientStep(d, e, cls, p, c))
    && (forall p: nat | p < d.size :: cls[p] in e.finals <==> p in d.finals)
    && d.initial < d.size && cls[d.initial] == e.initial
  }

  ghost predicate Hit(cls: seq<nat>, i: nat) {
    exists p: nat :: p < |cls| && cls[p] == i
  }

  ghost predicate QuotientStep(d: Dfa, e: Dfa, cls: seq<nat>, p: nat, c: nat)
    requires p < |cls|
  {
    d.next(p, c) < |cls| && e.next(cls[p], c) == cls[d.next(p, c)]
  }

  lemma {:induction false} QuotientRun(d: Dfa, e: Dfa, cls: seq<nat>, p: nat, w: Word)
    requires IsQuotient(d, e, cls) && p < d.size && IsWord(w)
    ensures Run(d, p, w) < d.size && Run(e, cls[p], w) == cls[Run(d, p, w)]
    decreases |w|
  {
    if w != [] {
      TailIsWord(w);
      assert QuotientStep(d, e, cls, p, w[0]);
      QuotientRun(d, e, cls, d.next(p, w[0]), w[1..]);
    }
  }

  lemma QuotientAccepts(d: Dfa, e: Dfa, cls: seq<nat>, p: nat, w: Word)
    requires IsQuotient(d, e, cls) && p < d.size && IsWord(w)
    ensures AcceptsFrom(e, cls[p], w) <==> AcceptsFrom(d, p, w)
  {
    QuotientRun(d, e, cls, p, w);
  }

  /** State i of the quotient does what state p did exactly if i is the number of the class of p: to give it another
      number, as that of a representative, changes what the machine accepts. */
  lemma OnlyTheIndexFits(d: Dfa, e: Dfa, cls: seq<nat>, p: nat, i: nat)
    requires IsQuotient(d, e, cls) && MergesEquivalent(d, cls) && p < d.size && i < e.size
    ensures (forall w | IsWord(w) :: AcceptsFrom(e, i, w) <==> AcceptsFrom(d, p, w)) <==> i == cls[p]
  {
    forall w | IsWord(w) ensures AcceptsFrom(e, cls[p], w) <==> AcceptsFrom(d, p, w) {
      QuotientAccepts(d, e, cls, p, w);
    }
    assert Hit(cls, i);
    var q: nat :| q < |cls| && cls[q] == i;
    if forall w | IsWord(w) :: AcceptsFrom(e, i, w) <==> AcceptsFrom(d, p, w) {
      forall w | IsWord(w) ensures AcceptsFrom(d, q, w) <==> AcceptsFrom(d, p, w) {
        QuotientAccepts(d, e, cls, q, w);
      }
      assert Equivalent(d, q, p);
    }
  }

  lemma QuotientReached(d: Dfa, e: Dfa, cls: seq<nat>)
    requires IsQuotient(d, e, cls) && AllReached(d)
    ensures AllReached(e)
  {
    forall i: nat | i < e.size ensures Reaches(e, i) {
      assert Hit(cls, i);
      var p: nat :| p < |cls| && cls[p] == i;
      assert Reaches(d, p);
      var w :| IsWord(w) && Run(d, d.initial, w) == p;
      QuotientRun(d, e, cls, d.initial, w);
      assert Run(e, e.initial, w) == i;
    }
  }

  /** No two states of the machine have the same residual language. */
  ghost predicate Reduced(d: Dfa) {
    forall p: nat, q: nat | p < d.size && q < d.size && Equivalent(d, p, q) :: p == q
  }

  /** `cls` merges exactly the states with the same residual language. */
  ghost predicate MergesEquivalent(d: Dfa, cls: seq<nat>) {
    && |cls| == d.size
    && forall p: nat, q: nat | p < d.size && q < d.size :: cls[p] == cls[q] <==> Equivalent(d, p, q)
  }

  lemma QuotientReduced(d: Dfa, e: Dfa, cls: seq<nat>)
    requires IsQuotient(d, e, cls) && MergesEquivalent(d, cls)
    ensures Reduced(e)
  {
    forall i: nat, j: nat | i < e.size && j < e.size && Equivalent(e, i, j) ensures i == j {
      assert Hit(cls, i) && Hit(cls, j);
      var p: nat :| p < |cls| && cls[p] == i;
      var q: nat :| q < |cls| && cls[q] == j;
      forall w | IsWord(w) ensures AcceptsFrom(d, p, w) <==> AcceptsFrom(d, q, w) {
        QuotientAccepts(d, e, cls, p, w);
        QuotientAccepts(d, e, cls, q, w);
      }
      assert Equivalent(d, p, q);
    }
  }

  ghost predicate SameDfaLanguage(d: Dfa, e: Dfa) {
    forall w | IsWord(w) :: AcceptsFrom(d, d.initial, w) <==> AcceptsFrom(e, e.initial, w)
  }

  /** A word that reaches state p. */
  ghost function Access(d: Dfa, p: nat): Word
    requires Reaches(d, p)
    ensures IsWord(Access(d, p)) && Run(d, d.initial, Access(d, p)) == p
  {
    var w :| IsWord(w) && Run(d, d.initial, w) == p;
    w
  }

  /** Words that lead one machine to one state lead any reduced machine for the same language to one state. */
  lemma ReducedFollows(d: Dfa, e: Dfa, u: Word, v: Word)
    requires d.Valid() && e.Valid() && Reduced(d) && SameDfaLanguage(d, e) && IsWord(u) && IsWord(v)
    requires Run(e, e.initial, u) == Run(e, e.initial, v)
    ensures Run(d, d.initial, u) == Run(d, d.initial, v)
  {
    var p, q := Run(d, d.initial, u), Run(d, d.initial, v);
    RunStays(d, d.initial, u);
    RunStays(d, d.initial, v);
    forall w | IsWord(w) ensures AcceptsFrom(d, p, w) <==> AcceptsFrom(d, q, w) {
      WordsJoin(u, w);
      WordsJoin(v, w);
      RunJoin(d, d.initial, u, w);
      RunJoin(d, d.initial, v, w);
      RunJoin(e, e.initial, u, w);
      RunJoin(e, e.initial, v, w);
      assert AcceptsFrom(d, d.initial, u + w) <==> AcceptsFrom(e, e.initial, u + w);
      assert AcceptsFrom(d, d.initial, v + w) <==> AcceptsFrom(e, e.initial, v + w);
    }
    assert Equivalent(d, p, q);
  }

  lemma WordsJoin(u: Word, v: Word)
    requires IsWord(u) && IsWord(v)
    ensures IsWord(u + v)
  {
  }

  /** Where the states of d go in e, following access words. */
  ghost function Image(d: Dfa, e: Dfa): seq<nat>
    requires AllReached(d)
    ensures |Image(d, e)| == d.size
  {
    seq(d.size, (p: int) requires 0 <= p < d.size => assert Reaches(d, p); Run(e, e.initial, Access(d, p)))
  }

  lemma ImageIsInjective(d: Dfa, e: Dfa)
    requires d.Valid() && e.Valid() && AllReached(d) && Reduced(d) && SameDfaLanguage(d, e)
    ensures Unrepeated(Image(d, e)) && forall p: nat | p < d.size :: Image(d, e)[p] < e.size
  {
    var h := Image(d, e);
    forall p: nat | p < d.size ensures h[p] < e.size {
      assert Reaches(d, p);
      RunStays(e, e.initial, Access(d, p));
    }
    forall p: nat, q: nat | p < |h| && q < |h| && h[p] == h[q] ensures p == q {
      assert Reaches(d, p) && Reaches(d, q);
      ReducedFollows(d, e, Access(d, p), Access(d, q));
    }
  }

  /** Distinct numbers below n: no more than n of them. */
  lemma {:induction false} Pigeonhole(h: seq<nat>, n: nat)
    requires Unrepeated(h) && forall p: nat | p < |h| :: h[p] < n
    ensures |h| <= n
    decreases n
  {
    if |h| > 0 {
      assert h[0] < n;
      if i: nat :| i < |h| && h[i] == n - 1 {
        var g := h[..i] + h[i + 1..];
        forall p: nat | p < |g| ensures g[p] < n - 1 && g[p] == h[if p < i then p else p + 1] {
          assert h[if p < i then p else p + 1] != h[i];
        }
        Pigeonhole(g, n - 1);
      } else {
        forall p: nat | p < |h| ensures h[p] < n - 1 {
          assert h[p] != n - 1;
        }
        Pigeonhole(h, n - 1);
      }
    }
  }

  /** A reduced machine without unreachable states has the fewest states of all machines for its language. */
  lemma ReducedIsSmallest(d: Dfa, e: Dfa)
    requires d.Valid() && e.Valid() && AllReached(d) && Reduced(d) && SameDfaLanguage(d, e)
    ensures d.size <= e.size
  {
    ImageIsInjective(d, e);
    Pigeonhole(Image(d, e), e.size);
  }

  /** h renames the states of d to those of e. */
  ghost predicate Isomorphism(d: Dfa, e: Dfa, h: seq<nat>) {
    && |h| == d.size == e.size && Unrepeated(h)
    && (forall p: nat | p < d.size :: h[p] < e.size)
    && d.initial < |h| && h[d.initial] == e.initial
    && (forall p: nat, c: nat | p < d.size && IsLetter(c) :: d.next(p, c) < |h| && h[d.next(p, c)] == e.next(h[p], c))
    && (forall p: nat | p < d.size :: p in d.finals <==> h[p] in e.finals)
  }

  /** The reduced machine of a language is unique up to the names of its states. */
  lemma ReducedIsUnique(d: Dfa, e: Dfa)
    requires d.Valid() && e.Valid() && AllReached(d) && Reduced(d) && AllReached(e) && Reduced(e) &&
        SameDfaLanguage(d, e)
    ensures Isomorphism(d, e, Image(d, e))
  {
    ReducedIsSmallest(d, e);
    assert SameDfaLanguage(e, d);
    ReducedIsSmallest(e, d);
    ImageIsInjective(d, e);
    var h := Image(d, e);
    forall p: nat, c: nat | p < d.size && IsLetter(c) ensures d.next(p, c) < |h| && h[d.next(p, c)] == e.next(h[p], c) {
      assert Reaches(d, p);
      var w, q := Access(d, p), d.next(p, c);
      assert Reaches(d, q);
      RunLetter(d, w, c);
      RunLetter(e, w, c);
      WordsJoin(w, [c]);
      ImageOf(d, e, w + [c], q);
    }
    ImageOf(d, e, [], d.initial);
    forall p: nat | p < d.size ensures p in d.finals <==> h[p] in e.finals {
      assert Reaches(d, p);
      var w := Access(d, p);
      assert AcceptsFrom(d, d.initial, w) <==> AcceptsFrom(e, e.initial, w);
    }
  }

  lemma RunLetter(d: Dfa, w: Word, c: nat)
    ensures Run(d, d.initial, w + [c]) == d.next(Run(d, d.initial, w), c)
  {
    RunJoin(d, d.initial, w, [c]);
    assert Run(d, Run(d, d.initial, w), [c]) == Run(d, d.next(Run(d, d.initial, w), c), [c][1..]);
  }

  /** Any word that reaches p in d, not only the chosen one, leads e to the image of p. */
  lemma ImageOf(d: Dfa, e: Dfa, w: Word, p: nat)
    requires d.Valid() && e.Valid() && AllReached(d) && Reduced(e) && SameDfaLanguage(d, e) && p < d.size
    requires Run(d, d.initial, w) == p
    ensures IsWord(w) ==> Image(d, e)[p] == Run(e, e.initial, w)
  {
    assert Reaches(d, p);
    if IsWord(w) {
      assert SameDfaLanguage(e, d);
      ReducedFollows(e, d, w, Access(d, p));
    }
  }
}
