/** What appending letters and strings accepts. */
module Appending {
  import opened Automaton
  import opened RegularLanguages

  /** c accepts the words of a followed by one of `tails`. */
  ghost predicate AcceptsThen(c: Nfa, a: Nfa, tails: iset<Word>) {
    forall w :: Accepts(c, w) <==> InAppended(a, tails, w)
  }

  ghost predicate InAppended(a: Nfa, tails: iset<Word>, w: Word) {
    exists u, v :: w == u + v && Accepts(a, u) && v in tails
  }

  /** Attaching accepts a and then the tails that the attached part reads. */
  lemma AttachedThen(a: Nfa, size: nat, first: set<Step>, rest: set<Edge>, finals: set<nat>, tails: iset<Word>)
    requires Attaches(a, first, rest, finals)
    requires forall v :: AcceptsStepping(first, rest, finals, v) <==> v in tails
    ensures AcceptsThen(Attached(a, size, first, rest, finals), a, tails)
  {
    hide Accepts, Attached, AcceptsStepping, Attaches;
    forall w ensures Accepts(Attached(a, size, first, rest, finals), w) <==> InAppended(a, tails, w) {
      AttachedLanguage(a, size, first, rest, finals, w);
      if InAttached(a, first, rest, finals, w) {
        var u, v :| w == u + v && Accepts(a, u) && AcceptsStepping(first, rest, finals, v);
        assert v in tails;
      }
      if InAppended(a, tails, w) {
        var u, v :| w == u + v && Accepts(a, u) && v in tails;
        assert AcceptsStepping(first, rest, finals, v);
      }
    }
  }

  // ---- attaching step by step ----

  /** Half way: steps and edges are in place, the final states of a still final. */
  function Attaching(a: Nfa, size: nat, first: set<Step>, rest: set<Edge>): Nfa {
    Nfa(size, a.edges + rest + Bridges(a.finals, first), a.initial, a.finals)
  }

  lemma AttachingStarts(a: Nfa, size: nat)
    ensures a.(size := size) == Attaching(a, size, {}, {})
  {
    OneMoreBridge(a.finals, {}, 0, 0);
  }

  lemma AttachingStep(a: Nfa, size: nat, first: set<Step>, rest: set<Edge>, c: nat, to: nat)
    ensures Attaching(a, size, first + {Step(c, to)}, rest)
      == Attaching(a, size, first, rest).(edges := Attaching(a, size, first, rest).edges + EdgesFrom(a.finals, c, to))
  {
    hide Bridges, EdgesFrom;
    OneMoreBridge(a.finals, first, c, to);
    var one := Bridges(a.finals, first + {Step(c, to)});
    assert a.edges + rest + one == a.edges + rest + Bridges(a.finals, first) + EdgesFrom(a.finals, c, to);
  }

  lemma AttachingEdge(a: Nfa, size: nat, first: set<Step>, rest: set<Edge>, e: Edge)
    ensures Attaching(a, size, first, rest + {e})
      == Attaching(a, size, first, rest).(edges := Attaching(a, size, first, rest).edges + {e})
  {
    hide Bridges;
    assert a.edges + (rest + {e}) + Bridges(a.finals, first) == a.edges + rest + Bridges(a.finals, first) + {e};
  }

  lemma AttachingShape(a: Nfa, size: nat, first: set<Step>, rest: set<Edge>)
    ensures Attaching(a, size, first, rest).size == size
    ensures Attaching(a, size, first, rest).initial == a.initial && Attaching(a, size, first, rest).finals == a.finals
    ensures forall more: nat :: Attaching(a, more, first, rest) == Attaching(a, size, first, rest).(size := more)
    ensures forall finals :: Attached(a, size, first, rest, finals) == Attaching(a, size, first,
        rest).(finals := finals)
  {
  }

  // ---- letters ----

  function LetterSteps(cs: set<nat>, to: nat): set<Step> {
    set c | c in cs :: Step(c, to)
  }

  ghost function LetterWords(cs: set<nat>): iset<Word> {
    iset c | c in cs :: Read(c)
  }

  lemma LettersStep(cs: set<nat>, to: nat, v: Word)
    ensures AcceptsStepping(LetterSteps(cs, to), {}, {to}, v) <==> v in LetterWords(cs)
  {
    if AcceptsStepping(LetterSteps(cs, to), {}, {to}, v) {
      var s: Step, x: Word, f: nat :| s in LetterSteps(cs, to) && v == Read(s.letter) + x && f in {to} &&
          Leads({}, s.to, x, f);
      LeadsCases({}, s.to, x, f);
      assert v == Read(s.letter);
    }
    if v in LetterWords(cs) {
      var c :| c in cs && v == Read(c);
      LeadsNowhere({}, to);
      assert Step(c, to) in LetterSteps(cs, to) && v == Read(c) + [] && to in {to} && Leads({}, to, [], to);
    }
  }

  lemma LettersThen(a: Nfa, cs: set<nat>)
    requires a.Valid()
    ensures AcceptsThen(Attached(a, a.size + 1, LetterSteps(cs, a.size), {}, {a.size}), a, LetterWords(cs))
  {
    hide AcceptsStepping, AcceptsThen, LetterWords, Attached;
    forall v ensures AcceptsStepping(LetterSteps(cs, a.size), {}, {a.size}, v) <==> v in LetterWords(cs) {
      LettersStep(cs, a.size, v);
    }
    AttachedThen(a, a.size + 1, LetterSteps(cs, a.size), {}, {a.size}, LetterWords(cs));
  }

  lemma OneLetterStep(c: nat, to: nat)
    ensures LetterSteps({}, to) == {} && forall cs: set<nat> ::
        LetterSteps(cs + {c}, to) == LetterSteps(cs, to) + {Step(c, to)}
  {
    forall cs: set<nat> ensures LetterSteps(cs + {c}, to) == LetterSteps(cs, to) + {Step(c, to)} {
    }
  }

  lemma OneLetterThen(b: Nfa, a: Nfa, c: nat)
    requires AcceptsThen(b, a, LetterWords({c}))
    ensures AcceptsThen(b, a, iset{Read(c)})
  {
    assert LetterWords({c}) == iset{Read(c)} by {
      assert c in {c};
    }
  }

  /** One byte, whichever: the words of the dot. */
  lemma ByteWords(cs: set<nat>)
    requires forall b: nat :: b in cs <==> b < 256
    ensures LetterWords(cs) == iset v: Word | |v| == 1 && v[0] < 256
  {
    forall v: Word ensures v in LetterWords(cs) <==> |v| == 1 && v[0] < 256 {
      if |v| == 1 && v[0] < 256 {
        assert v[0] in cs && v == Read(v[0]);
      }
    }
  }

  lemma NothingThen(a: Nfa)
    ensures AcceptsThen(a, a, iset{[]})
  {
    forall w ensures Accepts(a, w) <==> InAppended(a, iset{[]}, w) {
      var none: Word := [];
      assert w == w + none && none in iset{none};
      if InAppended(a, iset{[]}, w) {
        var u, v :| w == u + v && Accepts(a, u) && v in iset{[]};
        assert u + [] == u;
      }
    }
  }

  lemma OneLetterMore(c: Nfa, b: Nfa, a: Nfa, str: Word, x: nat)
    requires AcceptsThen(b, a, iset{str}) && AcceptsThen(c, b, iset{Read(x)})
    ensures AcceptsThen(c, a, iset{str + Read(x)})
  {
    hide Accepts;
    forall w ensures Accepts(c, w) <==> InAppended(a, iset{str + Read(x)}, w) {
      if Accepts(c, w) {
        assert InAppended(b, iset{Read(x)}, w);
        var u, v :| w == u + v && Accepts(b, u) && v in iset{Read(x)};
        assert InAppended(a, iset{str}, u);
        var t, s :| u == t + s && Accepts(a, t) && s in iset{str};
        assert w == t + (str + Read(x));
      }
      if InAppended(a, iset{str + Read(x)}, w) {
        var u, v :| w == u + v && Accepts(a, u) && v in iset{str + Read(x)};
        assert InAppended(a, iset{str}, u + str);
        assert w == (u + str) + Read(x);
      }
    }
  }

  // ---- tries ----

  /** What a set of strings attaches: first steps, further edges, and the string that leads to each node. */
  datatype Trie = Trie(first: set<Step>, rest: set<Edge>, labels: map<nat, Word>)

  const NO_TRIE := Trie({}, {}, map[])

  /** Edges lead to the node named by the longer string, or to the end if that is one of the strings. */
  ghost predicate IsTrie(t: Trie, end: nat, strings: iset<Word>) {
    && end !in t.labels
    && (forall s | s in t.first :: s.letter != EPSILON && LeadsToLabel(t, end, strings, s.to, [s.letter]))
    && (forall e | e in t.rest ::
          && e.letter != EPSILON && e.from in t.labels
          && LeadsToLabel(t, end, strings, e.to, t.labels[e.from] + [e.letter]))
  }

  ghost predicate LeadsToLabel(t: Trie, end: nat, strings: iset<Word>, to: nat, name: Word) {
    if to == end then name in strings else to in t.labels && t.labels[to] == name
  }

  lemma {:induction false} TriePath(t: Trie, end: nat, strings: iset<Word>, p: nat, path: Path)
    requires IsTrie(t, end, strings) && p in t.labels && IsPath(t.rest, p, path, end)
    ensures t.labels[p] + Label(path) in strings
    decreases |path|
  {
    var e, tail: Path := path[0], path[1..];
    assert t.labels[p] + ([e.letter] + Label(tail)) == (t.labels[p] + [e.letter]) + Label(tail);
    if e.to == end {
      assert tail == [];
      assert t.labels[p] + [e.letter] + [] == t.labels[p] + [e.letter];
    } else {
      TriePath(t, end, strings, e.to, tail);
    }
  }

  /** A trie reads only its strings. */
  lemma TrieReads(t: Trie, end: nat, strings: iset<Word>, w: Word)
    requires IsTrie(t, end, strings) && AcceptsStepping(t.first, t.rest, {end}, w)
    ensures w in strings
  {
    var s: Step, v: Word, f: nat :| s in t.first && w == Read(s.letter) + v && f in {end} && Leads(t.rest, s.to, v, f);
    var path :| IsPath(t.rest, s.to, path, end) && Label(path) == v;
    if s.to == end {
      assert path == [];
      assert w == [s.letter] + [] == [s.letter];
    } else {
      TriePath(t, end, strings, s.to, path);
    }
  }

  /** t grows: nothing is taken back. */
  ghost predicate GrowsTo(t: Trie, u: Trie) {
    && t.first <= u.first && t.rest <= u.rest
    && (forall p | p in t.labels :: p in u.labels && u.labels[p] == t.labels[p])
  }

  ghost predicate ReadsAll(t: Trie, end: nat, strings: iset<Word>) {
    forall s | s in strings :: AcceptsStepping(t.first, t.rest, {end}, s)
  }

  lemma ReadsAllGrows(t: Trie, u: Trie, end: nat, strings: iset<Word>)
    requires ReadsAll(t, end, strings) && GrowsTo(t, u)
    ensures ReadsAll(u, end, strings)
  {
    hide AcceptsStepping;
    forall s | s in strings ensures AcceptsStepping(u.first, u.rest, {end}, s) {
      SteppingGrows(t.first, t.rest, u.first, u.rest, {end}, s);
    }
  }

  datatype Jump = Jump(from: nat, letter: nat)

  /** The local tables of the construction name existing nodes. */
  ghost predicate Indexes(startLtr: map<nat, nat>, ltr: map<Jump, nat>, t: Trie) {
    && (forall c: nat | c in startLtr ::
        startLtr[c] in t.labels && t.labels[startLtr[c]] == [c] && Step(c, startLtr[c]) in t.first)
    && (forall j | j in ltr ::
          && j.from in t.labels && ltr[j] in t.labels
          && t.labels[ltr[j]] == t.labels[j.from] + [j.letter]
          && Edge(j.from, j.letter, ltr[j]) in t.rest)
  }

  /** Everything attached lies behind a. */
  ghost predicate NodesWithin(t: Trie, end: nat, size: nat) {
    && end < size
    && (forall p | p in t.labels :: end < p < size)
    && (forall s | s in t.first :: end <= s.to < size)
    && (forall e | e in t.rest :: end <= e.from < size && end <= e.to < size)
  }

  /** What holds between strings: t reads exactly the strings done, and the local tables index it. */
  ghost predicate Building(t: Trie, end: nat, size: nat, startLtr: map<nat, nat>, ltr: map<Jump, nat>,
      done: iset<Word>) {
    && IsTrie(t, end, done)
    && ReadsAll(t, end, done)
    && NodesWithin(t, end, size)
    && Indexes(startLtr, ltr, t)
  }

  lemma EmptyTrie(end: nat)
    ensures Building(NO_TRIE, end, end + 1, map[], map[], iset{})
  {
  }

  lemma NodeWithin(t: Trie, end: nat, size: nat, startLtr: map<nat, nat>, ltr: map<Jump, nat>, done: iset<Word>, p: nat)
    requires Building(t, end, size, startLtr, ltr, done) && p in t.labels
    ensures end < p < size
  {
  }

  lemma FirstAdded(t: Trie, end: nat, size: nat, startLtr: map<nat, nat>, ltr: map<Jump, nat>, done: iset<Word>,
      c: nat) returns (u: Trie)
    requires Building(t, end, size, startLtr, ltr, done) && c != EPSILON && c !in startLtr
    ensures u == Trie(t.first + {Step(c, size)}, t.rest, t.labels[size := [c]])
    ensures Building(u, end, size + 1, startLtr[c := size], ltr, done)
  {
    hide ReadsAll, AcceptsStepping;
    u := Trie(t.first + {Step(c, size)}, t.rest, t.labels[size := [c]]);
    ReadsAllGrows(t, u, end, done);
  }

  lemma InnerAdded(t: Trie, end: nat, size: nat, startLtr: map<nat, nat>, ltr: map<Jump, nat>, done: iset<Word>,
      p: nat, c: nat) returns (u: Trie)
    requires Building(t, end, size, startLtr, ltr, done) && c != EPSILON && p in t.labels
    ensures u == Trie(t.first, t.rest + {Edge(p, c, size)}, t.labels[size := t.labels[p] + [c]])
    ensures Building(u, end, size + 1, startLtr, ltr[Jump(p, c) := size], done)
  {
    hide ReadsAll, AcceptsStepping;
    u := Trie(t.first, t.rest + {Edge(p, c, size)}, t.labels[size := t.labels[p] + [c]]);
    ReadsAllGrows(t, u, end, done);
  }

  lemma LastAdded(t: Trie, end: nat, size: nat, startLtr: map<nat, nat>, ltr: map<Jump, nat>, done: iset<Word>,
      p: nat, c: nat) returns (u: Trie)
    requires Building(t, end, size, startLtr, ltr, done) && c != EPSILON && p in t.labels
    requires AcceptsStepping(t.first, t.rest, {p}, t.labels[p])
    ensures u == Trie(t.first, t.rest + {Edge(p, c, end)}, t.labels)
    ensures Building(u, end, size, startLtr, ltr, done + iset{t.labels[p] + [c]})
  {
    hide AcceptsStepping;
    u := Trie(t.first, t.rest + {Edge(p, c, end)}, t.labels);
    ReadsAllGrows(t, u, end, done);
    SteppingGrows(t.first, t.rest, u.first, u.rest, {p}, t.labels[p]);
    SteppingContinues(u.first, u.rest, t.labels[p], Edge(p, c, end));
  }

  lemma OnlyAdded(t: Trie, end: nat, size: nat, startLtr: map<nat, nat>, ltr: map<Jump, nat>, done: iset<Word>,
      c: nat) returns (u: Trie)
    requires Building(t, end, size, startLtr, ltr, done) && c != EPSILON
    ensures u == Trie(t.first + {Step(c, end)}, t.rest, t.labels)
    ensures Building(u, end, size, startLtr, ltr, done + iset{[c]})
  {
    hide AcceptsStepping;
    u := Trie(t.first + {Step(c, end)}, t.rest, t.labels);
    ReadsAllGrows(t, u, end, done);
    SteppingStarts(u.first, u.rest, c, end);
  }

  /** When all strings are in, exactly they follow a. */
  lemma TrieThen(a: Nfa, size: nat, t: Trie, startLtr: map<nat, nat>, ltr: map<Jump, nat>, strings: iset<Word>)
    requires a.Valid() && Building(t, a.size, size, startLtr, ltr, strings)
    ensures AcceptsThen(Attached(a, size, t.first, t.rest, {a.size}), a, strings)
  {
    hide AcceptsStepping, AcceptsThen, Attached, IsTrie;
    forall v ensures AcceptsStepping(t.first, t.rest, {a.size}, v) <==> v in strings {
      if AcceptsStepping(t.first, t.rest, {a.size}, v) {
        TrieReads(t, a.size, strings, v);
      }
    }
    AttachedThen(a, size, t.first, t.rest, {a.size}, strings);
  }

  lemma SteppingGrows(first: set<Step>, rest: set<Edge>, more: set<Step>, others: set<Edge>, finals: set<nat>, w: Word)
    requires first <= more && rest <= others && AcceptsStepping(first, rest, finals, w)
    ensures AcceptsStepping(more, others, finals, w)
  {
    hide Leads;
    var s: Step, v: Word, f: nat :| s in first && w == Read(s.letter) + v && f in finals && Leads(rest, s.to, v, f);
    LeadsGrows(rest, others, s.to, v, f);
    assert s in more && w == Read(s.letter) + v && f in finals && Leads(others, s.to, v, f);
  }

  lemma SteppingStarts(first: set<Step>, rest: set<Edge>, c: nat, to: nat)
    requires Step(c, to) in first && c != EPSILON
    ensures AcceptsStepping(first, rest, {to}, [c])
  {
    LeadsNowhere(rest, to);
    var s := Step(c, to);
    assert s in first && [c] == Read(s.letter) + [] && to in {to} && Leads(rest, s.to, [], to);
  }

  lemma SteppingContinues(first: set<Step>, rest: set<Edge>, w: Word, e: Edge)
    requires e in rest && e.letter != EPSILON && AcceptsStepping(first, rest, {e.from}, w)
    ensures AcceptsStepping(first, rest, {e.to}, w + [e.letter])
  {
    hide Leads;
    var s: Step, v: Word, f: nat :| s in first && w == Read(s.letter) + v && f in {e.from} && Leads(rest, s.to, v, f);
    LeadsLast(rest, s.to, v, e);
    assert w + [e.letter] == Read(s.letter) + (v + Read(e.letter));
  }
}
