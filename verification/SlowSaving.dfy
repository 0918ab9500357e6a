/** Writing a slow scanner to a stream, cells flattened behind their prefix sums, and reading or mapping it back. */
module SlowSaving {
  import opened Automaton
  import opened Cells
  import opened Options
  import opened SlowScanners

  const VERSION: nat := 3
  const HEADER_SIZE: nat := 5

  // ---- flattening ----

  /** How many targets the first n cells hold. */
  function SumAt(vec: seq<seq<nat>>, n: nat): nat
    requires n <= |vec|
  {
    if n == 0 then 0 else SumAt(vec, n - 1) + |vec[n - 1]|
  }

  function Sums(vec: seq<seq<nat>>): (sums: seq<nat>)
    ensures |sums| == |vec| + 1 && forall i: nat | i <= |vec| :: sums[i] == SumAt(vec, i)
  {
    seq(|vec| + 1, i requires 0 <= i <= |vec| => SumAt(vec, i))
  }

  /** The targets of the first n cells, one after the other. */
  function Flat(vec: seq<seq<nat>>, n: nat): (flat: seq<nat>)
    requires n <= |vec|
    ensures |flat| == SumAt(vec, n)
  {
    if n == 0 then [] else Flat(vec, n - 1) + vec[n - 1]
  }

  lemma {:induction false} SumsGrow(vec: seq<seq<nat>>, i: nat, n: nat)
    requires i <= n <= |vec|
    ensures SumAt(vec, i) <= SumAt(vec, n)
    decreases n - i
  {
    if i < n {
      SumsGrow(vec, i, n - 1);
    }
  }

  /** Cutting at the prefix sums gives the cells back. */
  lemma {:induction false} CutGivesCell(vec: seq<seq<nat>>, i: nat, n: nat)
    requires i < n <= |vec|
    ensures SumAt(vec, i) <= SumAt(vec, i + 1) <= SumAt(vec, n) == |Flat(vec, n)|
    ensures Flat(vec, n)[SumAt(vec, i)..SumAt(vec, i + 1)] == vec[i]
    decreases n
  {
    SumsGrow(vec, i + 1, n);
    if i < n - 1 {
      CutGivesCell(vec, i, n - 1);
      assert Flat(vec, n)[SumAt(vec, i)..SumAt(vec, i + 1)] == Flat(vec, n - 1)[SumAt(vec, i)..SumAt(vec, i + 1)];
    }
  }

  // ---- the stream ----

  /** What is written of a scanner. */
  datatype Image = Image(statesCount: nat, lettersCount: nat, start: nat, letters: seq<nat>, finals: seq<bool>,
      vec: seq<seq<nat>>)

  ghost predicate Shaped(i: Image) {
    |i.letters| == MAX_CHAR && |i.finals| == i.statesCount && |i.vec| == CellCount(i.statesCount, i.lettersCount)
  }

  function ImageOf(sc: SlowScanner): Image
    reads sc
  {
    Image(sc.statesCount, sc.lettersCount, sc.start, sc.letters, sc.finals, sc.vec)
  }

  function Numbers(bits: seq<bool>): (s: seq<nat>)
    ensures |s| == |bits|
  {
    seq(|bits|, i requires 0 <= i < |bits| => if bits[i] then 1 else 0)
  }

  /** The stream, without its padding. */
  function Saved(i: Image): seq<nat> {
    [VERSION, i.statesCount, i.lettersCount, i.start, 0] + i.letters + Numbers(i.finals) + Sums(i.vec) +
        Flat(i.vec, |i.vec|)
  }

  const SAVED_EMPTY: seq<nat> := [VERSION, 0, 0, 0, 1]

  method Save(sc: Option<SlowScanner>) returns (stream: seq<nat>)
    requires sc.Some? ==> !sc.value.flat
    ensures stream == if sc.Some? then Saved(ImageOf(sc.value)) else SAVED_EMPTY
    ensures sc.None? ==> stream == [3, 0, 0, 0, 1]
    ensures sc.Some? ==>
      stream == [3, sc.value.statesCount, sc.value.lettersCount, sc.value.start, 0] + sc.value.letters +
          Numbers(sc.value.finals) + Sums(sc.value.vec) + Flat(sc.value.vec, |sc.value.vec|)
  {
    hide Sums, Flat, Numbers;
    if sc.None? {
      return SAVED_EMPTY;
    }
    var s := sc.value;
    stream := [VERSION, s.statesCount, s.lettersCount, s.start, 0] + s.letters + Numbers(s.finals);
    var sums := WriteSums(s.vec);
    stream := stream + sums;
    var cells := WriteCells(s.vec);
    stream := stream + cells;
  }

  method WriteSums(vec: seq<seq<nat>>) returns (sums: seq<nat>)
    ensures sums == Sums(vec)
  {
    hide Sums, SumAt;
    var c: nat := 0;
    sums := [0];
    NextSum(vec, 0);
    for i: nat := 0 to |vec|
      invariant c == SumAt(vec, i) && |sums| == i + 1 && forall j: nat | j <= i :: sums[j] == SumAt(vec, j)
    {
      NextSum(vec, i);
      var n := c + |vec[i]|;
      sums := sums + [n];
      c := n;
    }
    AreSums(vec, sums);
  }

  lemma NextSum(vec: seq<seq<nat>>, i: nat)
    ensures SumAt(vec, 0) == 0
    ensures i < |vec| ==> SumAt(vec, i + 1) == SumAt(vec, i) + |vec[i]|
  {
  }

  lemma AreSums(vec: seq<seq<nat>>, sums: seq<nat>)
    requires |sums| == |vec| + 1 && forall j: nat | j <= |vec| :: sums[j] == SumAt(vec, j)
    ensures sums == Sums(vec)
  {
    hide SumAt;
  }

  method WriteCells(vec: seq<seq<nat>>) returns (out: seq<nat>)
    ensures out == Flat(vec, |vec|)
  {
    out := [];
    for i: nat := 0 to |vec|
      invariant out == Flat(vec, i)
    {
      if vec[i] != [] {
        out := out + vec[i];
      } else {
        assert Flat(vec, i) + vec[i] == Flat(vec, i);
      }
    }
  }

  /** Where the sections of a stream begin. */
  function LettersAt(): nat { HEADER_SIZE }

  function FinalsAt(): nat { HEADER_SIZE + MAX_CHAR }

  function SumsAt(states: nat): nat { FinalsAt() + states }

  function JumpsAt(states: nat, classes: nat): nat { SumsAt(states) + CellCount(states, classes) + 1 }

  lemma SectionsInOrder()
    ensures HEADER_SIZE == LettersAt() <= FinalsAt()
    ensures forall states: nat :: FinalsAt() + states == SumsAt(states)
    ensures forall states: nat, classes: nat :: SumsAt(states) < JumpsAt(states, classes)
  {
    hide CellCount;
  }

  lemma SavedSections(i: Image)
    requires Shaped(i)
    ensures var s := Saved(i);
      && |s| == JumpsAt(i.statesCount, i.lettersCount) + SumAt(i.vec, |i.vec|)
      && s[0] == VERSION && s[1] == i.statesCount && s[2] == i.lettersCount && s[3] == i.start && s[4] == 0
      && s[LettersAt()..FinalsAt()] == i.letters
      && s[FinalsAt()..SumsAt(i.statesCount)] == Numbers(i.finals)
      && s[SumsAt(i.statesCount)..JumpsAt(i.statesCount, i.lettersCount)] == Sums(i.vec)
      && s[JumpsAt(i.statesCount, i.lettersCount)..] == Flat(i.vec, |i.vec|)
  {
    hide CellCount;
  }

  /** No scanner if the stream does not begin like one; an empty one, or the scanner. */
  datatype Loaded = Malformed | EmptyScanner | LoadedScanner(sc: SlowScanner)

  method Load(stream: seq<nat>, ghost i: Image) returns (r: Loaded)
    ensures stream == SAVED_EMPTY ==> r == EmptyScanner
    ensures Shaped(i) && stream == Saved(i) ==> r.LoadedScanner? && fresh(r.sc) && !r.sc.flat && ImageOf(r.sc) == i
  {
    hide CellCount, Saved, Sums, Flat, SumAt, JumpsAt, SumsAt, FinalsAt, LettersAt;
    SectionsInOrder();
    if Shaped(i) && stream == Saved(i) { SavedSections(i); }
    if |stream| < HEADER_SIZE || stream[0] != VERSION {
      return Malformed;
    }
    if stream[4] != 0 {
      return EmptyScanner;
    }
    var states, classes := stream[1], stream[2];
    if |stream| < JumpsAt(states, classes) {
      return Malformed;
    }
    var sc := new SlowScanner();
    sc.flat, sc.statesCount, sc.lettersCount, sc.start := false, states, classes, stream[3];
    sc.letters := stream[LettersAt()..FinalsAt()];
    var marks := stream[FinalsAt()..SumsAt(states)];
    sc.finals := seq(states, j requires 0 <= j < |marks| => marks[j] != 0);
    var sums := stream[SumsAt(states)..JumpsAt(states, classes)];
    var sizes, ok := CellSizes(sums, i.vec);
    if !ok {
      return Malformed;
    }
    sc.vec, ok := ReadCells(sizes, stream[JumpsAt(states, classes)..], i.vec);
    if !ok {
      return Malformed;
    }
    if Shaped(i) && stream == Saved(i) {
      assert sc.finals == i.finals;
    }
    return LoadedScanner(sc);
  }

  /** The sizes of the cells from their prefix sums. */
  method CellSizes(sums: seq<nat>, ghost vec: seq<seq<nat>>) returns (sizes: seq<nat>, ok: bool)
    requires |sums| > 0
    ensures sums == Sums(vec) ==> ok && |sizes| == |vec| && forall j: nat | j < |vec| :: sizes[j] == |vec[j]|
  {
    sizes, ok := [], true;
    var c := sums[0];
    for k: nat := 1 to |sums|
      invariant c == sums[k - 1] && |sizes| == k - 1
      invariant sums == Sums(vec) ==> ok && forall j: nat | j < k - 1 :: sizes[j] == |vec[j]|
    {
      var n := sums[k];
      if n < c {
        return sizes, false;
      }
      if sums == Sums(vec) { assert SumAt(vec, k) == SumAt(vec, k - 1) + |vec[k - 1]|; }
      sizes := sizes + [n - c];
      c := n;
    }
  }

  /** Reads one cell after the other. */
  method ReadCells(sizes: seq<nat>, jumps: seq<nat>, ghost vec: seq<seq<nat>>) returns (cells: seq<seq<nat>>, ok: bool)
    ensures |sizes| == |vec| && (forall j: nat | j < |vec| :: sizes[j] == |vec[j]|) && jumps == Flat(vec, |vec|) ==>
        ok && cells == vec
  {
    cells, ok := [], true;
    var at: nat := 0;
    ghost var right := |sizes| == |vec| && (forall j: nat | j < |vec| :: sizes[j] == |vec[j]|) &&
        jumps == Flat(vec, |vec|);
    for k: nat := 0 to |sizes|
      invariant at <= |jumps| && |cells| == k
      invariant right ==> at == SumAt(vec, k) && cells == vec[..k]
    {
      if right { CutGivesCell(vec, k, |vec|); }
      if |jumps| - at < sizes[k] {
        return cells, false;
      }
      cells := cells + [jumps[at..at + sizes[k]]];
      at := at + sizes[k];
    }
  }

  /** Maps the stream: nothing is copied, cells are cut out of the flat array on every step. */
  method Mmap(stream: seq<nat>, ghost i: Image) returns (r: Loaded)
    ensures stream == SAVED_EMPTY ==> r == EmptyScanner
    ensures Shaped(i) && stream == Saved(i) ==> r.LoadedScanner? && fresh(r.sc) && r.sc.flat && MapsTo(r.sc, i)
  {
    hide CellCount, Saved, Sums, Flat, SumAt, JumpsAt, SumsAt, FinalsAt, LettersAt;
    SectionsInOrder();
    if Shaped(i) && stream == Saved(i) { SavedSections(i); }
    if |stream| < HEADER_SIZE || stream[0] != VERSION {
      return Malformed;
    }
    if stream[4] != 0 {
      return EmptyScanner;
    }
    var states, classes := stream[1], stream[2];
    if |stream| < JumpsAt(states, classes) {
      return Malformed;
    }
    var sc := new SlowScanner();
    sc.flat, sc.statesCount, sc.lettersCount, sc.start := true, states, classes, stream[3];
    sc.letters := stream[LettersAt()..FinalsAt()];
    var marks := stream[FinalsAt()..SumsAt(states)];
    sc.finals := seq(states, j requires 0 <= j < |marks| => marks[j] != 0);
    sc.jumpPos := stream[SumsAt(states)..JumpsAt(states, classes)];
    var size := sc.jumpPos[|sc.jumpPos| - 1];
    if |stream| < JumpsAt(states, classes) + size {
      return Malformed;
    }
    sc.jumps := stream[JumpsAt(states, classes)..JumpsAt(states, classes) + size];
    if Shaped(i) && stream == Saved(i) {
      MarksBack(i.finals, sc.finals);
      assert stream[JumpsAt(states, classes)..] == sc.jumps;
      MappedCells(sc, i);
    }
    return LoadedScanner(sc);
  }

  lemma MarksBack(finals: seq<bool>, read: seq<bool>)
    requires |read| == |finals| && forall j: nat | j < |finals| :: read[j] <==> Numbers(finals)[j] != 0
    ensures read == finals
  {
  }

  /** A mapped scanner finds in every cell the list that was saved. */
  ghost predicate MapsTo(sc: SlowScanner, i: Image)
    reads sc
  {
    && sc.statesCount == i.statesCount && sc.lettersCount == i.lettersCount && sc.start == i.start
    && sc.letters == i.letters && sc.finals == i.finals
    && CellsCut(sc.jumpPos, sc.jumps, |i.vec|)
    && forall c: nat | c < |i.vec| :: sc.Targets(c) == i.vec[c]
  }

  lemma MappedCells(sc: SlowScanner, i: Image)
    requires Shaped(i) && sc.flat && sc.jumpPos == Sums(i.vec) && sc.jumps == Flat(i.vec, |i.vec|)
    ensures CellsCut(sc.jumpPos, sc.jumps, |i.vec|) && forall c: nat | c < |i.vec| :: sc.Targets(c) == i.vec[c]
  {
    forall a: nat, b: nat | a <= b < |sc.jumpPos| ensures sc.jumpPos[a] <= sc.jumpPos[b] {
      SumsGrow(i.vec, a, b);
    }
    forall c: nat | c < |i.vec| ensures sc.Targets(c) == i.vec[c] {
      CutGivesCell(i.vec, c, |i.vec|);
    }
  }

  /** A mapped scanner steps exactly like the one that was saved. */
  lemma MappedFollows(original: SlowScanner, mapped: SlowScanner, a: Nfa)
    requires original.Follows(a) && !original.flat && mapped.flat && MapsTo(mapped, ImageOf(original))
    ensures mapped.Follows(a)
  {
    forall p: nat, c: nat | p < original.statesCount && c < MAX_CHAR
        ensures mapped.TargetsOf(p, c) == original.TargetsOf(p, c) {
      CellInRange(p, original.letters[c], original.statesCount, original.lettersCount);
    }
    forall i: nat, q: nat | i < CellCount(mapped.statesCount, mapped.lettersCount) && q in mapped.Targets(i)
        ensures q < mapped.statesCount {
      assert q in original.Targets(i);
    }
  }
}
