/** The bytes on which a state is left, and how the words of a scanner row mark them. */
module Shortcuts {
  import opened Automaton
  import opened WordMasks

  /** The state has no shortcut. */
  const NO_SHORTCUT_MASK: Word64 := 1
  /** Every byte leads back to the state. */
  const NO_EXIT_MASK: Word64 := 2

  // ---- characters of a letter class ----

  /** The bytes below n that are translated to class k, in ascending order. */
  function CharsBelow(letters: seq<nat>, k: nat, n: nat): seq<nat>
    requires n <= |letters|
  {
    if n == 0 then []
    else if letters[n - 1] == k then CharsBelow(letters, k, n - 1) + [n - 1]
    else CharsBelow(letters, k, n - 1)
  }

  /** The bytes that leave state st by the classes below let. */
  function ExitsBelow(letters: seq<nat>, row: seq<nat>, st: nat, let: nat): seq<nat>
    requires BYTE_COUNT <= |letters| && let <= |row|
  {
    if let == 0 then []
    else if row[let - 1] != st then ExitsBelow(letters, row, st, let - 1) + CharsBelow(letters, let - 1, BYTE_COUNT)
    else ExitsBelow(letters, row, st, let - 1)
  }

  function Exits(letters: seq<nat>, row: seq<nat>, st: nat): seq<nat>
    requires BYTE_COUNT <= |letters|
  {
    ExitsBelow(letters, row, st, |row|)
  }

  lemma {:induction false} CharsAreInClass(letters: seq<nat>, k: nat, n: nat)
    requires n <= |letters|
    ensures forall c: nat :: c in CharsBelow(letters, k, n) <==> c < n && letters[c] == k
    ensures Unrepeated(CharsBelow(letters, k, n))
  {
    if n > 0 {
      CharsAreInClass(letters, k, n - 1);
    }
  }

  /** Exactly the bytes that leave the state, none twice. */
  lemma {:induction false} ExitsLeave(letters: seq<nat>, row: seq<nat>, st: nat, let: nat)
    requires BYTE_COUNT <= |letters| && let <= |row|
    ensures forall c: nat :: c in ExitsBelow(letters, row, st, let) <==>
        c < BYTE_COUNT && letters[c] < let && row[letters[c]] != st
    ensures Unrepeated(ExitsBelow(letters, row, st, let))
  {
    if let > 0 {
      ExitsLeave(letters, row, st, let - 1);
      CharsAreInClass(letters, let - 1, BYTE_COUNT);
      if row[let - 1] != st {
        var left, right := ExitsBelow(letters, row, st, let - 1), CharsBelow(letters, let - 1, BYTE_COUNT);
        forall c: nat ensures c in left + right <==> c in left || c in right {
        }
        JoinUnrepeated(left, right);
      }
    }
  }

  lemma JoinUnrepeated(left: seq<nat>, right: seq<nat>)
    requires Unrepeated(left) && Unrepeated(right) && forall c | c in left :: c !in right
    ensures Unrepeated(left + right)
  {
    var s := left + right;
    forall i: nat, j: nat | i < |s| && j < |s| && s[i] == s[j] ensures i == j {
      if i < |left| { assert s[i] in left; } else { assert s[i] in right; }
      if j < |left| { assert s[j] in left; } else { assert s[j] in right; }
    }
  }

  lemma ExitsAreBytes(letters: seq<nat>, row: seq<nat>, st: nat)
    requires BYTE_COUNT <= |letters|
    ensures forall i: nat | i < |Exits(letters, row, st)| :: Exits(letters, row, st)[i] < BYTE_COUNT
    ensures Unrepeated(Exits(letters, row, st))
  {
    var exits := Exits(letters, row, st);
    ExitsLeave(letters, row, st, |row|);
    forall i: nat | i < |exits| ensures exits[i] < BYTE_COUNT {
      assert exits[i] in exits;
    }
  }

  // ---- masks ----

  /** The masks of a row for the bytes that leave its state. */
  ghost predicate MasksMark(masks: seq<Word64>, exits: seq<nat>) {
    && (forall i: nat | i < |exits| :: exits[i] < BYTE_COUNT)
    && (|masks| > 0 ==>
          if |exits| > |masks| then masks[0] == NO_SHORTCUT_MASK
          else if exits == [] then forall j: nat | j < |masks| :: masks[j] == NO_EXIT_MASK
          else forall j: nat | j < |masks| :: masks[j] == Filled(ToByte(exits[if j < |exits| then j else |exits| - 1])))
  }

  /** The first mask says which case it is. */
  lemma FirstMaskTells(masks: seq<Word64>, exits: seq<nat>)
    requires MasksMark(masks, exits) && |masks| > 0
    ensures masks[0] == NO_EXIT_MASK <==> exits == []
    ensures masks[0] == NO_SHORTCUT_MASK <==> |exits| > |masks|
  {
    if exits != [] && |exits| <= |masks| {
      FilledIsNoMark(ToByte(exits[0]));
    }
  }

  /** Masks repeat only at the end, from the last exit on. */
  lemma EqualMasksAreLast(masks: seq<Word64>, exits: seq<nat>, n: nat)
    requires MasksMark(masks, exits) && Unrepeated(exits) && 0 < |exits| <= |masks| && n + 1 < |masks|
    ensures masks[n] == masks[n + 1] <==> |exits| <= n + 1
  {
    if n + 1 < |exits| {
      FilledInjective(ToByte(exits[n]), ToByte(exits[n + 1]));
      ByteOf(exits[n]);
      ByteOf(exits[n + 1]);
    }
  }

  /** Is some byte of the word among the first n exits? */
  ghost predicate LeavesBelow(w: Word64, exits: seq<nat>, n: nat) {
    exists i: nat :: i < n && i < |exits| && exits[i] < BYTE_COUNT && HasByte(w, ToByte(exits[i]))
  }

  /** Checks the masks up to n, the last first, as the unrolled comparison does. */
  function CheckMasks(masks: seq<Word64>, n: nat, chunk: Word64): bool
    requires n < |masks|
  {
    CheckBytes(masks[n], chunk) == 0 && (n > 0 ==> CheckMasks(masks, n - 1, chunk))
  }

  lemma {:induction false} CheckedBelow(masks: seq<Word64>, exits: seq<nat>, n: nat, chunk: Word64)
    requires MasksMark(masks, exits) && n < |exits| <= |masks|
    ensures CheckMasks(masks, n, chunk) <==> !LeavesBelow(chunk, exits, n + 1)
  {
    hide CheckBytes, HasByte, Filled;
    CheckFindsByte(ToByte(exits[n]), chunk);
    if n > 0 {
      CheckedBelow(masks, exits, n - 1, chunk);
    }
    if LeavesBelow(chunk, exits, n + 1) {
      var i: nat :| i < n + 1 && i < |exits| && exits[i] < BYTE_COUNT && HasByte(chunk, ToByte(exits[i]));
      if i < n { assert LeavesBelow(chunk, exits, n); }
    }
  }

  // ---- building the masks of a row ----

  lemma {:induction false} ExitsGrow(letters: seq<nat>, row: seq<nat>, st: nat, let: nat, more: nat)
    requires BYTE_COUNT <= |letters| && let <= more <= |row|
    ensures |ExitsBelow(letters, row, st, let)| <= |ExitsBelow(letters, row, st, more)|
    decreases more - let
  {
    if let < more {
      ExitsGrow(letters, row, st, let, more - 1);
    }
  }

  /** The bytes of every class. */
  method CharsByClass(letters: seq<nat>, classes: nat) returns (chars: seq<seq<nat>>)
    requires BYTE_COUNT <= |letters| && forall c: nat | c < BYTE_COUNT :: letters[c] < classes
    ensures |chars| == classes && forall k: nat | k < classes :: chars[k] == CharsBelow(letters, k, BYTE_COUNT)
  {
    chars := seq(classes, i => []);
    for ch: nat := 0 to BYTE_COUNT
      invariant |chars| == classes && forall k: nat | k < classes :: chars[k] == CharsBelow(letters, k, ch)
    {
      var more: seq<nat> := chars[letters[ch]] + [ch];
      chars := chars[letters[ch] := more];
    }
  }

  /** The first ind masks are those of the exits found so far. */
  ghost predicate MasksBelow(masks: seq<Word64>, exits: seq<nat>) {
    && |exits| <= |masks|
    && (forall i: nat | i < |exits| :: exits[i] < BYTE_COUNT && masks[i] == Filled(ToByte(exits[i])))
    && (|masks| > 0 && exits == [] ==> masks[0] == NO_EXIT_MASK)
  }

  /** Marks the exits of a state, unless they are too many. */
  method ShortcutRow(before: seq<Word64>, row: seq<nat>, st: nat, chars: seq<seq<nat>>, ghost letters: seq<nat>)
      returns (masks: seq<Word64>)
    requires BYTE_COUNT <= |letters| && |chars| == |row| && forall k: nat | k < |row| ::
        chars[k] == CharsBelow(letters, k, BYTE_COUNT)
    ensures |masks| == |before| && MasksMark(masks, Exits(letters, row, st))
  {
    hide Filled, MasksMark, MasksBelow;
    masks := before;
    if |masks| > 0 { masks := masks[0 := NO_EXIT_MASK]; }
    NoMasks(masks);
    var ind, let := 0, 0;
    while let < |row|
      invariant let <= |row| && |masks| == |before| && ind <= |masks|
      invariant ind == |ExitsBelow(letters, row, st, let)| && MasksBelow(masks, ExitsBelow(letters, row, st, let))
      decreases |row| - let
    {
      if row[let] != st {
        if ind + |chars[let]| > |masks| {
          ExitsGrow(letters, row, st, let + 1, |row|);
          break;
        }
        CharsAreInClass(letters, let, BYTE_COUNT);
        masks := SetMasks(masks, ExitsBelow(letters, row, st, let), ind, chars[let]);
        ind := ind + |chars[let]|;
      }
      let := let + 1;
    }
    ExitsAreBytes(letters, row, st);
    if let != |row| {
      if |masks| > 0 { masks := masks[0 := NO_SHORTCUT_MASK]; }
    }
    ghost var marked := masks;
    if |masks| > 0 {
      masks := FinishMasks(masks, ind);
    }
    FinishedMark(marked, masks, Exits(letters, row, st), ind);
  }

  lemma NoMasks(masks: seq<Word64>)
    requires |masks| > 0 ==> masks[0] == NO_EXIT_MASK
    ensures MasksBelow(masks, [])
  {
  }

  lemma FinishedMark(before: seq<Word64>, masks: seq<Word64>, exits: seq<nat>, used: nat)
    requires |masks| == |before| && used <= |before| && forall i: nat | i < |exits| :: exits[i] < BYTE_COUNT
    requires forall j: nat | j < |masks| ::
        masks[j] == before[if j < used then j else if used == 0 then 0 else used - 1]
    requires |before| > 0 && |exits| > |before| ==> before[0] == NO_SHORTCUT_MASK
    requires 0 < |before| && |exits| <= |before| ==> used == |exits| && MasksBelow(before, exits)
    ensures MasksMark(masks, exits)
  {
    hide Filled;
  }

  method SetMasks(before: seq<Word64>, ghost exits: seq<nat>, ind: nat, chars: seq<nat>) returns (masks: seq<Word64>)
    requires ind == |exits| && ind + |chars| <= |before| && MasksBelow(before, exits) && forall c | c in chars ::
        c < BYTE_COUNT
    ensures |masks| == |before| && MasksBelow(masks, exits + chars)
  {
    hide Filled;
    masks := before;
    assert exits + chars[..0] == exits;
    for i: nat := 0 to |chars|
      invariant |masks| == |before| && MasksBelow(masks, exits + chars[..i])
    {
      assert chars[i] in chars && exits + chars[..i + 1] == exits + chars[..i] + [chars[i]];
      var mask := FillSizeT(ToByte(chars[i]));
      masks := masks[ind + i := mask];
    }
    assert chars[..|chars|] == chars;
  }

  /** Repeats the last mask used to the end of the row. */
  method FinishMasks(before: seq<Word64>, used: nat) returns (masks: seq<Word64>)
    requires used <= |before| && |before| > 0
    ensures |masks| == |before| && forall j: nat | j < |masks| ::
        masks[j] == before[if j < used then j else if used == 0 then 0 else used - 1]
  {
    masks := before;
    var ind := if used == 0 then 1 else used;
    var lastMask := masks[ind - 1];
    while ind != |masks|
      invariant used <= ind <= |masks| && |masks| == |before| && ind > 0
      invariant forall j: nat | j < ind :: masks[j] == before[if j < used then j else if used == 0 then 0 else used - 1]
      decreases |masks| - ind
    {
      masks := masks[ind := lastMask];
      ind := ind + 1;
    }
  }
}
