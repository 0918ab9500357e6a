/** Jumps stored as 32-bit shifts, so that a scanner can be mapped at any address. */
module Relocation {
  const WORD32: nat := 0x1_0000_0000

  /** The difference of two addresses, cut to 32 bits. */
  function Diff(from: nat, to: nat): (shift: nat)
    ensures shift < WORD32
  {
    (to - from) % WORD32
  }

  /** A shift read as a signed number. */
  function SignExtend(shift: nat): int {
    if shift < WORD32 / 2 then shift else shift - WORD32
  }

  function Go(state: nat, shift: nat): int {
    state + SignExtend(shift)
  }

  /** A stored jump leads back to its target exactly when the distance fits a signed 32-bit number. */
  lemma JumpLeadsBack(from: nat, to: nat)
    ensures Go(from, Diff(from, to)) == to <==> -0x8000_0000 <= to - from < 0x8000_0000
  {
    var d := to - from;
    assert d == WORD32 * (d / WORD32) + d % WORD32;
  }

  /** The address of a state. */
  function IndexToState(base: nat, rowBytes: nat, index: nat): nat {
    base + index * rowBytes
  }

  ghost predicate AllJumpsLead(base: nat, rowBytes: nat, states: nat) {
    forall i: nat, j: nat | i < states && j < states ::
      Go(IndexToState(base, rowBytes, i), Diff(IndexToState(base, rowBytes, i), IndexToState(base, rowBytes, j))) ==
          IndexToState(base, rowBytes, j)
  }

  /** All jumps of a scanner can be stored exactly when its first and last rows are less than 2 GB apart: half of the
      32-bit range, since shifts are sign-extended. */
  lemma TableLimit(base: nat, rowBytes: nat, states: nat)
    requires states > 0
    ensures AllJumpsLead(base, rowBytes, states) <==> (states - 1) * rowBytes < 0x8000_0000
  {
    hide Diff, Go;
    var last := (states - 1) * rowBytes;
    if AllJumpsLead(base, rowBytes, states) {
      assert IndexToState(base, rowBytes, 0) == base && IndexToState(base, rowBytes, states - 1) == base + last;
      JumpLeadsBack(base, base + last);
    }
    if last < WORD32 / 2 {
      forall i: nat, j: nat | i < states && j < states
        ensures Go(IndexToState(base, rowBytes, i),
            Diff(IndexToState(base, rowBytes, i), IndexToState(base, rowBytes, j))) == IndexToState(base, rowBytes, j)
      {
        RowsWithin(rowBytes, i, states - 1);
        RowsWithin(rowBytes, j, states - 1);
        JumpLeadsBack(IndexToState(base, rowBytes, i), IndexToState(base, rowBytes, j));
      }
    }
  }

  lemma RowsWithin(rowBytes: nat, i: nat, n: nat)
    requires i <= n
    ensures 0 <= i * rowBytes <= n * rowBytes
  {
  }
}
