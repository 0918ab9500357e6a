/** Comparing the eight bytes of a machine word with one byte at once. */
module WordMasks {
  const WORD_BYTES: nat := 8

  type Byte = bv8
  type Word64 = bv64

  /** The byte with number ch, counted up from zero. */
  function ToByte(ch: nat): Byte {
    if ch == 0 then 0 else ToByte(ch - 1) + 1
  }

  lemma {:induction false} ByteOf(ch: nat)
    requires ch < 256
    ensures ToByte(ch) as nat == ch
  {
    if ch > 0 {
      ByteOf(ch - 1);
      NotTheLast(ToByte(ch - 1));
      NextByte(ToByte(ch - 1));
    }
  }

  lemma NotTheLast(b: Byte)
    requires b as nat < 255
    ensures b != 255
  {
  }

  lemma NextByte(b: Byte)
    requires b != 255
    ensures (b + 1) as nat == b as nat + 1
  {
  }

  lemma SameByte(b: Byte, c: Byte)
    requires b as nat == c as nat
    ensures b == c
  {
  }

  lemma ByteIsSmall(b: Byte)
    ensures b as nat < 256 && ToByte(b as nat) == b
  {
    ByteOf(b as nat);
    SameByte(ToByte(b as nat), b);
  }

  /** A byte repeated `count` times: the compile-time recursion. */
  function GenerateMask(count: nat, byte: Byte): Word64
    requires count <= WORD_BYTES
  {
    if count == 0 then 0 else (GenerateMask(count - 1, byte) << 8) | (byte as bv64)
  }

  /** Non-zero if and only if some byte of the chunk equals the byte of the mask, see CheckFindsByte. */
  function CheckBytes(mask: Word64, chunk: Word64): Word64 {
    var mc := chunk ^ mask;
    (mc - GenerateMask(WORD_BYTES, 0x01)) & !mc & GenerateMask(WORD_BYTES, 0x80)
  }

  /** A word of eight copies of c. */
  function Filled(c: Byte): Word64 {
    var two := ((c as bv64) << 8) | (c as bv64);
    var four := (two << 16) | two;
    (four << 32) | four
  }

  /** The doubling loop. */
  method FillSizeT(c: Byte) returns (w: Word64)
    ensures forall i: nat | i < WORD_BYTES :: Lane(w, i) == c
    ensures w == Filled(c)
  {
    hide Lane;
    w := c as bv64;
    w := w & 0xff;
    var i: nat := 8;
    while i != 64
      invariant i == 8 || i == 16 || i == 32 || i == 64
      invariant Doubled(c, i, w)
      decreases 64 - i
    {
      DoubledOnce(c, i, w);
      w := (w << i) | w;
      i := 2 * i;
    }
    forall k: nat | k < WORD_BYTES ensures Lane(w, k) == c { LaneOfFilled(c, k); }
  }

  /** The low i bits of w are copies of c. */
  predicate Doubled(c: Byte, i: nat, w: Word64) {
    if i == 8 then w == c as bv64
    else if i == 16 then w == ((c as bv64) << 8) | (c as bv64)
    else if i == 32 then var two := ((c as bv64) << 8) | (c as bv64); w == (two << 16) | two
    else w == Filled(c)
  }

  lemma DoubledOnce(c: Byte, i: nat, w: Word64)
    requires (i == 8 || i == 16 || i == 32) && Doubled(c, i, w)
    ensures Doubled(c, 2 * i, (w << i) | w)
  {
    if i == 8 {
      assert (w << i) == (w << 8);
    } else if i == 16 {
      assert (w << i) == (w << 16);
    } else {
      assert (w << i) == (w << 32);
    }
  }

  /** The little-endian word with these bytes. */
  function Pack(b: seq<Byte>): Word64
    requires |b| == WORD_BYTES
  {
    PackBytes(b[0], b[1], b[2], b[3], b[4], b[5], b[6], b[7])
  }

  function PackBytes(b0: Byte, b1: Byte, b2: Byte, b3: Byte, b4: Byte, b5: Byte, b6: Byte, b7: Byte): Word64 {
    (b0 as bv64) | ((b1 as bv64) << 8) | ((b2 as bv64) << 16) | ((b3 as bv64) << 24)
    | ((b4 as bv64) << 32) | ((b5 as bv64) << 40) | ((b6 as bv64) << 48) | ((b7 as bv64) << 56)
  }

  // ---- the bytes of a word ----

  function Low(w: Word64): Byte {
    (w & 0xff) as bv8
  }

  function Down(w: Word64): Word64 {
    w >> 8
  }

  function Xor(w: Word64, v: Word64): Word64 {
    w ^ v
  }

  /** Byte i, counted from the low end. */
  function Lane(w: Word64, i: nat): Byte
    decreases i
  {
    if i == 0 then Low(w) else Lane(Down(w), i - 1)
  }

  lemma LaneConstants(w: Word64)
    ensures Lane(w, 0) == Low(w) && Lane(w, 1) == Low(w >> 8) && Lane(w, 2) == Low(w >> 16) &&
        Lane(w, 3) == Low(w >> 24)
    ensures Lane(w, 4) == Low(w >> 32) && Lane(w, 5) == Low(w >> 40) && Lane(w, 6) == Low(w >> 48) &&
        Lane(w, 7) == Low(w >> 56)
  {
    hide Low, Down;
    ShiftTwice(w);
    assert Lane(w, 3) == Lane(Down(w), 2) == Lane(w >> 16, 1) == Lane(w >> 24, 0);
    assert Lane(w, 4) == Lane(Down(w), 3) == Lane(w >> 16, 2) == Lane(w >> 24, 1) == Lane(w >> 32, 0);
    assert Lane(w, 5) == Lane(Down(w), 4) == Lane(w >> 16, 3) == Lane(w >> 24, 2) == Lane(w >> 32,
        1) == Lane(w >> 40, 0);
    assert Lane(w, 6) == Lane(Down(w), 5) == Lane(w >> 16, 4) == Lane(w >> 24, 3) == Lane(w >> 32, 2) == Lane(w >> 40,
        1) == Lane(w >> 48, 0);
    assert Lane(w, 7) == Lane(Down(w), 6) == Lane(w >> 16, 5) == Lane(w >> 24, 4) == Lane(w >> 32, 3) == Lane(w >> 40,
        2) == Lane(w >> 48, 1) == Lane(w >> 56, 0);
  }

  lemma ShiftTwice(w: Word64)
    ensures Down(w) == w >> 8 && Down(w >> 8) == w >> 16 && Down(w >> 16) == w >> 24 && Down(w >> 24) == w >> 32
    ensures Down(w >> 32) == w >> 40 && Down(w >> 40) == w >> 48 && Down(w >> 48) == w >> 56
  {
  }

  lemma LowXor(w: Word64, v: Word64)
    ensures Low(Xor(w, v)) == Low(w) ^ Low(v) && Down(Xor(w, v)) == Xor(Down(w), Down(v))
  {
  }

  lemma {:induction false} LaneXor(w: Word64, v: Word64, i: nat)
    ensures Lane(Xor(w, v), i) == Lane(w, i) ^ Lane(v, i)
    decreases i
  {
    hide Low, Xor, Down;
    LowXor(w, v);
    if i > 0 { LaneXor(Down(w), Down(v), i - 1); }
  }

  lemma LowOfPack(b0: Byte, b1: Byte, b2: Byte, b3: Byte, b4: Byte, b5: Byte, b6: Byte, b7: Byte)
    ensures Low(PackBytes(b0, b1, b2, b3, b4, b5, b6, b7)) == b0
    ensures Down(PackBytes(b0, b1, b2, b3, b4, b5, b6, b7)) == PackBytes(b1, b2, b3, b4, b5, b6, b7, 0)
  {
  }

  /** Shifting right by a byte drops the first byte. */
  lemma PackShifts(b: seq<Byte>)
    requires |b| == WORD_BYTES
    ensures Low(Pack(b)) == b[0] && Down(Pack(b)) == Pack(b[1..] + [0])
  {
    hide Low, Down, PackBytes;
    LowOfPack(b[0], b[1], b[2], b[3], b[4], b[5], b[6], b[7]);
  }

  lemma {:induction false} LaneOfPack(b: seq<Byte>, i: nat)
    requires |b| == WORD_BYTES && i < WORD_BYTES
    ensures Lane(Pack(b), i) == b[i]
    decreases i
  {
    hide Low, Down, Pack;
    PackShifts(b);
    if i > 0 { LaneOfPack(b[1..] + [0], i - 1); }
  }

  lemma FilledIsPacked(c: Byte)
    ensures Filled(c) == Pack([c, c, c, c, c, c, c, c])
  {
  }

  // ---- finding a byte ----

  lemma MaskConstants()
    ensures GenerateMask(WORD_BYTES, 0x01) == 0x0101010101010101
    ensures GenerateMask(WORD_BYTES, 0x80) == 0x8080808080808080
  {
    assert GenerateMask(0, 0x01) == 0 && GenerateMask(0, 0x80) == 0;
    assert GenerateMask(2, 0x01) == 0x0101 && GenerateMask(2, 0x80) == 0x8080;
    assert GenerateMask(4, 0x01) == 0x01010101 && GenerateMask(4, 0x80) == 0x80808080;
    assert GenerateMask(6, 0x01) == 0x010101010101 && GenerateMask(6, 0x80) == 0x808080808080;
  }

  /** The subtraction borrows into the high bit of some byte exactly when some byte is zero. */
  lemma HasZeroByte(mc: Word64)
    ensures (mc - 0x0101010101010101) & !mc & 0x8080808080808080 != 0 <==>
      Low(mc) == 0 || Low(mc >> 8) == 0 || Low(mc >> 16) == 0 || Low(mc >> 24) == 0
      || Low(mc >> 32) == 0 || Low(mc >> 40) == 0 || Low(mc >> 48) == 0 || Low(mc >> 56) == 0
  {
  }

  lemma XorIsZero(b: Byte, c: Byte)
    ensures b ^ c == 0 <==> b == c
  {
  }

  lemma LaneOfFilled(c: Byte, i: nat)
    requires i < WORD_BYTES
    ensures Lane(Filled(c), i) == c
  {
    hide Filled, Pack, Lane;
    FilledIsPacked(c);
    LaneOfPack([c, c, c, c, c, c, c, c], i);
  }

  lemma XorLane(c: Byte, w: Word64, i: nat)
    requires i < WORD_BYTES
    ensures Lane(Xor(w, Filled(c)), i) == 0 <==> Lane(w, i) == c
  {
    hide Filled, Xor, Lane;
    LaneXor(w, Filled(c), i);
    LaneOfFilled(c, i);
    XorIsZero(Lane(w, i), c);
  }

  /** Is set in some byte where the word is zero, and only if there is one. */
  function ZeroTest(mc: Word64): Word64 {
    (mc - 0x0101010101010101) & !mc & 0x8080808080808080
  }

  lemma ZeroTestConstants(mc: Word64)
    ensures ZeroTest(mc) != 0 <==>
      Low(mc) == 0 || Low(mc >> 8) == 0 || Low(mc >> 16) == 0 || Low(mc >> 24) == 0
      || Low(mc >> 32) == 0 || Low(mc >> 40) == 0 || Low(mc >> 48) == 0 || Low(mc >> 56) == 0
  {
    HasZeroByte(mc);
  }

  lemma ZeroTestByLanes(mc: Word64)
    ensures ZeroTest(mc) != 0 <==> exists i: nat :: i < WORD_BYTES && Lane(mc, i) == 0
  {
    hide ZeroTest, Low, Lane;
    ZeroTestConstants(mc);
    LaneConstants(mc);
    if i: nat :| i < WORD_BYTES && Lane(mc, i) == 0 {
      assert i == 0 || i == 1 || i == 2 || i == 3 || i == 4 || i == 5 || i == 6 || i == 7;
    }
  }

  lemma CheckIsZeroTest(mask: Word64, chunk: Word64)
    ensures CheckBytes(mask, chunk) == ZeroTest(Xor(chunk, mask))
  {
    hide GenerateMask;
    MaskConstants();
  }

  predicate HasByte(w: Word64, c: Byte) {
    exists i: nat :: i < WORD_BYTES && Lane(w, i) == c
  }

  /** CheckBytes is non-zero if and only if some byte of the chunk is c. */
  lemma CheckFindsByte(c: Byte, w: Word64)
    ensures CheckBytes(Filled(c), w) != 0 <==> HasByte(w, c)
  {
    hide Filled, CheckBytes, ZeroTest, Xor, Lane;
    var mc := Xor(w, Filled(c));
    CheckIsZeroTest(Filled(c), w);
    ZeroTestByLanes(mc);
    if i: nat :| i < WORD_BYTES && Lane(mc, i) == 0 {
      XorLane(c, w, i);
    }
    if HasByte(w, c) {
      var i: nat :| i < WORD_BYTES && Lane(w, i) == c;
      XorLane(c, w, i);
    }
  }

  /** The words that mark the lack of shortcuts and of exits are masks of no byte. */
  lemma FilledIsNoMark(c: Byte)
    ensures Filled(c) != 1 && Filled(c) != 2
  {
  }

  lemma FilledInjective(c: Byte, d: Byte)
    ensures Filled(c) == Filled(d) ==> c == d
  {
    assert Low(Filled(c)) == c && Low(Filled(d)) == d;
  }

  // ---- taking bytes off a word ----

  /** w >> 8 * pos, for the positions in a word. */
  function ShiftBytes(w: Word64, pos: nat): Word64 {
    if pos == 0 then w
    else if pos == 1 then w >> 8
    else if pos == 2 then w >> 16
    else if pos == 3 then w >> 24
    else if pos == 4 then w >> 32
    else if pos == 5 then w >> 40
    else if pos == 6 then w >> 48
    else w >> 56
  }

  lemma ShiftLanes(w: Word64, pos: nat, i: nat)
    requires pos + i < WORD_BYTES
    ensures Lane(ShiftBytes(w, pos), i) == Lane(w, pos + i)
  {
    hide Low, Down, Lane;
    ShiftIsDown(w, pos);
    DownLanes(w, pos, i);
  }

  function DownBy(w: Word64, n: nat): Word64
    decreases n
  {
    if n == 0 then w else Down(DownBy(w, n - 1))
  }

  lemma ShiftIsDown(w: Word64, pos: nat)
    requires pos < WORD_BYTES
    ensures ShiftBytes(w, pos) == DownBy(w, pos)
  {
    hide Down;
    ShiftTwice(w);
    assert DownBy(w, 2) == Down(DownBy(w, 1)) && DownBy(w, 4) == Down(DownBy(w, 3)) &&
        DownBy(w, 6) == Down(DownBy(w, 5));
  }

  lemma {:induction false} DownLanes(w: Word64, n: nat, i: nat)
    ensures Lane(DownBy(w, n), i) == Lane(w, n + i)
    decreases n
  {
    hide Low, Down;
    if n > 0 {
      DownLanes(w, n - 1, i + 1);
    }
  }
}
