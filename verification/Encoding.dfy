/** UTF-8 as this library reads and writes it: the byte patterns of section 3 of RFC 3629, without its checks for
    overlong forms, surrogates and the upper limit. */
module Encodings {
  import opened Automaton
  import opened Options
  import opened Transitions
  import opened Letters
  import opened RegularLanguages
  import opened Appending
  import opened FiniteStateMachine

  /** The first rune that four bytes cannot hold. */
  const RUNE_LIMIT: nat := 0x200000

  const RUNE_LENGTHS: seq<nat> :=
    [1, 1, 1, 1, 1, 1, 1, 1, 1, 1, 1, 1, 1, 1, 1, 1, 0, 0, 0, 0, 0, 0, 0, 0, 2, 2, 2, 2, 3, 3, 4, 0]

  /** The length that a lead byte announces; 0 for a byte that cannot start a rune. */
  function RuneLength(lead: nat): nat
    requires lead < BYTE_COUNT
  {
    RUNE_LENGTHS[lead / 8]
  }

  function RuneLengthByUcs(rune: nat): nat {
    if rune < 0x80 then 1
    else if rune < 0x800 then 2
    else if rune < 0x10000 then 3
    else if rune < 0x200000 then 4
    else if rune < 0x4000000 then 5
    else 6
  }

  /** How many values the payload bits of a lead byte have. */
  function LeadRange(len: nat): nat {
    if len == 2 then 32 else if len == 3 then 16 else if len == 4 then 8 else 128
  }

  predicate IsContinuation(b: nat) {
    0x80 <= b < 0xC0
  }

  predicate AreBytes(s: Word) {
    forall i: nat | i < |s| :: s[i] < BYTE_COUNT
  }

  // ---- what a rune is ----

  datatype ReadResult = RuneRead(rune: nat, len: nat) | EndOfInput | BrokenSymbol

  /** Six more bits from every further byte. */
  function Payload(high: nat, tail: Word): nat
    decreases |tail|
  {
    if tail == [] then high
    else Payload(high * 64 + tail[0] % 64, tail[1..])
  }

  predicate AllContinue(tail: Word) {
    forall i: nat | i < |tail| :: IsContinuation(tail[i])
  }

  /** The rune at the start of s. */
  function RuneAt(s: Word): (r: ReadResult)
    requires s != [] && AreBytes(s)
    ensures r.RuneRead? ==> 0 < r.len <= |s|
  {
    var len := RuneLength(s[0]);
    if len > |s| then EndOfInput
    else if len == 0 || !AllContinue(s[1..len]) then BrokenSymbol
    else RuneRead(Payload(s[0] % LeadRange(len), s[1..len]), len)
  }

  /** Reading byte by byte: by the lead byte alone a symbol can be broken, and what it announces must be there before
      it is looked at. */
  lemma RuneAtSpelled(s: Word)
    requires s != [] && AreBytes(s)
    ensures s[0] < 0x80 ==> RuneAt(s) == RuneRead(s[0], 1)
    ensures 0x80 <= s[0] < 0xC0 || 0xF8 <= s[0] ==> RuneAt(s) == BrokenSymbol
    ensures 0xC0 <= s[0] < 0xE0 ==>
      RuneAt(s) ==
        if |s| < 2 then EndOfInput else if 0x80 <= s[1] < 0xC0 then RuneRead((s[0] - 0xC0) * 0x40 + (s[1] - 0x80), 2)
        else BrokenSymbol
    ensures 0xE0 <= s[0] < 0xF0 ==>
      RuneAt(s) ==
        if |s| < 3 then EndOfInput
        else if 0x80 <= s[1] < 0xC0 && 0x80 <= s[2] < 0xC0 then
          RuneRead((s[0] - 0xE0) * 0x1000 + (s[1] - 0x80) * 0x40 + (s[2] - 0x80), 3)
        else BrokenSymbol
    ensures 0xF0 <= s[0] < 0xF8 ==>
      RuneAt(s) ==
        if |s| < 4 then EndOfInput
        else if 0x80 <= s[1] < 0xC0 && 0x80 <= s[2] < 0xC0 && 0x80 <= s[3] < 0xC0 then
          RuneRead((s[0] - 0xF0) * 0x40000 + (s[1] - 0x80) * 0x1000 + (s[2] - 0x80) * 0x40 + (s[3] - 0x80), 4)
        else BrokenSymbol
  {
    hide RuneAt, RuneLength;
    LengthSpelled(s[0]);
    var len := RuneLength(s[0]);
    if 0 < len <= |s| {
      TailSpelled(s, len);
    } else {
      NoRune(s);
    }
  }

  lemma NoRune(s: Word)
    requires s != [] && AreBytes(s)
    ensures RuneLength(s[0]) > |s| ==> RuneAt(s) == EndOfInput
    ensures RuneLength(s[0]) == 0 ==> RuneAt(s) == BrokenSymbol
  {
    hide RuneLength, Payload, AllContinue;
  }

  lemma TailSpelled(s: Word, len: nat)
    requires 0 < len <= |s| && AreBytes(s) && len == RuneLength(s[0]) <= 4
    ensures var high := s[0] % LeadRange(len);
      RuneAt(s) ==
        if (len > 1 && !(0x80 <= s[1] < 0xC0)) || (len > 2 && !(0x80 <= s[2] < 0xC0)) ||
          (len > 3 && !(0x80 <= s[3] < 0xC0)) then BrokenSymbol
        else RuneRead(
          if len == 1 then high
          else if len == 2 then high * 64 + (s[1] - 0x80)
          else if len == 3 then (high * 64 + (s[1] - 0x80)) * 64 + (s[2] - 0x80)
          else ((high * 64 + (s[1] - 0x80)) * 64 + (s[2] - 0x80)) * 64 + (s[3] - 0x80), len)
  {
    hide RuneLength, Payload;
    var tail := s[1..len];
    assert forall i: nat | i < len - 1 :: tail[i] == s[i + 1];
    PayloadUnrolled(s[0] % LeadRange(len), tail);
    assert forall b: nat | 0x80 <= b < 0xC0 :: b % 64 == b - 0x80;
  }

  lemma LengthSpelled(lead: nat)
    requires lead < BYTE_COUNT
    ensures lead < 0x80 ==> RuneLength(lead) == 1
    ensures 0x80 <= lead < 0xC0 || 0xF8 <= lead ==> RuneLength(lead) == 0
    ensures 0xC0 <= lead < 0xE0 ==> RuneLength(lead) == 2 && lead % LeadRange(2) == lead - 0xC0
    ensures 0xE0 <= lead < 0xF0 ==> RuneLength(lead) == 3 && lead % LeadRange(3) == lead - 0xE0
    ensures 0xF0 <= lead < 0xF8 ==> RuneLength(lead) == 4 && lead % LeadRange(4) == lead - 0xF0
  {
    assert 0 <= lead / 8 < 32;
  }

  /** All runes of s, if s is nothing but runes. */
  function Runes(s: Word): Option<seq<nat>>
    requires AreBytes(s)
    decreases |s|
  {
    if s == [] then Some([])
    else
      var first := RuneAt(s);
      if !first.RuneRead? then None
      else
        assert AreBytes(s[first.len..]) by { DropIsBytes(s, first.len); }
        match Runes(s[first.len..])
        case Some(rest) => Some([first.rune] + rest)
        case None => None
  }

  lemma DropIsBytes(s: Word, n: nat)
    requires AreBytes(s) && n <= |s|
    ensures AreBytes(s[n..])
  {
  }

  // ---- reading ----

  /** utf8_read_rune. */
  method ReadRune(s: Word) returns (r: ReadResult)
    requires s != [] && AreBytes(s)
    ensures r == RuneAt(s)
  {
    var len := RuneLength(s[0]);
    if len > |s| { return EndOfInput; }
    if len == 0 { return BrokenSymbol; }
    var tail := s[1..len];
    var rune := s[0];
    if len > 1 {
      rune := rune % LeadRange(len);
      var ch := s[1];
      assert ch == tail[0];
      if !IsContinuation(ch) { return BrokenSymbol; }
      rune := rune * 64 + ch % 64;
      if len > 2 {
        ch := s[2];
        assert ch == tail[1];
        if !IsContinuation(ch) { return BrokenSymbol; }
        rune := rune * 64 + ch % 64;
        if len > 3 {
          ch := s[3];
          assert ch == tail[2];
          if !IsContinuation(ch) { return BrokenSymbol; }
          rune := rune * 64 + ch % 64;
          assert tail == [s[1], s[2], s[3]];
        } else {
          assert tail == [s[1], s[2]];
        }
      } else {
        assert tail == [s[1]];
      }
    } else {
      assert tail == [];
    }
    PayloadUnrolled(s[0] % LeadRange(len), tail);
    return RuneRead(rune, len);
  }

  lemma PayloadUnrolled(high: nat, tail: Word)
    requires |tail| <= 3
    ensures Payload(high, tail) ==
            if |tail| == 0 then high
            else if |tail| == 1 then high * 64 + tail[0] % 64
            else if |tail| == 2 then (high * 64 + tail[0] % 64) * 64 + tail[1] % 64
            else ((high * 64 + tail[0] % 64) * 64 + tail[1] % 64) * 64 + tail[2] % 64
    decreases |tail|
  {
    if |tail| > 0 {
      PayloadUnrolled(high * 64 + tail[0] % 64, tail[1..]);
    }
  }

  /** The decoding loop; None is the error that the library throws. */
  method FromLocal(s: Word) returns (r: Option<seq<nat>>)
    requires AreBytes(s)
    ensures r == Runes(s)
  {
    hide RuneAt;
    var begin: nat, runes: seq<nat> := 0, [];
    assert s[0..] == s;
    match Runes(s) {
      case Some(rest) => assert runes + rest == rest;
      case None =>
    }
    while begin < |s|
      invariant begin <= |s| && AreBytes(s[begin..])
      invariant Runes(s) == match Runes(s[begin..]) case Some(rest) => Some(runes + rest) case None => None
      decreases |s| - begin
    {
      var first := ReadRune(s[begin..]);
      if !first.RuneRead? {
        return None;
      }
      assert s[begin..][first.len..] == s[begin + first.len..];
      DropIsBytes(s, begin + first.len);
      match Runes(s[begin + first.len..]) {
        case Some(rest) => assert runes + ([first.rune] + rest) == runes + [first.rune] + rest;
        case None =>
      }
      runes := runes + [first.rune];
      begin := begin + first.len;
    }
    assert runes + [] == runes;
    return Some(runes);
  }

  // ---- writing ----

  /** The bytes written for a rune: of a rune that four bytes cannot hold, the low bits. */
  function PutBytes(rune: nat): (s: Word)
    ensures 1 <= |s| <= 4 && AreBytes(s)
  {
    if rune < 0x80 then [rune]
    else if rune < 0x800 then [0xC0 + Six(rune), Continue(rune)]
    else if rune < 0x10000 then [0xE0 + Six(Six(rune)), Continue(Six(rune)), Continue(rune)]
    else [0xF0 + Six(Six(Six(rune))) % 8, Continue(Six(Six(rune))), Continue(Six(rune)), Continue(rune)]
  }

  /** The bits above the low six. */
  function Six(rune: nat): nat {
    rune / 64
  }

  /** A continuation byte with the low six bits. */
  function Continue(rune: nat): nat {
    0x80 + rune % 64
  }

  /** utf8_put_rune: writes at `start` if there is room. */
  method PutRune(rune: nat, buffer: array<nat>, start: nat) returns (ok: bool, len: nat)
    requires start <= buffer.Length
    modifies buffer
    ensures ok <==> buffer.Length - start >= |PutBytes(rune)|
    ensures ok ==> len == |PutBytes(rune)|
    ensures ok ==> buffer[..] == old(buffer[..start]) + PutBytes(rune) + old(buffer[start + len..])
    ensures !ok ==> len == 0 && buffer[..] == old(buffer[..])
  {
    var tail := buffer.Length - start;
    if rune < 0x80 {
      if tail <= 0 { return false, 0; }
      buffer[start] := rune;
      return true, 1;
    }
    if rune < 0x800 {
      if tail <= 1 { return false, 0; }
      buffer[start] := 0xC0 + Six(rune);
      buffer[start + 1] := Continue(rune);
      return true, 2;
    }
    if rune < 0x10000 {
      if tail <= 2 { return false, 0; }
      buffer[start] := 0xE0 + Six(Six(rune));
      buffer[start + 1] := Continue(Six(rune));
      buffer[start + 2] := Continue(rune);
      return true, 3;
    }
    if tail <= 3 { return false, 0; }
    buffer[start] := 0xF0 + Six(Six(Six(rune))) % 8;
    buffer[start + 1] := Continue(Six(Six(rune)));
    buffer[start + 2] := Continue(Six(rune));
    buffer[start + 3] := Continue(rune);
    return true, 4;
  }

  const SPACE: nat := 32

  function Spaces(n: nat): Word {
    seq(n, i => SPACE)
  }

  /** The encoding of one rune; above the limit what is left of the buffer stays blank. */
  method ToLocal(rune: nat) returns (ret: Word)
    ensures ret == PutBytes(rune) + Spaces(RuneLengthByUcs(rune) - |PutBytes(rune)|)
    ensures rune < RUNE_LIMIT ==> ret == PutBytes(rune)
    ensures forall i: nat | |PutBytes(rune)| <= i < |ret| :: ret[i] == ' ' as nat
    ensures |ret| == if rune < 0x80 then 1 else if rune < 0x800 then 2 else if rune < 0x10000 then 3
      else if rune < 0x200000 then 4 else if rune < 0x4000000 then 5 else 6
  {
    var size := RuneLengthByUcs(rune);
    var buffer := new nat[size](i => SPACE);
    assert buffer[..0] == [];
    assert buffer[..] == Spaces(size);
    var ok, len := PutRune(rune, buffer, 0);
    assert Spaces(size)[len..] == Spaces(size - len);
    ret := buffer[..];
  }

  // ---- round trip ----

  function Encoded(runes: seq<nat>): (s: Word)
    ensures AreBytes(s)
  {
    if runes == [] then [] else PutBytes(runes[0]) + Encoded(runes[1..])
  }

  /** What is written for a rune is read back, up to the bits that do not fit, whatever comes after. */
  lemma PutThenRead(rune: nat, rest: Word)
    requires AreBytes(rest)
    ensures RuneAt(PutBytes(rune) + rest) == RuneRead(rune % RUNE_LIMIT, |PutBytes(rune)|)
  {
    var s := PutBytes(rune) + rest;
    var len := |PutBytes(rune)|;
    assert s[1..len] == PutBytes(rune)[1..];
    PayloadUnrolled(s[0] % LeadRange(len), s[1..len]);
    PutLength(rune);
    PutPayload(rune);
  }

  /** What is written is the shortest form that reads as the rune, and the only one of its length. */
  lemma PutIsShortest(rune: nat, s: Word)
    requires s != [] && AreBytes(s) && RuneAt(s) == RuneRead(rune, |s|)
    ensures |PutBytes(rune)| < |s| || s == PutBytes(rune)
  {
    hide RuneAt, PutBytes;
    RuneAtSpelled(s);
    if |s| == 1 {
      PutOne(rune);
    } else if |s| == 2 {
      PutTwo(s[0] - 0xC0, s[1] - 0x80);
    } else if |s| == 3 {
      PutThree(s[0] - 0xE0, s[1] - 0x80, s[2] - 0x80);
    } else {
      PutFour(s[0] - 0xF0, s[1] - 0x80, s[2] - 0x80, s[3] - 0x80);
    }
  }

  lemma PutOne(d: nat)
    ensures d < 0x80 ==> PutBytes(d) == [d]
  {
  }

  lemma PutTwo(c: nat, d: nat)
    requires c < 32 && d < 64
    ensures var put := PutBytes(c * 0x40 + d); |put| < 2 || put == [0xC0 + c, 0x80 + d]
  {
    hide Six, Continue;
    SplitSix(c, d);
  }

  lemma PutThree(b: nat, c: nat, d: nat)
    requires b < 16 && c < 64 && d < 64
    ensures var put := PutBytes(b * 0x1000 + c * 0x40 + d); |put| < 3 || put == [0xE0 + b, 0x80 + c, 0x80 + d]
  {
    hide Six, Continue;
    SplitSix(b * 64 + c, d);
    SplitSix(b, c);
  }

  lemma PutFour(a: nat, b: nat, c: nat, d: nat)
    requires a < 8 && b < 64 && c < 64 && d < 64
    ensures var put := PutBytes(a * 0x40000 + b * 0x1000 + c * 0x40 + d);
      |put| < 4 || put == [0xF0 + a, 0x80 + b, 0x80 + c, 0x80 + d]
  {
    hide Six, Continue;
    SplitSix((a * 64 + b) * 64 + c, d);
    SplitSix(a * 64 + b, c);
    SplitSix(a, b);
  }

  lemma SplitSix(high: nat, low: nat)
    requires low < 64
    ensures Six(high * 64 + low) == high && Continue(high * 64 + low) == 0x80 + low
  {
  }

  lemma PutLength(rune: nat)
    ensures RuneLength(PutBytes(rune)[0]) == |PutBytes(rune)| && AllContinue(PutBytes(rune)[1..])
  {
    var s := PutBytes(rune);
    if |s| == 1 {
      assert s[0] / 8 < 16;
    } else if |s| == 2 {
      assert 24 <= s[0] / 8 < 28;
    } else if |s| == 3 {
      assert 28 <= s[0] / 8 < 30;
    } else {
      assert s[0] / 8 == 30;
    }
  }

  lemma PutPayload(rune: nat)
    ensures Payload(PutBytes(rune)[0] % LeadRange(|PutBytes(rune)|), PutBytes(rune)[1..]) == rune % RUNE_LIMIT
  {
    hide Six, Continue, Payload;
    var s := PutBytes(rune);
    PayloadUnrolled(s[0] % LeadRange(|s|), s[1..]);
    if |s| == 2 {
      TwoBytes(rune);
    } else if |s| == 3 {
      ThreeBytes(rune);
    } else if |s| == 4 {
      FourBytes(rune);
    }
  }

  lemma TwoBytes(rune: nat)
    requires rune < 0x800
    ensures (0xC0 + Six(rune)) % 32 * 64 + Continue(rune) % 64 == rune
  {
    hide Six, Continue;
    LowBits(rune);
    LeadBits(Six(rune));
  }

  lemma ThreeBytes(rune: nat)
    requires rune < 0x10000
    ensures ((0xE0 + Six(Six(rune))) % 16 * 64 + Continue(Six(rune)) % 64) * 64 + Continue(rune) % 64 == rune
  {
    hide Six, Continue;
    LowBits(rune);
    LowBits(Six(rune));
    LeadBits(Six(Six(rune)));
  }

  lemma FourBytes(rune: nat)
    ensures (((0xF0 + Six(Six(Six(rune))) % 8) % 8 * 64 + Continue(Six(Six(rune))) % 64) * 64 +
        Continue(Six(rune)) % 64) * 64 + Continue(rune) % 64
      == rune % RUNE_LIMIT
  {
    hide Six, Continue;
    LowBits(rune);
    LowBits(Six(rune));
    LowBits(Six(Six(rune)));
    LeadBits(Six(Six(Six(rune))));
    FourByteBits(Six(Six(Six(rune))), Six(Six(rune)) % 64, Six(rune) % 64, rune % 64);
  }

  lemma LowBits(rune: nat)
    ensures rune == Six(rune) * 64 + rune % 64 && Continue(rune) % 64 == rune % 64
  {
  }

  lemma LeadBits(high: nat)
    ensures high < 32 ==> (0xC0 + high) % 32 == high
    ensures high < 16 ==> (0xE0 + high) % 16 == high
    ensures (0xF0 + high % 8) % 8 == high % 8
  {
  }

  lemma FourByteBits(a: nat, b: nat, c: nat, d: nat)
    requires b < 64 && c < 64 && d < 64
    ensures (((a * 64 + b) * 64 + c) * 64 + d) % RUNE_LIMIT == ((a % 8 * 64 + b) * 64 + c) * 64 + d
  {
  }

  /** Decoding the encodings of any sequence of runes below the limit gives the sequence back. */
  lemma {:induction false} DecodeEncoded(runes: seq<nat>)
    requires forall i: nat | i < |runes| :: runes[i] < RUNE_LIMIT
    ensures Runes(Encoded(runes)) == Some(runes)
    decreases |runes|
  {
    hide PutBytes, RuneAt;
    if runes != [] {
      var first, rest := PutBytes(runes[0]), Encoded(runes[1..]);
      PutThenRead(runes[0], rest);
      DecodeEncoded(runes[1..]);
      assert (first + rest)[|first|..] == rest;
      assert runes == [runes[0]] + runes[1..];
    }
  }

  lemma PutSize(rune: nat)
    ensures RuneLengthByUcs(rune) >= |PutBytes(rune)|
    ensures rune < RUNE_LIMIT ==> RuneLengthByUcs(rune) == |PutBytes(rune)|
  {
  }

  /** For one rune the limit is exact: what ToLocal makes of a larger one reads back as something else. */
  lemma ToLocalReadsBack(rune: nat)
    ensures RuneLengthByUcs(rune) >= |PutBytes(rune)|
    ensures Runes(PutBytes(rune) + Spaces(RuneLengthByUcs(rune) - |PutBytes(rune)|)) == Some([rune]) <==>
        rune < RUNE_LIMIT
  {
    hide PutBytes, RuneAt;
    PutSize(rune);
    var blank := Spaces(RuneLengthByUcs(rune) - |PutBytes(rune)|);
    var s := PutBytes(rune) + blank;
    PutThenRead(rune, blank);
    assert s[|PutBytes(rune)|..] == blank;
    if rune < RUNE_LIMIT {
      assert blank == [];
      assert [rune] + [] == [rune];
    } else {
      assert rune % RUNE_LIMIT < RUNE_LIMIT;
    }
  }

  // ---- what is decoded ----

  /** One byte string after the other. */
  function Joined(parts: seq<Word>): (s: Word)
    requires forall i: nat | i < |parts| :: IsWholeRune(parts[i])
    ensures AreBytes(s)
  {
    if parts == [] then []
    else
      assert IsWholeRune(parts[0]);
      parts[0] + Joined(parts[1..])
  }

  function RuneOf(v: Word): nat
    requires IsWholeRune(v)
  {
    RuneAt(v).rune
  }

  function RunesOf(parts: seq<Word>): (r: seq<nat>)
    requires forall i: nat | i < |parts| :: IsWholeRune(parts[i])
    ensures |r| == |parts| && forall i: nat | i < |r| :: r[i] == RuneOf(parts[i])
  {
    seq(|parts|, i requires 0 <= i < |parts| && IsWholeRune(parts[i]) => RuneOf(parts[i]))
  }

  lemma RestIsIgnored(v: Word, rest: Word)
    requires IsWholeRune(v) && AreBytes(rest)
    ensures AreBytes(v + rest) && RuneAt(v + rest) == RuneAt(v)
  {
    var len := |v|;
    assert (v + rest)[1..len] == v[1..len];
  }

  lemma {:induction false} JoinedIsRead(parts: seq<Word>)
    requires forall i: nat | i < |parts| :: IsWholeRune(parts[i])
    ensures Runes(Joined(parts)) == Some(RunesOf(parts))
    decreases |parts|
  {
    hide RuneAt;
    if parts != [] {
      var first, rest := parts[0], Joined(parts[1..]);
      RestIsIgnored(first, rest);
      JoinedIsRead(parts[1..]);
      assert (first + rest)[|first|..] == rest;
      assert RunesOf(parts) == [RuneOf(first)] + RunesOf(parts[1..]);
    }
  }

  lemma {:induction false} ReadIsJoined(s: Word) returns (parts: seq<Word>)
    requires AreBytes(s) && Runes(s).Some?
    ensures (forall i: nat | i < |parts| :: IsWholeRune(parts[i])) && s == Joined(parts)
    decreases |s|
  {
    hide RuneAt;
    if s == [] {
      parts := [];
    } else {
      var len := RuneAt(s).len;
      DropIsBytes(s, len);
      FirstIsWhole(s);
      var later := ReadIsJoined(s[len..]);
      parts := [s[..len]] + later;
      assert parts[1..] == later && s == s[..len] + s[len..];
    }
  }

  lemma FirstIsWhole(s: Word)
    requires s != [] && AreBytes(s) && RuneAt(s).RuneRead?
    ensures IsWholeRune(s[..RuneAt(s).len])
  {
    var len := RuneAt(s).len;
    assert s[..len][1..len] == s[1..len];
  }

  /** A text is decoded exactly if it consists of whole runes, and into these; anything else is the error. */
  lemma DecodedExactly(s: Word, runes: seq<nat>)
    requires AreBytes(s)
    ensures Runes(s) == Some(runes) <==>
      exists parts: seq<Word> ::
        (forall i: nat | i < |parts| :: IsWholeRune(parts[i])) && s == Joined(parts) && runes == RunesOf(parts)
  {
    hide IsWholeRune, Joined, RunesOf, Runes;
    if Runes(s) == Some(runes) {
      var parts := ReadIsJoined(s);
      JoinedIsRead(parts);
    }
    forall parts: seq<Word> | (forall i: nat | i < |parts| :: IsWholeRune(parts[i])) && s == Joined(parts)
      ensures Runes(s) == Some(RunesOf(parts))
    {
      JoinedIsRead(parts);
    }
  }

  // ---- the automaton for one rune ----

  const MAX_LEN: nat := 4
  const FIRST_LOW: seq<nat> := [0x00, 0xC0, 0xE0, 0xF0]
  const FIRST_HIGH: seq<nat> := [0x80, 0xE0, 0xF0, 0xF8]

  /** c starts a rune with i further bytes. */
  predicate IsLead(i: nat, c: nat) {
    i < MAX_LEN && FIRST_LOW[i] <= c < FIRST_HIGH[i]
  }

  /** v is read as one rune, to its end. */
  predicate IsWholeRune(v: Word) {
    v != [] && AreBytes(v) && RuneAt(v).RuneRead? && RuneAt(v).len == |v|
  }

  ghost const WHOLE_RUNES: iset<Word> := iset v: Word | IsWholeRune(v)

  lemma LeadLength(i: nat, c: nat)
    requires c < BYTE_COUNT
    ensures IsLead(i, c) <==> RuneLength(c) == i + 1
  {
  }

  lemma WholeRune(v: Word)
    ensures IsWholeRune(v) <==> v != [] && IsLead(|v| - 1, v[0]) && AllContinue(v[1..])
  {
    hide RuneLength, IsLead;
    if v != [] && v[0] < BYTE_COUNT {
      LeadLength(|v| - 1, v[0]);
      assert v[1..|v|] == v[1..];
    }
    if v != [] && IsLead(|v| - 1, v[0]) && AllContinue(v[1..]) {
      LeadIsByte(|v| - 1, v[0]);
      assert forall i: nat | 0 < i < |v| :: v[i] == v[1..][i - 1];
    }
  }

  /** The byte strings that the dot matches. */
  lemma WholeRuneSpelled(v: Word)
    ensures IsWholeRune(v) <==>
      || (|v| == 1 && v[0] < 0x80)
      || (|v| == 2 && 0xC0 <= v[0] < 0xE0 && 0x80 <= v[1] < 0xC0)
      || (|v| == 3 && 0xE0 <= v[0] < 0xF0 && 0x80 <= v[1] < 0xC0 && 0x80 <= v[2] < 0xC0)
      || (|v| == 4 && 0xF0 <= v[0] < 0xF8 && 0x80 <= v[1] < 0xC0 && 0x80 <= v[2] < 0xC0 && 0x80 <= v[3] < 0xC0)
  {
    hide RuneAt;
    if v != [] && AreBytes(v) { RuneAtSpelled(v); }
  }

  lemma LeadIsByte(i: nat, c: nat)
    requires IsLead(i, c)
    ensures c < BYTE_COUNT
  {
  }

  /** The steps for the leads of the first i lengths, and those below `letter` of the next. */
  ghost predicate HasLeads(first: set<Step>, last: nat, i: nat, letter: nat) {
    forall s: Step :: s in first <==>
      last <= s.to < last + MAX_LEN && LeadDone(last + MAX_LEN - 1 - s.to, s.letter, i, letter)
  }

  predicate LeadDone(j: nat, c: nat, i: nat, letter: nat) {
    IsLead(j, c) && (j < i || (j == i && c < letter))
  }

  ghost predicate HasContinuations(rest: set<Edge>, last: nat, i: nat, letter: nat) {
    forall e: Edge :: e in rest <==>
      last <= e.from < last + MAX_LEN - 1 && e.to == e.from + 1 && IsContinuation(e.letter) &&
          (e.from < last + i || (e.from == last + i && e.letter < letter))
  }

  lemma NoStepsYet(last: nat)
    ensures HasLeads({}, last, 0, 0) && HasContinuations({}, last, 0, 0)
  {
  }

  lemma LeadAdded(first: set<Step>, last: nat, i: nat, letter: nat)
    requires HasLeads(first, last, i, letter) && IsLead(i, letter)
    ensures HasLeads(first + {Step(letter, last + MAX_LEN - 1 - i)}, last, i, letter + 1)
  {
  }

  /** Before its first lead and after its last, a length is not begun and done. */
  lemma LeadsOfLength(first: set<Step>, last: nat, i: nat)
    requires i < MAX_LEN
    ensures HasLeads(first, last, i, 0) ==> HasLeads(first, last, i, FIRST_LOW[i])
    ensures HasLeads(first, last, i, FIRST_HIGH[i]) ==> HasLeads(first, last, i + 1, 0)
  {
    forall j: nat, c: nat
      ensures LeadDone(j, c, i, 0) <==> LeadDone(j, c, i, FIRST_LOW[i])
      ensures LeadDone(j, c, i, FIRST_HIGH[i]) <==> LeadDone(j, c, i + 1, 0)
    {
    }
  }

  lemma ContinuationAdded(rest: set<Edge>, last: nat, i: nat, letter: nat)
    requires HasContinuations(rest, last, i, letter) && i < MAX_LEN - 1 && IsContinuation(letter)
    ensures HasContinuations(rest + {Edge(last + i, letter, last + i + 1)}, last, i, letter + 1)
  {
  }

  lemma ContinuationsOfState(rest: set<Edge>, last: nat, i: nat)
    ensures HasContinuations(rest, last, i, 0) ==> HasContinuations(rest, last, i, 0x80)
    ensures HasContinuations(rest, last, i, 0xC0) ==> HasContinuations(rest, last, i + 1, 0)
  {
  }

  /** From the k-th new state, exactly the rest of the continuation bytes lead to the end. */
  lemma {:induction false} ContinuationsLead(rest: set<Edge>, last: nat, k: nat, v: Word)
    requires HasContinuations(rest, last, MAX_LEN - 1, 0) && k < MAX_LEN
    ensures Leads(rest, last + k, v, last + MAX_LEN - 1) <==> |v| == MAX_LEN - 1 - k && AllContinue(v)
    decreases MAX_LEN - k
  {
    var end := last + MAX_LEN - 1;
    if Leads(rest, last + k, v, end) {
      LeadsCases(rest, last + k, v, end);
      if last + k != end {
        var e, x :| e in rest && e.from == last + k && v == Read(e.letter) + x && Leads(rest, e.to, x, end);
        ContinuationsLead(rest, last, k + 1, x);
        assert v[0] == e.letter && v[1..] == x;
        assert forall i: nat | 0 < i < |v| :: v[i] == x[i - 1];
      }
    }
    if |v| == MAX_LEN - 1 - k && AllContinue(v) {
      if v == [] {
        LeadsNowhere(rest, end);
      } else {
        var e := Edge(last + k, v[0], last + k + 1);
        assert forall i: nat | i < |v[1..]| :: v[1..][i] == v[i + 1];
        ContinuationsLead(rest, last, k + 1, v[1..]);
        LeadsFirst(rest, e, v[1..], end);
        assert v == Read(e.letter) + v[1..];
      }
    }
  }

  lemma DotReads(first: set<Step>, rest: set<Edge>, last: nat, v: Word)
    requires HasLeads(first, last, MAX_LEN, 0) && HasContinuations(rest, last, MAX_LEN - 1, 0)
    ensures AcceptsStepping(first, rest, {last + MAX_LEN - 1}, v) <==> v in WHOLE_RUNES
  {
    hide HasContinuations, IsWholeRune, Leads;
    var end := last + MAX_LEN - 1;
    WholeRune(v);
    if AcceptsStepping(first, rest, {end}, v) {
      var s: Step, x: Word, f: nat :| s in first && v == Read(s.letter) + x && f in {end} && Leads(rest, s.to, x, f);
      ContinuationsLead(rest, last, s.to - last, x);
      assert v[0] == s.letter && v[1..] == x;
    }
    if v in WHOLE_RUNES {
      var s := Step(v[0], last + MAX_LEN - |v|);
      ContinuationsLead(rest, last, s.to - last, v[1..]);
      assert s in first && v == Read(s.letter) + v[1..] && end in {end} && Leads(rest, s.to, v[1..], end);
    }
  }

  lemma DotThen(a: Nfa, first: set<Step>, rest: set<Edge>)
    requires a.Valid() && HasLeads(first, a.size, MAX_LEN, 0) && HasContinuations(rest, a.size, MAX_LEN - 1, 0)
    ensures AcceptsThen(Attached(a, a.size + MAX_LEN, first, rest, {a.size + MAX_LEN - 1}), a, WHOLE_RUNES)
  {
    hide AcceptsStepping, AcceptsThen, Attached, IsWholeRune;
    forall v ensures AcceptsStepping(first, rest, {a.size + MAX_LEN - 1}, v) <==> v in WHOLE_RUNES {
      DotReads(first, rest, a.size, v);
    }
    AttachedThen(a, a.size + MAX_LEN, first, rest, {a.size + MAX_LEN - 1}, WHOLE_RUNES);
  }

  /** Extends the language by exactly the byte strings that are read as one whole rune. */
  method AppendDot(fsm: Fsm)
    requires fsm.Valid() && fsm.letters.inv == map[]
    modifies fsm
    ensures fsm.Valid() && !fsm.determined && !fsm.isAlternative && fsm.letters == old(fsm.letters)
    ensures AcceptsThen(fsm.Value(), old(fsm.Value()), iset v: Word | IsWholeRune(v))
  {
    hide Attaching, Attached, AcceptsThen, IsWholeRune, EdgesFrom, EdgesOf, Within, Coherent, OverLetters, IsUnion,
        HasLeads, HasContinuations;
    hide Fsm.IsDfa;
    ghost var a := fsm.Value();
    fsm.ValueIsValid();
    var last := fsm.Resize(|fsm.rows| + MAX_LEN);
    AttachingStarts(a, last + MAX_LEN);
    ghost var first: set<Step>, rest: set<Edge> := {}, {};
    NoStepsYet(last);
    for i: nat := 0 to MAX_LEN
      invariant fsm.Wf() && |fsm.rows| == last + MAX_LEN && fsm.letters == old(fsm.letters)
      invariant fsm.Value() == Attaching(a, last + MAX_LEN, first, rest) && HasLeads(first, last, i, 0)
    {
      LeadsOfLength(first, last, i);
      for letter: nat := FIRST_LOW[i] to FIRST_HIGH[i]
        invariant fsm.Wf() && |fsm.rows| == last + MAX_LEN && fsm.letters == old(fsm.letters)
        invariant fsm.Value() == Attaching(a, last + MAX_LEN, first, rest) && HasLeads(first, last, i, letter)
      {
        AttachingShape(a, last + MAX_LEN, first, rest);
        fsm.ConnectFinal(last + MAX_LEN - 1 - i, letter);
        AttachingStep(a, last + MAX_LEN, first, rest, letter, last + MAX_LEN - 1 - i);
        LeadAdded(first, last, i, letter);
        first := first + {Step(letter, last + MAX_LEN - 1 - i)};
      }
      LeadsOfLength(first, last, i);
    }
    for i: nat := 0 to MAX_LEN - 1
      invariant fsm.Wf() && |fsm.rows| == last + MAX_LEN && fsm.letters == old(fsm.letters)
      invariant i > 0 ==> !fsm.isAlternative
      invariant fsm.Value() == Attaching(a, last + MAX_LEN, first, rest) && HasContinuations(rest, last, i, 0)
    {
      ContinuationsOfState(rest, last, i);
      for letter: nat := 0x80 to 0xC0
        invariant fsm.Wf() && |fsm.rows| == last + MAX_LEN && fsm.letters == old(fsm.letters)
        invariant i > 0 || letter > 0x80 ==> !fsm.isAlternative
        invariant fsm.Value() == Attaching(a, last + MAX_LEN, first, rest) && HasContinuations(rest, last, i, letter)
      {
        fsm.ConnectPlainly(last + i, last + i + 1, letter);
        AttachingEdge(a, last + MAX_LEN, first, rest, Edge(last + i, letter, last + i + 1));
        ContinuationAdded(rest, last, i, letter);
        rest := rest + {Edge(last + i, letter, last + i + 1)};
      }
      ContinuationsOfState(rest, last, i);
    }
    AttachingShape(a, last + MAX_LEN, first, rest);
    fsm.finals := {last + MAX_LEN - 1};
    fsm.determined := false;
    DotThen(a, first, rest);
    assert WHOLE_RUNES == iset v: Word | IsWholeRune(v);
  }
}
