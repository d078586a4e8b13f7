/** The driver's header CRC: the packed header and the register as 32-bit words, and the loop
    that runs the shift register of section 4.5.1 of the FlexRay Communications System Protocol
    Specification 2.1 at the top of them. */
module HeaderCrc {
  import opened FlexRayTypes
  import opened Gf2Poly
  import opened ShiftRegister
  import opened WordBits

  function FrameIdBits(fid: bv32): (m: seq<bool>)
    ensures |m| == 11
  {
    [fid & 0x400 != 0, fid & 0x200 != 0, fid & 0x100 != 0, fid & 0x080 != 0, fid & 0x040 != 0, fid & 0x020 != 0,
     fid & 0x010 != 0, fid & 0x008 != 0, fid & 0x004 != 0, fid & 0x002 != 0, fid & 0x001 != 0]
  }

  function PayloadLengthBits(pl: bv32): (m: seq<bool>)
    ensures |m| == 7
  {
    [pl & 0x40 != 0, pl & 0x20 != 0, pl & 0x10 != 0, pl & 0x08 != 0, pl & 0x04 != 0, pl & 0x02 != 0, pl & 0x01 != 0]
  }

  /** The protected header bits in the order they are sent: sync frame indicator, startup
      frame indicator, frame ID, payload length, each with its highest bit first. */
  function HeaderBits(h: Header): (m: seq<bool>)
    ensures |m| == 20
  {
    [h.sync & 0x1 != 0, h.sfi & 0x1 != 0] + FrameIdBits(h.fid) + PayloadLengthBits(h.pl)
  }

  /** The low 11 bits of the word are t, and the bits above them are zero. */
  predicate IsRegisterWord(w: bv32, t: Register) {
    w <= 0x7FF && Holds(w << 21, t)
  }

  // ----- The packed header -----

  /** The packed header, moved up so that its first bit is at bit 30. */
  function HeaderWord(h: Header): bv32 {
    ((((h.sync & 0x1) << 19) | ((h.sfi & 0x1) << 18)) | (((h.fid & 0x7FF) << 7) | (h.pl & 0x7F))) << 11
  }

  /** Five bits at a time. */
  lemma HoldsFive(w: bv32, m: seq<bool>, v: bv32)
    requires |m| >= 5
    requires Top(w) == m[0] && Top(w << 1) == m[1] && Top(w << 2) == m[2] && Top(w << 3) == m[3] && Top(w << 4) == m[4]
    requires v == w << 5 && Holds(v, m[5..])
    ensures Holds(w, m)
  {
    FiveShifts(w, v);
    assert Holds(w << 4, m[4..]);
    assert Holds(w << 3, m[3..]);
    assert Holds(w << 2, m[2..]);
    assert Holds(w << 1, m[1..]);
  }

  lemma FiveShifts(w: bv32, v: bv32)
    requires v == w << 5
    ensures Shl(w) == w << 1 && Shl(w << 1) == w << 2 && Shl(w << 2) == w << 3
    ensures Shl(w << 3) == w << 4 && Shl(w << 4) == v
  {
  }

  /** The bits that shifts of the packed header bring to bit 31, in groups of five. */
  lemma HeaderWordBits(h: Header, w: bv32, w5: bv32, w10: bv32, w15: bv32)
    requires w == Shl(HeaderWord(h))
    requires w5 == w << 5 && w10 == w5 << 5 && w15 == w10 << 5
    ensures Top(w) == (h.sync & 0x1 != 0)
    ensures Top(w << 1) == (h.sfi & 0x1 != 0)
    ensures Top(w << 2) == (h.fid & 0x400 != 0)
    ensures Top(w << 3) == (h.fid & 0x200 != 0)
    ensures Top(w << 4) == (h.fid & 0x100 != 0)
    ensures Top(w5) == (h.fid & 0x080 != 0)
    ensures Top(w5 << 1) == (h.fid & 0x040 != 0)
    ensures Top(w5 << 2) == (h.fid & 0x020 != 0)
    ensures Top(w5 << 3) == (h.fid & 0x010 != 0)
    ensures Top(w5 << 4) == (h.fid & 0x008 != 0)
    ensures Top(w10) == (h.fid & 0x004 != 0)
    ensures Top(w10 << 1) == (h.fid & 0x002 != 0)
    ensures Top(w10 << 2) == (h.fid & 0x001 != 0)
    ensures Top(w10 << 3) == (h.pl & 0x40 != 0)
    ensures Top(w10 << 4) == (h.pl & 0x20 != 0)
    ensures Top(w15) == (h.pl & 0x10 != 0)
    ensures Top(w15 << 1) == (h.pl & 0x08 != 0)
    ensures Top(w15 << 2) == (h.pl & 0x04 != 0)
    ensures Top(w15 << 3) == (h.pl & 0x02 != 0)
    ensures Top(w15 << 4) == (h.pl & 0x01 != 0)
    ensures w15 << 5 == 0
  {
  }

  lemma FrameIdBitsHigh(fid: bv32)
    ensures FrameIdBits(fid)[0] == (fid & 0x400 != 0)
    ensures FrameIdBits(fid)[1] == (fid & 0x200 != 0)
    ensures FrameIdBits(fid)[2] == (fid & 0x100 != 0)
    ensures FrameIdBits(fid)[3] == (fid & 0x080 != 0)
    ensures FrameIdBits(fid)[4] == (fid & 0x040 != 0)
    ensures FrameIdBits(fid)[5] == (fid & 0x020 != 0)
  {
  }

  lemma FrameIdBitsLow(fid: bv32)
    ensures FrameIdBits(fid)[6] == (fid & 0x010 != 0)
    ensures FrameIdBits(fid)[7] == (fid & 0x008 != 0)
    ensures FrameIdBits(fid)[8] == (fid & 0x004 != 0)
    ensures FrameIdBits(fid)[9] == (fid & 0x002 != 0)
    ensures FrameIdBits(fid)[10] == (fid & 0x001 != 0)
  {
  }

  lemma PayloadLengthBitsAt(pl: bv32)
    ensures PayloadLengthBits(pl)[0] == (pl & 0x40 != 0)
    ensures PayloadLengthBits(pl)[1] == (pl & 0x20 != 0)
    ensures PayloadLengthBits(pl)[2] == (pl & 0x10 != 0)
    ensures PayloadLengthBits(pl)[3] == (pl & 0x08 != 0)
    ensures PayloadLengthBits(pl)[4] == (pl & 0x04 != 0)
    ensures PayloadLengthBits(pl)[5] == (pl & 0x02 != 0)
    ensures PayloadLengthBits(pl)[6] == (pl & 0x01 != 0)
  {
  }

  lemma HeaderBitsParts(h: Header, m: seq<bool>)
    requires m == HeaderBits(h)
    ensures m[0] == (h.sync & 0x1 != 0) && m[1] == (h.sfi & 0x1 != 0)
    ensures forall k :: 0 <= k < 11 ==> m[2 + k] == FrameIdBits(h.fid)[k]
    ensures forall k :: 0 <= k < 7 ==> m[13 + k] == PayloadLengthBits(h.pl)[k]
  {
  }

  lemma HeaderFieldsHold(h: Header, w: bv32, m: seq<bool>)
    requires w == Shl(HeaderWord(h)) && |m| == 20
    requires m[0] == (h.sync & 0x1 != 0) && m[1] == (h.sfi & 0x1 != 0)
    requires forall k :: 0 <= k < 11 ==> m[2 + k] == FrameIdBits(h.fid)[k]
    requires forall k :: 0 <= k < 7 ==> m[13 + k] == PayloadLengthBits(h.pl)[k]
    ensures Holds(w, m)
  {
    var w5 := w << 5;
    var w10 := w5 << 5;
    var w15 := w10 << 5;
    HeaderWordBits(h, w, w5, w10, w15);
    FrameIdBitsHigh(h.fid);
    FrameIdBitsLow(h.fid);
    PayloadLengthBitsAt(h.pl);
    HoldsFive(w15, m[15..], 0);
    HoldsFive(w10, m[10..], w15);
    HoldsFive(w5, m[5..], w10);
    HoldsFive(w, m, w5);
  }

  /** Packing puts the header bits, in order, right below bit 31. */
  lemma HeaderWordHolds(h: Header)
    ensures Holds(Shl(HeaderWord(h)), HeaderBits(h))
  {
    HeaderBitsParts(h, HeaderBits(h));
    HeaderFieldsHold(h, Shl(HeaderWord(h)), HeaderBits(h));
  }

  // ----- The register at the top of a word -----

  const POLY_WORD: bv32 := 0x385 << 21
  const INIT_WORD: bv32 := 0x1A << 21

  lemma InitHolds()
    ensures Holds(INIT_WORD, INIT)
  {
    assert Holds(0x00000000, []);
    assert Holds(0x00000000, [false]);
    assert Holds(0x80000000, [true, false]);
    assert Holds(0x40000000, [false, true, false]);
    assert Holds(0xA0000000, [true, false, true, false]);
    assert Holds(0xD0000000, [true, true, false, true, false]);
    assert Holds(0x68000000, [false, true, true, false, true, false]);
    assert Holds(0x34000000, [false, false, true, true, false, true, false]);
    assert Holds(0x1A000000, [false, false, false, true, true, false, true, false]);
    assert Holds(0x0D000000, [false, false, false, false, true, true, false, true, false]);
    assert Holds(0x06800000, [false, false, false, false, false, true, true, false, true, false]);
  }

  lemma GeneratorHolds()
    ensures Holds(POLY_WORD, GENERATOR[1..])
  {
    assert Holds(0x00000000, []);
    assert Holds(0x80000000, [true]);
    assert Holds(0x40000000, [false, true]);
    assert Holds(0xA0000000, [true, false, true]);
    assert Holds(0x50000000, [false, true, false, true]);
    assert Holds(0x28000000, [false, false, true, false, true]);
    assert Holds(0x14000000, [false, false, false, true, false, true]);
    assert Holds(0x0A000000, [false, false, false, false, true, false, true]);
    assert Holds(0x85000000, [true, false, false, false, false, true, false, true]);
    assert Holds(0xC2800000, [true, true, false, false, false, false, true, false, true]);
    assert Holds(0xE1400000, [true, true, true, false, false, false, false, true, false, true]);
  }

  lemma ShiftHolds(w: bv32, t: Register)
    requires Holds(w, t)
    ensures Holds(Shl(w), t[1..] + [false])
  {
    HoldsSnoc(Shl(w), t[1..]);
  }

  lemma AddHolds(w: bv32, t: Register, w': bv32)
    requires Holds(w, t) && w' == w ^ POLY_WORD
    ensures Holds(w', Xor(t, GENERATOR[1..]))
  {
    GeneratorHolds();
    HoldsXor(w, t, POLY_WORD, GENERATOR[1..], w');
  }

  /** The step of the register, case by case. */
  lemma StepCases(t: Register, b: bool)
    ensures t[0] == b ==> Step(t, b) == t[1..] + [false]
    ensures t[0] != b ==> Step(t, b) == Xor(t[1..] + [false], GENERATOR[1..])
  {
    assert Xor(t[1..] + [false], Zeros(11)) == t[1..] + [false];
  }

  /** Shifting the word, and adding the generator's word if the top bit differs from the
      message bit, makes one step of the register. */
  lemma StepHolds(w: bv32, t: Register, b: bool, shifted: bv32, w': bv32)
    requires Holds(w, t) && shifted == Shl(w)
    requires w' == if Top(w) != b then shifted ^ POLY_WORD else shifted
    ensures Holds(w', Step(t, b))
  {
    ShiftHolds(w, t);
    StepCases(t, b);
    assert Top(w) == t[0];
    if t[0] != b {
      AddHolds(shifted, t[1..] + [false], w');
    }
  }

  /** The step on the word. */
  function Advance(w: bv32, b: bool): bv32 {
    if Top(w) != b then Shl(w) ^ POLY_WORD else Shl(w)
  }

  lemma AdvanceHolds(w: bv32, t: Register, b: bool)
    requires Holds(w, t)
    ensures Holds(Advance(w, b), Step(t, b))
  {
    StepHolds(w, t, b, Shl(w), Advance(w, b));
  }

  function FiveSteps(w: bv32, a: bool, b: bool, c: bool, d: bool, e: bool): bv32 {
    Advance(Advance(Advance(Advance(Advance(w, a), b), c), d), e)
  }

  /** Five steps at a time, after any message m. */
  lemma FiveStepsHold(w: bv32, t: Register, m: seq<bool>, a: bool, b: bool, c: bool, d: bool, e: bool)
    requires Holds(w, Feed(t, m))
    ensures Holds(FiveSteps(w, a, b, c, d, e), Feed(t, m + [a, b, c, d, e]))
  {
    hide Advance, Feed, Step, Holds;
    AdvanceHolds(w, Feed(t, m), a);
    FeedSnoc(t, m, a);
    AdvanceHolds(Advance(w, a), Feed(t, m + [a]), b);
    FeedSnoc(t, m + [a], b);
    AdvanceHolds(Advance(Advance(w, a), b), Feed(t, m + [a] + [b]), c);
    FeedSnoc(t, m + [a] + [b], c);
    AdvanceHolds(Advance(Advance(Advance(w, a), b), c), Feed(t, m + [a] + [b] + [c]), d);
    FeedSnoc(t, m + [a] + [b] + [c], d);
    AdvanceHolds(Advance(Advance(Advance(Advance(w, a), b), c), d), Feed(t, m + [a] + [b] + [c] + [d]), e);
    FeedSnoc(t, m + [a] + [b] + [c] + [d], e);
    assert m + [a] + [b] + [c] + [d] + [e] == m + [a, b, c, d, e];
  }

  lemma CrcNext(m: seq<bool>, k: nat)
    requires k < |m|
    ensures Crc(m[..k + 1]) == Step(Crc(m[..k]), m[k])
  {
    assert m[..k + 1][..k] == m[..k];
  }

  lemma TopIsFirst(w: bv32, m: seq<bool>)
    requires m != [] && Holds(w, m)
    ensures Top(w) == m[0] && Holds(Shl(w), m[1..])
  {
  }

  /** The loop body: the next header bit is shifted out and the register makes one step. */
  method ShiftBit(header: bv32, crcRegX: bv32, ghost m: seq<bool>, ghost t: Register)
    returns (header': bv32, crcRegX': bv32)
    requires m != [] && Holds(Shl(header), m)
    requires Holds(crcRegX, t)
    ensures Holds(Shl(header'), m[1..])
    ensures Holds(crcRegX', Step(t, m[0]))
  {
    hide Step, Holds, Top, Shl;
    TopIsFirst(Shl(header), m);
    AdvanceHolds(crcRegX, t, m[0]);
    header' := Shl(header);
    var headerTemp, regTemp := Top(header'), Top(crcRegX);
    crcRegX' := Shl(crcRegX);
    if headerTemp != regTemp {
      crcRegX' := crcRegX' ^ POLY_WORD;
    }
  }

  /** The loop over the 20 header bits. */
  method RunRegister(packed: bv32, ghost m: seq<bool>) returns (crcRegX: bv32)
    requires |m| == 20 && Holds(Shl(packed), m)
    ensures Holds(crcRegX, Crc(m))
  {
    hide Step, Holds, Shl;
    var length := 20;
    var header := packed;
    crcRegX := INIT_WORD;
    InitHolds();
    while length != 0
      invariant 0 <= length <= 20
      invariant Holds(Shl(header), m[20 - length..])
      invariant Holds(crcRegX, Crc(m[..20 - length]))
    {
      length := length - 1;
      header, crcRegX := ShiftBit(header, crcRegX, m[19 - length..], Crc(m[..19 - length]));
      CrcNext(m, 19 - length);
    }
    assert m[..20] == m;
  }

  lemma ElevenShifts(w: bv32)
    ensures Shl(w << 10) == w << 11 && Shl(w << 9) == w << 10 && Shl(w << 8) == w << 9 && Shl(w << 7) == w << 8
    ensures Shl(w << 6) == w << 7 && Shl(w << 5) == w << 6 && Shl(w << 4) == w << 5 && Shl(w << 3) == w << 4
    ensures Shl(w << 2) == w << 3 && Shl(w << 1) == w << 2 && Shl(w) == w << 1
    ensures w << 11 == 0 ==> (w >> 21) << 21 == w
    ensures w >> 21 <= 0x7FF
  {
  }

  lemma LowBitsZero(w: bv32, t: Register)
    requires Holds(w, t)
    ensures w << 11 == 0
  {
    ElevenShifts(w);
    assert Holds(w << 1, t[1..]);
    assert Holds(w << 2, t[2..]);
    assert Holds(w << 3, t[3..]);
    assert Holds(w << 4, t[4..]);
    assert Holds(w << 5, t[5..]);
    assert Holds(w << 6, t[6..]);
    assert Holds(w << 7, t[7..]);
    assert Holds(w << 8, t[8..]);
    assert Holds(w << 9, t[9..]);
    assert Holds(w << 10, t[10..]);
    assert Holds(w << 11, t[11..]);
  }

  /** Moved down again, the register is all that the word holds. */
  lemma LoweredHolds(w: bv32, t: Register, r: bv32)
    requires Holds(w, t) && r == w >> 21
    ensures IsRegisterWord(r, t)
  {
    LowBitsZero(w, t);
    ElevenShifts(w);
  }

  /** Only one word is the register t. */
  lemma RegisterWordUnique(w: bv32, v: bv32, t: Register)
    requires IsRegisterWord(w, t) && IsRegisterWord(v, t)
    ensures w == v
  {
    HoldsWord(w << 21, v << 21, t);
    ShiftedApart(w, v);
  }

  lemma ShiftedApart(w: bv32, v: bv32)
    requires w <= 0x7FF && v <= 0x7FF && w << 21 == v << 21
    ensures w == v
  {
  }

  /** `header_crc`: the CRC of the 20 header bits, and nothing else in the word. */
  method ComputeHeaderCrc(lpdu: HeaderBuffer) returns (result: bv32)
    ensures IsRegisterWord(result, Crc(HeaderBits(lpdu.Value())))
  {
    var h := lpdu.Value();
    HeaderWordHolds(h);
    var crcRegX := RunRegister(HeaderWord(h), HeaderBits(h));
    result := crcRegX >> 21;
    LoweredHolds(crcRegX, Crc(HeaderBits(h)), result);
  }
}
