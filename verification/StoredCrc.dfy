/** The CRC field of the header registers after `FlexRay_Set`, once and over a run: for every contents
    of the registers before, when it belongs to the header that they then hold. */
module StoredCrc {
  import opened FlexRayTypes
  import opened Gf2Poly
  import opened ShiftRegister
  import opened WordBits
  import opened HeaderCrc
  import opened HeaderRegisters

  // ----- Words of 11 bits -----

  function Bit(b: bool, v: bv32): bv32 {
    if b then v else 0
  }

  /** The number with the 11 bits t, as FrameIdBits reads them. */
  function WordOf(t: Register): bv32 {
    Bit(t[0], 0x400) | Bit(t[1], 0x200) | Bit(t[2], 0x100) | Bit(t[3], 0x080) | Bit(t[4], 0x040) | Bit(t[5], 0x020) |
    Bit(t[6], 0x010) | Bit(t[7], 0x008) | Bit(t[8], 0x004) | Bit(t[9], 0x002) | Bit(t[10], 0x001)
  }

  lemma WordOfAt(t: Register, w: bv32)
    requires w == WordOf(t)
    ensures w & 0x7FF == w
    ensures t[0] == (w & 0x400 != 0) && t[1] == (w & 0x200 != 0) && t[2] == (w & 0x100 != 0)
    ensures t[3] == (w & 0x080 != 0) && t[4] == (w & 0x040 != 0) && t[5] == (w & 0x020 != 0)
    ensures t[6] == (w & 0x010 != 0) && t[7] == (w & 0x008 != 0) && t[8] == (w & 0x004 != 0)
    ensures t[9] == (w & 0x002 != 0) && t[10] == (w & 0x001 != 0)
  {
  }

  /** Every 11 bits are the frame ID bits of a number. */
  lemma FrameIdBitsOfWord(t: Register)
    ensures FrameIdBits(WordOf(t)) == t && WordOf(t) & 0x7FF == WordOf(t)
  {
    hide WordOf, FrameIdBits;
    var w := WordOf(t);
    WordOfAt(t, w);
    FrameIdBitsHigh(w);
    FrameIdBitsLow(w);
  }

  lemma MaskedTwice(w: bv32)
    ensures (w & 0x7FF) & 0x7FF == w & 0x7FF && w & 0x7FF <= 0x7FF
  {
  }

  lemma FrameIdBitsAreWord(id: bv32, t: Register)
    ensures FrameIdBits(id & 0x7FF) == t <==> id & 0x7FF == WordOf(t)
  {
    hide WordOf, FrameIdBits;
    FrameIdBitsOfWord(t);
    MaskedTwice(id);
    if FrameIdBits(id & 0x7FF) == t {
      FrameIdBitsDecide(id & 0x7FF, WordOf(t));
    }
  }

  /** A word of 11 bits is the register with its bits. */
  lemma RegisterOfWord(w: bv32)
    requires w <= 0x7FF
    ensures IsRegisterWord(w, FrameIdBits(w))
  {
    hide FrameIdBits, Holds;
    RegisterOfShifted(w, w << 21, w << 26, w << 31);
  }

  lemma LoweredBits(w: bv32, w0: bv32, w5: bv32, w10: bv32)
    requires w0 == w << 21 && w5 == w << 26 && w10 == w << 31
    ensures w5 == w0 << 5 && w10 == w5 << 5 && Shl(w10) == 0
    ensures Top(w0) == (w & 0x400 != 0) && Top(w0 << 1) == (w & 0x200 != 0) && Top(w0 << 2) == (w & 0x100 != 0)
    ensures Top(w0 << 3) == (w & 0x080 != 0) && Top(w0 << 4) == (w & 0x040 != 0)
    ensures Top(w5) == (w & 0x020 != 0) && Top(w5 << 1) == (w & 0x010 != 0) && Top(w5 << 2) == (w & 0x008 != 0)
    ensures Top(w5 << 3) == (w & 0x004 != 0) && Top(w5 << 4) == (w & 0x002 != 0)
    ensures Top(w10) == (w & 0x001 != 0)
  {
  }

  lemma LastBit(w: bv32, t: seq<bool>)
    requires |t| == 1 && Top(w) == t[0] && Shl(w) == 0
    ensures Holds(w, t)
  {
    assert Holds(0, []);
  }

  lemma RegisterOfShifted(w: bv32, w0: bv32, w5: bv32, w10: bv32)
    requires w0 == w << 21 && w5 == w << 26 && w10 == w << 31
    ensures Holds(w0, FrameIdBits(w))
  {
    hide FrameIdBits, Holds, Top, Shl;
    var t := FrameIdBits(w);
    FrameIdBitsHigh(w);
    FrameIdBitsLow(w);
    LoweredBits(w, w0, w5, w10);
    LastBit(w10, t[10..]);
    HoldsFive(w5, t[5..], w10);
    HoldsFive(w0, t, w5);
  }

  // ----- The CRC as a number -----

  /** The header CRC of a frame ID and a payload length, with clear indicators. */
  function CrcNumber(fid: bv32, pl: bv32): bv32 {
    WordOf(Crc(PlainBits(fid, pl)))
  }

  lemma WordOfSmall(t: Register)
    ensures WordOf(t) <= 0x7FF
  {
  }

  /** A word is the register t exactly if it is the number of t. */
  lemma RegisterWordIff(w: bv32, t: Register)
    ensures IsRegisterWord(w, t) <==> w == WordOf(t)
  {
    hide IsRegisterWord, WordOf, FrameIdBits;
    WordOfSmall(t);
    RegisterOfWord(WordOf(t));
    FrameIdBitsOfWord(t);
    if IsRegisterWord(w, t) {
      RegisterWordUnique(w, WordOf(t), t);
    }
  }

  lemma StoredIffNumber(r: Words)
    ensures CrcStored(r) <==> CrcField(r) == CrcNumber(FrameIdField(r), LengthField(r))
  {
    hide WordOf, Unpack1, Unpack2, IsRegisterWord, Crc, PlainBits;
    RegisterWordIff(CrcField(r), Crc(PlainBits(FrameIdField(r), LengthField(r))));
  }

  lemma CorrectIffNumber(h: Header)
    requires h.sync & 0x1 == 0 && h.sfi & 0x1 == 0
    ensures CrcCorrect(h) <==> h.crc == CrcNumber(h.fid, h.pl)
  {
    hide WordOf, IsRegisterWord, Crc, PlainBits, HeaderBits;
    PlainHeaderBits(h);
    RegisterWordIff(h.crc, Crc(PlainBits(h.fid, h.pl)));
  }

  lemma MaskedNumber(fid: bv32, pl: bv32)
    ensures CrcNumber(Masked(fid, 0x7FF), Masked(pl, 0x7F)) == CrcNumber(fid, pl)
    ensures Masked(CrcNumber(fid, pl), 0x7FF) == CrcNumber(fid, pl)
  {
    hide FrameIdBits, PayloadLengthBits, WordOf, Crc;
    FrameIdBitsOfMasked(fid, Masked(fid, 0x7FF));
    PayloadLengthBitsOfMasked(pl, Masked(pl, 0x7F));
    FrameIdBitsOfWord(Crc(PlainBits(fid, pl)));
  }

  // ----- Adding numbers -----

  function Plus(a: bv32, b: bv32): bv32 {
    a ^ b
  }

  function Shared(a: bv32, b: bv32): bv32 {
    a & b
  }

  predicate AddsBit(a: bv32, b: bv32, mask: bv32) {
    (Plus(a, b) & mask != 0) == ((a & mask != 0) != (b & mask != 0))
  }

  lemma MasksAdd(a: bv32, b: bv32)
    ensures AddsBit(a, b, 0x400) && AddsBit(a, b, 0x200) && AddsBit(a, b, 0x100) && AddsBit(a, b, 0x080)
    ensures AddsBit(a, b, 0x040) && AddsBit(a, b, 0x020) && AddsBit(a, b, 0x010) && AddsBit(a, b, 0x008)
    ensures AddsBit(a, b, 0x004) && AddsBit(a, b, 0x002) && AddsBit(a, b, 0x001)
  {
  }

  lemma FrameIdBitsXor(a: bv32, b: bv32)
    ensures FrameIdBits(Plus(a, b)) == Xor(FrameIdBits(a), FrameIdBits(b))
  {
    hide FrameIdBits, Plus;
    MasksAdd(a, b);
    FrameIdBitsHigh(a);
    FrameIdBitsLow(a);
    FrameIdBitsHigh(b);
    FrameIdBitsLow(b);
    FrameIdBitsHigh(Plus(a, b));
    FrameIdBitsLow(Plus(a, b));
  }

  lemma PayloadLengthBitsXor(a: bv32, b: bv32)
    ensures PayloadLengthBits(Plus(a, b)) == Xor(PayloadLengthBits(a), PayloadLengthBits(b))
  {
    hide PayloadLengthBits, Plus;
    MasksAdd(a, b);
    PayloadLengthBitsAt(a);
    PayloadLengthBitsAt(b);
    PayloadLengthBitsAt(Plus(a, b));
  }

  lemma PlainBitsXor(f: bv32, p: bv32, g: bv32, q: bv32)
    ensures PlainBits(Plus(f, g), Plus(p, q)) == Xor(PlainBits(f, p), PlainBits(g, q))
  {
    hide FrameIdBits, PayloadLengthBits, Plus;
    var i := [false, false];
    FrameIdBitsXor(f, g);
    PayloadLengthBitsXor(p, q);
    XorConcat(i, i, FrameIdBits(f), FrameIdBits(g));
    XorConcat(i + FrameIdBits(f), i + FrameIdBits(g), PayloadLengthBits(p), PayloadLengthBits(q));
    assert Xor(i, i) == i;
  }

  lemma WordOfXor(t: Register, u: Register)
    ensures WordOf(Xor(t, u)) == Plus(WordOf(t), WordOf(u))
  {
    hide WordOf, FrameIdBits, Plus;
    FrameIdBitsOfWord(t);
    FrameIdBitsOfWord(u);
    FrameIdBitsXor(WordOf(t), WordOf(u));
    FrameIdBitsOfWord(Xor(t, u));
    FrameIdBitsDecide(Plus(WordOf(t), WordOf(u)), WordOf(Xor(t, u)));
    PlusMasked(WordOf(t), WordOf(u));
  }

  lemma PlusMasked(a: bv32, b: bv32)
    requires a & 0x7FF == a && b & 0x7FF == b
    ensures Plus(a, b) & 0x7FF == Plus(a, b)
  {
  }

  /** The CRC is affine, as a number. */
  lemma CrcNumberAffine(f: bv32, p: bv32, g: bv32, q: bv32, h: bv32, s: bv32)
    ensures CrcNumber(Plus(Plus(f, g), h), Plus(Plus(p, q), s)) ==
            Plus(Plus(CrcNumber(f, p), CrcNumber(g, q)), CrcNumber(h, s))
  {
    hide WordOf, Feed, FrameIdBits, PayloadLengthBits, Plus;
    var a, b, c := PlainBits(f, p), PlainBits(g, q), PlainBits(h, s);
    PlainBitsXor(f, p, g, q);
    PlainBitsXor(Plus(f, g), Plus(p, q), h, s);
    CrcAffine(a, b, c);
    WordOfXor(Crc(a), Crc(b));
    WordOfXor(Xor(Crc(a), Crc(b)), Crc(c));
  }

  lemma PlusTwice(x: bv32, y: bv32)
    ensures Plus(x, Plus(x, y)) == y
  {
  }

  lemma SharedFromSum(a: bv32, b: bv32, c: bv32)
    requires Joined(a, b) == Plus(Plus(a, b), c)
    ensures Shared(a, b) == c
  {
  }

  lemma OrAsSum(a: bv32, b: bv32)
    ensures Plus(Plus(a, b), Shared(a, b)) == Joined(a, b)
  {
    hide Plus, Shared, Joined;
    PlusTwice(Plus(a, b), Joined(a, b));
    SharedFromSum(a, b, Plus(Plus(a, b), Joined(a, b)));
  }

  // ----- One write -----

  /** For every contents of the registers and every header: what `FlexRay_Set` leaves has the right
      CRC if and only if the or-ed CRCs are the CRC of the or-ed frame IDs and lengths. */
  lemma SetStoredIff(r: Words, h: Header)
    ensures CrcStored(Set(r, h)) <==>
            Joined(CrcField(r), Masked(h.crc, 0x7FF)) ==
            CrcNumber(Joined(FrameIdField(r), Masked(h.fid, 0x7FF)), Joined(LengthField(r), Masked(h.pl, 0x7F)))
  {
    hide CrcNumber, CrcStored, Set, FrameIdField, LengthField, CrcField, Joined, Masked;
    StoredIffNumber(Set(r, h));
    FieldsAccumulate(r, h);
  }

  /** When registers and header are right by themselves: the result is right if and only if the bits
      that the two share are themselves a header with its own CRC. */
  lemma SetStoredIffShared(r: Words, h: Header)
    requires CrcStored(r) && h.sync & 0x1 == 0 && h.sfi & 0x1 == 0 && CrcCorrect(h)
    ensures CrcStored(Set(r, h)) <==>
            Shared(CrcField(r), Masked(h.crc, 0x7FF)) ==
            CrcNumber(Shared(FrameIdField(r), Masked(h.fid, 0x7FF)), Shared(LengthField(r), Masked(h.pl, 0x7F)))
  {
    hide CrcNumber, CrcStored, CrcCorrect, Set, FrameIdField, LengthField, CrcField, Masked, Joined, Shared;
    StoredIffNumber(r);
    CorrectIffNumber(h);
    MaskedNumber(h.fid, h.pl);
    SetStoredIff(r, h);
    SharedParts(FrameIdField(r), LengthField(r), Masked(h.fid, 0x7FF), Masked(h.pl, 0x7F));
  }

  /** Of two headers with their CRCs the or is one if and only if the and is one. */
  lemma SharedParts(f: bv32, p: bv32, g: bv32, q: bv32)
    ensures Joined(CrcNumber(f, p), CrcNumber(g, q)) == CrcNumber(Joined(f, g), Joined(p, q)) <==>
            Shared(CrcNumber(f, p), CrcNumber(g, q)) == CrcNumber(Shared(f, g), Shared(p, q))
  {
    hide CrcNumber, Joined, Plus, Shared;
    CrcNumberAffine(f, p, g, q, Shared(f, g), Shared(p, q));
    OrAsSum(f, g);
    OrAsSum(p, q);
    OrAsSum(CrcNumber(f, p), CrcNumber(g, q));
    if Joined(CrcNumber(f, p), CrcNumber(g, q)) == CrcNumber(Joined(f, g), Joined(p, q)) {
      SharedFromSum(CrcNumber(f, p), CrcNumber(g, q), CrcNumber(Shared(f, g), Shared(p, q)));
    }
  }

  lemma JoinedZero(x: bv32)
    ensures Joined(0, x) == x
  {
  }

  lemma FieldsOfCleared()
    ensures FrameIdField(CLEARED) == 0 && LengthField(CLEARED) == 0 && CrcField(CLEARED) == 0
  {
  }

  /** Written to cleared registers, a header with clear indicators and the right CRC leaves registers
      whose CRC field can be recomputed from them. */
  lemma SetStoresCrc(h: Header)
    requires h.sync & 0x1 == 0 && h.sfi & 0x1 == 0 && CrcCorrect(h)
    ensures CrcStored(Set(CLEARED, h))
  {
    hide CrcNumber, CrcStored, CrcCorrect, Set, FrameIdField, LengthField, CrcField, Masked, Joined;
    SetStoredIff(CLEARED, h);
    FieldsOfCleared();
    JoinedZero(Masked(h.crc, 0x7FF));
    JoinedZero(Masked(h.fid, 0x7FF));
    JoinedZero(Masked(h.pl, 0x7F));
    CorrectIffNumber(h);
    MaskedNumber(h.fid, h.pl);
  }

  // ----- A run of writes -----

  /** The fields or-ed with those of all headers. */
  function JoinedIds(w: bv32, hs: seq<Header>): bv32 {
    if hs == [] then w else Joined(JoinedIds(w, hs[..|hs| - 1]), Masked(hs[|hs| - 1].fid, 0x7FF))
  }

  function JoinedLengths(w: bv32, hs: seq<Header>): bv32 {
    if hs == [] then w else Joined(JoinedLengths(w, hs[..|hs| - 1]), Masked(hs[|hs| - 1].pl, 0x7F))
  }

  function JoinedCrcs(w: bv32, hs: seq<Header>): bv32 {
    if hs == [] then w else Joined(JoinedCrcs(w, hs[..|hs| - 1]), Masked(hs[|hs| - 1].crc, 0x7FF))
  }

  lemma {:induction false} RunJoinsFields(r: Words, hs: seq<Header>)
    ensures FrameIdField(SetAll(r, hs)) == JoinedIds(FrameIdField(r), hs)
    ensures LengthField(SetAll(r, hs)) == JoinedLengths(LengthField(r), hs)
    ensures CrcField(SetAll(r, hs)) == JoinedCrcs(CrcField(r), hs)
  {
    hide Set, FrameIdField, LengthField, CrcField, Masked, Joined;
    if hs != [] {
      RunJoinsFields(r, hs[..|hs| - 1]);
      FieldsAccumulate(SetAll(r, hs[..|hs| - 1]), hs[|hs| - 1]);
    }
  }

  /** For every contents of the registers and every run of writes: the CRC field is right afterwards
      if and only if the or of all CRCs is the CRC of the or of all frame IDs and lengths. */
  lemma RunStoredIff(r: Words, hs: seq<Header>)
    ensures CrcStored(SetAll(r, hs)) <==>
            JoinedCrcs(CrcField(r), hs) ==
            CrcNumber(JoinedIds(FrameIdField(r), hs), JoinedLengths(LengthField(r), hs))
  {
    hide CrcNumber, CrcStored, SetAll, FrameIdField, LengthField, CrcField, JoinedIds, JoinedLengths, JoinedCrcs;
    StoredIffNumber(SetAll(r, hs));
    RunJoinsFields(r, hs);
  }
}
