/** The three header registers of a message buffer, and what writing them with `|=` stores. */
module HeaderRegisters {
  import opened FlexRayTypes
  import opened ShiftRegister
  import opened HeaderCrc
  import opened WordBits
  import opened HeaderCode

  // ----- Layout -----

  function Word0(h: Header): bv32 {
    ((h.mbi & 0x1) << 29) | ((h.txm & 0x1) << 28) | ((h.ppit & 0x1) << 27) | ((h.cfg & 0x1) << 26) |
    ((h.chb & 0x1) << 25) | ((h.cha & 0x1) << 24) | ((h.cyc & 0x7F) << 16) | (h.fid & 0x7FF)
  }

  function Word1(h: Header): bv32 {
    ((h.pl & 0x7F) << 16) | (h.crc & 0x7FF)
  }

  function Word2(h: Header): bv32 {
    h.dp & 0x7FF
  }

  /** The contents of WRHS[0..2] or RDHS[0..2]. */
  datatype Words = Words(w0: bv32, w1: bv32, w2: bv32)

  /** The fields of the three header sections. */
  datatype Section1 = Section1(
    mbi: bv32, txm: bv32, ppit: bv32, cfg: bv32, chb: bv32, cha: bv32, cyc: bv32, fid: bv32)
  datatype Section2 = Section2(pl: bv32, crc: bv32)
  datatype Section3 = Section3(dp: bv32)
  datatype Fields = Fields(s1: Section1, s2: Section2, s3: Section3)

  /** The fields of a header, as wide as the registers have room for them. */
  function FieldsOf(h: Header): Fields {
    Fields(Section1Of(h), Section2Of(h), Section3Of(h))
  }

  function Section1Of(h: Header): Section1 {
    Section1(h.mbi & 0x1, h.txm & 0x1, h.ppit & 0x1, h.cfg & 0x1, h.chb & 0x1, h.cha & 0x1, h.cyc & 0x7F, h.fid & 0x7FF)
  }

  function Section2Of(h: Header): Section2 {
    Section2(h.pl & 0x7F, h.crc & 0x7FF)
  }

  function Section3Of(h: Header): Section3 {
    Section3(h.dp & 0x7FF)
  }

  function Unpack(r: Words): Fields {
    Fields(Unpack1(r.w0), Unpack2(r.w1), Unpack3(r.w2))
  }

  function Unpack3(w: bv32): Section3 {
    Section3(w & 0x7FF)
  }

  function Unpack1(w: bv32): Section1 {
    Section1((w >> 29) & 0x1, (w >> 28) & 0x1, (w >> 27) & 0x1, (w >> 26) & 0x1, (w >> 25) & 0x1, (w >> 24) & 0x1,
             (w >> 16) & 0x7F, w & 0x7FF)
  }

  function Unpack2(w: bv32): Section2 {
    Section2((w >> 16) & 0x7F, w & 0x7FF)
  }

  function Or1(f: Section1, g: Section1): Section1 {
    Section1(f.mbi | g.mbi, f.txm | g.txm, f.ppit | g.ppit, f.cfg | g.cfg, f.chb | g.chb, f.cha | g.cha, f.cyc | g.cyc,
             f.fid | g.fid)
  }

  function Or2(f: Section2, g: Section2): Section2 {
    Section2(f.pl | g.pl, f.crc | g.crc)
  }

  function Or3(f: Section3, g: Section3): Section3 {
    Section3(f.dp | g.dp)
  }

  function Or(f: Fields, g: Fields): Fields {
    Fields(Or1(f.s1, g.s1), Or2(f.s2, g.s2), Or3(f.s3, g.s3))
  }

  /** `FlexRay_Set` on the registers of the chosen direction. */
  function Set(r: Words, h: Header): Words {
    Words(Set0(r.w0, h), Set1(r.w1, h), Set2(r.w2, h))
  }

  function Set0(w: bv32, h: Header): bv32 {
    Joined(w, Word0(h))
  }

  function Set1(w: bv32, h: Header): bv32 {
    Joined(w, Word1(h))
  }

  function Set2(w: bv32, h: Header): bv32 {
    Joined(w, Word2(h))
  }

  const CLEARED := Words(0, 0, 0)

  lemma Set0Combines(w: bv32, h: Header)
    ensures Unpack1(Set0(w, h)) == Or1(Unpack1(w), Section1Of(h))
  {
  }

  lemma Set1Combines(w: bv32, h: Header)
    ensures Unpack2(Set1(w, h)) == Or2(Unpack2(w), Section2Of(h))
  {
  }

  lemma Set2Combines(w: bv32, h: Header)
    ensures Unpack3(Set2(w, h)) == Or3(Unpack3(w), Section3Of(h))
  {
  }

  /** The fields lie in disjoint bits: each is combined with its own old contents only. */
  lemma SetCombinesFields(r: Words, h: Header)
    ensures Unpack(Set(r, h)) == Or(Unpack(r), FieldsOf(h))
  {
    Set0Combines(r.w0, h);
    Set1Combines(r.w1, h);
    Set2Combines(r.w2, h);
  }

  // ----- The words themselves -----

  /** A write leaves every bit outside the fields as it was. */
  lemma SetKeepsReserved(r: Words, h: Header)
    ensures Set(r, h).w0 & 0xC080F800 == r.w0 & 0xC080F800
    ensures Set(r, h).w1 & 0xFF80F800 == r.w1 & 0xFF80F800
    ensures Set(r, h).w2 & 0xFFFFF800 == r.w2 & 0xFFFFF800
  {
  }

  /** Where in the first register each field is. */
  lemma SetPositions0(r: Words, h: Header)
    ensures Set(r, h).w0 & 0x20000000 != 0 <==> r.w0 & 0x20000000 != 0 || h.mbi & 0x1 != 0
    ensures Set(r, h).w0 & 0x10000000 != 0 <==> r.w0 & 0x10000000 != 0 || h.txm & 0x1 != 0
    ensures Set(r, h).w0 & 0x08000000 != 0 <==> r.w0 & 0x08000000 != 0 || h.ppit & 0x1 != 0
    ensures Set(r, h).w0 & 0x04000000 != 0 <==> r.w0 & 0x04000000 != 0 || h.cfg & 0x1 != 0
    ensures Set(r, h).w0 & 0x02000000 != 0 <==> r.w0 & 0x02000000 != 0 || h.chb & 0x1 != 0
    ensures Set(r, h).w0 & 0x01000000 != 0 <==> r.w0 & 0x01000000 != 0 || h.cha & 0x1 != 0
    ensures Set(r, h).w0 & 0x007F0000 == (r.w0 & 0x007F0000) | ((h.cyc & 0x7F) << 16)
    ensures Set(r, h).w0 & 0x000007FF == (r.w0 & 0x000007FF) | (h.fid & 0x7FF)
  {
  }

  /** And in the other two. */
  lemma SetPositions12(r: Words, h: Header)
    ensures Set(r, h).w1 & 0x007F0000 == (r.w1 & 0x007F0000) | ((h.pl & 0x7F) << 16)
    ensures Set(r, h).w1 & 0x000007FF == (r.w1 & 0x000007FF) | (h.crc & 0x7FF)
    ensures Set(r, h).w2 & 0x000007FF == (r.w2 & 0x000007FF) | (h.dp & 0x7FF)
  {
  }

  /** The first box for channel A on cleared registers. */
  lemma FirstBoxWords(h: Header)
    requires h == Header(1, 0, 0, 1, 0, 1, 0, 1, 8, 0x638, 0x80, 0, 0)
    ensures Set(CLEARED, h) == Words(0x25000001, 0x00080638, 0x00000080)
  {
  }

  // ----- Recovering the fields -----

  /** The bits of the words that belong to some field. */
  const LAYOUT0: bv32 := 0x3F7F07FF
  const LAYOUT1: bv32 := 0x007F07FF
  const LAYOUT2: bv32 := 0x000007FF

  /** v has no bit set outside w. */
  predicate Within(v: bv32, w: bv32) {
    v & !w == 0
  }

  /** w has no bit set outside v, under the mask. */
  predicate Covers(v: bv32, w: bv32, mask: bv32) {
    Within(w & mask, v)
  }

  function Masked(w: bv32, mask: bv32): bv32 {
    w & mask
  }

  function Joined(w: bv32, v: bv32): bv32 {
    w | v
  }

  lemma CoversFromJoin(w: bv32, v: bv32, mask: bv32)
    requires Masked(Joined(w, v), mask) == Masked(v, mask)
    ensures Covers(v, w, mask)
  {
  }

  lemma JoinFromCovers(w: bv32, v: bv32, mask: bv32)
    requires Covers(v, w, mask)
    ensures Masked(Joined(w, v), mask) == Masked(v, mask)
  {
  }

  lemma Word0Unpacks(h: Header)
    ensures Unpack1(Word0(h)) == Section1Of(h)
  {
  }

  lemma Unpack1Decides(x: bv32, y: bv32)
    requires Unpack1(x) == Unpack1(y)
    ensures Masked(x, LAYOUT0) == Masked(y, LAYOUT0)
  {
  }

  lemma Unpack1Depends(x: bv32, y: bv32)
    requires Masked(x, LAYOUT0) == Masked(y, LAYOUT0)
    ensures Unpack1(x) == Unpack1(y)
  {
  }

  lemma Set0Recovers(w: bv32, h: Header)
    ensures Unpack1(Set0(w, h)) == Section1Of(h) <==> Covers(Word0(h), w, LAYOUT0)
  {
    Word0Unpacks(h);
    if Unpack1(Set0(w, h)) == Section1Of(h) {
      Unpack1Decides(Set0(w, h), Word0(h));
      CoversFromJoin(w, Word0(h), LAYOUT0);
    } else if Covers(Word0(h), w, LAYOUT0) {
      JoinFromCovers(w, Word0(h), LAYOUT0);
      Unpack1Depends(Set0(w, h), Word0(h));
    }
  }

  lemma Word1Unpacks(h: Header)
    ensures Unpack2(Word1(h)) == Section2Of(h)
  {
  }

  lemma Unpack2Decides(x: bv32, y: bv32)
    requires Unpack2(x) == Unpack2(y)
    ensures Masked(x, LAYOUT1) == Masked(y, LAYOUT1)
  {
  }

  lemma Unpack2Depends(x: bv32, y: bv32)
    requires Masked(x, LAYOUT1) == Masked(y, LAYOUT1)
    ensures Unpack2(x) == Unpack2(y)
  {
  }

  lemma Set1Recovers(w: bv32, h: Header)
    ensures Unpack2(Set1(w, h)) == Section2Of(h) <==> Covers(Word1(h), w, LAYOUT1)
  {
    Word1Unpacks(h);
    if Unpack2(Set1(w, h)) == Section2Of(h) {
      Unpack2Decides(Set1(w, h), Word1(h));
      CoversFromJoin(w, Word1(h), LAYOUT1);
    } else if Covers(Word1(h), w, LAYOUT1) {
      JoinFromCovers(w, Word1(h), LAYOUT1);
      Unpack2Depends(Set1(w, h), Word1(h));
    }
  }

  lemma Word2Unpacks(h: Header)
    ensures Unpack3(Word2(h)) == Section3Of(h)
  {
  }

  lemma Unpack3Decides(x: bv32, y: bv32)
    requires Unpack3(x) == Unpack3(y)
    ensures Masked(x, LAYOUT2) == Masked(y, LAYOUT2)
  {
  }

  lemma Unpack3Depends(x: bv32, y: bv32)
    requires Masked(x, LAYOUT2) == Masked(y, LAYOUT2)
    ensures Unpack3(x) == Unpack3(y)
  {
  }

  lemma Set2Recovers(w: bv32, h: Header)
    ensures Unpack3(Set2(w, h)) == Section3Of(h) <==> Covers(Word2(h), w, LAYOUT2)
  {
    Word2Unpacks(h);
    if Unpack3(Set2(w, h)) == Section3Of(h) {
      Unpack3Decides(Set2(w, h), Word2(h));
      CoversFromJoin(w, Word2(h), LAYOUT2);
    } else if Covers(Word2(h), w, LAYOUT2) {
      JoinFromCovers(w, Word2(h), LAYOUT2);
      Unpack3Depends(Set2(w, h), Word2(h));
    }
  }

  function WordsOf(h: Header): Words {
    Words(Word0(h), Word1(h), Word2(h))
  }

  /** No register in r has a field bit set that v does not have. */
  predicate CoversWords(v: Words, r: Words) {
    Covers(v.w0, r.w0, LAYOUT0) && Covers(v.w1, r.w1, LAYOUT1) && Covers(v.w2, r.w2, LAYOUT2)
  }

  /** What `FlexRay_Set` wrote can be read back if and only if no register had a field bit set
      that the new words do not have. */
  lemma SetRecoversIff(r: Words, h: Header)
    ensures Unpack(Set(r, h)) == FieldsOf(h) <==> CoversWords(WordsOf(h), r)
  {
    Set0Recovers(r.w0, h);
    Set1Recovers(r.w1, h);
    Set2Recovers(r.w2, h);
  }

  /** From cleared registers every field comes back. */
  lemma SetRoundTrip(h: Header)
    ensures Unpack(Set(CLEARED, h)) == FieldsOf(h)
  {
    CoversNothing(Word0(h), LAYOUT0);
    CoversNothing(Word1(h), LAYOUT1);
    CoversNothing(Word2(h), LAYOUT2);
    SetRecoversIff(CLEARED, h);
  }

  lemma CoversNothing(v: bv32, mask: bv32)
    ensures Covers(v, 0, mask)
  {
  }

  // ----- Several writes without clearing -----

  function SetAll(r: Words, hs: seq<Header>): Words {
    if hs == [] then r else Set(SetAll(r, hs[..|hs| - 1]), hs[|hs| - 1])
  }

  lemma CoversJoined(v: bv32, a: bv32, b: bv32, mask: bv32)
    requires Covers(v, a, mask) && Covers(v, b, mask)
    ensures Covers(v, Joined(a, b), mask)
  {
  }

  lemma CoversParts(v: bv32, a: bv32, b: bv32, mask: bv32)
    requires Covers(v, Joined(a, b), mask)
    ensures Covers(v, a, mask) && Covers(v, b, mask)
  {
  }

  lemma CoversSet(v: Words, r: Words, h: Header)
    ensures CoversWords(v, Set(r, h)) <==> CoversWords(v, r) && CoversWords(v, WordsOf(h))
  {
    hide Covers, Word0, Word1, Word2, Joined;
    if CoversWords(v, Set(r, h)) {
      CoversParts(v.w0, r.w0, Word0(h), LAYOUT0);
      CoversParts(v.w1, r.w1, Word1(h), LAYOUT1);
      CoversParts(v.w2, r.w2, Word2(h), LAYOUT2);
    } else if CoversWords(v, r) && CoversWords(v, WordsOf(h)) {
      CoversJoined(v.w0, r.w0, Word0(h), LAYOUT0);
      CoversJoined(v.w1, r.w1, Word1(h), LAYOUT1);
      CoversJoined(v.w2, r.w2, Word2(h), LAYOUT2);
    }
  }

  /** v has every field bit that the registers had before a run or that the run writes. */
  predicate CoversRun(v: Words, r: Words, hs: seq<Header>) {
    CoversWords(v, r) && forall k :: 0 <= k < |hs| ==> CoversWords(v, WordsOf(hs[k]))
  }

  lemma {:induction false} CoversSetAll(v: Words, r: Words, hs: seq<Header>)
    ensures CoversWords(v, SetAll(r, hs)) <==> CoversRun(v, r, hs)
  {
    hide CoversWords, WordsOf, Set;
    if hs != [] {
      var n := |hs| - 1;
      CoversSetAll(v, r, hs[..n]);
      CoversSet(v, SetAll(r, hs[..n]), hs[n]);
      assert forall k :: 0 <= k < n ==> hs[..n][k] == hs[k];
    }
  }

  /** After a run of writes to any registers the last header can be read back if and only if its
      words have every field bit that the registers had before or that an earlier header had. */
  lemma RunRecoversLastIff(r: Words, hs: seq<Header>, h: Header)
    ensures Unpack(SetAll(r, hs + [h])) == FieldsOf(h) <==> CoversRun(WordsOf(h), r, hs)
  {
    hide CoversWords, CoversRun, Unpack, FieldsOf, WordsOf, Set;
    assert (hs + [h])[..|hs|] == hs;
    CoversSetAll(WordsOf(h), r, hs);
    SetRecoversIff(SetAll(r, hs), h);
  }

  function FrameIdField(r: Words): bv32 {
    Unpack1(r.w0).fid
  }

  function LengthField(r: Words): bv32 {
    Unpack2(r.w1).pl
  }

  function CrcField(r: Words): bv32 {
    Unpack2(r.w1).crc
  }

  lemma FieldsAccumulate(r: Words, h: Header)
    ensures FrameIdField(Set(r, h)) == Joined(FrameIdField(r), Masked(h.fid, 0x7FF))
    ensures LengthField(Set(r, h)) == Joined(LengthField(r), Masked(h.pl, 0x7F))
    ensures CrcField(Set(r, h)) == Joined(CrcField(r), Masked(h.crc, 0x7FF))
  {
    Set0Combines(r.w0, h);
    Set1Combines(r.w1, h);
  }

  /** Not so for the first two boxes that `FLEXRAY_init` configures, with frame IDs 1 and 2: after
      the second write the registers hold frame ID 3. */
  lemma SecondBoxGetsFrameIdThree(h: Header, h': Header)
    requires h.fid == 1 && h'.fid == 2
    ensures FrameIdField(Set(Set(CLEARED, h), h')) == 3
  {
    FieldsAccumulate(CLEARED, h);
    FieldsAccumulate(Set(CLEARED, h), h');
  }

  // ----- The CRC field of the registers -----

  /** The CRC field of a header belongs to its protected fields. */
  predicate CrcCorrect(h: Header) {
    IsRegisterWord(h.crc, Crc(HeaderBits(h)))
  }

  lemma FrameIdBitsOfMasked(fid: bv32, g: bv32)
    requires g == fid & 0x7FF
    ensures FrameIdBits(g) == FrameIdBits(fid)
  {
    FrameIdMasks(fid, g);
    FrameIdBitsHigh(fid);
    FrameIdBitsLow(fid);
    FrameIdBitsHigh(g);
    FrameIdBitsLow(g);
  }

  lemma FrameIdMasks(fid: bv32, g: bv32)
    requires g == fid & 0x7FF
    ensures g & 0x400 == fid & 0x400 && g & 0x200 == fid & 0x200 && g & 0x100 == fid & 0x100 && g & 0x080 == fid & 0x080
    ensures g & 0x040 == fid & 0x040 && g & 0x020 == fid & 0x020 && g & 0x010 == fid & 0x010 && g & 0x008 == fid & 0x008
    ensures g & 0x004 == fid & 0x004 && g & 0x002 == fid & 0x002 && g & 0x001 == fid & 0x001
  {
  }

  lemma PayloadLengthBitsOfMasked(pl: bv32, g: bv32)
    requires g == pl & 0x7F
    ensures PayloadLengthBits(g) == PayloadLengthBits(pl)
  {
    PayloadLengthMasks(pl, g);
    PayloadLengthBitsAt(pl);
    PayloadLengthBitsAt(g);
  }

  lemma PayloadLengthMasks(pl: bv32, g: bv32)
    requires g == pl & 0x7F
    ensures g & 0x40 == pl & 0x40 && g & 0x20 == pl & 0x20 && g & 0x10 == pl & 0x10 && g & 0x08 == pl & 0x08
    ensures g & 0x04 == pl & 0x04 && g & 0x02 == pl & 0x02 && g & 0x01 == pl & 0x01
  {
  }

  /** Frame IDs with the same bits agree under the mask. */
  lemma FrameIdBitsDecide(a: bv32, b: bv32)
    requires FrameIdBits(a) == FrameIdBits(b)
    ensures a & 0x7FF == b & 0x7FF
  {
    FrameIdBitsHigh(a);
    FrameIdBitsLow(a);
    FrameIdBitsHigh(b);
    FrameIdBitsLow(b);
    FrameIdMasksDecide(a, b);
  }

  lemma FrameIdMasksDecide(a: bv32, b: bv32)
    requires (a & 0x400 != 0) == (b & 0x400 != 0) && (a & 0x200 != 0) == (b & 0x200 != 0)
    requires (a & 0x100 != 0) == (b & 0x100 != 0) && (a & 0x080 != 0) == (b & 0x080 != 0)
    requires (a & 0x040 != 0) == (b & 0x040 != 0) && (a & 0x020 != 0) == (b & 0x020 != 0)
    requires (a & 0x010 != 0) == (b & 0x010 != 0) && (a & 0x008 != 0) == (b & 0x008 != 0)
    requires (a & 0x004 != 0) == (b & 0x004 != 0) && (a & 0x002 != 0) == (b & 0x002 != 0)
    requires (a & 0x001 != 0) == (b & 0x001 != 0)
    ensures a & 0x7FF == b & 0x7FF
  {
  }

  /** The protected bits of a header whose indicators are clear. */
  function PlainBits(fid: bv32, pl: bv32): seq<bool> {
    [false, false] + FrameIdBits(fid) + PayloadLengthBits(pl)
  }

  lemma PlainHeaderBits(h: Header)
    requires h.sync & 0x1 == 0 && h.sfi & 0x1 == 0
    ensures HeaderBits(h) == PlainBits(h.fid, h.pl)
  {
  }

  /** The registers' CRC field belongs to their frame ID and payload length, with both indicators clear. */
  predicate CrcStored(r: Words) {
    IsRegisterWord(Unpack2(r.w1).crc, Crc(PlainBits(Unpack1(r.w0).fid, Unpack2(r.w1).pl)))
  }

  /** What `FLEXRAY_Tx_bind` does to WRHS[0]: the frame ID field is replaced. */
  function WithFrameId(w: bv32, id: bv32): bv32 {
    (w & 0xFFFFF800) | (id & 0x7FF)
  }

  lemma WithFrameIdUnpacks(w: bv32, id: bv32)
    ensures Unpack1(WithFrameId(w, id)) == Unpack1(w).(fid := id & 0x7FF)
  {
  }

  lemma WithFrameIdBits(w: bv32, id: bv32)
    ensures WithFrameId(w, id) & 0xFFFFF800 == w & 0xFFFFF800
    ensures WithFrameId(w, id) & 0x001 == id & 0x001
    ensures WithFrameId(w, id) & 0x002 == id & 0x002
    ensures WithFrameId(w, id) & 0x004 == id & 0x004
    ensures WithFrameId(w, id) & 0x008 == id & 0x008
    ensures WithFrameId(w, id) & 0x010 == id & 0x010
    ensures WithFrameId(w, id) & 0x020 == id & 0x020
    ensures WithFrameId(w, id) & 0x040 == id & 0x040
    ensures WithFrameId(w, id) & 0x080 == id & 0x080
    ensures WithFrameId(w, id) & 0x100 == id & 0x100
    ensures WithFrameId(w, id) & 0x200 == id & 0x200
    ensures WithFrameId(w, id) & 0x400 == id & 0x400
  {
  }

  lemma RegisterWordDecides(w: bv32, s: Register, t: Register)
    requires IsRegisterWord(w, s) && IsRegisterWord(w, t)
    ensures s == t
  {
    HoldsString(w << 21, s, t);
  }

  lemma CrcDecidesIndicators(a: bool, b: bool, u: seq<bool>, v: seq<bool>)
    ensures Crc([a, b] + u + v) == Crc([false, false] + u + v) <==> !a && !b
  {
    hide Crc;
    var x, y, rest := [a, b], [false, false], u + v;
    CrcDecidesWindow([], x, y, rest);
    assert [] + x + rest == x + u + v && [] + y + rest == y + u + v;
    assert x == y <==> x[0] == y[0] && x[1] == y[1];
  }

  lemma IndicatorWindow(w: bv32, a: bool, b: bool, u: seq<bool>, v: seq<bool>)
    requires IsRegisterWord(w, Crc([a, b] + u + v))
    ensures IsRegisterWord(w, Crc([false, false] + u + v)) <==> !a && !b
  {
    CrcDecidesIndicators(a, b, u, v);
    if IsRegisterWord(w, Crc([false, false] + u + v)) {
      RegisterWordDecides(w, Crc([a, b] + u + v), Crc([false, false] + u + v));
    }
  }

  lemma IndicatorBits(h: Header, s: bv32, f: bv32)
    ensures HeaderBits(h.(sync := s, sfi := f)) ==
            [s & 0x1 != 0, f & 0x1 != 0] + FrameIdBits(h.fid) + PayloadLengthBits(h.pl)
  {
  }

  /** A CRC computed while the indicators were s and f fits the header with clear indicators if
      and only if they were clear. */
  lemma IndicatorsDecide(h: Header, s: bv32, f: bv32)
    requires h.sync == 0 && h.sfi == 0
    requires IsRegisterWord(h.crc, Crc(HeaderBits(h.(sync := s, sfi := f))))
    ensures CrcCorrect(h) <==> s & 0x1 == 0 && f & 0x1 == 0
  {
    IndicatorBits(h, s, f);
    PlainHeaderBits(h);
    IndicatorWindow(h.crc, s & 0x1 != 0, f & 0x1 != 0, FrameIdBits(h.fid), PayloadLengthBits(h.pl));
  }
}
