/** The CRC field of the header registers after `FLEXRAY_Tx_bind`, which replaces the frame ID only:
    for every contents of the registers exactly one frame ID fits. */
module BindCrc {
  import opened ShiftRegister
  import opened HeaderCrc
  import opened HeaderCode
  import opened HeaderRegisters
  import opened StoredCrc

  // ----- The frame ID that fits -----

  /** The one frame ID to which the CRC and payload length in the registers belong. */
  function FittingFrameId(r: Words): bv32 {
    WordOf(FittingBits(Unpack2(r.w1)))
  }

  function FittingBits(f: Section2): Register {
    WindowFor([false, false], PayloadLengthBits(f.pl), FrameIdBits(f.crc))
  }

  /** The CRC field belongs to the frame ID g if and only if g has the fitting bits. */
  lemma CrcFitsIff(f: Section2, g: bv32)
    requires f.crc <= 0x7FF
    ensures IsRegisterWord(f.crc, Crc(PlainBits(g, f.pl))) <==> FrameIdBits(g) == FittingBits(f)
  {
    hide IsRegisterWord, FrameIdBits, PayloadLengthBits, WindowFor;
    RegisterOfWord(f.crc);
    OneWindowReaches([false, false], FrameIdBits(g), PayloadLengthBits(f.pl), FrameIdBits(f.crc));
    if IsRegisterWord(f.crc, Crc(PlainBits(g, f.pl))) {
      RegisterWordDecides(f.crc, Crc(PlainBits(g, f.pl)), FrameIdBits(f.crc));
    }
  }

  /** `FLEXRAY_Tx_bind` on the registers. */
  function BoundTo(r: Words, id: bv32): Words {
    r.(w0 := WithFrameId(r.w0, id))
  }

  lemma BoundFields(r: Words, id: bv32)
    ensures FrameIdField(BoundTo(r, id)) == id & 0x7FF && BoundTo(r, id).w1 == r.w1
    ensures CrcField(r) <= 0x7FF
  {
    WithFrameIdUnpacks(r.w0, id);
  }

  /** For every contents of the registers: after a bind the CRC field belongs to the header if and
      only if the ID is the one that the registers' CRC and payload length call for.  There is one:
      it has 11 bits. */
  lemma BindFitsIff(r: Words, id: bv32)
    ensures FittingFrameId(r) & 0x7FF == FittingFrameId(r)
    ensures CrcStored(BoundTo(r, id)) <==> id & 0x7FF == FittingFrameId(r)
  {
    hide IsRegisterWord, FrameIdBits, PlainBits, WordOf, FittingBits, WithFrameId, Unpack1, Unpack2;
    BoundFields(r, id);
    CrcFitsIff(Unpack2(r.w1), id & 0x7FF);
    FrameIdBitsAreWord(id, FittingBits(Unpack2(r.w1)));
    FrameIdBitsOfWord(FittingBits(Unpack2(r.w1)));
  }

  lemma OwnFrameId(r: Words)
    ensures BoundTo(r, FrameIdField(r)) == r && FrameIdField(r) & 0x7FF == FrameIdField(r)
  {
  }

  /** The test for registers as they are. */
  lemma CrcStoredIff(r: Words)
    ensures CrcStored(r) <==> FrameIdField(r) == FittingFrameId(r)
  {
    hide CrcStored, FittingFrameId, BoundTo, Unpack1;
    OwnFrameId(r);
    BindFitsIff(r, FrameIdField(r));
  }

  /** Where the CRC field was right, it stays right if and only if the ID is the one that was there. */
  lemma BindKeepsCrcIff(r: Words, id: bv32)
    requires CrcStored(r)
    ensures CrcStored(BoundTo(r, id)) <==> id & 0x7FF == FrameIdField(r)
  {
    hide CrcStored, FittingFrameId, BoundTo, Unpack1;
    CrcStoredIff(r);
    BindFitsIff(r, id);
  }

  lemma FitsCodeWord(r: Words, fid: bv32, pl: bv32, crc: bv32)
    requires Unpack2(r.w1) == Section2(pl, crc) && fid & 0x7FF == fid
    requires IsRegisterWord(crc, Crc(PlainBits(fid, pl)))
    ensures FittingFrameId(r) == fid
  {
    hide IsRegisterWord, FittingFrameId, Crc, PlainBits;
    BoundFields(r, fid);
    BindFitsIff(r, fid);
  }
}
