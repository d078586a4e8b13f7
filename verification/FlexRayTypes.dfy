/** The C types and constants of FlexRay.h that the driver uses. */
module FlexRayTypes {
  newtype uint8 = x: int | 0 <= x < 0x100
  newtype uint32 = x: int | 0 <= x < 0x1_0000_0000

  /** The channel numbers (enum FLEXRAY_NUM). */
  const FLEXRAYA: uint8 := 1
  const FLEXRAYB: uint8 := 2

  /** The transfer directions (enum FLEXRAY_DIR). */
  const INPUT: uint8 := 1
  const OUTPUT: uint8 := 2

  /** Entries of a binding table, and words of a data section. */
  const FLEXRAY_MCANMESSAGE_BOX_NUM: nat := 64
  const DATA_WORDS: nat := 64

  /** A value of the struct `wrhs`.  A C `int` is 32 bits wide, and the driver uses these
      only under masks and shifts, so each is a machine word. */
  datatype Header = Header(
    mbi: bv32, txm: bv32, ppit: bv32, cfg: bv32, chb: bv32, cha: bv32, cyc: bv32,
    fid: bv32, pl: bv32, crc: bv32, dp: bv32, sync: bv32, sfi: bv32)

  /** What distinguishes the boxes that `FLEXRAY_init` configures. */
  datatype BoxConfig = BoxConfig(direction: uint8, cfg: bv32, fid: bv32, pl: bv32, dp: bv32)

  /** The header with which `FlexRay_Set` is called for a box. */
  function HeaderOf(ch: uint8, b: BoxConfig, crc: bv32): Header {
    Header(1, 0, 0, b.cfg, ChannelBit(ch, FLEXRAYB), ChannelBit(ch, FLEXRAYA), 0, b.fid, b.pl, crc, b.dp, 0, 0)
  }

  /** The same field by field: the indicator of the box's own channel is 1 and the other 0, for
      another channel both are 0. */
  lemma HeaderOfFields(ch: uint8, b: BoxConfig, crc: bv32, h: Header)
    requires h == HeaderOf(ch, b, crc)
    ensures h.mbi == 1 && h.txm == 0 && h.ppit == 0 && h.cyc == 0 && h.sync == 0 && h.sfi == 0
    ensures h.cfg == b.cfg && h.fid == b.fid && h.pl == b.pl && h.dp == b.dp && h.crc == crc
    ensures ch == 1 ==> h.cha == 1 && h.chb == 0
    ensures ch == 2 ==> h.cha == 0 && h.chb == 1
    ensures ch != 1 && ch != 2 ==> h.cha == 0 && h.chb == 0
  {
  }

  function ChannelBit(ch: uint8, which: uint8): bv32 {
    if ch == which then 1 else 0
  }

  /** The struct `wrhs` as a variable whose fields are assigned one at a time. */
  class HeaderBuffer {
    var mbi: bv32
    var txm: bv32
    var ppit: bv32
    var cfg: bv32
    var chb: bv32
    var cha: bv32
    var cyc: bv32
    var fid: bv32
    var pl: bv32
    var crc: bv32
    var dp: bv32
    var sync: bv32
    var sfi: bv32

    constructor ()
      ensures Value() == Header(0, 0, 0, 0, 0, 0, 0, 0, 0, 0, 0, 0, 0)
    {
      mbi, txm, ppit, cfg, chb, cha, cyc := 0, 0, 0, 0, 0, 0, 0;
      fid, pl, crc, dp, sync, sfi := 0, 0, 0, 0, 0, 0;
    }

    function Value(): (h: Header)
      reads this
      ensures h.mbi == mbi && h.txm == txm && h.ppit == ppit && h.cfg == cfg && h.chb == chb && h.cha == cha
      ensures h.cyc == cyc && h.fid == fid && h.pl == pl && h.crc == crc && h.dp == dp
      ensures h.sync == sync && h.sfi == sfi
    {
      Header(mbi, txm, ppit, cfg, chb, cha, cyc, fid, pl, crc, dp, sync, sfi)
    }

    /** The channel indicators: each is 1 for its own channel only. */
    method FillChannel(ch: uint8)
      modifies `chb, `cha
      ensures chb == ChannelBit(ch, FLEXRAYB) && cha == ChannelBit(ch, FLEXRAYA)
      ensures ch == 1 ==> cha == 1 && chb == 0
      ensures ch == 2 ==> cha == 0 && chb == 1
      ensures ch != 1 && ch != 2 ==> cha == 0 && chb == 0
    {
      chb := 0;
      cha := 0;
      if ch == FLEXRAYA {
        cha := 1;
      } else if ch == FLEXRAYB {
        chb := 1;
      }
    }

    /** Header sections 1 and 2 of a box, up to the payload length. */
    method FillSections(ch: uint8, b: BoxConfig)
      modifies `mbi, `txm, `ppit, `cfg, `chb, `cha, `cyc, `fid, `pl
      ensures mbi == 1 && txm == 0 && ppit == 0 && cfg == b.cfg && cyc == 0
      ensures chb == ChannelBit(ch, FLEXRAYB) && cha == ChannelBit(ch, FLEXRAYA)
      ensures ch == 1 ==> cha == 1 && chb == 0
      ensures ch == 2 ==> cha == 0 && chb == 1
      ensures ch != 1 && ch != 2 ==> cha == 0 && chb == 0
      ensures fid == b.fid && pl == b.pl
    {
      mbi := 1;
      txm := 0;
      ppit := 0;
      cfg := b.cfg;
      FillChannel(ch);
      cyc := 0;
      fid := b.fid;
      pl := b.pl;
    }
  }
}
