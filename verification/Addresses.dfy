/** Typed addresses: the 10/10/12-bit split of a virtual address and the frame
    an address falls in. */
module Addresses {
  import opened Words

  function PdIndex(v: u32): u32 {
    Shr(v, 22)
  }

  function PtIndex(v: u32): u32 {
    AndAtMost(Shr(v, 12), 0x3FF);
    And(Shr(v, 12), 0x3FF)
  }

  function Offset(v: u32): u32 {
    AndAtMost(v, 0xFFF);
    And(v, 0xFFF)
  }

  function FromIndices(pd: u32, pt: u32, offset: u32): u32 {
    OrFits(Shl(pd, 22), Shl(pt, 12));
    OrFits(Or(Shl(pd, 22), Shl(pt, 12)), offset);
    Or(Or(Shl(pd, 22), Shl(pt, 12)), offset)
  }

  function FrameFloor(a: u32): nat {
    a / 4096
  }

  function FrameCeil(a: u32): nat {
    (a + 4095) / 4096
  }

  function BaseAddr(frame: nat): u32 {
    frame * 4096 % U32_LIMIT
  }

  lemma IndicesAre(v: u32)
    ensures PdIndex(v) == v / 0x40_0000 < 1024
    ensures PtIndex(v) == v / 4096 % 1024
    ensures Offset(v) == v % 4096
  {
    OnesWidths();
    ShrWidths(v);
    MaskLow(Shr(v, 12), 10);
    LowWidths(Shr(v, 12));
    MaskLow(v, 12);
    LowWidths(v);
  }

  lemma ShiftedParts(pd: nat, pt: nat)
    requires pd < 1024 && pt < 1024
    ensures Shl(pd, 22) == Up(pd, 22) == pd * 0x40_0000
    ensures Shl(pt, 12) == Up(pt, 12) == pt * 4096
  {
    UpWidths(pd);
    UpWidths(pt);
  }

  lemma OrTables(pd: nat, pt: nat)
    requires pd < 1024 && pt < 1024
    ensures Or(Up(pd, 22), pt * 4096) == pd * 0x40_0000 + pt * 4096 == Up(pd * 1024 + pt, 12)
  {
    OnesIsUp(22);
    UpWidths(1);
    PackFields(pd, pt * 4096, 22);
    UpWidths(pd);
    UpWidths(pd * 1024 + pt);
  }

  lemma FromIndicesIs(pd: nat, pt: nat, offset: nat)
    requires pd < 1024 && pt < 1024 && offset < 4096
    ensures FromIndices(pd, pt, offset) == pd * 0x40_0000 + pt * 4096 + offset
  {
    ShiftedParts(pd, pt);
    OrTables(pd, pt);
    OnesWidths();
    PackFields(pd * 1024 + pt, offset, 12);
  }

  lemma PartsOfSum(pd: nat, pt: nat, offset: nat)
    requires pd < 1024 && pt < 1024 && offset < 4096
    ensures var v := pd * 0x40_0000 + pt * 4096 + offset;
      v < U32_LIMIT && v / 0x40_0000 == pd && v / 4096 % 1024 == pt && v % 4096 == offset && v / 4096 == pd * 1024 + pt
  {
  }

  lemma SumOfParts(v: u32)
    ensures v == v / 0x40_0000 * 0x40_0000 + v / 4096 % 1024 * 4096 + v % 4096
    ensures v / 4096 == v / 0x40_0000 * 1024 + v / 4096 % 1024
  {
  }

  lemma JoinParts(v: u32)
    ensures FromIndices(v / 0x40_0000, v / 4096 % 1024, v % 4096) == v
  {
    SumOfParts(v);
    FromIndicesIs(v / 0x40_0000, v / 4096 % 1024, v % 4096);
  }

  /** Splitting a virtual address and joining the parts gives it back, and its
      page number is the two table indices side by side. */
  lemma SplitThenJoin(v: u32)
    ensures FromIndices(PdIndex(v), PtIndex(v), Offset(v)) == v
    ensures v / 4096 == PdIndex(v) * 1024 + PtIndex(v)
  {
    SumOfParts(v);
    JoinParts(v);
    IndicesAre(v);
  }

  /** Joining three in-range parts and splitting the address gives them back. */
  lemma JoinThenSplit(pd: nat, pt: nat, offset: nat)
    requires pd < 1024 && pt < 1024 && offset < 4096
    ensures var v := FromIndices(pd, pt, offset);
      PdIndex(v) == pd && PtIndex(v) == pt && Offset(v) == offset
  {
    FromIndicesIs(pd, pt, offset);
    PartsOfSum(pd, pt, offset);
    IndicesAre(FromIndices(pd, pt, offset));
  }

  /** Floor and ceiling bracket an address by frames, and meet exactly on frame
      boundaries. */
  lemma FloorCeil(a: u32)
    ensures FrameFloor(a) * 4096 <= a <= FrameCeil(a) * 4096
    ensures FrameCeil(a) - FrameFloor(a) == if a % 4096 == 0 then 0 else 1
    ensures FrameFloor(a) < 0x10_0000 && BaseAddr(FrameFloor(a)) == a - a % 4096
  {
  }
}
