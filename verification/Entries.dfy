/** Page-directory and page-table entries: a frame address in the high 20 bits,
    flags in the low 12. */
module Entries {
  import opened Words
  import opened Addresses

  const FLAGS_MASK: u32 := 0xFFF
  const ADDRESS_MASK: u32 := Not(FLAGS_MASK)
  const PRESENT: u32 := 1
  const WRITABLE: u32 := 2
  const KERNEL_RO: u32 := PRESENT
  const KERNEL_RW: u32 := Union(PRESENT, WRITABLE)
  const PAGE_SIZE_BIT: u32 := 0x80
  const EMPTY: u32 := 0

  function Union(x: u32, y: u32): u32 {
    OrFits(x, y);
    Or(x, y)
  }

  predicate Contains(x: u32, y: u32) {
    And(x, y) == y
  }

  /** The entry for `frame` with `flags`, at either level. */
  function Entry(frame: nat, flags: u32): u32 {
    OrFits(BaseAddr(frame), flags);
    Or(BaseAddr(frame), flags)
  }

  function HugeEntry(base: u32, flags: u32): u32 {
    Union(Union(base, PAGE_SIZE_BIT), flags)
  }

  function EntryFlags(e: u32): u32 {
    AndAtMost(e, FLAGS_MASK);
    And(e, FLAGS_MASK)
  }

  function EntryFrame(e: u32): nat {
    AndAtMost(e, ADDRESS_MASK);
    FrameFloor(And(e, ADDRESS_MASK))
  }

  predicate EntryPresent(e: u32) {
    Contains(EntryFlags(e), PRESENT)
  }

  predicate EntryHuge(e: u32) {
    And(e, PAGE_SIZE_BIT) != 0
  }

  lemma EntryIsSum(frame: nat, flags: u32)
    requires frame < 0x10_0000 && flags < 0x1000
    ensures Entry(frame, flags) == frame * 4096 + flags
  {
    assert BaseAddr(frame) == Up(frame, 12) == frame * 4096 by { UpWidths(frame); }
    assert flags <= Ones(12) by { OnesWidths(); }
    PackFields(frame, flags, 12);
  }

  lemma FlagsAre(e: u32)
    ensures EntryFlags(e) == e % 4096
  {
    OnesWidths();
    MaskLow(e, 12);
    LowWidths(e);
  }

  lemma FrameIs(e: u32)
    ensures EntryFrame(e) == e / 4096
  {
    OnesWidths();
    MaskHigh(e, 12);
    ShrWidths(e);
    UpWidths(e / 4096);
  }

  lemma PresentIs(e: u32)
    ensures EntryPresent(e) <==> Bit(e, 0)
  {
    FlagsAre(e);
    var low := e % 4096;
    assert And(low, 1) == low % 2;
    assert low % 2 == e % 2;
  }

  /** The page-size bit is bit 7. */
  lemma HugeIs(e: u32)
    ensures EntryHuge(e) <==> Bit(e, 7)
  {
    assert Shl(1, 7) == PAGE_SIZE_BIT by {
      UpTwo(1);
      UpFour(4);
      UpTwice(1, 2, 4);
      UpTwice(1, 6, 1);
    }
    OneHotTest(e, 7);
  }

  /** Every entry decodes to the frame and the flags it was built from, and is
      huge only if its flags carry the page-size bit. */
  lemma EntryRoundTrip(frame: nat, flags: u32)
    requires frame < 0x10_0000 && flags < 0x1000
    ensures EntryFrame(Entry(frame, flags)) == frame
    ensures EntryFlags(Entry(frame, flags)) == flags
    ensures EntryPresent(Entry(frame, flags)) <==> Bit(flags, 0)
    ensures EntryHuge(Entry(frame, flags)) <==> Bit(flags, 7)
  {
    var e := Entry(frame, flags);
    EntryIsSum(frame, flags);
    FlagsAre(e);
    FrameIs(e);
    PresentIs(e);
    HugeIs(e);
    BitOfEntry(e, 0);
    BitOfEntry(e, 7);
  }

  lemma BitOfEntry(e: u32, i: nat)
    requires i < 12
    ensures Bit(e, i) <==> Bit(e % 4096, i)
  {
    LowWidths(e);
    BitOfLow(e, 12, i);
  }

  /** What the processor reads in an entry the kernel writes. */
  lemma KernelEntryBits(frame: nat, flags: u32)
    requires frame < 0x10_0000 && (flags == KERNEL_RO || flags == KERNEL_RW)
    ensures var e := Entry(frame, flags);
      && e / 4096 == frame && Bit(e, 0) && !Bit(e, 2) && !Bit(e, 7)
      && (Bit(e, 1) <==> flags == KERNEL_RW)
  {
    RightsAre();
    var e := Entry(frame, flags);
    EntryIsSum(frame, flags);
    assert e % 4096 == flags && e / 4096 == frame;
    BitOfEntry(e, 0);
    BitOfEntry(e, 1);
    BitOfEntry(e, 2);
    BitOfEntry(e, 7);
    assert Ones(2) == 3;
    BitBeyond(flags, 2, 2);
    BitBeyond(flags, 2, 7);
    assert Bit(flags, 1) == Bit(flags / 2, 0);
  }

  lemma RightsAre()
    ensures KERNEL_RO == 1 && KERNEL_RW == 3
  {
  }
}
