/** `memory::init`: from the firmware's memory map, through the frame allocator,
    to the page directory the processor walks. */
module Boot {
  import opened Words
  import opened FrameSpec
  import opened FrameBitmaps
  import opened Multiboot
  import opened Layouts
  import opened Mmu
  import opened Paging
  import opened PagingTheorems

  /** The Multiboot information: its flags, and the bytes of the memory map,
      which mean something only while bit 6 is set. */
  datatype MultibootInfo = MultibootInfo(flags: u32, mapBytes: seq<byte>)

  function MemoryMapOf(info: MultibootInfo): Option<seq<byte>> {
    if And(info.flags, Shl(1, 6)) == 0 then None else Some(info.mapBytes)
  }

  /** How booting ends: memory, allocator and directory are up, the kernel
      panics, or the walk of the map never ends. */
  datatype Result = Up(placed: Placed) | Panicked | Hung

  /** The loader's length field is 32 bits wide. */
  predicate MapFits(info: MultibootInfo) {
    |info.mapBytes| < U32_LIMIT
  }

  /** The map, if there is one, can be walked to its end. */
  ghost predicate WalkEnds(p: Profile, info: MultibootInfo) {
    MemoryMapOf(info).Some? ==> Halts(p, info.mapBytes, 0)
  }

  /** The regions the map offers. */
  ghost function RegionsOf(p: Profile, info: MultibootInfo): seq<MemoryRegion> {
    if Halts(p, info.mapBytes, 0) then Walk(p, info.mapBytes, 0).regions else []
  }

  /** The allocator's state once `init` has read the map; `None` on a panic. */
  ghost function Published(p: Profile, info: MultibootInfo, l: Layout): Option<Allocator>
    requires WalkEnds(p, info) && l.Valid()
  {
    if MemoryMapOf(info).None? then None else InitFrom(p, FRESH, Walk(p, info.mapBytes, 0), l)
  }

  ghost function Booted(p: Profile, info: MultibootInfo, mem: Memory, l: Layout): Result
    requires l.Valid()
  {
    if !WalkEnds(p, info) then Hung
    else
      var a := Published(p, info, l);
      if a.None? then Panicked
      else
        var built := BuildDirectory(Build(mem, a.value), l);
        if built.None? then Panicked else Up(built.value)
  }

  /** `memory::init` on the all-occupied allocator; returns the directory's
      frame, or `None` where the code panics. */
  method Init(p: Profile, info: MultibootInfo, ram: array<Frame>, l: Layout) returns (allocator: FrameBitmap, pd: Option<nat>)
    requires MapFits(info) && WalkEnds(p, info) && l.Valid() && ram.Length == FRAME_COUNT
    modifies ram
    ensures allocator.Valid() && fresh(allocator) && fresh(allocator.bitmap)
    ensures pd.None? <==> Booted(p, info, old(ram[..]), l).Panicked?
    ensures pd.Some? ==> Booted(p, info, old(ram[..]), l) == Up(Placed(Build(ram[..], allocator.View()), pd.value))
  {
    allocator := new FrameBitmap();
    var bytes := MemoryMapOf(info);
    if bytes.None? {
      return allocator, None;
    }
    var mmap := new MemoryMap(bytes.value);
    var ok := allocator.Init(p, mmap, l);
    if !ok {
      return allocator, None;
    }
    pd := Paging.Init(ram, allocator, l);
  }

  /** Frames the boot can place its directory in: below 4 MiB, wholly inside one
      available region that ends below 4 GiB, not frame 0, not the image. */
  ghost function UsableLow(regions: seq<MemoryRegion>, l: Layout): set<nat> {
    set f: nat | f < LOW_FRAMES && f != 0 && !l.InImage(f) && InSomeKept(regions, f)
  }

  lemma PublishedIsPacked(p: Profile, info: MultibootInfo, l: Layout)
    requires WalkEnds(p, info) && l.Valid() && Published(p, info, l).Some?
    ensures var a := Published(p, info, l).value;
      && a.Valid() && PackedLow(a)
      && (forall f: nat :: f in a.free <==> f != 0 && !l.InImage(f) && InSomeKept(RegionsOf(p, info), f))
      && LowFree(a.free) == UsableLow(RegionsOf(p, info), l)
  {
    InitExact(p, Walk(p, info.mapBytes, 0), l);
    var a := Published(p, info, l).value;
    assert forall f: nat :: f in LowFree(a.free) <==> f in UsableLow(RegionsOf(p, info), l);
  }

  /** Booting hangs exactly when a build whose arithmetic wraps is given a map
      whose walk reaches an entry of size 2^32 - 4. */
  lemma BootHangsIff(p: Profile, info: MultibootInfo, mem: Memory, l: Layout)
    requires MapFits(info) && l.Valid()
    ensures Booted(p, info, mem, l).Hung? <==> Bit(info.flags, 6) && p.Release? && ReachesStuck(p, info.mapBytes)
  {
    OneHotTest(info.flags, 6);
    WalkEndsIff(p, info.mapBytes);
  }

  /** Exactly when the kernel's memory comes up, whatever the loader hands over:
      there is a map, its walk neither gets stuck nor overflows, publishing its
      regions does not overflow, and it offers three usable frames below 4 MiB. */
  lemma BootCompletesIff(p: Profile, info: MultibootInfo, mem: Memory, l: Layout)
    requires MapFits(info) && l.Valid()
    ensures Booted(p, info, mem, l).Up? <==>
      && Bit(info.flags, 6)
      && !(p.Release? && ReachesStuck(p, info.mapBytes))
      && !(p.Dev? && ReachesOversized(p, info.mapBytes))
      && !(p.Dev? && SomeOverflows(RegionsOf(p, info)))
      && |UsableLow(RegionsOf(p, info), l)| >= 3
  {
    hide BuildDirectory, UsableLow, SomeOverflows, LowFree, Walk, ReachesStuck, ReachesOversized;
    OneHotTest(info.flags, 6);
    WalkEndsIff(p, info.mapBytes);
    if MemoryMapOf(info).Some? && Halts(p, info.mapBytes, 0) {
      WalkPanicsIff(p, info.mapBytes);
      InitExact(p, Walk(p, info.mapBytes, 0), l);
      if Published(p, info, l).Some? {
        PublishedIsPacked(p, info, l);
        var s := BuildDirectoryExact(Build(mem, Published(p, info, l).value), l);
      }
    }
  }

  /** What holds of the machine once booted. */
  ghost predicate BootedWell(p: Profile, info: MultibootInfo, mem: Memory, l: Layout, after: Placed, t: Frames)
    requires l.Valid()
  {
    var regions := RegionsOf(p, info);
    && t.pd == after.frame < FRAME_COUNT
    // the directory's frames are usable memory, neither frame 0 nor the image
    && (forall f :: f in t.Set() ==> 0 < f < LOW_FRAMES && !l.InImage(f) && InSomeKept(regions, f))
    // every address leads where the kernel intends
    && Translates(after.build.mem, l, t)
    // nothing was stored outside the directory's frames
    && (forall f :: 0 <= f < FRAME_COUNT && f !in t.Set() ==> after.build.mem[f] == mem[f])
    // what is left free is the rest of the usable memory, and packed low
    && after.build.alloc.Valid() && PackedLow(after.build.alloc)
    && (forall f: nat :: f in after.build.alloc.free <==> f != 0 && !l.InImage(f) && InSomeKept(regions, f) && f !in t.Set())
  }

  /** End to end: from the bytes of the memory map to the translation of every
      address. */
  lemma BootIsCorrect(p: Profile, info: MultibootInfo, mem: Memory, l: Layout) returns (t: Frames)
    requires l.Valid()
    ensures Booted(p, info, mem, l).Up? ==> BootedWell(p, info, mem, l, Booted(p, info, mem, l).placed, t)
  {
    hide BuildDirectory, Translates, Walk, RegionsOf, InSomeKept, PackedLow;
    t := Frames(0, 0, 0);
    if Booted(p, info, mem, l).Up? {
      PublishedIsPacked(p, info, l);
      t := ExactTranslation(Build(mem, Published(p, info, l).value), l);
    }
  }

  /** An entry of type 1 in the bytes of the map, with frame `f` wholly inside
      the range it gives. */
  ghost predicate RamEntry(buf: seq<byte>, off: nat, f: nat) {
    && off + 24 <= |buf|
    && buf[off + 20..off + 24] == [1, 0, 0, 0]
    && LittleEndian(buf[off + 4..off + 12]) <= f * 4096
    && (f + 1) * 4096 <= LittleEndian(buf[off + 4..off + 12]) + LittleEndian(buf[off + 12..off + 20])
  }

  lemma KeptIsRamEntry(p: Profile, info: MultibootInfo, f: nat)
    requires Halts(p, info.mapBytes, 0) && InSomeKept(RegionsOf(p, info), f)
    ensures exists k: nat :: RamEntry(info.mapBytes, OffsetAfter(p, info.mapBytes, 0, k), f)
  {
    var buf, rs := info.mapBytes, RegionsOf(p, info);
    var k :| 0 <= k < |rs| && Kept(rs[k]) && WhollyInside(rs[k], f);
    WalkItems(p, buf, 0, k);
    hide LittleEndian, Walk, Halts;
    EntryOnTheWire(p, buf, OffsetAfter(p, buf, 0, k));
    assert RamEntry(buf, OffsetAfter(p, buf, 0, k), f);
  }

  /** Boot uses only what the bytes of the map call RAM: every frame it leaves
      free, and every frame it stores to, lies wholly inside one entry of type 1
      that the walk reaches. */
  lemma BootUsesOnlyRam(p: Profile, info: MultibootInfo, mem: Memory, l: Layout, f: nat)
    requires l.Valid() && f < FRAME_COUNT
    ensures Booted(p, info, mem, l).Up? ==>
      var after := Booted(p, info, mem, l).placed;
      f in after.build.alloc.free || after.build.mem[f] != mem[f] ==>
        exists k: nat :: RamEntry(info.mapBytes, OffsetAfter(p, info.mapBytes, 0, k), f)
  {
    var t := BootIsCorrect(p, info, mem, l);
    if Booted(p, info, mem, l).Up? {
      var after := Booted(p, info, mem, l).placed;
      if f in after.build.alloc.free || after.build.mem[f] != mem[f] {
        assert InSomeKept(RegionsOf(p, info), f);
        KeptIsRamEntry(p, info, f);
      }
    }
  }

  /** Once booted, page i of the top 4 MiB shows the table that word i of the
      directory points at, or faults; the last page shows the directory. */
  lemma BootedWindow(p: Profile, info: MultibootInfo, mem: Memory, l: Layout, i: nat, o: nat)
    requires l.Valid() && i < 1024 && o < 0x1000
    ensures Booted(p, info, mem, l).Up? ==>
      var after := Booted(p, info, mem, l).placed;
      after.frame < FRAME_COUNT && WindowShows(after.build.mem, after.frame, i, o)
  {
    hide BuildDirectory, WindowShows, Walk, RegionsOf, InSomeKept, PackedLow;
    if Booted(p, info, mem, l).Up? {
      PublishedIsPacked(p, info, l);
      RecursiveWindow(Build(mem, Published(p, info, l).value), l, i, o);
    }
  }

  /** Once booted, no address writes the kernel's read-only sections or reaches
      the stack guard. */
  lemma BootedIsProtected(p: Profile, info: MultibootInfo, mem: Memory, l: Layout, v: u32)
    requires l.Valid()
    ensures Booted(p, info, mem, l).Up? ==>
      var after := Booted(p, info, mem, l).placed;
      && after.frame < FRAME_COUNT
      && var x := Translate(after.build.mem, after.frame, v);
         x.Mapped? ==> !l.IsGuard(x.phys / PAGE_SIZE) && !x.user && (x.writable ==> !l.InReadOnly(x.phys / PAGE_SIZE))
  {
    hide Translate, Translates, Booted, RegionsOf, InSomeKept;
    var t := BootIsCorrect(p, info, mem, l);
    if Booted(p, info, mem, l).Up? {
      SectionsAreProtected(Booted(p, info, mem, l).placed.build.mem, l, t, v);
    }
  }

  /** The bootstrap directory, which lies in the image, is still intact in the
      memory boot leaves, so both directories can be walked in it: outside the
      recursive window every address the new one maps is mapped alike by the old
      one, and every address execution needs across the switch is mapped by both,
      the stack, frame 0 and VGA writably. */
  lemma BootHandsOver(p: Profile, info: MultibootInfo, mem: Memory, l: Layout, bootPd: nat, v: u32)
    requires l.Valid() && bootPd < FRAME_COUNT && l.InImage(bootPd) && mem[bootPd] == BootDirectory()
    ensures Booted(p, info, mem, l).Up? ==>
      var after := Booted(p, info, mem, l).placed;
      && after.frame < FRAME_COUNT
      && after.build.mem[bootPd] == BootDirectory()
      && var was, now := Translate(after.build.mem, bootPd, v), Translate(after.build.mem, after.frame, v);
         && (v < 0xFFC0_0000 && now.Mapped? ==>
             was.Mapped? && now.phys == was.phys && (now.writable ==> was.writable) && (now.user ==> was.user))
         && (Essential(l, v) || InStack(l, v) ==>
             && was.Mapped? && now.Mapped? && now.phys == was.phys
             && (InStack(l, v) || v < PAGE_SIZE || InVga(v) ==> now.writable))
  {
    hide Translate, Translates, Booted, RegionsOf, InSomeKept, BootDirectory, Essential;
    var t := BootIsCorrect(p, info, mem, l);
    if Booted(p, info, mem, l).Up? {
      var after := Booted(p, info, mem, l).placed;
      assert bootPd !in t.Set();
      if v < 0xFFC0_0000 {
        HandOverAgrees(after.build.mem, bootPd, after.build.mem, l, t, v);
      }
      if Essential(l, v) || InStack(l, v) {
        ExecutionSurvives(after.build.mem, bootPd, after.build.mem, l, t, v);
      }
    }
  }

  /** Once booted, whatever is asked of the allocator afterwards, no run it has
      handed out holds frame 0, a frame of the image or a frame of the page
      directory; runs never overlap, and no double free is reached. */
  lemma BootedAllocatorIsSafe(p: Profile, info: MultibootInfo, mem: Memory, l: Layout, ops: seq<Op>) returns (t: Frames)
    requires l.Valid()
    ensures Booted(p, info, mem, l).Up? ==>
      var after := Booted(p, info, mem, l).placed;
      var end := Run(System(after.build.alloc, []), ops);
      && BootedWell(p, info, mem, l, after, t)
      && end.Running? && Conserves(end.sys, after.build.alloc.free)
      && forall f: nat :: Held(end.sys.held, f) ==> f != 0 && !l.InImage(f) && f !in t.Set()
  {
    hide Booted, RegionsOf, InSomeKept, Translates, Run, PackedLow;
    t := BootIsCorrect(p, info, mem, l);
    if Booted(p, info, mem, l).Up? {
      var after := Booted(p, info, mem, l).placed;
      EveryRunConserves(System(after.build.alloc, []), ops, after.build.alloc.free);
    }
  }

  /** Once booted, after any frees and single-frame allocations, the next
      `allocate_one` takes the lowest free frame, and fails only when none is
      free. */
  lemma BootedSinglesAreLowest(p: Profile, info: MultibootInfo, mem: Memory, l: Layout, ops: seq<Op>)
    requires l.Valid() && OnlySingle(ops)
    ensures Booted(p, info, mem, l).Up? ==>
      var end := Run(System(Booted(p, info, mem, l).placed.build.alloc, []), ops);
      && end.Running?
      && var (_, r) := Allocate(end.sys.alloc, 1);
         && (r.None? <==> end.sys.alloc.free == {})
         && (r.Some? ==> r.value.len == 1 && IsLowestFree(end.sys.alloc.free, r.value.start))
  {
    hide Booted, RegionsOf, InSomeKept, Translates, Run, PackedLow, Allocate;
    var t := BootIsCorrect(p, info, mem, l);
    if Booted(p, info, mem, l).Up? {
      var alloc := Booted(p, info, mem, l).placed.build.alloc;
      var sys := System(alloc, []);
      assert Conserves(sys, alloc.free);
      EveryRunConserves(sys, ops, alloc.free);
      EverySingleRunStaysPacked(sys, ops, alloc.free);
      AllocateOneTakesLowest(Run(sys, ops).sys.alloc);
    }
  }
}
