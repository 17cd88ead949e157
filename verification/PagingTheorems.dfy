/** What `paging::init` achieves: exactly when it completes, exactly which
    virtual addresses then lead where, and what that rules out. */
module PagingTheorems {
  import opened Words
  import opened FrameSpec
  import opened Layouts
  import opened Entries
  import opened Mmu
  import opened Paging
  import opened Directory

  const KERNEL_SLOT: nat := 768

  /** The mapping each page is meant to have. */
  function Intended(l: Layout, page: nat): Option<Mapping> {
    var virt := page * PAGE_SIZE;
    if l.virtStart <= virt < l.virtEnd && virt != l.guard && virt >= KERNEL_VIRTUAL_BASE
    then Some(Mapping((virt - KERNEL_VIRTUAL_BASE) / PAGE_SIZE, KernelFlags(l, virt)))
    else if virt < l.physStart then Some(Mapping(page, KERNEL_RW))
    else None
  }

  function Lookup(pages: map<nat, Mapping>, page: nat): Option<Mapping> {
    if page in pages then Some(pages[page]) else None
  }

  // ---------- The two loops ----------

  /** The kernel pages at or above `virt` are now as intended; others as before. */
  ghost predicate KernelMapped(pages': map<nat, Mapping>, pages: map<nat, Mapping>, l: Layout, virt: nat) {
    forall p: nat :: Lookup(pages', p) ==
      if virt <= p * PAGE_SIZE < l.virtEnd && p * PAGE_SIZE != l.guard then Intended(l, p) else Lookup(pages, p)
  }

  ghost predicate LowMapped(pages': map<nat, Mapping>, pages: map<nat, Mapping>, l: Layout, phys: nat) {
    forall p: nat :: Lookup(pages', p) ==
      if phys <= p * PAGE_SIZE < l.physStart then Some(Mapping(p, KERNEL_RW)) else Lookup(pages, p)
  }

  /** The tables after a loop over one slot that ran at least once. */
  ghost predicate TableAdded(tables': map<nat, nat>, tables: map<nat, nat>, slot: nat, free: set<nat>) {
    if slot in tables then tables' == tables
    else slot in tables' && IsLowestFree(free, tables'[slot]) && tables' == tables[slot := tables'[slot]]
  }

  lemma KernelPageArithmetic(l: Layout, virt: nat)
    requires l.Valid() && l.virtStart <= virt < l.virtEnd && virt % PAGE_SIZE == 0
    ensures virt + PAGE_SIZE <= l.virtEnd && virt / PAGE_TABLE_SPAN == KERNEL_SLOT && virt < U32_LIMIT
    ensures virt / PAGE_SIZE * PAGE_SIZE == virt && (virt - KERNEL_VIRTUAL_BASE) / PAGE_SIZE < FRAME_COUNT
    ensures virt == l.guard ==> virt + PAGE_SIZE < l.virtEnd
    ensures (virt + PAGE_SIZE) % PAGE_SIZE == 0
  {
  }

  lemma KernelMappedStep(pages': map<nat, Mapping>, pages: map<nat, Mapping>, l: Layout, virt: nat)
    requires l.Valid() && l.virtStart <= virt < l.virtEnd && virt % PAGE_SIZE == 0
    requires virt == l.guard ==> KernelMapped(pages', pages, l, virt + PAGE_SIZE)
    requires virt != l.guard ==>
      KernelMapped(pages', pages[virt / PAGE_SIZE := Mapping((virt - KERNEL_VIRTUAL_BASE) / PAGE_SIZE, KernelFlags(l, virt))], l, virt + PAGE_SIZE)
    ensures KernelMapped(pages', pages, l, virt)
  {
  }

  /** The pages after the kernel loop has dealt with the page at `virt`. */
  ghost function AfterKernelPage(pages: map<nat, Mapping>, l: Layout, virt: nat): map<nat, Mapping>
    requires l.Valid() && l.virtStart <= virt
  {
    if virt == l.guard then pages
    else pages[virt / PAGE_SIZE := Mapping((virt - KERNEL_VIRTUAL_BASE) / PAGE_SIZE, KernelFlags(l, virt))]
  }

  /** What handling the page at `virt` comes to. */
  ghost predicate KernelPageMet(r: Option<Build>, b: Build, s: Shape, s': Shape, start: Build, l: Layout, virt: nat)
    requires l.Valid() && l.virtStart <= virt
  {
    && (r.None? <==> virt != l.guard && KERNEL_SLOT !in s.tables && NoLowFree(b.alloc.free))
    && (r.Some? ==>
        && Built(r.value, s', start) && s'.pd == s.pd
        && s'.pages == AfterKernelPage(s.pages, l, virt)
        && if virt == l.guard then s' == s && r.value == b
           else KERNEL_SLOT in s'.tables && TableAdded(s'.tables, s.tables, KERNEL_SLOT, b.alloc.free))
  }

  lemma KernelPageBuilt(b: Build, s: Shape, start: Build, l: Layout, virt: nat) returns (s': Shape)
    requires Built(b, s, start) && l.Valid() && l.virtStart <= virt < l.virtEnd && virt % PAGE_SIZE == 0
    ensures KernelPageMet(KernelPage(b, s.pd, l, virt), b, s, s', start, l, virt)
    ensures KernelPage(b, s.pd, l, virt).Some? ==> Built(KernelPage(b, s.pd, l, virt).value, s', start) && s'.pd == s.pd
  {
    hide Built, MapBootstrap, NoLowFree, IsLowestFree;
    BuiltPd(b, s, start);
    if virt == l.guard {
      s' := s;
    } else {
      assert virt < U32_LIMIT && virt / PAGE_TABLE_SPAN == KERNEL_SLOT by { KernelPageArithmetic(l, virt); }
      assert KernelPage(b, s.pd, l, virt) == MapBootstrap(b, s.pd, virt, virt - KERNEL_VIRTUAL_BASE, KernelFlags(l, virt));
      s' := MapBootstrapBuilt(b, s, start, virt, virt - KERNEL_VIRTUAL_BASE, KernelFlags(l, virt));
    }
  }

  lemma KernelLoopDone(b: Build, s: Shape, start: Build, l: Layout)
    requires Built(b, s, start) && l.Valid()
    ensures KernelLoopMet(MapKernel(b, s.pd, l, l.virtEnd), b, s, s, start, l, l.virtEnd)
  {
  }

  ghost predicate KernelLoopMet(r: Option<Build>, b: Build, s: Shape, s': Shape, start: Build, l: Layout, virt: nat) {
    && (r.None? <==> virt < l.virtEnd && KERNEL_SLOT !in s.tables && NoLowFree(b.alloc.free))
    && (r.Some? ==>
        && Built(r.value, s', start) && s'.pd == s.pd
        && KernelMapped(s'.pages, s.pages, l, virt)
        && if virt < l.virtEnd then TableAdded(s'.tables, s.tables, KERNEL_SLOT, b.alloc.free) else s' == s)
  }

  lemma KernelLoopStep(r: Option<Build>, b: Build, s: Shape, b1: Build, s1: Shape, s': Shape, start: Build, l: Layout, virt: nat)
    requires l.Valid() && l.virtStart <= virt < l.virtEnd && virt % PAGE_SIZE == 0
    requires KernelPageMet(Some(b1), b, s, s1, start, l, virt)
    requires KernelLoopMet(r, b1, s1, s', start, l, virt + PAGE_SIZE)
    ensures KernelLoopMet(r, b, s, s', start, l, virt)
  {
    hide Built;
    KernelPageArithmetic(l, virt);
    if r.Some? { KernelMappedStep(s'.pages, s.pages, l, virt); }
  }

  lemma KernelLoopFails(b: Build, s: Shape, start: Build, l: Layout, virt: nat)
    requires l.Valid() && l.virtStart <= virt < l.virtEnd && exists s1 :: KernelPageMet(None, b, s, s1, start, l, virt)
    ensures KernelLoopMet(None, b, s, s, start, l, virt)
  {
  }

  lemma {:induction false} MapKernelExact(b: Build, s: Shape, start: Build, l: Layout, virt: nat) returns (s': Shape)
    requires Built(b, s, start) && l.Valid() && l.virtStart <= virt <= l.virtEnd && virt % PAGE_SIZE == 0
    ensures KernelLoopMet(MapKernel(b, s.pd, l, virt), b, s, s', start, l, virt)
    decreases l.virtEnd - virt
  {
    hide Built, MapKernel, KernelPage, KernelPageMet, KernelLoopMet;
    BuiltPd(b, s, start);
    if virt == l.virtEnd {
      s' := s;
      KernelLoopDone(b, s, start, l);
    } else {
      KernelPageArithmetic(l, virt);
      UnrollKernel(b, s.pd, l, virt);
      var s1 := KernelPageBuilt(b, s, start, l, virt);
      var page := KernelPage(b, s.pd, l, virt);
      if page.Some? {
        s' := MapKernelExact(page.value, s1, start, l, virt + PAGE_SIZE);
        KernelLoopStep(MapKernel(b, s.pd, l, virt), b, s, page.value, s1, s', start, l, virt);
      } else {
        s' := s;
        KernelLoopFails(b, s, start, l, virt);
      }
    }
  }

  lemma LowPageArithmetic(l: Layout, phys: nat)
    requires l.Valid() && phys < l.physStart && phys % PAGE_SIZE == 0
    ensures phys + PAGE_SIZE <= l.physStart && (phys + PAGE_SIZE) % PAGE_SIZE == 0
    ensures phys / PAGE_TABLE_SPAN == 0 && phys / PAGE_SIZE * PAGE_SIZE == phys
  {
  }

  lemma LowMappedStep(pages': map<nat, Mapping>, pages: map<nat, Mapping>, l: Layout, phys: nat)
    requires l.Valid() && phys < l.physStart && phys % PAGE_SIZE == 0
    requires LowMapped(pages', pages[phys / PAGE_SIZE := Mapping(phys / PAGE_SIZE, KERNEL_RW)], l, phys + PAGE_SIZE)
    ensures LowMapped(pages', pages, l, phys)
  {
  }

  ghost predicate LowLoopMet(r: Option<Build>, b: Build, s: Shape, s': Shape, start: Build, l: Layout, phys: nat) {
    && (r.None? <==> phys < l.physStart && 0 !in s.tables && NoLowFree(b.alloc.free))
    && (r.Some? ==>
        && Built(r.value, s', start) && s'.pd == s.pd
        && LowMapped(s'.pages, s.pages, l, phys)
        && if phys < l.physStart then TableAdded(s'.tables, s.tables, 0, b.alloc.free) else s' == s)
  }

  lemma LowLoopDone(b: Build, s: Shape, start: Build, l: Layout)
    requires Built(b, s, start) && l.Valid()
    ensures LowLoopMet(MapLow(b, s.pd, l, l.physStart), b, s, s, start, l, l.physStart)
  {
  }

  lemma LowLoopStep(r: Option<Build>, b: Build, s: Shape, b1: Build, s1: Shape, s': Shape, start: Build, l: Layout, phys: nat)
    requires l.Valid() && phys < l.physStart && phys % PAGE_SIZE == 0
    requires Extends(s1, s, 0, phys / PAGE_SIZE, Mapping(phys / PAGE_SIZE, KERNEL_RW), b.alloc.free)
    requires 0 in s.tables || !NoLowFree(b.alloc.free)
    requires LowLoopMet(r, b1, s1, s', start, l, phys + PAGE_SIZE)
    ensures LowLoopMet(r, b, s, s', start, l, phys)
  {
    if r.Some? { LowMappedStep(s'.pages, s.pages, l, phys); }
  }

  lemma LowLoopFails(b: Build, s: Shape, start: Build, l: Layout, phys: nat)
    requires phys < l.physStart && 0 !in s.tables && NoLowFree(b.alloc.free)
    ensures LowLoopMet(None, b, s, s, start, l, phys)
  {
  }

  lemma {:induction false} MapLowExact(b: Build, s: Shape, start: Build, l: Layout, phys: nat) returns (s': Shape)
    requires Built(b, s, start) && l.Valid() && phys <= l.physStart && phys % PAGE_SIZE == 0
    ensures LowLoopMet(MapLow(b, s.pd, l, phys), b, s, s', start, l, phys)
    decreases l.physStart - phys
  {
    hide Built, MapLow, MapBootstrap, LowLoopMet, NoLowFree;
    BuiltPd(b, s, start);
    if phys == l.physStart {
      s' := s;
      LowLoopDone(b, s, start, l);
    } else {
      LowPageArithmetic(l, phys);
      UnrollLow(b, s.pd, l, phys);
      var s1 := MapBootstrapBuilt(b, s, start, phys, phys, KERNEL_RW);
      var page := MapBootstrap(b, s.pd, phys, phys, KERNEL_RW);
      if page.Some? {
        s' := MapLowExact(page.value, s1, start, l, phys + PAGE_SIZE);
        LowLoopStep(MapLow(b, s.pd, l, phys), b, s, page.value, s1, s', start, l, phys);
      } else {
        s' := s;
        LowLoopFails(b, s, start, l, phys);
      }
    }
  }

  // ---------- When init completes ----------

  ghost function LowFree(free: set<nat>): set<nat> {
    set f | f in free && f < LOW_FRAMES
  }

  lemma NoLowFreeIs(free: set<nat>)
    ensures NoLowFree(free) <==> |LowFree(free)| == 0
  {
    if |LowFree(free)| == 0 {
      forall f | f in free ensures f >= LOW_FRAMES { assert f !in LowFree(free); }
    } else {
      assert LowFree(free) != {};
      var f :| f in LowFree(free);
    }
  }

  lemma TakingLow(free: set<nat>, f: nat)
    requires f in free && f < LOW_FRAMES
    ensures |LowFree(free - {f})| == |LowFree(free)| - 1
  {
    assert LowFree(free) == LowFree(free - {f}) + {f};
  }

  /** The frames of a finished directory: itself and its two tables. */
  datatype Frames = Frames(pd: nat, high: nat, low: nat) {
    ghost function Set(): set<nat> {
      {pd, high, low}
    }
  }

  /** The three lowest free frames, in order. */
  ghost predicate ThreeLowest(t: Frames, free: set<nat>) {
    && t.pd < t.high < t.low && t.Set() <= free
    && forall f :: f in free - t.Set() ==> t.low < f
  }

  /** The directory after `init`: tables in the two slots in use, and every page
      mapped as intended. */
  ghost predicate Finished(s: Shape, l: Layout) {
    && s.tables.Keys == {KERNEL_SLOT, 0}
    && forall p: nat :: Lookup(s.pages, p) == Intended(l, p)
  }

  ghost function FramesOf(s: Shape): Frames
    requires KERNEL_SLOT in s.tables && 0 in s.tables
  {
    Frames(s.pd, s.tables[KERNEL_SLOT], s.tables[0])
  }

  lemma LowestThrice(t: Frames, free: set<nat>)
    requires IsLowestFree(free, t.pd) && IsLowestFree(free - {t.pd}, t.high) && IsLowestFree(free - {t.pd} - {t.high}, t.low)
    ensures ThreeLowest(t, free)
  {
    forall f | f in free - t.Set() ensures t.low < f {
      assert f in free - {t.pd} - {t.high};
    }
  }

  lemma IntendedByLoops(a: map<nat, Mapping>, b: map<nat, Mapping>, l: Layout)
    requires l.Valid() && KernelMapped(a, map[], l, l.virtStart) && LowMapped(b, a, l, 0)
    ensures forall p: nat :: Lookup(b, p) == Intended(l, p)
  {
  }

  /** `init` completes exactly when three free frames lie below 4 MiB, and then
      has built the finished directory in the three lowest. */
  lemma BuildDirectoryExact(start: Build, l: Layout) returns (s: Shape)
    requires start.alloc.Valid() && PackedLow(start.alloc) && l.Valid()
    ensures BuildDirectory(start, l).Some? <==> |LowFree(start.alloc.free)| >= 3
    ensures BuildDirectory(start, l).Some? ==>
      var p := BuildDirectory(start, l).value;
      s.pd == p.frame && Built(p.build, s, start) && Finished(s, l) && ThreeLowest(FramesOf(s), start.alloc.free)
  {
    hide Built, PlaceFrame, MapKernel, MapLow, KernelMapped, LowMapped, Intended, LowFree, Lookup, PackedLow;
    var free := start.alloc.free;
    s := Shape(0, map[], map[]);
    NoLowFreeIs(free);
    PlaceFrameExact(start, None, RECURSIVE_INDEX);
    var p0 := PlaceFrame(start, None, RECURSIVE_INDEX);
    if p0.Some? {
      var pd, b0 := p0.value.frame, p0.value.build;
      StartBuilt(start);
      TakingLow(free, pd);
      NoLowFreeIs(b0.alloc.free);
      var s1 := MapKernelExact(b0, Shape(pd, map[], map[]), start, l, l.virtStart);
      var b1 := MapKernel(b0, pd, l, l.virtStart);
      if b1.Some? {
        var high := s1.tables[KERNEL_SLOT];
        assert s1.tables == map[KERNEL_SLOT := high];
        LedgerAfter(b0, b1.value, Shape(pd, map[], map[]), s1, start, {high});
        TakingLow(b0.alloc.free, high);
        NoLowFreeIs(b1.value.alloc.free);
        var s2 := MapLowExact(b1.value, s1, start, l, 0);
        if MapLow(b1.value, pd, l, 0).Some? {
          s := s2;
          assert s.tables.Keys == {KERNEL_SLOT, 0};
          IntendedByLoops(s1.pages, s2.pages, l);
          LowestThrice(FramesOf(s), free);
        }
      }
    }
  }

  lemma LedgerAfter(b: Build, b': Build, s: Shape, s': Shape, start: Build, added: set<nat>)
    requires Built(b, s, start) && Built(b', s', start)
    requires s'.pd == s.pd && s'.tables.Values == s.tables.Values + added
    ensures b'.alloc.free == b.alloc.free - added
  {
  }

  // ---------- Where every address leads ----------

  /** The table in slot `i` of the directory; the last slot holds the directory
      itself. */
  function TableInSlot(t: Frames, i: nat): Option<nat> {
    if i == 1023 then Some(t.pd)
    else if i == 768 then Some(t.high)
    else if i == 0 then Some(t.low)
    else None
  }

  /** The translation the kernel intends for each 32-bit address, in addresses
      written out: the kernel's pages, less the guard page, at 3 GiB above where
      they are loaded; everything below the image at itself; the tables in the
      top 4 MiB, the table of slot i at page i. */
  function IntendedTranslation(l: Layout, t: Frames, v: u32): Translation
    requires l.Valid()
  {
    if l.virtStart <= v < l.virtEnd && !(l.guard <= v < l.guard + 0x1000) then
      Mapped(v - 0xC000_0000, v >= l.dataStart, false)
    else if v < l.physStart then Mapped(v, true, false)
    else if v >= 0xFFC0_0000 then
      var table := TableInSlot(t, (v - 0xFFC0_0000) / 0x1000);
      if table.Some? then Mapped(table.value * 0x1000 + v % 0x1000, true, false) else Fault
    else Fault
  }

  lemma PageBounds(v: nat, x: nat)
    requires x % PAGE_SIZE == 0
    ensures v - v % PAGE_SIZE >= x <==> v >= x
    ensures v - v % PAGE_SIZE == x <==> x <= v < x + 0x1000
  {
  }

  lemma IntendedPageTranslation(l: Layout, s: Shape, t: Frames, v: u32)
    requires l.Valid() && v < 0xFFC0_0000 && Lookup(s.pages, v / PAGE_SIZE) == Intended(l, v / PAGE_SIZE)
    ensures v / PAGE_TABLE_SPAN != RECURSIVE_INDEX
    ensures TranslationOf(s, v) == IntendedTranslation(l, t, v)
  {
    RightsAre();
    var base := v - v % PAGE_SIZE;
    assert v / PAGE_SIZE * PAGE_SIZE == base;
    PageBounds(v, l.virtStart);
    PageBounds(v, l.virtEnd);
    PageBounds(v, l.dataStart);
    PageBounds(v, l.guard);
    PageBounds(v, l.physStart);
  }

  lemma IntendedWindowTranslation(l: Layout, s: Shape, t: Frames, v: u32)
    requires l.Valid() && v >= 0xFFC0_0000
    requires s.tables.Keys == {KERNEL_SLOT, 0} && t == FramesOf(s)
    ensures TranslationOf(s, v) == IntendedTranslation(l, t, v)
  {
    assert v / PAGE_TABLE_SPAN == 1023 && v / PAGE_SIZE % 1024 == (v - 0xFFC0_0000) / 0x1000;
    var i := v / PAGE_SIZE % 1024;
    assert i in s.tables <==> i == KERNEL_SLOT || i == 0;
  }

  lemma FinishedTranslation(l: Layout, s: Shape, t: Frames, v: u32)
    requires l.Valid() && Finished(s, l) && t == FramesOf(s)
    ensures TranslationOf(s, v) == IntendedTranslation(l, t, v)
  {
    hide TranslationOf, Intended;
    if v >= 0xFFC0_0000 {
      IntendedWindowTranslation(l, s, t, v);
    } else {
      assert Lookup(s.pages, v / PAGE_SIZE) == Intended(l, v / PAGE_SIZE);
      IntendedPageTranslation(l, s, t, v);
    }
  }

  ghost predicate Translates(mem: Memory, l: Layout, t: Frames)
    requires t.pd < FRAME_COUNT && l.Valid()
  {
    forall v: u32 :: Translate(mem, t.pd, v) == IntendedTranslation(l, t, v)
  }

  lemma OwnedIs(s: Shape)
    requires s.tables.Keys == {KERNEL_SLOT, 0}
    ensures Owned(s) == FramesOf(s).Set()
  {
  }

  /** After `init`, the processor's walk of the new directory takes every 32-bit
      virtual address exactly where the kernel intends, or faults; the directory
      occupies the three lowest free frames, and no other frame of memory has
      changed. */
  lemma ExactTranslation(start: Build, l: Layout) returns (t: Frames)
    requires start.alloc.Valid() && PackedLow(start.alloc) && l.Valid()
    ensures BuildDirectory(start, l).Some? ==>
      var p := BuildDirectory(start, l).value;
      && t.pd == p.frame && t.low < LOW_FRAMES && ThreeLowest(t, start.alloc.free)
      && Translates(p.build.mem, l, t)
      && p.build.alloc.Valid() && PackedLow(p.build.alloc) && p.build.alloc.free == start.alloc.free - t.Set()
      && forall f :: 0 <= f < FRAME_COUNT && f !in t.Set() ==> p.build.mem[f] == start.mem[f]
  {
    hide BuildDirectory;
    t := Frames(0, 0, 0);
    var s := BuildDirectoryExact(start, l);
    if BuildDirectory(start, l).Some? {
      var p := BuildDirectory(start, l).value;
      t := FramesOf(s);
      OwnedIs(s);
      forall v: u32 ensures Translate(p.build.mem, t.pd, v) == IntendedTranslation(l, t, v) {
        TranslateBuilt(p.build.mem, s, v);
        FinishedTranslation(l, s, t, v);
      }
    }
  }

  // ---------- The recursive window ----------

  /** Page i of the top 4 MiB shows the table that word i of the directory points
      at, or faults if that word is not present; the last page shows the
      directory itself. */
  ghost predicate WindowShows(mem: Memory, pd: nat, i: nat, o: nat)
    requires pd < FRAME_COUNT && i < 1024 && o < 0x1000
  {
    var e := mem[pd][i];
    && Translate(mem, pd, 0xFFFF_F000 + o) == Mapped(pd * 0x1000 + o, true, false)
    && Translate(mem, pd, 0xFFC0_0000 + i * 0x1000 + o) ==
       if Bit(e, 0) then Mapped(e / 0x1000 * 0x1000 + o, true, false) else Fault
  }

  lemma RecursiveWindow(start: Build, l: Layout, i: nat, o: nat)
    requires start.alloc.Valid() && PackedLow(start.alloc) && l.Valid() && i < 1024 && o < 0x1000
    ensures BuildDirectory(start, l).Some? ==>
      var p := BuildDirectory(start, l).value;
      p.frame < FRAME_COUNT && WindowShows(p.build.mem, p.frame, i, o)
  {
    hide BuildDirectory;
    var s := BuildDirectoryExact(start, l);
    if BuildDirectory(start, l).Some? {
      var p := BuildDirectory(start, l).value;
      WindowOf(p.build.mem, s, 1023, o);
      WindowOf(p.build.mem, s, i, o);
      PdeBits(s, 1023);
    }
  }

  lemma WindowOf(mem: Memory, s: Shape, i: nat, o: nat)
    requires ShapeOk(s) && MemoryHolds(mem, s) && i < 1024 && o < 0x1000
    ensures mem[s.pd][i] == Pde(s, i)
    ensures Translate(mem, s.pd, 0xFFC0_0000 + i * 0x1000 + o) ==
            if Bit(Pde(s, i), 0) then Mapped(Pde(s, i) / 0x1000 * 0x1000 + o, true, false) else Fault
  {
    var v := 0xFFC0_0000 + i * 0x1000 + o;
    assert v / PAGE_TABLE_SPAN == 1023 && v / PAGE_SIZE % 1024 == i && v % PAGE_SIZE == o;
    TranslateBuilt(mem, s, v);
    PdeBits(s, i);
  }

  // ---------- What that rules out ----------

  /** A frame of the image is reached from no address but its own in the high
      half, and there only if it is not the guard, and writably only from the
      data section up: so no address, through the recursive window or otherwise,
      gives write access to `.text` or `.rodata`, and none reaches the stack
      guard. */
  lemma ImageReachedOnlyHigh(l: Layout, t: Frames, v: u32)
    requires l.Valid() && forall f :: f in t.Set() ==> !l.InImage(f)
    ensures var x := IntendedTranslation(l, t, v);
      x.Mapped? && l.InImage(x.phys / PAGE_SIZE) ==>
        && v == x.phys + KERNEL_VIRTUAL_BASE && !l.IsGuard(x.phys / PAGE_SIZE)
        && (x.writable ==> !l.InReadOnly(x.phys / PAGE_SIZE))
  {
    var x := IntendedTranslation(l, t, v);
    if l.virtStart <= v < l.virtEnd && !(l.guard <= v < l.guard + 0x1000) {
      KernelAddress(l, v);
    } else if v < l.physStart {
      PageBounds(v, l.physStart);
      assert v / PAGE_SIZE * PAGE_SIZE == v - v % PAGE_SIZE;
    } else if x.Mapped? {
      var table := TableInSlot(t, (v - 0xFFC0_0000) / 0x1000).value;
      assert x.phys / PAGE_SIZE == table && table in t.Set();
    }
  }

  lemma KernelAddress(l: Layout, v: nat)
    requires l.Valid() && l.virtStart <= v < l.virtEnd && !(l.guard <= v < l.guard + 0x1000)
    ensures var f := (v - KERNEL_VIRTUAL_BASE) / PAGE_SIZE;
      !l.IsGuard(f) && (v >= l.dataStart ==> !l.InReadOnly(f))
  {
    var f := (v - KERNEL_VIRTUAL_BASE) / PAGE_SIZE;
    assert f * PAGE_SIZE + KERNEL_VIRTUAL_BASE == v - v % PAGE_SIZE;
    PageBounds(v, l.guard);
    PageBounds(v, l.dataStart);
  }

  lemma ReadOnlyAndGuardLieInImage(l: Layout, f: nat)
    requires l.Valid() && (l.InReadOnly(f) || l.IsGuard(f))
    ensures l.InImage(f)
  {
  }

  /** No writable address maps a read-only section, and no address the guard. */
  lemma SectionsAreProtected(mem: Memory, l: Layout, t: Frames, v: u32)
    requires l.Valid() && t.pd < FRAME_COUNT && Translates(mem, l, t) && forall f :: f in t.Set() ==> !l.InImage(f)
    ensures var x := Translate(mem, t.pd, v);
      x.Mapped? ==> !l.IsGuard(x.phys / PAGE_SIZE) && !x.user && (x.writable ==> !l.InReadOnly(x.phys / PAGE_SIZE))
  {
    hide Translate;
    var x := IntendedTranslation(l, t, v);
    assert Translate(mem, t.pd, v) == x;
    ImageReachedOnlyHigh(l, t, v);
    if x.Mapped? && (l.IsGuard(x.phys / PAGE_SIZE) || l.InReadOnly(x.phys / PAGE_SIZE)) {
      ReadOnlyAndGuardLieInImage(l, x.phys / PAGE_SIZE);
    }
  }

  // ---------- The hand-over from the bootstrap directory ----------

  lemma BootEntryBits()
    ensures var e := HugeEntry(0, KERNEL_RW);
      Bit(e, 0) && Bit(e, 1) && !Bit(e, 2) && Bit(e, 7) && !Bit(e, 21) && e / PAGE_TABLE_SPAN == 0 && e / 0x2000 == 0
  {
    RightsAre();
    assert HugeEntry(0, KERNEL_RW) == 0x83 by {
      assert Or(0, 0x80) == 0x80;
      assert Or(0x80, 3) == 2 * Or(0x40, 1) + 1;
      assert Or(0x40, 1) == 2 * Or(0x20, 0) + 1;
    }
    var e := 0x83;
    assert Bit(e, 1) == Bit(0x41, 0);
    assert Bit(e, 2) == Bit(0x41, 1) == Bit(0x20, 0);
    assert Bit(e, 7) by {
      assert Bit(0x83, 7) == Bit(0x41, 6) == Bit(0x20, 5) == Bit(0x10, 4) == Bit(8, 3) == Bit(4, 2) == Bit(2, 1) == Bit(1, 0);
    }
    assert Ones(8) == 255;
    BitBeyond(e, 8, 21);
  }

  /** The bootstrap directory maps the low 4 MiB at 0 and at the kernel's base,
      read-write, and nothing else. */
  lemma BootTranslation(mem: Memory, bootPd: nat, v: u32)
    requires bootPd < FRAME_COUNT && mem[bootPd] == BootDirectory()
    ensures Translate(mem, bootPd, v) ==
            if v < 0x40_0000 then Mapped(v, true, false)
            else if 0xC000_0000 <= v < 0xC040_0000 then Mapped(v - 0xC000_0000, true, false)
            else Fault
  {
    BootEntryBits();
    BitOfZero(0);
    hide HugeEntry;
    assert KERNEL_VIRTUAL_BASE / PAGE_TABLE_SPAN == KERNEL_SLOT;
  }

  /** Every address outside the recursive window that the new directory
      translates led to the same place under the bootstrap directory, with at
      least the same rights: the switch moves nothing and grants nothing. */
  lemma HandOverAgrees(bootMem: Memory, bootPd: nat, mem: Memory, l: Layout, t: Frames, v: u32)
    requires l.Valid() && bootPd < FRAME_COUNT && bootMem[bootPd] == BootDirectory()
    requires t.pd < FRAME_COUNT && Translates(mem, l, t) && v < 0xFFC0_0000
    ensures var before, after := Translate(bootMem, bootPd, v), Translate(mem, t.pd, v);
      after.Mapped? ==>
        before.Mapped? && after.phys == before.phys && (after.writable ==> before.writable) && (after.user ==> before.user)
  {
    hide Translate;
    assert Translate(mem, t.pd, v) == IntendedTranslation(l, t, v);
    BootTranslation(bootMem, bootPd, v);
  }

  /** The addresses execution needs across the CR3 load. */
  ghost predicate Essential(l: Layout, v: u32) {
    || (l.virtStart <= v < l.virtEnd && v - v % PAGE_SIZE != l.guard)
    || v < PAGE_SIZE
    || (InVga(v) && VGA_END <= l.physStart)
  }

  const VGA_START: nat := 0xB_8000
  const VGA_END: nat := 0xB_8FA0

  predicate InVga(v: nat) {
    VGA_START <= v < VGA_END
  }

  predicate InStack(l: Layout, v: nat) {
    l.guard + PAGE_SIZE <= v < l.guard + PAGE_SIZE + STACK_BYTES
  }

  /** Execution survives the switch: the kernel's code and data, the descriptor
      tables in frame 0 and the VGA buffer are mapped where the bootstrap
      directory had them, the stack, frame 0 and VGA writably. */
  lemma ExecutionSurvives(bootMem: Memory, bootPd: nat, mem: Memory, l: Layout, t: Frames, v: u32)
    requires l.Valid() && bootPd < FRAME_COUNT && bootMem[bootPd] == BootDirectory()
    requires t.pd < FRAME_COUNT && Translates(mem, l, t) && (Essential(l, v) || InStack(l, v))
    ensures var before, after := Translate(bootMem, bootPd, v), Translate(mem, t.pd, v);
      && before.Mapped? && after.Mapped? && after.phys == before.phys
      && (InStack(l, v) || v < PAGE_SIZE || InVga(v) ==> after.writable)
  {
    hide Translate;
    assert Translate(mem, t.pd, v) == IntendedTranslation(l, t, v);
    if InStack(l, v) { assert v - v % PAGE_SIZE >= l.guard + PAGE_SIZE; }
    HandOverAgrees(bootMem, bootPd, mem, l, t, v);
  }
}
