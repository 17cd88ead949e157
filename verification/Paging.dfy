/** Building the page directory: what the code does to physical memory and to
    the allocator, step by step. */
module Paging {
  import opened Words
  import opened FrameSpec
  import opened FrameBitmaps
  import opened Layouts
  import opened Addresses
  import opened Entries
  import opened Mmu

  const RECURSIVE_INDEX: nat := 1023
  /** Frames the bootstrap directory identity-maps: the low 4 MiB. */
  const LOW_FRAMES: nat := 1024

  /** Physical memory and the allocator while the directory is under
      construction. */
  datatype Build = Build(mem: Memory, alloc: Allocator)

  /** A paging frame can be written through the bootstrap identity map. */
  predicate Reachable(frame: nat) {
    BaseAddr(frame) < PAGE_TABLE_SPAN
  }

  /** An allocator after giving out one frame. */
  datatype Given = Given(alloc: Allocator, frame: nat)

  /** A directory under construction after obtaining a paging frame. */
  datatype Placed = Placed(build: Build, frame: nat)

  ghost function AllocFrame(a: Allocator): Option<Given> {
    var taken := Allocate(a, 1);
    if taken.1.None? then None else Some(Given(taken.0, taken.1.value.start))
  }

  function SetEntry(mem: Memory, frame: nat, index: nat, e: u32): Memory
    requires frame < FRAME_COUNT && index < 1024
  {
    mem[frame := mem[frame][index := e]]
  }

  function ZeroedFrame(mem: Memory, frame: nat): Memory
    requires frame < FRAME_COUNT
  {
    mem[frame := Zeros()]
  }

  /** Takes a frame, zeroes it and stores an entry for it in slot `index` of
      directory `pd`, or of itself when `pd` is `None`.  `None` where the code
      panics. */
  ghost function PlaceFrame(b: Build, pd: Option<nat>, index: nat): Option<Placed>
    requires pd.Some? ==> pd.value < FRAME_COUNT
    requires index < 1024
  {
    var given := AllocFrame(b.alloc);
    if given.None? || given.value.frame >= FRAME_COUNT || !Reachable(given.value.frame) then None
    else
      var frame := given.value.frame;
      var dir := if pd.Some? then pd.value else frame;
      Some(Placed(Build(SetEntry(ZeroedFrame(b.mem, frame), dir, index, Entry(frame, KERNEL_RW)), given.value.alloc), frame))
  }

  ghost function TableFor(b: Build, pd: nat, index: nat): Option<Placed>
    requires pd < FRAME_COUNT && index < 1024
  {
    if EntryPresent(b.mem[pd][index]) then Some(Placed(b, EntryFrame(b.mem[pd][index])))
    else PlaceFrame(b, Some(pd), index)
  }

  /** Maps one page in the directory under construction; `None` where the code
      panics. */
  ghost function MapBootstrap(b: Build, pd: nat, virt: u32, phys: u32, flags: u32): Option<Build>
    requires pd < FRAME_COUNT
  {
    IndicesAre(virt);
    var table := TableFor(b, pd, PdIndex(virt));
    if table.None? || table.value.frame >= FRAME_COUNT || !Reachable(table.value.frame) then None
    else
      var Placed(b', frame) := table.value;
      Some(Build(SetEntry(b'.mem, frame, PtIndex(virt), Entry(FrameFloor(phys), flags)), b'.alloc))
  }

  function KernelFlags(l: Layout, virt: nat): u32 {
    if virt < l.dataStart then KERNEL_RO else KERNEL_RW
  }

  /** What the kernel loop does with the page at `virt`. */
  ghost function KernelPage(b: Build, pd: nat, l: Layout, virt: nat): Option<Build>
    requires pd < FRAME_COUNT && l.Valid() && l.virtStart <= virt < l.virtEnd
  {
    if virt == l.guard then Some(b)
    else MapBootstrap(b, pd, virt, virt - KERNEL_VIRTUAL_BASE, KernelFlags(l, virt))
  }

  /** The loop over the kernel's pages, from `virt` on. */
  ghost function MapKernel(b: Build, pd: nat, l: Layout, virt: nat): Option<Build>
    requires pd < FRAME_COUNT && l.Valid() && l.virtStart <= virt
    decreases l.virtEnd - virt
  {
    if virt >= l.virtEnd then Some(b)
    else
      var b' := KernelPage(b, pd, l, virt);
      if b'.None? then None else MapKernel(b'.value, pd, l, virt + PAGE_SIZE)
  }

  /** The loop over the pages below the kernel, from `phys` on. */
  ghost function MapLow(b: Build, pd: nat, l: Layout, phys: nat): Option<Build>
    requires pd < FRAME_COUNT && l.Valid()
    decreases l.physStart - phys
  {
    if phys >= l.physStart then Some(b)
    else
      var b' := MapBootstrap(b, pd, phys, phys, KERNEL_RW);
      if b'.None? then None else MapLow(b'.value, pd, l, phys + PAGE_SIZE)
  }

  lemma UnrollKernel(b: Build, pd: nat, l: Layout, virt: nat)
    requires pd < FRAME_COUNT && l.Valid() && l.virtStart <= virt < l.virtEnd
    ensures MapKernel(b, pd, l, virt) ==
            if KernelPage(b, pd, l, virt).None? then None
            else MapKernel(KernelPage(b, pd, l, virt).value, pd, l, virt + PAGE_SIZE)
  {
  }

  lemma UnrollLow(b: Build, pd: nat, l: Layout, phys: nat)
    requires pd < FRAME_COUNT && l.Valid() && phys < l.physStart
    ensures MapLow(b, pd, l, phys) ==
            if MapBootstrap(b, pd, phys, phys, KERNEL_RW).None? then None
            else MapLow(MapBootstrap(b, pd, phys, phys, KERNEL_RW).value, pd, l, phys + PAGE_SIZE)
  {
  }

  /** The whole of `init` up to the CR3 load: the finished memory and the
      directory's frame, or `None` where the code panics. */
  ghost function BuildDirectory(b: Build, l: Layout): Option<Placed>
    requires l.Valid()
  {
    var start := PlaceFrame(b, None, RECURSIVE_INDEX);
    if start.None? then None
    else
      var pd := start.value.frame;
      var high := MapKernel(start.value.build, pd, l, l.virtStart);
      if high.None? then None
      else
        var both := MapLow(high.value, pd, l, 0);
        if both.None? then None else Some(Placed(both.value, pd))
  }

  /** The directory the boot stub loads first: two huge pages over the low
      4 MiB. */
  function BootDirectory(): Frame {
    Zeros()[0 := HugeEntry(0, KERNEL_RW)][KERNEL_VIRTUAL_BASE / PAGE_TABLE_SPAN := HugeEntry(0, KERNEL_RW)]
  }

  // ---------- The code, against the functions above ----------

  lemma AllocFrameInRange(a: Allocator)
    requires a.Valid() && AllocFrame(a).Some?
    ensures AllocFrame(a).value.alloc.Valid() && AllocFrame(a).value.frame < FRAME_COUNT
  {
  }

  method TakeFrame(allocator: FrameBitmap) returns (r: Option<nat>)
    requires allocator.Valid()
    modifies allocator`searchHint, allocator.bitmap
    ensures allocator.Valid() && allocator.bitmap == old(allocator.bitmap)
    ensures r.Some? <==> AllocFrame(old(allocator.View())).Some?
    ensures r.Some? ==> AllocFrame(old(allocator.View())) == Some(Given(allocator.View(), r.value)) && r.value < FRAME_COUNT
  {
    var run := allocator.AllocateOne();
    if run.None? {
      return None;
    }
    AllocFrameInRange(old(allocator.View()));
    return Some(run.value.start);
  }

  method ZeroFrame(ram: array<Frame>, frame: nat) returns (ok: bool)
    requires frame < ram.Length
    modifies ram
    ensures ok <==> Reachable(frame)
    ensures ram[..] == if ok then old(ram[..])[frame := Zeros()] else old(ram[..])
  {
    if BaseAddr(frame) >= PAGE_TABLE_SPAN {
      return false;
    }
    ram[frame] := Zeros();
    return true;
  }

  /** Maps one page.  Returns false where the code panics. */
  method MapPage(ram: array<Frame>, pd: nat, allocator: FrameBitmap, virt: u32, phys: u32, flags: u32) returns (ok: bool)
    requires ram.Length == FRAME_COUNT && pd < FRAME_COUNT && allocator.Valid()
    modifies ram, allocator`searchHint, allocator.bitmap
    ensures allocator.Valid() && allocator.bitmap == old(allocator.bitmap)
    ensures ok <==> MapBootstrap(old(Build(ram[..], allocator.View())), pd, virt, phys, flags).Some?
    ensures ok ==> MapBootstrap(old(Build(ram[..], allocator.View())), pd, virt, phys, flags)
                   == Some(Build(ram[..], allocator.View()))
  {
    IndicesAre(virt);
    var index := PdIndex(virt);
    var table;
    ghost var before := Build(ram[..], allocator.View());
    if EntryPresent(ram[pd][index]) {
      table := EntryFrame(ram[pd][index]);
      FrameIs(ram[pd][index]);
    } else {
      var frame := TakeFrame(allocator);
      if frame.None? {
        return false;
      }
      table := frame.value;
      var zeroed := ZeroFrame(ram, table);
      if !zeroed {
        return false;
      }
      ram[pd] := ram[pd][index := Entry(table, KERNEL_RW)];
      assert ram[..] == SetEntry(ZeroedFrame(before.mem, table), pd, index, Entry(table, KERNEL_RW));
    }
    assert TableFor(before, pd, index) == Some(Placed(Build(ram[..], allocator.View()), table));
    if BaseAddr(table) >= PAGE_TABLE_SPAN {
      return false;
    }
    ghost var mid := ram[..];
    ram[table] := ram[table][PtIndex(virt) := Entry(FrameFloor(phys), flags)];
    assert ram[..] == SetEntry(mid, table, PtIndex(virt), Entry(FrameFloor(phys), flags));
    return true;
  }

  method MapKernelPage(ram: array<Frame>, pd: nat, allocator: FrameBitmap, l: Layout, virt: nat) returns (ok: bool)
    requires ram.Length == FRAME_COUNT && pd < FRAME_COUNT && allocator.Valid()
    requires l.Valid() && l.virtStart <= virt < l.virtEnd
    modifies ram, allocator`searchHint, allocator.bitmap
    ensures allocator.Valid() && allocator.bitmap == old(allocator.bitmap)
    ensures ok <==> KernelPage(old(Build(ram[..], allocator.View())), pd, l, virt).Some?
    ensures ok ==> KernelPage(old(Build(ram[..], allocator.View())), pd, l, virt) == Some(Build(ram[..], allocator.View()))
  {
    if virt == l.guard {
      return true;
    }
    ok := MapPage(ram, pd, allocator, virt, virt - KERNEL_VIRTUAL_BASE, KernelFlags(l, virt));
  }

  method MapKernelPages(ram: array<Frame>, pd: nat, allocator: FrameBitmap, l: Layout) returns (ok: bool)
    requires ram.Length == FRAME_COUNT && pd < FRAME_COUNT && allocator.Valid() && l.Valid()
    modifies ram, allocator`searchHint, allocator.bitmap
    ensures allocator.Valid() && allocator.bitmap == old(allocator.bitmap)
    ensures ok <==> MapKernel(old(Build(ram[..], allocator.View())), pd, l, l.virtStart).Some?
    ensures ok ==> MapKernel(old(Build(ram[..], allocator.View())), pd, l, l.virtStart)
                   == Some(Build(ram[..], allocator.View()))
  {
    hide KernelPage;
    var virt := l.virtStart;
    while virt < l.virtEnd
      invariant allocator.Valid() && allocator.bitmap == old(allocator.bitmap)
      invariant l.virtStart <= virt
      invariant MapKernel(old(Build(ram[..], allocator.View())), pd, l, l.virtStart)
             == MapKernel(Build(ram[..], allocator.View()), pd, l, virt)
      decreases l.virtEnd - virt
    {
      UnrollKernel(Build(ram[..], allocator.View()), pd, l, virt);
      var mapped := MapKernelPage(ram, pd, allocator, l, virt);
      if !mapped {
        return false;
      }
      virt := virt + PAGE_SIZE;
    }
    return true;
  }

  method MapLowPages(ram: array<Frame>, pd: nat, allocator: FrameBitmap, l: Layout) returns (ok: bool)
    requires ram.Length == FRAME_COUNT && pd < FRAME_COUNT && allocator.Valid() && l.Valid()
    modifies ram, allocator`searchHint, allocator.bitmap
    ensures allocator.Valid() && allocator.bitmap == old(allocator.bitmap)
    ensures ok <==> MapLow(old(Build(ram[..], allocator.View())), pd, l, 0).Some?
    ensures ok ==> MapLow(old(Build(ram[..], allocator.View())), pd, l, 0) == Some(Build(ram[..], allocator.View()))
  {
    hide MapBootstrap;
    var phys := 0;
    while phys < l.physStart
      invariant allocator.Valid() && allocator.bitmap == old(allocator.bitmap)
      invariant MapLow(old(Build(ram[..], allocator.View())), pd, l, 0)
             == MapLow(Build(ram[..], allocator.View()), pd, l, phys)
      decreases l.physStart - phys
    {
      UnrollLow(Build(ram[..], allocator.View()), pd, l, phys);
      var mapped := MapPage(ram, pd, allocator, phys, phys, KERNEL_RW);
      if !mapped {
        return false;
      }
      phys := phys + PAGE_SIZE;
    }
    return true;
  }

  /** Builds the directory and returns its frame, which the code then loads into
      CR3; `None` where the code panics. */
  method Init(ram: array<Frame>, allocator: FrameBitmap, l: Layout) returns (r: Option<nat>)
    requires ram.Length == FRAME_COUNT && allocator.Valid() && l.Valid()
    modifies ram, allocator`searchHint, allocator.bitmap
    ensures allocator.Valid() && allocator.bitmap == old(allocator.bitmap)
    ensures r.Some? <==> BuildDirectory(old(Build(ram[..], allocator.View())), l).Some?
    ensures r.Some? ==> BuildDirectory(old(Build(ram[..], allocator.View())), l)
                        == Some(Placed(Build(ram[..], allocator.View()), r.value))
  {
    ghost var before := Build(ram[..], allocator.View());
    var frame := TakeFrame(allocator);
    if frame.None? {
      return None;
    }
    var pd := frame.value;
    var zeroed := ZeroFrame(ram, pd);
    if !zeroed {
      return None;
    }
    ram[pd] := ram[pd][RECURSIVE_INDEX := Entry(pd, KERNEL_RW)];
    assert ram[..] == SetEntry(ZeroedFrame(before.mem, pd), pd, RECURSIVE_INDEX, Entry(pd, KERNEL_RW));
    assert PlaceFrame(before, None, RECURSIVE_INDEX) == Some(Placed(Build(ram[..], allocator.View()), pd));
    var kernel := MapKernelPages(ram, pd, allocator, l);
    if !kernel {
      return None;
    }
    var low := MapLowPages(ram, pd, allocator, l);
    if !low {
      return None;
    }
    return Some(pd);
  }
}
