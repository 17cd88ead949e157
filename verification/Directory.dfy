/** What the directory under construction means: the invariant every step of the
    builder keeps, and the translation it amounts to. */
module Directory {
  import opened Words
  import opened FrameSpec
  import opened Layouts
  import opened Addresses
  import opened Entries
  import opened Mmu
  import opened Paging

  datatype Mapping = Mapping(frame: nat, flags: u32)

  /** The directory in the abstract: its own frame, the table frame of each slot
      in use, and the pages mapped so far. */
  datatype Shape = Shape(pd: nat, tables: map<nat, nat>, pages: map<nat, Mapping>)

  /** The frames the directory is made of. */
  ghost function Owned(s: Shape): set<nat> {
    {s.pd} + s.tables.Values
  }

  ghost predicate ShapeOk(s: Shape) {
    && s.pd < LOW_FRAMES
    && (forall i :: i in s.tables ==> i < RECURSIVE_INDEX && s.tables[i] < LOW_FRAMES && s.tables[i] != s.pd)
    && (forall i, j :: i in s.tables && j in s.tables && i != j ==> s.tables[i] != s.tables[j])
    && (forall p :: p in s.pages ==> p / 1024 in s.tables && MappingOk(s.pages[p]))
  }

  predicate MappingOk(m: Mapping) {
    m.frame < FRAME_COUNT && (m.flags == KERNEL_RO || m.flags == KERNEL_RW)
  }

  function Pde(s: Shape, i: nat): u32 {
    if i == RECURSIVE_INDEX then Entry(s.pd, KERNEL_RW)
    else if i in s.tables then Entry(s.tables[i], KERNEL_RW)
    else EMPTY
  }

  function Pte(s: Shape, i: nat, j: nat): u32 {
    var p := i * 1024 + j;
    if p in s.pages then Entry(s.pages[p].frame, s.pages[p].flags) else EMPTY
  }

  ghost predicate MemoryHolds(mem: Memory, s: Shape)
    requires ShapeOk(s)
  {
    && (forall i :: 0 <= i < 1024 ==> mem[s.pd][i] == Pde(s, i))
    && (forall i, j :: i in s.tables && 0 <= j < 1024 ==> mem[s.tables[i]][j] == Pte(s, i, j))
  }

  /** The directory's frames came from the allocator, each once, and nothing
      else in memory has changed since `start`. */
  ghost predicate Ledger(b: Build, s: Shape, start: Build) {
    && Owned(s) <= start.alloc.free
    && b.alloc.free == start.alloc.free - Owned(s)
    && forall f :: 0 <= f < FRAME_COUNT && f !in Owned(s) ==> b.mem[f] == start.mem[f]
  }

  ghost predicate Built(b: Build, s: Shape, start: Build) {
    && b.alloc.Valid() && PackedLow(b.alloc)
    && ShapeOk(s)
    && MemoryHolds(b.mem, s)
    && Ledger(b, s, start)
  }

  lemma BuiltPd(b: Build, s: Shape, start: Build)
    requires Built(b, s, start)
    ensures s.pd < LOW_FRAMES
  {
  }

  // ---------- The translation a directory amounts to ----------

  ghost function TranslationOf(s: Shape, v: u32): Translation {
    var slot, page, offset := v / PAGE_TABLE_SPAN, v / PAGE_SIZE, v % PAGE_SIZE;
    if slot != RECURSIVE_INDEX then
      if page in s.pages then Mapped(s.pages[page].frame * PAGE_SIZE + offset, s.pages[page].flags == KERNEL_RW, false) else Fault
    else
      var i := page % 1024;
      if i == RECURSIVE_INDEX then Mapped(s.pd * PAGE_SIZE + offset, true, false)
      else if i in s.tables then Mapped(s.tables[i] * PAGE_SIZE + offset, true, false)
      else Fault
  }

  lemma PdeBits(s: Shape, i: nat)
    requires ShapeOk(s) && i < 1024
    ensures Bit(Pde(s, i), 0) <==> i == RECURSIVE_INDEX || i in s.tables
    ensures Bit(Pde(s, i), 0) ==>
      && !Bit(Pde(s, i), 7) && Bit(Pde(s, i), 1) && !Bit(Pde(s, i), 2)
      && Pde(s, i) / PAGE_SIZE == if i == RECURSIVE_INDEX then s.pd else s.tables[i]
  {
    if i == RECURSIVE_INDEX {
      KernelEntryBits(s.pd, KERNEL_RW);
    } else if i in s.tables {
      KernelEntryBits(s.tables[i], KERNEL_RW);
    } else {
      BitOfZero(0);
    }
  }

  lemma PteBits(s: Shape, i: nat, j: nat)
    requires ShapeOk(s)
    ensures var p := i * 1024 + j;
      && (Bit(Pte(s, i, j), 0) <==> p in s.pages)
      && (p in s.pages ==>
          && Pte(s, i, j) / PAGE_SIZE == s.pages[p].frame && !Bit(Pte(s, i, j), 2)
          && (Bit(Pte(s, i, j), 1) <==> s.pages[p].flags == KERNEL_RW))
  {
    var p := i * 1024 + j;
    if p in s.pages {
      KernelEntryBits(s.pages[p].frame, s.pages[p].flags);
    } else {
      BitOfZero(0);
    }
  }

  /** The processor's walk of the built tables is the abstract translation, for
      every virtual address. */
  lemma TranslateBuilt(mem: Memory, s: Shape, v: u32)
    requires ShapeOk(s) && MemoryHolds(mem, s)
    ensures Translate(mem, s.pd, v) == TranslationOf(s, v)
  {
    var slot, j := v / PAGE_TABLE_SPAN, v / PAGE_SIZE % 1024;
    SumOfParts(v);
    assert v / PAGE_SIZE == slot * 1024 + j;
    PdeBits(s, slot);
    if slot == RECURSIVE_INDEX {
      PdeBits(s, j);
    } else if slot in s.tables {
      PteBits(s, slot, j);
    }
  }

  // ---------- Steps of the builder ----------

  ghost predicate NoLowFree(free: set<nat>) {
    forall f :: f in free ==> f >= LOW_FRAMES
  }

  lemma ReachableIsLow(f: nat)
    requires f < FRAME_COUNT
    ensures Reachable(f) <==> f < LOW_FRAMES
  {
  }

  lemma AllocFrameIsLowest(a: Allocator)
    requires a.Valid() && PackedLow(a)
    ensures AllocFrame(a).None? <==> a.free == {}
    ensures AllocFrame(a).Some? ==>
      var g := AllocFrame(a).value;
      && g.alloc.Valid() && PackedLow(g.alloc) && IsLowestFree(a.free, g.frame) && g.frame < FRAME_COUNT
      && g.alloc.free == a.free - {g.frame}
  {
    AllocateOneTakesLowest(a);
  }

  /** Placing a paging frame takes the lowest free frame, and panics exactly when
      no free frame lies below 4 MiB. */
  lemma PlaceFrameExact(b: Build, pd: Option<nat>, index: nat)
    requires b.alloc.Valid() && PackedLow(b.alloc) && index < 1024 && (pd.Some? ==> pd.value < FRAME_COUNT)
    ensures PlaceFrame(b, pd, index).None? <==> NoLowFree(b.alloc.free)
    ensures PlaceFrame(b, pd, index).Some? ==>
      var p := PlaceFrame(b, pd, index).value;
      && p.build.alloc.Valid() && PackedLow(p.build.alloc)
      && IsLowestFree(b.alloc.free, p.frame) && p.frame < LOW_FRAMES
      && p.build.alloc.free == b.alloc.free - {p.frame}
      && p.build.mem == SetEntry(ZeroedFrame(b.mem, p.frame), if pd.Some? then pd.value else p.frame, index, Entry(p.frame, KERNEL_RW))
  {
    AllocFrameIsLowest(b.alloc);
    var given := AllocFrame(b.alloc);
    if given.Some? {
      ReachableIsLow(given.value.frame);
    }
  }

  lemma StartBuilt(b: Build)
    requires b.alloc.Valid() && PackedLow(b.alloc) && PlaceFrame(b, None, RECURSIVE_INDEX).Some?
    ensures var p := PlaceFrame(b, None, RECURSIVE_INDEX).value;
      Built(p.build, Shape(p.frame, map[], map[]), b)
  {
    PlaceFrameExact(b, None, RECURSIVE_INDEX);
  }

  ghost function WithTable(s: Shape, slot: nat, frame: nat): Shape {
    Shape(s.pd, s.tables[slot := frame], s.pages)
  }

  ghost function WithPage(s: Shape, page: nat, m: Mapping): Shape {
    Shape(s.pd, s.tables, s.pages[page := m])
  }

  lemma OwnedWithTable(s: Shape, slot: nat, frame: nat)
    requires slot !in s.tables
    ensures Owned(WithTable(s, slot, frame)) == Owned(s) + {frame}
  {
    var s' := WithTable(s, slot, frame);
    assert s'.tables[slot] == frame;
    forall f <- s.tables.Values ensures f in s'.tables.Values {
      var i :| i in s.tables && s.tables[i] == f;
      assert i in s'.tables && s'.tables[i] == f;
    }
  }

  lemma TableFrameOwned(s: Shape, i: nat)
    requires i in s.tables
    ensures s.tables[i] in Owned(s)
  {
  }

  lemma AddTableShape(s: Shape, slot: nat, frame: nat)
    requires ShapeOk(s) && slot < RECURSIVE_INDEX && slot !in s.tables
    requires frame < LOW_FRAMES && frame !in Owned(s)
    ensures ShapeOk(WithTable(s, slot, frame))
  {
  }

  lemma AddTableMemory(mem: Memory, s: Shape, slot: nat, frame: nat)
    requires ShapeOk(s) && MemoryHolds(mem, s) && slot < RECURSIVE_INDEX && slot !in s.tables
    requires frame < LOW_FRAMES && frame !in Owned(s)
    ensures ShapeOk(WithTable(s, slot, frame))
    ensures MemoryHolds(SetEntry(ZeroedFrame(mem, frame), s.pd, slot, Entry(frame, KERNEL_RW)), WithTable(s, slot, frame))
  {
    AddTableShape(s, slot, frame);
    var s' := WithTable(s, slot, frame);
    var mem' := SetEntry(ZeroedFrame(mem, frame), s.pd, slot, Entry(frame, KERNEL_RW));
    forall i, j | i in s'.tables && 0 <= j < 1024 ensures mem'[s'.tables[i]][j] == Pte(s', i, j) {
      if i == slot {
        assert (slot * 1024 + j) / 1024 == slot;
        assert slot * 1024 + j !in s.pages;
      } else {
        TableFrameOwned(s, i);
        assert mem[s.tables[i]][j] == Pte(s, i, j);
      }
    }
  }

  lemma AddTableBuilt(b: Build, s: Shape, start: Build, slot: nat)
    requires Built(b, s, start) && slot < RECURSIVE_INDEX && slot !in s.tables
    requires PlaceFrame(b, Some(s.pd), slot).Some?
    ensures var p := PlaceFrame(b, Some(s.pd), slot).value;
      Built(p.build, WithTable(s, slot, p.frame), start)
  {
    PlaceFrameExact(b, Some(s.pd), slot);
    var p := PlaceFrame(b, Some(s.pd), slot).value;
    AddTableMemory(b.mem, s, slot, p.frame);
    OwnedWithTable(s, slot, p.frame);
  }

  lemma PageOfSlot(i: nat, k: nat, slot: nat, j: nat)
    requires k < 1024 && j < 1024
    ensures i * 1024 + k == slot * 1024 + j <==> i == slot && k == j
    ensures (slot * 1024 + j) / 1024 == slot
  {
  }

  lemma PteWithPage(s: Shape, slot: nat, j: nat, m: Mapping, i: nat, k: nat)
    requires k < 1024 && j < 1024
    ensures Pte(WithPage(s, slot * 1024 + j, m), i, k) == if i == slot && k == j then Entry(m.frame, m.flags) else Pte(s, i, k)
  {
    hide Entry;
    PageOfSlot(i, k, slot, j);
  }

  lemma AddPageMemory(mem: Memory, s: Shape, slot: nat, j: nat, m: Mapping)
    requires ShapeOk(s) && MemoryHolds(mem, s) && slot in s.tables && j < 1024 && MappingOk(m)
    ensures ShapeOk(WithPage(s, slot * 1024 + j, m))
    ensures MemoryHolds(SetEntry(mem, s.tables[slot], j, Entry(m.frame, m.flags)), WithPage(s, slot * 1024 + j, m))
  {
    hide Entry, Pte;
    PageOfSlot(0, 0, slot, j);
    var s' := WithPage(s, slot * 1024 + j, m);
    var mem' := SetEntry(mem, s.tables[slot], j, Entry(m.frame, m.flags));
    forall i, k | i in s'.tables && 0 <= k < 1024 ensures mem'[s'.tables[i]][k] == Pte(s', i, k) {
      assert mem[s.tables[i]][k] == Pte(s, i, k);
      PteWithPage(s, slot, j, m, i, k);
    }
  }

  lemma AddPageBuilt(b: Build, s: Shape, start: Build, slot: nat, j: nat, m: Mapping)
    requires Built(b, s, start) && slot in s.tables && j < 1024 && MappingOk(m)
    ensures Built(Build(SetEntry(b.mem, s.tables[slot], j, Entry(m.frame, m.flags)), b.alloc), WithPage(s, slot * 1024 + j, m), start)
  {
    AddPageMemory(b.mem, s, slot, j, m);
    TableFrameOwned(s, slot);
  }

  /** The shape after mapping one page: the table that was there, or a new one in
      the lowest free frame. */
  ghost predicate Extends(s': Shape, s: Shape, slot: nat, page: nat, m: Mapping, free: set<nat>) {
    && s'.pd == s.pd
    && s'.pages == s.pages[page := m]
    && if slot in s.tables then s'.tables == s.tables
       else slot in s'.tables && IsLowestFree(free, s'.tables[slot]) && s'.tables == s.tables[slot := s'.tables[slot]]
  }

  lemma SlotPresence(b: Build, s: Shape, slot: nat)
    requires ShapeOk(s) && MemoryHolds(b.mem, s) && slot < RECURSIVE_INDEX
    ensures EntryPresent(b.mem[s.pd][slot]) <==> slot in s.tables
    ensures slot in s.tables ==> EntryFrame(b.mem[s.pd][slot]) == s.tables[slot]
  {
    assert b.mem[s.pd][slot] == Pde(s, slot);
    PresentIs(Pde(s, slot));
    FrameIs(Pde(s, slot));
    PdeBits(s, slot);
  }

  lemma TableForBuilt(b: Build, s: Shape, start: Build, slot: nat) returns (s': Shape)
    requires Built(b, s, start) && slot < RECURSIVE_INDEX
    ensures TableFor(b, s.pd, slot).None? <==> slot !in s.tables && NoLowFree(b.alloc.free)
    ensures TableFor(b, s.pd, slot).Some? ==>
      var p := TableFor(b, s.pd, slot).value;
      && slot in s'.tables && p.frame == s'.tables[slot] && p.frame < LOW_FRAMES
      && Built(p.build, s', start) && s'.pd == s.pd && s'.pages == s.pages
      && if slot in s.tables then s' == s && p.build == b
         else s' == WithTable(s, slot, p.frame) && IsLowestFree(b.alloc.free, p.frame)
  {
    SlotPresence(b, s, slot);
    s' := s;
    if slot !in s.tables {
      PlaceFrameExact(b, Some(s.pd), slot);
      if PlaceFrame(b, Some(s.pd), slot).Some? {
        AddTableBuilt(b, s, start, slot);
        s' := WithTable(s, slot, PlaceFrame(b, Some(s.pd), slot).value.frame);
      }
    }
  }

  /** The builder in terms of page numbers. */
  lemma MapBootstrapIs(b: Build, pd: nat, virt: u32, phys: u32, flags: u32)
    requires pd < FRAME_COUNT
    ensures var placed := TableFor(b, pd, virt / PAGE_TABLE_SPAN);
      MapBootstrap(b, pd, virt, phys, flags) ==
      if placed.None? || placed.value.frame >= LOW_FRAMES then None
      else Some(Build(SetEntry(placed.value.build.mem, placed.value.frame, virt / PAGE_SIZE % 1024, Entry(phys / PAGE_SIZE, flags)),
                      placed.value.build.alloc))
  {
    hide TableFor, Entry;
    IndicesAre(virt);
    var placed := TableFor(b, pd, virt / PAGE_TABLE_SPAN);
    if placed.Some? && placed.value.frame < FRAME_COUNT { ReachableIsLow(placed.value.frame); }
  }

  lemma ExtendsByPage(s: Shape, t: Shape, slot: nat, page: nat, m: Mapping, free: set<nat>)
    requires t.pd == s.pd && t.pages == s.pages && slot in t.tables
    requires if slot in s.tables then t == s else t == WithTable(s, slot, t.tables[slot]) && IsLowestFree(free, t.tables[slot])
    ensures Extends(WithPage(t, page, m), s, slot, page, m, free)
  {
  }

  /** One call of the builder is one point update of the page map; it panics
      exactly when it needs a table and no free frame lies below 4 MiB. */
  lemma MapBootstrapBuilt(b: Build, s: Shape, start: Build, virt: u32, phys: u32, flags: u32) returns (s': Shape)
    requires Built(b, s, start) && virt / PAGE_TABLE_SPAN < RECURSIVE_INDEX
    requires flags == KERNEL_RO || flags == KERNEL_RW
    ensures MapBootstrap(b, s.pd, virt, phys, flags).None? <==> virt / PAGE_TABLE_SPAN !in s.tables && NoLowFree(b.alloc.free)
    ensures MapBootstrap(b, s.pd, virt, phys, flags).Some? ==>
      && Built(MapBootstrap(b, s.pd, virt, phys, flags).value, s', start)
      && Extends(s', s, virt / PAGE_TABLE_SPAN, virt / PAGE_SIZE, Mapping(phys / PAGE_SIZE, flags), b.alloc.free)
  {
    hide Built, MapBootstrap, TableFor, Entry, NoLowFree, IsLowestFree, Extends, SetEntry;
    BuiltPd(b, s, start);
    var slot, j, m := virt / PAGE_TABLE_SPAN, virt / PAGE_SIZE % 1024, Mapping(phys / PAGE_SIZE, flags);
    assert virt / PAGE_SIZE == slot * 1024 + j by { SumOfParts(virt); }
    MapBootstrapIs(b, s.pd, virt, phys, flags);
    var t := TableForBuilt(b, s, start, slot);
    s' := t;
    var placed := TableFor(b, s.pd, slot);
    if placed.Some? {
      AddPageBuilt(placed.value.build, t, start, slot, j, m);
      ExtendsByPage(s, t, slot, virt / PAGE_SIZE, m, b.alloc.free);
      s' := WithPage(t, virt / PAGE_SIZE, m);
    }
  }

  lemma ExtendsTranslation(s': Shape, s: Shape, virt: u32, m: Mapping, free: set<nat>, v: u32)
    requires Extends(s', s, virt / PAGE_TABLE_SPAN, virt / PAGE_SIZE, m, free) && v / PAGE_TABLE_SPAN != RECURSIVE_INDEX
    ensures TranslationOf(s', v) ==
            if v / PAGE_SIZE == virt / PAGE_SIZE then Mapped(m.frame * PAGE_SIZE + v % PAGE_SIZE, m.flags == KERNEL_RW, false)
            else TranslationOf(s, v)
  {
  }

  /** Outside the recursive window, mapping one page changes that page's
      translation to the one asked for and no other page's. */
  lemma MapBootstrapIsOnePoint(b: Build, s: Shape, start: Build, virt: u32, phys: u32, flags: u32, b': Build, v: u32)
    requires Built(b, s, start) && virt / PAGE_TABLE_SPAN < RECURSIVE_INDEX
    requires flags == KERNEL_RO || flags == KERNEL_RW
    requires MapBootstrap(b, s.pd, virt, phys, flags) == Some(b')
    requires v / PAGE_TABLE_SPAN != RECURSIVE_INDEX
    ensures Translate(b'.mem, s.pd, v) ==
            if v / PAGE_SIZE == virt / PAGE_SIZE then Mapped(phys / PAGE_SIZE * PAGE_SIZE + v % PAGE_SIZE, flags == KERNEL_RW, false)
            else Translate(b.mem, s.pd, v)
  {
    var s' := MapBootstrapBuilt(b, s, start, virt, phys, flags);
    ExtendsTranslation(s', s, virt, Mapping(phys / PAGE_SIZE, flags), b.alloc.free, v);
    assert Translate(b.mem, s.pd, v) == TranslationOf(s, v) by { TranslateBuilt(b.mem, s, v); }
    assert Translate(b'.mem, s'.pd, v) == TranslationOf(s', v) by { TranslateBuilt(b'.mem, s', v); }
  }
}
