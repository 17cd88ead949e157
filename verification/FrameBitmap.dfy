/** The packed bitmap behind the frame allocator: one bit per frame, set when
    the frame is free. */
module FrameBitmaps {
  import opened Words
  import opened FrameSpec
  import opened Multiboot
  import opened Layouts

  // ---------- Range masks ----------

  /** `mask` has exactly the bits of `[lo, hi)`. */
  ghost predicate IsRangeMask(mask: u32, lo: nat, hi: nat) {
    forall i: nat :: i < 32 ==> (Bit(mask, i) <==> lo <= i < hi)
  }

  /** A run of bits clipped to one word, and how many bits it took. */
  function ClippedBitRangeMask(startBit: nat, len: nat): (r: (u32, nat))
    requires startBit < 32
  {
    var take := Min(len, 32 - startBit);
    if take == 0 then (0, 0)
    else
      var mask := And(Shl(U32_MAX, startBit), Shr(U32_MAX, 32 - (startBit + take)));
      AndAtMost(Shl(U32_MAX, startBit), Shr(U32_MAX, 32 - (startBit + take)));
      (mask, take)
  }

  lemma AllOnes(i: nat)
    ensures Bit(U32_MAX, i) <==> i < 32
  {
    OnesWidths();
    BitOfOnes(32, i);
  }

  lemma ClippedMaskIsRange(startBit: nat, len: nat)
    requires startBit < 32
    ensures ClippedBitRangeMask(startBit, len).1 == Min(len, 32 - startBit)
    ensures IsRangeMask(ClippedBitRangeMask(startBit, len).0, startBit, startBit + Min(len, 32 - startBit))
  {
    var take := Min(len, 32 - startBit);
    forall i: nat | i < 32
      ensures Bit(ClippedBitRangeMask(startBit, len).0, i) <==> startBit <= i < startBit + take
    {
      if take == 0 {
        BitOfZero(i);
      } else {
        var k := 32 - (startBit + take);
        BitOfAnd(Shl(U32_MAX, startBit), Shr(U32_MAX, k), i);
        BitOfShl(U32_MAX, startBit, i);
        BitOfShr(U32_MAX, k, i);
        AllOnes(i + k);
        if i >= startBit { AllOnes(i - startBit); }
      }
    }
  }

  /** The (word, mask) pairs still to come from a cursor. */
  ghost function Masks(wordI: nat, bit: nat, remaining: nat): seq<(nat, u32)>
    requires bit < 32
    decreases remaining
  {
    if remaining == 0 then []
    else
      var (mask, taken) := ClippedBitRangeMask(bit, remaining);
      [(wordI, mask)] + Masks(wordI + 1, 0, remaining - taken)
  }

  /** The number of pairs that cover frame `f`. */
  ghost function Covering(masks: seq<(nat, u32)>, f: nat): nat {
    if masks == [] then 0
    else (if masks[0].0 == f / 32 && Bit(masks[0].1, f % 32) then 1 else 0) + Covering(masks[1..], f)
  }

  /** Splitting `[start, start + len)` along word boundaries covers each of its
      frames exactly once, and no other frame. */
  lemma {:induction false} MasksCoverOnce(wordI: nat, bit: nat, remaining: nat, f: nat)
    requires bit < 32
    ensures Covering(Masks(wordI, bit, remaining), f)
         == if wordI * 32 + bit <= f < wordI * 32 + bit + remaining then 1 else 0
    decreases remaining
  {
    if remaining > 0 {
      var (mask, taken) := ClippedBitRangeMask(bit, remaining);
      ClippedMaskIsRange(bit, remaining);
      MasksCoverOnce(wordI + 1, 0, remaining - taken, f);
      assert Bit(mask, f % 32) <==> bit <= f % 32 < bit + taken;
    }
  }

  /** Every word a split names exists. */
  lemma {:induction false} MasksInBounds(wordI: nat, bit: nat, remaining: nat, k: nat)
    requires bit < 32 && wordI * 32 + bit + remaining <= FRAME_COUNT
    requires k < |Masks(wordI, bit, remaining)|
    ensures Masks(wordI, bit, remaining)[k].0 < WORD_COUNT
    decreases remaining
  {
    var (mask, taken) := ClippedBitRangeMask(bit, remaining);
    if k > 0 { MasksInBounds(wordI + 1, 0, remaining - taken, k - 1); }
  }

  /** The iterator that yields the pairs. */
  class WordMasks {
    var wordI: nat
    var bit: nat
    var remaining: nat

    constructor (start: nat, len: nat)
      ensures wordI == start / 32 && bit == start % 32 && remaining == len
    {
      wordI := start / 32;
      bit := start % 32;
      remaining := len;
    }

    method Next() returns (item: Option<(nat, u32)>)
      requires bit < 32
      modifies this
      ensures bit < 32
      ensures old(Masks(wordI, bit, remaining)) ==
              (if item.Some? then [item.value] else []) + Masks(wordI, bit, remaining)
      ensures item.None? <==> old(remaining) == 0
      ensures item.None? ==> unchanged(this)
      ensures item.Some? ==>
        var taken := Min(old(remaining), 32 - old(bit));
        && item.value.0 == old(wordI) && IsRangeMask(item.value.1, old(bit), old(bit) + taken)
        && remaining == old(remaining) - taken && bit == 0 && wordI == old(wordI) + 1
    {
      if remaining == 0 {
        return None;
      }
      ClippedMaskIsRange(bit, remaining);
      var (mask, taken) := ClippedBitRangeMask(bit, remaining);
      item := Some((wordI, mask));
      remaining := remaining - taken;
      wordI := wordI + 1;
      bit := 0;
    }
  }

  // ---------- The bitmap as a set ----------

  predicate FreeBit(words: seq<u32>, f: nat)
    requires |words| == WORD_COUNT && f < FRAME_COUNT
  {
    Bit(words[f / 32], f % 32)
  }

  ghost function FreeFrames(words: seq<u32>): set<nat>
    requires |words| == WORD_COUNT
  {
    set f: nat | f < FRAME_COUNT && FreeBit(words, f)
  }

  lemma OrSetsRange(words: seq<u32>, w: nat, mask: u32, lo: nat, hi: nat)
    requires |words| == WORD_COUNT && w < WORD_COUNT && lo < hi <= 32 && IsRangeMask(mask, lo, hi)
    ensures Or(words[w], mask) < U32_LIMIT
    ensures FreeFrames(words[w := Or(words[w], mask)]) == FreeFrames(words) + FramesIn(w * 32 + lo, hi - lo)
  {
    OrFits(words[w], mask);
    var words' := words[w := Or(words[w], mask)];
    forall f: nat | f < FRAME_COUNT
      ensures FreeBit(words', f) <==> FreeBit(words, f) || w * 32 + lo <= f < w * 32 + hi
    {
      if f / 32 == w {
        BitOfOr(words[w], mask, f % 32);
        assert Bit(mask, f % 32) <==> lo <= f % 32 < hi;
      }
    }
  }

  lemma AndNotClearsRange(words: seq<u32>, w: nat, mask: u32, lo: nat, hi: nat)
    requires |words| == WORD_COUNT && w < WORD_COUNT && lo < hi <= 32 && IsRangeMask(mask, lo, hi)
    ensures And(words[w], Not(mask)) < U32_LIMIT
    ensures FreeFrames(words[w := And(words[w], Not(mask))]) == FreeFrames(words) - FramesIn(w * 32 + lo, hi - lo)
  {
    AndAtMost(words[w], Not(mask));
    var words' := words[w := And(words[w], Not(mask))];
    forall f: nat | f < FRAME_COUNT
      ensures FreeBit(words', f) <==> FreeBit(words, f) && !(w * 32 + lo <= f < w * 32 + hi)
    {
      if f / 32 == w {
        BitOfAnd(words[w], Not(mask), f % 32);
        BitOfNot(mask, f % 32);
        assert Bit(mask, f % 32) <==> lo <= f % 32 < hi;
      }
    }
  }

  lemma AndMeetsRange(words: seq<u32>, w: nat, mask: u32, lo: nat, hi: nat)
    requires |words| == WORD_COUNT && w < WORD_COUNT && lo < hi <= 32 && IsRangeMask(mask, lo, hi)
    ensures And(words[w], mask) != 0 <==> AnyFree(FreeFrames(words), w * 32 + lo, w * 32 + hi)
  {
    SharedBit(words[w], mask);
    if And(words[w], mask) != 0 {
      var i: nat :| i < 32 && Bit(words[w], i) && Bit(mask, i);
      assert FreeBit(words, w * 32 + i);
      assert w * 32 + i in FreeFrames(words);
    }
    if f :| w * 32 + lo <= f < w * 32 + hi && f in FreeFrames(words) {
      var i := f - w * 32;
      assert FreeBit(words, f) && f / 32 == w && f % 32 == i;
      BitOfAnd(words[w], mask, i);
      BitOfZero(i);
    }
  }

  /** How many frames of `[start, start + len)` the bitmap has. */
  function LengthInRange(start: nat, len: nat): nat {
    if start + len <= FRAME_COUNT then len else if start < FRAME_COUNT then FRAME_COUNT - start else 0
  }

  lemma FirstFitIs(free: set<nat>, from: nat, n: nat, r: Option<nat>)
    requires n > 0
    requires if r.Some? then r.value < FRAME_COUNT && IsLowestRun(free, from, n, r.value) else NoRun(free, from, n)
    ensures r == FirstFit(free, from, n)
  {
  }

  // ---------- The allocator ----------

  class FrameBitmap {
    var bitmap: array<u32>
    var searchHint: nat

    ghost predicate Valid()
      reads this
    {
      bitmap.Length == WORD_COUNT && searchHint <= WORD_COUNT
    }

    ghost function View(): (a: Allocator)
      requires Valid()
      reads this, bitmap
      ensures a.Valid()
    {
      Allocator(FreeFrames(bitmap[..]), searchHint)
    }

    constructor ()
      ensures Valid() && fresh(bitmap) && View() == Allocator({}, 0)
    {
      bitmap := new u32[WORD_COUNT](_ => 0);
      searchHint := 0;
      new;
      forall f: nat | f < FRAME_COUNT ensures !FreeBit(bitmap[..], f) { BitOfZero(f % 32); }
    }

    method IsFree(frame: nat) returns (b: bool)
      requires Valid() && frame < FRAME_COUNT
      ensures b <==> frame in View().free
    {
      var word := bitmap[frame / 32];
      OneHotTest(word, frame % 32);
      b := And(word, Shl(1, frame % 32)) != 0;
      assert b <==> FreeBit(bitmap[..], frame);
    }

    /** Sets the bits of a range.  Returns false where the source panics on a word past
        the end, with the words before it already changed. */
    method SetFree(start: nat, len: nat) returns (ok: bool)
      requires Valid()
      modifies bitmap
      ensures Valid() && (ok <==> len == 0 || start + len <= FRAME_COUNT)
      ensures View() == old(View()).(free := old(View()).free + FramesIn(start, LengthInRange(start, len)))
      ensures forall f: nat :: f in View().free <==> f in old(View()).free || (f < FRAME_COUNT && start <= f < start + len)
    {
      hide FreeFrames, IsRangeMask, Masks;
      var masks := new WordMasks(start, len);
      ghost var done := 0;
      while masks.remaining > 0
        invariant masks.bit < 32 && done + masks.remaining == len
        invariant masks.remaining > 0 ==> masks.wordI * 32 + masks.bit == start + done
        invariant done > 0 ==> start + done <= FRAME_COUNT
        invariant FreeFrames(bitmap[..]) == old(FreeFrames(bitmap[..])) + FramesIn(start, done)
        decreases masks.remaining
      {
        ghost var lo := masks.bit;
        ghost var words := bitmap[..];
        var item := masks.Next();
        var (w, mask) := item.value;
        if w >= WORD_COUNT {
          assert done == LengthInRange(start, len);
          return false;
        }
        ghost var hi := lo + Min(len - done, 32 - lo);
        OrSetsRange(words, w, mask, lo, hi);
        bitmap[w] := Or(bitmap[w], mask);
        assert bitmap[..] == words[w := Or(words[w], mask)];
        done := done + (hi - lo);
      }
      return true;
    }

    /** Clears the bits of a range.  Returns false where the source panics on a word past
        the end, with the words before it already changed. */
    method SetOccupied(start: nat, len: nat) returns (ok: bool)
      requires Valid()
      modifies bitmap
      ensures Valid() && (ok <==> len == 0 || start + len <= FRAME_COUNT)
      ensures View() == old(View()).(free := old(View()).free - FramesIn(start, LengthInRange(start, len)))
      ensures forall f: nat :: f in View().free <==> f in old(View()).free && !(start <= f < start + len)
    {
      hide FreeFrames, IsRangeMask, Masks;
      var masks := new WordMasks(start, len);
      ghost var done := 0;
      while masks.remaining > 0
        invariant masks.bit < 32 && done + masks.remaining == len
        invariant masks.remaining > 0 ==> masks.wordI * 32 + masks.bit == start + done
        invariant done > 0 ==> start + done <= FRAME_COUNT
        invariant FreeFrames(bitmap[..]) == old(FreeFrames(bitmap[..])) - FramesIn(start, done)
        decreases masks.remaining
      {
        ghost var lo := masks.bit;
        ghost var words := bitmap[..];
        var item := masks.Next();
        var (w, mask) := item.value;
        if w >= WORD_COUNT {
          assert done == LengthInRange(start, len);
          return false;
        }
        ghost var hi := lo + Min(len - done, 32 - lo);
        AndNotClearsRange(words, w, mask, lo, hi);
        bitmap[w] := And(bitmap[w], Not(mask));
        assert bitmap[..] == words[w := And(words[w], Not(mask))];
        done := done + (hi - lo);
      }
      return true;
    }

    /** Whether a range holds a free frame; `None` where the source panics on a
        word past the end before finding one. */
    method AnyFreeIn(start: nat, len: nat) returns (r: Option<bool>)
      requires Valid()
      ensures r == if AnyFree(View().free, start, start + len) then Some(true)
                   else if len == 0 || start + len <= FRAME_COUNT then Some(false)
                   else None
    {
      hide FreeFrames, IsRangeMask, Masks;
      var masks := new WordMasks(start, len);
      ghost var done := 0;
      ghost var free := View().free;
      while masks.remaining > 0
        invariant masks.bit < 32 && done + masks.remaining == len
        invariant masks.remaining > 0 ==> masks.wordI * 32 + masks.bit == start + done
        invariant done > 0 ==> start + done <= FRAME_COUNT
        invariant !AnyFree(free, start, start + done)
        decreases masks.remaining
      {
        ghost var lo := masks.bit;
        var item := masks.Next();
        var (w, mask) := item.value;
        if w >= WORD_COUNT {
          assert start + done >= FRAME_COUNT;
          return None;
        }
        ghost var hi := lo + Min(len - done, 32 - lo);
        AndMeetsRange(bitmap[..], w, mask, lo, hi);
        if And(bitmap[w], mask) != 0 {
          return Some(true);
        }
        done := done + (hi - lo);
      }
      return Some(false);
    }

    method ScanForRun(from: nat, count: nat) returns (r: Option<nat>)
      requires Valid() && from <= FRAME_COUNT && count > 0
      ensures r == FirstFit(View().free, from, count)
    {
      var runStart := 0;
      var runLen := 0;
      ghost var free := View().free;
      for frame := from to FRAME_COUNT
        invariant runLen < count && runLen <= frame - from
        invariant runLen > 0 ==> runStart == frame - runLen
        invariant forall f :: frame - runLen <= f < frame ==> f in free
        invariant forall s :: from <= s < frame - runLen ==> !HasRun(free, s, count)
      {
        var isFree := IsFree(frame);
        if !isFree {
          forall s | from <= s < frame + 1 ensures !HasRun(free, s, count) {
            assert s >= frame - runLen ==> s <= frame < s + count;
          }
          runLen := 0;
        } else {
          if runLen == 0 {
            runStart := frame;
          }
          runLen := runLen + 1;
          if runLen == count {
            FirstFitIs(free, from, count, Some(runStart));
            return Some(runStart);
          }
        }
      }
      forall s | from <= s < FRAME_COUNT ensures !HasRun(free, s, count) {
        assert FRAME_COUNT !in free;
        assert s >= FRAME_COUNT - runLen ==> s <= FRAME_COUNT < s + count;
      }
      FirstFitIs(free, from, count, None);
      return None;
    }

    method FindRun(count: nat) returns (r: Option<nat>)
      requires Valid() && count > 0
      ensures r == FindFreeRun(View(), count)
    {
      r := ScanForRun(searchHint * 32, count);
      if r.None? {
        r := ScanForRun(0, count);
      }
    }

    method Allocate(count: nat) returns (r: Option<FrameRun>)
      requires Valid() && count > 0
      modifies this`searchHint, bitmap
      ensures Valid() && bitmap == old(bitmap)
      ensures (View(), r) == FrameSpec.Allocate(old(View()), count)
    {
      if count > FRAME_COUNT {
        return None;
      }
      var found := FindRun(count);
      if found.None? {
        return None;
      }
      var start := found.value;
      RunFits(View(), start, count);
      var ok := SetOccupied(start, count);
      searchHint := (start + count) / 32;
      return Some(FrameRun(start, count));
    }

    method AllocateOne() returns (r: Option<FrameRun>)
      requires Valid()
      modifies this`searchHint, bitmap
      ensures Valid() && bitmap == old(bitmap)
      ensures (View(), r) == FrameSpec.Allocate(old(View()), 1)
    {
      r := Allocate(1);
    }

    /** Releases a run, or panics before touching a bit if any frame of it is
        already free. */
    method Free(run: FrameRun) returns (panicked: bool)
      requires Valid() && run.Valid()
      modifies this`searchHint, bitmap
      ensures Valid() && bitmap == old(bitmap)
      ensures panicked <==> exists f :: run.start <= f < run.start + run.len && f in old(View()).free
      ensures View() == if panicked then old(View()) else FrameSpec.Free(old(View()), run)
    {
      var anyFree := AnyFreeIn(run.start, run.len);
      if anyFree != Some(false) {
        return true;
      }
      var ok := SetFree(run.start, run.len);
      searchHint := Min(searchHint, run.start / 32);
      return false;
    }

    /** Publishes a range, with no double-free check; returns false where the
        source panics because it reaches past the last frame. */
    method MarkFree(start: nat, count: nat) returns (ok: bool)
      requires Valid() && count > 0
      modifies this`searchHint, bitmap
      ensures Valid() && bitmap == old(bitmap)
      ensures ok <==> start + count <= FRAME_COUNT
      ensures ok ==> View() == FrameSpec.Free(old(View()), FrameRun(start, count))
    {
      ok := SetFree(start, count);
      if ok {
        searchHint := Min(searchHint, start / 32);
      }
    }

    /** Occupies every frame the bytes `[addr, addr + len)` touch. */
    method ReserveBytes(addr: nat, len: nat)
      requires Valid() && addr + len < U32_LIMIT
      modifies bitmap
      ensures Valid() && View() == Reserve(old(View()), addr, len)
    {
      var start := addr / PAGE_SIZE;
      var end := (addr + len + PAGE_SIZE - 1) / PAGE_SIZE;
      ReserveFits(addr, len);
      var ok := SetOccupied(start, end - start);
    }

    /** Frees what the memory map calls available, then reserves frame 0 and the
        kernel image.  Returns false where the arithmetic panics. */
    method Init(p: Profile, mmap: MemoryMap, l: Layout) returns (ok: bool)
      requires Valid() && mmap.Valid() && l.Valid()
      requires Halts(p, mmap.buf, mmap.offset)
      modifies this`searchHint, bitmap, mmap
      ensures Valid() && bitmap == old(bitmap)
      ensures ok <==> InitFrom(p, old(View()), old(Walk(p, mmap.buf, mmap.offset)), l).Some?
      ensures ok ==> View() == InitFrom(p, old(View()), old(Walk(p, mmap.buf, mmap.offset)), l).value
    {
      ghost var start := View();
      ghost var walked := Walk(p, mmap.buf, mmap.offset);
      ghost var k := 0;
      assert walked.regions[0..] == walked.regions;
      assert Before(p, mmap.buf, mmap.offset, walked, 0);
      hide Before, Walk, NextItem, NextOffset, PublishRegion, FreeFrames;
      while true
        invariant Valid() && bitmap == old(bitmap) && mmap.Valid()
        invariant Before(p, mmap.buf, mmap.offset, walked, k)
        invariant PublishAll(p, start, walked.regions) == PublishAll(p, View(), walked.regions[k..])
        decreases |mmap.buf| - mmap.offset
      {
        BeforeNext(p, mmap.buf, mmap.offset, walked, k);
        var item := mmap.Next(p);
        match item
        case End => break;
        case OverflowPanic =>
          return false;
        case Region(region) =>
          assert walked.regions[k..][1..] == walked.regions[k + 1..];
          var fine := Publish(p, region);
          if !fine {
            return false;
          }
          k := k + 1;
      }
      ReserveBytes(0, PAGE_SIZE);
      ReserveBytes(l.physStart, l.physEnd - l.physStart);
      return true;
    }

    /** The body of the loop over regions. */
    method Publish(p: Profile, region: MemoryRegion) returns (ok: bool)
      requires Valid()
      modifies this`searchHint, bitmap
      ensures Valid() && bitmap == old(bitmap)
      ensures ok <==> PublishRegion(p, old(View()), region).Some?
      ensures View() == if ok then PublishRegion(p, old(View()), region).value else old(View())
    {
      hide FreeFrames, FrameSpec.Free;
      var bytes := region.AddressableBytes() % U32_LIMIT;
      if !region.IsAvailable() || bytes == 0 {
        return true;
      }
      var base := region.base % U32_LIMIT;
      var start := (base + PAGE_SIZE - 1) / PAGE_SIZE;
      if base + bytes >= U32_LIMIT && p.Dev? {
        return false;
      }
      var end := (base + bytes) % U32_LIMIT / PAGE_SIZE;
      if end > start {
        ok := MarkFree(start, end - start);
        return;
      }
      return true;
    }
  }

  // ---------- What init does to the set ----------

  lemma ReserveFits(addr: nat, len: nat)
    requires addr + len < U32_LIMIT
    ensures addr / PAGE_SIZE <= (addr + len + PAGE_SIZE - 1) / PAGE_SIZE <= FRAME_COUNT
  {
  }

  function Reserve(a: Allocator, addr: nat, len: nat): Allocator
    requires addr + len < U32_LIMIT
  {
    ReserveFits(addr, len);
    var start := addr / PAGE_SIZE;
    a.(free := a.free - FramesIn(start, (addr + len + PAGE_SIZE - 1) / PAGE_SIZE - start))
  }

  /** A frame stays free exactly if it was and no point of it lies strictly
      between the ends of the range: rounding is outward. */
  lemma ReserveExact(a: Allocator, addr: nat, len: nat, f: nat)
    requires addr + len < U32_LIMIT
    ensures f in Reserve(a, addr, len).free <==> f in a.free && !(f * 4096 < addr + len && addr < (f + 1) * 4096)
    ensures Reserve(a, addr, len).hint == a.hint
  {
  }

  /** One region as the loop handles it, in 32-bit arithmetic; `None` where that
      arithmetic overflows in a build that panics. */
  function PublishRegion(p: Profile, a: Allocator, r: MemoryRegion): Option<Allocator> {
    var bytes := r.AddressableBytes() % U32_LIMIT;
    if !r.IsAvailable() || bytes == 0 then Some(a)
    else
      var base := r.base % U32_LIMIT;
      if base + bytes >= U32_LIMIT && p.Dev? then None
      else
        var start := (base + PAGE_SIZE - 1) / PAGE_SIZE;
        var end := (base + bytes) % U32_LIMIT / PAGE_SIZE;
        Some(if end > start then Free(a, FrameRun(start, end - start)) else a)
  }

  function PublishAll(p: Profile, a: Allocator, rs: seq<MemoryRegion>): Option<Allocator>
    decreases |rs|
  {
    if rs == [] then Some(a)
    else match PublishRegion(p, a, rs[0])
      case None => None
      case Some(a') => PublishAll(p, a', rs[1..])
  }

  function InitFrom(p: Profile, a: Allocator, walked: Walked, l: Layout): Option<Allocator>
    requires l.Valid()
  {
    if walked.panicked then None
    else match PublishAll(p, a, walked.regions)
      case None => None
      case Some(b) => Some(Reserve(Reserve(b, 0, PAGE_SIZE), l.physStart, l.physEnd - l.physStart))
  }

  /** Frame `f` lies wholly inside region `r`. */
  ghost predicate WhollyInside(r: MemoryRegion, f: nat) {
    r.base <= f * PAGE_SIZE && (f + 1) * PAGE_SIZE <= r.base + r.length
  }

  /** An available region the loop publishes: it ends below 4 GiB. */
  ghost predicate Kept(r: MemoryRegion) {
    r.kind == Available && r.base + r.length < U32_LIMIT
  }

  /** An available region that starts above zero and reaches 4 GiB. */
  ghost predicate Overflows(r: MemoryRegion) {
    r.kind == Available && 0 < r.base < U32_LIMIT <= r.base + r.length
  }

  ghost predicate InSomeKept(rs: seq<MemoryRegion>, f: nat) {
    exists i :: 0 <= i < |rs| && Kept(rs[i]) && WhollyInside(rs[i], f)
  }

  ghost predicate InSomeAvailable(rs: seq<MemoryRegion>, f: nat) {
    exists i :: 0 <= i < |rs| && rs[i].kind == Available && WhollyInside(rs[i], f)
  }

  ghost predicate SomeOverflows(rs: seq<MemoryRegion>) {
    exists i :: 0 <= i < |rs| && Overflows(rs[i])
  }

  lemma KeptFrames(r: MemoryRegion, f: nat)
    requires Kept(r)
    ensures WhollyInside(r, f) <==> KeptStart(r) <= f < KeptEnd(r)
  {
  }

  /** The frames of a kept region, rounded inward. */
  ghost function KeptStart(r: MemoryRegion): nat {
    (r.base + PAGE_SIZE - 1) / PAGE_SIZE
  }

  ghost function KeptEnd(r: MemoryRegion): nat {
    (r.base + r.length) / PAGE_SIZE
  }

  lemma PublishKeptIs(p: Profile, a: Allocator, r: MemoryRegion)
    requires Kept(r)
    ensures KeptEnd(r) <= FRAME_COUNT
    ensures PublishRegion(p, a, r) ==
            Some(if KeptEnd(r) > KeptStart(r) then Free(a, FrameRun(KeptStart(r), KeptEnd(r) - KeptStart(r))) else a)
  {
    hide Free;
    assert r.AddressableBytes() == r.length && r.base % U32_LIMIT == r.base;
  }

  lemma PublishKept(p: Profile, a: Allocator, r: MemoryRegion)
    requires a.Valid() && Kept(r)
    ensures PublishRegion(p, a, r).Some?
    ensures var b := PublishRegion(p, a, r).value;
      && b.Valid() && b.hint <= a.hint
      && forall f: nat :: f in b.free <==> f in a.free || WhollyInside(r, f)
  {
    hide PublishRegion, WhollyInside, KeptStart, KeptEnd;
    PublishKeptIs(p, a, r);
    forall f: nat ensures WhollyInside(r, f) <==> KeptStart(r) <= f < KeptEnd(r) {
      KeptFrames(r, f);
    }
  }

  lemma PublishOverflowing(p: Profile, a: Allocator, r: MemoryRegion)
    requires Overflows(r)
    ensures PublishRegion(p, a, r) == if p.Dev? then None else Some(a)
  {
    assert r.AddressableBytes() == U32_LIMIT - r.base;
  }

  lemma PublishRegionExact(p: Profile, a: Allocator, r: MemoryRegion)
    requires a.Valid()
    ensures PublishRegion(p, a, r).None? <==> p.Dev? && Overflows(r)
    ensures PublishRegion(p, a, r).Some? ==>
      var b := PublishRegion(p, a, r).value;
      && b.Valid() && b.hint <= a.hint
      && forall f: nat :: f in b.free <==> f in a.free || (Kept(r) && WhollyInside(r, f))
  {
    if Kept(r) {
      PublishKept(p, a, r);
    } else if Overflows(r) {
      PublishOverflowing(p, a, r);
    } else {
      assert r.kind == Available ==> r.AddressableBytes() % U32_LIMIT == 0;
    }
  }

  lemma {:induction false} PublishAllExact(p: Profile, a: Allocator, rs: seq<MemoryRegion>)
    requires a.Valid()
    ensures PublishAll(p, a, rs).None? <==> p.Dev? && SomeOverflows(rs)
    ensures PublishAll(p, a, rs).Some? ==>
      var b := PublishAll(p, a, rs).value;
      && b.Valid() && b.hint <= a.hint
      && forall f: nat :: f in b.free <==> f in a.free || InSomeKept(rs, f)
    decreases |rs|
  {
    if rs != [] {
      PublishRegionExact(p, a, rs[0]);
      SplitFirst(rs);
      if PublishRegion(p, a, rs[0]).Some? {
        PublishAllExact(p, PublishRegion(p, a, rs[0]).value, rs[1..]);
      }
    }
  }

  lemma SplitFirst(rs: seq<MemoryRegion>)
    requires rs != []
    ensures SomeOverflows(rs) <==> Overflows(rs[0]) || SomeOverflows(rs[1..])
    ensures forall f: nat :: InSomeKept(rs, f) <==> (Kept(rs[0]) && WhollyInside(rs[0], f)) || InSomeKept(rs[1..], f)
  {
  }

  /** The state `init` starts from: every frame occupied. */
  const FRESH: Allocator := Allocator({}, 0)

  /** Exactly when `init` panics, and exactly which frames it leaves free: those
      wholly inside one available region that ends below 4 GiB, other than frame
      0 and the frames of the image.  Order, overlap and repetition of regions
      do not matter. */
  lemma InitExact(p: Profile, walked: Walked, l: Layout)
    requires l.Valid()
    ensures InitFrom(p, FRESH, walked, l).None? <==> walked.panicked || (p.Dev? && SomeOverflows(walked.regions))
    ensures InitFrom(p, FRESH, walked, l).Some? ==>
      var a := InitFrom(p, FRESH, walked, l).value;
      && a.Valid() && a.hint == 0
      && forall f: nat :: f in a.free <==> f != 0 && !l.InImage(f) && InSomeKept(walked.regions, f)
  {
    PublishAllExact(p, FRESH, walked.regions);
  }

  /** Only RAM is ever given out: a frame free after `init` lies wholly inside a
      region of kind `Available`, and with no such region nothing is free. */
  lemma OnlyRamIsFreed(p: Profile, walked: Walked, l: Layout, f: nat)
    requires l.Valid() && InitFrom(p, FRESH, walked, l).Some?
    ensures f in InitFrom(p, FRESH, walked, l).value.free ==>
      exists i :: 0 <= i < |walked.regions| && walked.regions[i].kind == Available
        && walked.regions[i].base <= f * 4096 && (f + 1) * 4096 <= walked.regions[i].base + walked.regions[i].length
    ensures (forall i :: 0 <= i < |walked.regions| ==> walked.regions[i].kind != Available) ==>
      InitFrom(p, FRESH, walked, l).value.free == {}
  {
    InitExact(p, walked, l);
    var rs, free := walked.regions, InitFrom(p, FRESH, walked, l).value.free;
    if f in free {
      var i :| 0 <= i < |rs| && Kept(rs[i]) && WhollyInside(rs[i], f);
    }
    if forall i :: 0 <= i < |rs| ==> rs[i].kind != Available {
      forall g: nat ensures g !in free { assert !InSomeKept(rs, g); }
    }
  }

  const LAST_FRAME: nat := 0xF_FFFF

  /** Every byte of frame `f` lies in some available region. */
  ghost predicate FullyAvailable(rs: seq<MemoryRegion>, f: nat) {
    forall x: nat :: f * PAGE_SIZE <= x < (f + 1) * PAGE_SIZE ==> ByteAvailable(rs, x)
  }

  ghost predicate ByteAvailable(rs: seq<MemoryRegion>, x: nat) {
    exists i :: 0 <= i < |rs| && rs[i].kind == Available && rs[i].Contains(x)
  }

  /** Frame `f` is fully available, but only by two or more regions together. */
  ghost predicate NeedsTwo(rs: seq<MemoryRegion>, f: nat) {
    FullyAvailable(rs, f) && !InSomeAvailable(rs, f)
  }

  /** Some frame that `init` does not reserve needs two regions to cover it. */
  ghost predicate SplitFrame(rs: seq<MemoryRegion>, l: Layout) {
    exists f: nat :: f < FRAME_COUNT && f != 0 && !l.InImage(f) && NeedsTwo(rs, f)
  }

  /** After `init` the free frames are the fully available ones, frame 0 and the
      image apart. */
  ghost predicate FreesAllAvailable(free: set<nat>, rs: seq<MemoryRegion>, l: Layout) {
    forall f: nat :: f < FRAME_COUNT ==> (f in free <==> f != 0 && !l.InImage(f) && FullyAvailable(rs, f))
  }

  lemma OneRegionSuffices(rs: seq<MemoryRegion>, f: nat)
    ensures InSomeAvailable(rs, f) ==> FullyAvailable(rs, f)
  {
    if i :| 0 <= i < |rs| && rs[i].kind == Available && WhollyInside(rs[i], f) {
      forall x: nat | f * PAGE_SIZE <= x < (f + 1) * PAGE_SIZE ensures ByteAvailable(rs, x) {
        assert rs[i].Contains(x);
      }
    }
  }

  /** A frame inside an available region is inside a kept one, unless such a
      region reaches the last frame. */
  lemma AvailableIsKept(rs: seq<MemoryRegion>, f: nat)
    requires f < FRAME_COUNT && !InSomeAvailable(rs, LAST_FRAME)
    ensures InSomeKept(rs, f) <==> InSomeAvailable(rs, f)
  {
    if i :| 0 <= i < |rs| && rs[i].kind == Available && WhollyInside(rs[i], f) {
      assert !WhollyInside(rs[i], LAST_FRAME);
    }
  }

  /** `init` frees exactly the fully available frames (frame 0 and the image
      apart) if and only if no available region contains the last frame and no
      frame it could free is covered only by two regions together: a region
      reaching 4 GiB is dropped whole, or panics, and each region is rounded
      inward on its own. */
  lemma InitPublishesAllIff(p: Profile, walked: Walked, l: Layout)
    requires l.Valid() && InitFrom(p, FRESH, walked, l).Some?
    ensures FreesAllAvailable(InitFrom(p, FRESH, walked, l).value.free, walked.regions, l)
       <==> !InSomeAvailable(walked.regions, LAST_FRAME) && !SplitFrame(walked.regions, l)
  {
    InitExact(p, walked, l);
    var rs, free := walked.regions, InitFrom(p, FRESH, walked, l).value.free;
    hide InitFrom, FullyAvailable, InSomeAvailable, InSomeKept;
    if FreesAllAvailable(free, rs, l) {
      OneRegionSuffices(rs, LAST_FRAME);
      LastFrameIsNeverKept(rs);
      assert !InSomeAvailable(rs, LAST_FRAME);
      if f: nat :| f < FRAME_COUNT && f != 0 && !l.InImage(f) && NeedsTwo(rs, f) {
        AvailableIsKept(rs, f);
      }
    } else {
      var f: nat :| f < FRAME_COUNT && (f in free <==> !(f != 0 && !l.InImage(f) && FullyAvailable(rs, f)));
      OneRegionSuffices(rs, f);
      if !InSomeAvailable(rs, LAST_FRAME) { AvailableIsKept(rs, f); }
    }
  }

  lemma LastFrameIsNeverKept(rs: seq<MemoryRegion>)
    ensures !InSomeKept(rs, LAST_FRAME)
  {
  }

  /** Two adjoining available regions that meet inside frame 256: every byte of
      the frame is available, and neither build frees it. */
  lemma FrameSplitByRegionsIsLost(p: Profile, l: Layout)
    requires l.Valid() && l.physStart >= 0x20_0000
    ensures var rs := [MemoryRegion(0x10_0000, 0x800, Available), MemoryRegion(0x10_0800, 0x8_0000, Available)];
      var after := InitFrom(p, FRESH, Walked(rs, false), l);
      && FullyAvailable(rs, 256) && 256 != 0 && !l.InImage(256)
      && after.Some? && 256 !in after.value.free
  {
    var low, high := MemoryRegion(0x10_0000, 0x800, Available), MemoryRegion(0x10_0800, 0x8_0000, Available);
    var rs := [low, high];
    InitExact(p, Walked(rs, false), l);
    forall x: nat | 256 * PAGE_SIZE <= x < 257 * PAGE_SIZE ensures ByteAvailable(rs, x) {
      assert rs[0].Contains(x) || rs[1].Contains(x);
    }
  }

  /** A machine whose one region of memory runs from 1 MiB to exactly 4 GiB: a
      wrapping build finds no usable frame in it, a panicking build stops. */
  lemma RegionReachingFourGiBIsLost(l: Layout)
    requires l.Valid()
    ensures var map4g := Walked([MemoryRegion(0x10_0000, 0xFFF0_0000, Available)], false);
      && InitFrom(Dev, FRESH, map4g, l).None?
      && InitFrom(Profile.Release, FRESH, map4g, l).Some?
      && InitFrom(Profile.Release, FRESH, map4g, l).value.free == {}
  {
    var r := MemoryRegion(0x10_0000, 0xFFF0_0000, Available);
    var map4g := Walked([r], false);
    InitExact(Dev, map4g, l);
    InitExact(Profile.Release, map4g, l);
    assert map4g.regions[0] == r && Overflows(r);
  }
}
