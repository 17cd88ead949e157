/** The frame allocator as a set of free frames and a search hint.

    This is what the packed bitmap of `FrameBitmaps` is proved against, and the
    level at which allocation is proved complete, ownership is proved disjoint
    and frames are proved conserved over every run of operations. */
module FrameSpec {

  const FRAME_COUNT: nat := 0x10_0000
  const WORD_COUNT: nat := FRAME_COUNT / 32

  datatype Option<+T> = None | Some(value: T)

  /** A non-empty run of contiguous frames issued by the allocator. */
  datatype FrameRun = FrameRun(start: nat, len: nat) {
    predicate Valid() {
      len > 0 && start + len <= FRAME_COUNT
    }

    predicate Holds(f: nat) {
      start <= f < start + len
    }
  }

  /** `free` is the set of free frames, `hint` a word index to search from. */
  datatype Allocator = Allocator(free: set<nat>, hint: nat) {
    ghost predicate Valid() {
      && hint <= WORD_COUNT
      && forall f <- free :: f < FRAME_COUNT
    }
  }

  /** The frames of `[start, start + len)`. */
  function FramesIn(start: nat, len: nat): (s: set<nat>)
    ensures forall f: nat :: f in s <==> start <= f < start + len
  {
    if len == 0 then {} else FramesIn(start, len - 1) + {start + len - 1}
  }

  /** `n` contiguous free frames start at `s`. */
  ghost predicate HasRun(free: set<nat>, s: nat, n: nat) {
    forall f :: s <= f < s + n ==> f in free
  }

  /** `s` is the lowest start at or above `from` of `n` contiguous free frames. */
  ghost predicate IsLowestRun(free: set<nat>, from: nat, n: nat, s: nat) {
    && from <= s
    && HasRun(free, s, n)
    && forall t :: from <= t < s ==> !HasRun(free, t, n)
  }

  ghost predicate NoRun(free: set<nat>, from: nat, n: nat) {
    forall s :: from <= s < FRAME_COUNT ==> !HasRun(free, s, n)
  }

  /** First fit at or above `from`. */
  ghost function FirstFit(free: set<nat>, from: nat, n: nat): (r: Option<nat>)
    requires n > 0
    ensures r.Some? ==> r.value < FRAME_COUNT && IsLowestRun(free, from, n, r.value)
    ensures r.None? ==> NoRun(free, from, n)
    decreases FRAME_COUNT - from
  {
    if from >= FRAME_COUNT then None
    else if HasRun(free, from, n) then Some(from)
    else FirstFit(free, from + 1, n)
  }

  /** First fit from the hint, then from the bottom. */
  ghost function FindFreeRun(a: Allocator, n: nat): Option<nat>
    requires n > 0
  {
    var fromHint := FirstFit(a.free, a.hint * 32, n);
    if fromHint.Some? then fromHint else FirstFit(a.free, 0, n)
  }

  ghost function Allocate(a: Allocator, n: nat): (Allocator, Option<FrameRun>)
    requires n > 0
  {
    if n > FRAME_COUNT then (a, None)
    else match FindFreeRun(a, n)
      case None => (a, None)
      case Some(s) => (Allocator(a.free - FramesIn(s, n), (s + n) / 32), Some(FrameRun(s, n)))
  }

  function Free(a: Allocator, run: FrameRun): Allocator {
    Allocator(a.free + FramesIn(run.start, run.len),
              if run.start / 32 < a.hint then run.start / 32 else a.hint)
  }

  /** Some frame of `[lo, hi)` is free. */
  ghost predicate AnyFree(free: set<nat>, lo: nat, hi: nat) {
    exists f :: lo <= f < hi && f in free
  }

  ghost predicate FreeWouldPanic(a: Allocator, run: FrameRun) {
    AnyFree(a.free, run.start, run.start + run.len)
  }

  // ---------- Freeing ----------

  /** Freeing adds the run's frames and nothing else, and pulls the hint back no
      further than the word the run starts in. */
  lemma FreeExact(a: Allocator, run: FrameRun)
    ensures forall f: nat :: f in Free(a, run).free <==> f in a.free || run.start <= f < run.start + run.len
    ensures var h := Free(a, run).hint;
      && h <= a.hint && h * 32 <= run.start
      && forall g: nat :: g <= a.hint && g * 32 <= run.start ==> g <= h
  {
  }

  /** The double-free check sees every frame of the run, and freeing a run that
      has just been freed always fails it. */
  lemma DoubleFreePanics(a: Allocator, run: FrameRun)
    requires run.Valid()
    ensures FreeWouldPanic(a, run) <==> exists f :: run.start <= f < run.start + run.len && f in a.free
    ensures FreeWouldPanic(Free(a, run), run)
  {
    assert run.start in Free(a, run).free;
  }

  // ---------- Allocation is complete, whatever the hint ----------

  lemma RunFits(a: Allocator, s: nat, n: nat)
    requires a.Valid() && n > 0 && HasRun(a.free, s, n)
    ensures s + n <= FRAME_COUNT
  {
    assert s + n - 1 in a.free;
  }

  /** `allocate(n)` fails exactly when no `n` contiguous free frames exist
      anywhere: the hint decides which run is taken, never whether one is. */
  lemma AllocateFailsIffNoRun(a: Allocator, n: nat)
    requires a.Valid() && n > 0
    ensures Allocate(a, n).1.None? <==> forall s: nat :: !HasRun(a.free, s, n)
    ensures Allocate(a, n).1.None? ==> Allocate(a, n).0 == a
  {
    if Allocate(a, n).1.None? {
      forall s: nat ensures !HasRun(a.free, s, n) {
        if HasRun(a.free, s, n) { RunFits(a, s, n); }
      }
    }
  }

  /** On success the run is the lowest one at or above the hint, or the lowest
      of all when that pass finds none; it was free, and it alone is taken. */
  lemma AllocateTakesFirstFit(a: Allocator, n: nat)
    requires a.Valid() && n > 0 && Allocate(a, n).1.Some?
    ensures var (a', r) := Allocate(a, n);
      && a'.Valid() && r.value.Valid() && r.value.len == n
      && (IsLowestRun(a.free, a.hint * 32, n, r.value.start)
          || (NoRun(a.free, a.hint * 32, n) && IsLowestRun(a.free, 0, n, r.value.start)))
      && FramesIn(r.value.start, n) <= a.free
      && a'.free == a.free - FramesIn(r.value.start, n)
      && a'.hint == (r.value.start + n) / 32
  {
    var s := FindFreeRun(a, n).value;
    RunFits(a, s, n);
  }

  // ---------- Runs of the allocator and who owns what ----------

  /** What a kernel may ask of the allocator.  `Release(i)` returns the `i`-th
      run still held; a run is moved into `free`, so it can be returned once. */
  datatype Op = AllocateMany(n: nat) | AllocateOne | Release(i: nat)

  datatype System = System(alloc: Allocator, held: seq<FrameRun>)

  datatype Outcome = Running(sys: System) | DoubleFreePanic

  ghost function Take(sys: System, n: nat): System
    requires n > 0
  {
    var (a', r) := Allocate(sys.alloc, n);
    System(a', if r.Some? then sys.held + [r.value] else sys.held)
  }

  ghost function Step(sys: System, op: Op): Outcome {
    match op
    case AllocateMany(n) => Running(if n == 0 then sys else Take(sys, n))
    case AllocateOne => Running(Take(sys, 1))
    case Release(i) =>
      if i >= |sys.held| then Running(sys)
      else if FreeWouldPanic(sys.alloc, sys.held[i]) then DoubleFreePanic
      else Running(System(Free(sys.alloc, sys.held[i]), sys.held[..i] + sys.held[i + 1..]))
  }

  ghost function Run(sys: System, ops: seq<Op>): Outcome
    decreases |ops|
  {
    if ops == [] then Running(sys)
    else match Step(sys, ops[0])
      case DoubleFreePanic => DoubleFreePanic
      case Running(next) => Run(next, ops[1..])
  }

  ghost predicate Held(held: seq<FrameRun>, f: nat) {
    exists i :: 0 <= i < |held| && held[i].Holds(f)
  }

  ghost predicate Disjoint(r: FrameRun, s: FrameRun) {
    r.start + r.len <= s.start || s.start + s.len <= r.start
  }

  /** Held runs are pairwise disjoint, none holds a free frame, and free and
      held frames together are exactly the published ones. */
  ghost predicate Conserves(sys: System, published: set<nat>) {
    && sys.alloc.Valid()
    && (forall i :: 0 <= i < |sys.held| ==> sys.held[i].Valid())
    && (forall i, j :: 0 <= i < j < |sys.held| ==> Disjoint(sys.held[i], sys.held[j]))
    && (forall f: nat :: Held(sys.held, f) ==> f !in sys.alloc.free)
    && (forall f: nat :: f in published <==> f in sys.alloc.free || Held(sys.held, f))
  }

  lemma HeldAfterAppend(held: seq<FrameRun>, r: FrameRun, f: nat)
    ensures Held(held + [r], f) <==> Held(held, f) || r.Holds(f)
  {
    var after := held + [r];
    if i :| 0 <= i < |held| && held[i].Holds(f) {
      assert after[i].Holds(f);
    }
    if r.Holds(f) {
      assert after[|held|].Holds(f);
    }
  }

  lemma HeldAfterRemove(held: seq<FrameRun>, i: nat, f: nat)
    requires i < |held|
    ensures Held(held, f) <==> Held(held[..i] + held[i + 1..], f) || held[i].Holds(f)
  {
    var after := held[..i] + held[i + 1..];
    if j :| 0 <= j < |held| && held[j].Holds(f) {
      if j < i {
        assert after[j].Holds(f);
      } else if j > i {
        assert after[j - 1].Holds(f);
      }
    }
    if j :| 0 <= j < |after| && after[j].Holds(f) {
      assert held[if j < i then j else j + 1].Holds(f);
    }
  }

  /** A held run shares no frame with a run made of free frames. */
  lemma HeldMissesFree(sys: System, published: set<nat>, i: nat, r: FrameRun)
    requires Conserves(sys, published) && i < |sys.held|
    requires r.Valid() && forall f: nat :: r.Holds(f) ==> f in sys.alloc.free
    ensures Disjoint(sys.held[i], r)
  {
    if !Disjoint(sys.held[i], r) {
      var f := if sys.held[i].start < r.start then r.start else sys.held[i].start;
      assert sys.held[i].Holds(f) && r.Holds(f);
      assert Held(sys.held, f);
      assert false;
    }
  }

  lemma TakeConserves(sys: System, n: nat, published: set<nat>)
    requires Conserves(sys, published) && n > 0
    ensures Conserves(Take(sys, n), published)
  {
    var (a', r) := Allocate(sys.alloc, n);
    if r.Some? {
      AllocateTakesFirstFit(sys.alloc, n);
      var run := r.value;
      assert forall f: nat :: run.Holds(f) <==> f in FramesIn(run.start, n);
      forall i | 0 <= i < |sys.held| ensures Disjoint(sys.held[i], run) {
        HeldMissesFree(sys, published, i, run);
      }
      forall f: nat ensures Held(sys.held + [run], f) <==> Held(sys.held, f) || run.Holds(f) {
        HeldAfterAppend(sys.held, run, f);
      }
    } else {
      AllocateFailsIffNoRun(sys.alloc, n);
    }
  }

  /** Returning a held run cannot be a double free. */
  lemma ReleaseNeverPanics(sys: System, i: nat, published: set<nat>)
    requires Conserves(sys, published) && i < |sys.held|
    ensures !FreeWouldPanic(sys.alloc, sys.held[i])
  {
  }

  lemma RemainingMissReleased(sys: System, i: nat, published: set<nat>, f: nat)
    requires Conserves(sys, published) && i < |sys.held|
    requires Held(sys.held[..i] + sys.held[i + 1..], f)
    ensures !sys.held[i].Holds(f)
  {
  }

  lemma ReleaseConserves(sys: System, i: nat, published: set<nat>)
    requires Conserves(sys, published) && i < |sys.held|
    ensures Conserves(System(Free(sys.alloc, sys.held[i]), sys.held[..i] + sys.held[i + 1..]), published)
  {
    var run := sys.held[i];
    var after := sys.held[..i] + sys.held[i + 1..];
    var a' := Free(sys.alloc, run);
    assert forall f: nat :: run.Holds(f) <==> f in FramesIn(run.start, run.len);
    forall f: nat ensures Held(sys.held, f) <==> Held(after, f) || run.Holds(f) {
      HeldAfterRemove(sys.held, i, f);
    }
    forall f: nat | Held(after, f) ensures f !in a'.free {
      RemainingMissReleased(sys, i, published, f);
      assert Held(sys.held, f);
    }
    forall j, k | 0 <= j < k < |after| ensures Disjoint(after[j], after[k]) {
      assert after[j] == sys.held[if j < i then j else j + 1];
      assert after[k] == sys.held[if k < i then k else k + 1];
    }
  }

  lemma StepConserves(sys: System, op: Op, published: set<nat>)
    requires Conserves(sys, published)
    ensures Step(sys, op).Running? && Conserves(Step(sys, op).sys, published)
  {
    match op
    case AllocateMany(n) => if n > 0 { TakeConserves(sys, n, published); }
    case AllocateOne => TakeConserves(sys, 1, published);
    case Release(i) =>
      if i < |sys.held| {
        ReleaseNeverPanics(sys, i, published);
        ReleaseConserves(sys, i, published);
      }
  }

  /** Ownership over every run: whatever is asked of the allocator, in whatever
      order, no double free is reached, no two held runs overlap, no held frame
      is free, and no published frame is lost or invented. */
  lemma {:induction false} EveryRunConserves(sys: System, ops: seq<Op>, published: set<nat>)
    requires Conserves(sys, published)
    ensures Run(sys, ops).Running? && Conserves(Run(sys, ops).sys, published)
    decreases |ops|
  {
    if ops != [] {
      StepConserves(sys, ops[0], published);
      EveryRunConserves(Step(sys, ops[0]).sys, ops[1..], published);
    }
  }

  // ---------- The same conservation, counted ----------

  ghost function TotalLength(held: seq<FrameRun>): nat {
    if held == [] then 0 else held[0].len + TotalLength(held[1..])
  }

  lemma {:induction false} CountOfFramesIn(start: nat, len: nat)
    ensures |FramesIn(start, len)| == len
    decreases len
  {
    if len > 0 { CountOfFramesIn(start, len - 1); }
  }

  /** The number of frames free plus the lengths of the runs held is the number
      of frames published. */
  lemma {:induction false} ConservesCount(sys: System, published: set<nat>)
    requires Conserves(sys, published)
    ensures |sys.alloc.free| + TotalLength(sys.held) == |published|
    decreases |sys.held|
  {
    if sys.held == [] {
      assert forall f: nat :: !Held(sys.held, f);
      assert sys.alloc.free == published;
    } else {
      var run := sys.held[0];
      var next := System(Free(sys.alloc, run), sys.held[..0] + sys.held[1..]);
      ReleaseConserves(sys, 0, published);
      ConservesCount(next, published);
      assert next.held == sys.held[1..];
      ReleaseNeverPanics(sys, 0, published);
      CountOfFramesIn(run.start, run.len);
      assert sys.alloc.free !! FramesIn(run.start, run.len);
    }
  }

  // ---------- Single-frame allocation stays packed low ----------

  /** No free frame lies below the hint. */
  ghost predicate PackedLow(a: Allocator) {
    forall f <- a.free :: f >= a.hint * 32
  }

  ghost predicate IsLowestFree(free: set<nat>, f: nat) {
    f in free && forall g <- free :: f <= g
  }

  lemma OneFrameRun(free: set<nat>, f: nat)
    ensures HasRun(free, f, 1) <==> f in free
  {
  }

  /** From a packed state `allocate_one` takes the lowest free frame, fails only
      when nothing at all is free, and leaves a packed state. */
  lemma AllocateOneTakesLowest(a: Allocator)
    requires a.Valid() && PackedLow(a)
    ensures var (a', r) := Allocate(a, 1);
      && a'.Valid() && PackedLow(a')
      && (r.None? <==> a.free == {})
      && (r.None? ==> a' == a)
      && (r.Some? ==> r.value.len == 1 && IsLowestFree(a.free, r.value.start) && a'.free == a.free - {r.value.start})
  {
    var (a', r) := Allocate(a, 1);
    AllocateFailsIffNoRun(a, 1);
    if r.None? {
      forall f: nat ensures f !in a.free { OneFrameRun(a.free, f); }
    } else {
      AllocateTakesFirstFit(a, 1);
      var s := r.value.start;
      OneFrameRun(a.free, s);
      forall g <- a.free ensures s <= g { OneFrameRun(a.free, g); }
      assert FramesIn(s, 1) == {s};
    }
  }

  lemma FreeKeepsPacked(a: Allocator, run: FrameRun)
    requires PackedLow(a)
    ensures PackedLow(Free(a, run))
  {
  }

  ghost predicate OnlySingle(ops: seq<Op>) {
    forall i :: 0 <= i < |ops| ==> !ops[i].AllocateMany?
  }

  /** Along every run whose allocations are all `allocate_one`, mixed with any
      frees, no free frame ever lies below the hint. */
  lemma {:induction false} EverySingleRunStaysPacked(sys: System, ops: seq<Op>, published: set<nat>)
    requires Conserves(sys, published) && PackedLow(sys.alloc) && OnlySingle(ops)
    ensures Run(sys, ops).Running? && PackedLow(Run(sys, ops).sys.alloc)
    decreases |ops|
  {
    if ops != [] {
      StepConserves(sys, ops[0], published);
      var next := Step(sys, ops[0]).sys;
      assert PackedLow(next.alloc) by {
        match ops[0]
        case AllocateOne => AllocateOneTakesLowest(sys.alloc);
        case Release(i) => if i < |sys.held| { FreeKeepsPacked(sys.alloc, sys.held[i]); }
      }
      assert OnlySingle(ops[1..]);
      EverySingleRunStaysPacked(next, ops[1..], published);
    }
  }
}
