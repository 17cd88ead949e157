/** The Multiboot memory map: a byte buffer of self-sized entries, the iterator
    that walks it, and the regions it yields. */
module Multiboot {
  import opened Words
  import opened FrameSpec

  /** Whether integer overflow panics (development builds) or wraps (release
      builds). */
  datatype Profile = Dev | Release

  /** Bytes of one raw entry: size, base, length, kind. */
  const ENTRY_BYTES: nat := 24

  datatype RegionKind = Available | AcpiReclaimable | AcpiNvs | Defective | Reserved(code: u32) {
    predicate Canonical() {
      Reserved? ==> code !in {1, 3, 4, 5}
    }
  }

  function KindFromRaw(raw: u32): RegionKind {
    if raw == 1 then Available
    else if raw == 3 then AcpiReclaimable
    else if raw == 4 then AcpiNvs
    else if raw == 5 then Defective
    else Reserved(raw)
  }

  function KindToRaw(kind: RegionKind): u32 {
    match kind
    case Available => 1
    case AcpiReclaimable => 3
    case AcpiNvs => 4
    case Defective => 5
    case Reserved(code) => code
  }

  datatype MemoryRegion = MemoryRegion(base: u64, length: u64, kind: RegionKind) {
    /** The number of bytes of this region below 4 GiB, with 64-bit saturation. */
    function AddressableBytes(): nat {
      if base >= U32_LIMIT then 0
      else Min(Min(base + length, U64_LIMIT - 1), U32_LIMIT) - base
    }

    predicate IsAvailable() {
      kind.Available?
    }

    predicate Contains(x: nat) {
      base <= x < base + length
    }
  }

  /** Clamping keeps exactly the bytes of the region that lie below 4 GiB. */
  lemma AddressableBytesAreTheLowOnes(r: MemoryRegion, x: nat)
    ensures r.base <= x < r.base + r.AddressableBytes() <==> r.Contains(x) && x < U32_LIMIT
    ensures r.AddressableBytes() <= U32_LIMIT
  {
  }

  // ---------- Little-endian fields ----------

  function Le32(b: seq<byte>, at: nat): u32
    requires at + 4 <= |b|
  {
    var b0: int, b1: int, b2: int, b3: int := b[at], b[at + 1], b[at + 2], b[at + 3];
    b0 + 0x100 * b1 + 0x1_0000 * b2 + 0x100_0000 * b3
  }

  function Le64(b: seq<byte>, at: nat): u64
    requires at + 8 <= |b|
  {
    Le32(b, at) + 0x1_0000_0000 * Le32(b, at + 4)
  }

  function Le32Bytes(x: u32): (b: seq<byte>)
    ensures |b| == 4
  {
    [x % 0x100, x / 0x100 % 0x100, x / 0x1_0000 % 0x100, x / 0x100_0000]
  }

  function Le64Bytes(x: u64): (b: seq<byte>)
    ensures |b| == 8
  {
    Le32Bytes(x % 0x1_0000_0000) + Le32Bytes(x / 0x1_0000_0000)
  }

  lemma Le32RoundTrip(x: u32)
    ensures Le32(Le32Bytes(x), 0) == x
  {
    var y := x / 0x100;
    var z := y / 0x100;
    assert x / 0x1_0000 == z;
    assert x / 0x100_0000 == z / 0x100;
  }

  lemma Le32InPlace(b: seq<byte>, at: nat, x: u32)
    requires at + 4 <= |b| && b[at..at + 4] == Le32Bytes(x)
    ensures Le32(b, at) == x
  {
    Le32RoundTrip(x);
    var field := b[at..at + 4];
    assert field[0] == b[at] && field[1] == b[at + 1] && field[2] == b[at + 2] && field[3] == b[at + 3];
  }

  lemma Le64InPlace(b: seq<byte>, at: nat, x: u64)
    requires at + 8 <= |b| && b[at..at + 8] == Le64Bytes(x)
    ensures Le64(b, at) == x
  {
    assert b[at..at + 4] == Le64Bytes(x)[..4] == Le32Bytes(x % 0x1_0000_0000);
    assert b[at + 4..at + 8] == Le64Bytes(x)[4..] == Le32Bytes(x / 0x1_0000_0000);
    Le32InPlace(b, at, x % 0x1_0000_0000);
    Le32InPlace(b, at + 4, x / 0x1_0000_0000);
  }

  // ---------- One step of the walk ----------

  datatype Item = End | Region(region: MemoryRegion) | OverflowPanic

  function RegionAt(buf: seq<byte>, off: nat): MemoryRegion
    requires off + ENTRY_BYTES <= |buf|
  {
    MemoryRegion(Le64(buf, off + 4), Le64(buf, off + 12), KindFromRaw(Le32(buf, off + 20)))
  }

  /** `size + 4` in 32-bit arithmetic; `None` where it overflows and panics. */
  function Stride(p: Profile, size: u32): Option<nat> {
    if size + 4 < U32_LIMIT then Some(size + 4)
    else if p.Dev? then None
    else Some(size + 4 - U32_LIMIT)
  }

  function NextItem(p: Profile, buf: seq<byte>, off: nat): Item {
    if off + ENTRY_BYTES > |buf| then End
    else if Stride(p, Le32(buf, off)).None? then OverflowPanic
    else Region(RegionAt(buf, off))
  }

  /** The cursor after a step: the stride is added with 32-bit saturation. */
  function NextOffset(p: Profile, buf: seq<byte>, off: nat): nat {
    if NextItem(p, buf, off).Region?
    then Min(off + Stride(p, Le32(buf, off)).value, U32_MAX)
    else off
  }

  /** A little-endian number, byte by byte. */
  ghost function LittleEndian(bytes: seq<byte>): nat {
    if bytes == [] then 0 else (bytes[0] as int) + 256 * LittleEndian(bytes[1..])
  }

  lemma LittleEndianFour(b: seq<byte>)
    requires |b| == 4
    ensures LittleEndian(b) == (b[0] as int) + 256 * (b[1] as int) + 65536 * (b[2] as int) + 16777216 * (b[3] as int)
  {
    assert b[1..][1..] == b[2..] && b[2..][1..] == b[3..] && b[3..][1..] == [];
    assert LittleEndian(b[3..]) == (b[3] as int);
    assert LittleEndian(b[2..]) == (b[2] as int) + 256 * LittleEndian(b[3..]);
    assert LittleEndian(b[1..]) == (b[1] as int) + 256 * LittleEndian(b[2..]);
  }

  lemma {:induction false} LittleEndianSplit(x: seq<byte>, y: seq<byte>)
    requires |x| == 4
    ensures LittleEndian(x + y) == LittleEndian(x) + 4294967296 * LittleEndian(y)
  {
    var s := x + y;
    assert s[1..][1..] == s[2..] && s[2..][1..] == s[3..] && s[3..][1..] == s[4..] == y;
    assert LittleEndian(s[3..]) == (s[3] as int) + 256 * LittleEndian(y);
    assert LittleEndian(s[2..]) == (s[2] as int) + 256 * LittleEndian(s[3..]);
    assert LittleEndian(s[1..]) == (s[1] as int) + 256 * LittleEndian(s[2..]);
    LittleEndianFour(x);
  }

  lemma Le32IsLittleEndian(buf: seq<byte>, at: nat)
    requires at + 4 <= |buf|
    ensures Le32(buf, at) == LittleEndian(buf[at..at + 4])
  {
    LittleEndianFour(buf[at..at + 4]);
  }

  lemma Le64IsLittleEndian(buf: seq<byte>, at: nat)
    requires at + 8 <= |buf|
    ensures Le64(buf, at) == LittleEndian(buf[at..at + 8])
  {
    Le32IsLittleEndian(buf, at);
    Le32IsLittleEndian(buf, at + 4);
    assert buf[at..at + 8] == buf[at..at + 4] + buf[at + 4..at + 8];
    LittleEndianSplit(buf[at..at + 4], buf[at + 4..at + 8]);
  }

  /** The kind a type code stands for, read off its four bytes. */
  ghost predicate KindOnTheWire(kind: RegionKind, code: seq<byte>) {
    && (kind == Available <==> code == [1, 0, 0, 0])
    && (kind == AcpiReclaimable <==> code == [3, 0, 0, 0])
    && (kind == AcpiNvs <==> code == [4, 0, 0, 0])
    && (kind == Defective <==> code == [5, 0, 0, 0])
    && (kind.Reserved? ==> kind.code == LittleEndian(code))
  }

  lemma KindFromCode(code: seq<byte>)
    requires |code| == 4
    ensures LittleEndian(code) < U32_LIMIT && KindOnTheWire(KindFromRaw(LittleEndian(code)), code)
  {
    LittleEndianFour(code);
    assert code == [code[0], code[1], code[2], code[3]];
  }

  /** What the iterator yields, and where it goes next, read off the bytes of the
      entry at the cursor: size, base, length and type, all little-endian, at
      offsets 0, 4, 12 and 20. */
  lemma EntryOnTheWire(p: Profile, buf: seq<byte>, off: nat)
    requires off + 24 <= |buf|
    ensures var size := LittleEndian(buf[off..off + 4]);
      && (size < 0xFFFF_FFFC ==>
          && NextItem(p, buf, off).Region?
          && NextOffset(p, buf, off) == if off + size + 4 < 0xFFFF_FFFF then off + size + 4 else 0xFFFF_FFFF)
      && (NextItem(p, buf, off).Region? ==>
          var r := NextItem(p, buf, off).region;
          && r.base == LittleEndian(buf[off + 4..off + 12])
          && r.length == LittleEndian(buf[off + 12..off + 20])
          && KindOnTheWire(r.kind, buf[off + 20..off + 24]))
  {
    hide LittleEndian;
    Le32IsLittleEndian(buf, off);
    Le64IsLittleEndian(buf, off + 4);
    Le64IsLittleEndian(buf, off + 12);
    Le32IsLittleEndian(buf, off + 20);
    KindFromCode(buf[off + 20..off + 24]);
  }

  /** The iterator over the map buffer. */
  class MemoryMap {
    const buf: seq<byte>
    var offset: nat

    ghost predicate Valid()
      reads this
    {
      |buf| < U32_LIMIT && offset < U32_LIMIT
    }

    constructor (buf: seq<byte>)
      requires |buf| < U32_LIMIT
      ensures Valid() && this.buf == buf && offset == 0
    {
      this.buf := buf;
      this.offset := 0;
    }

    method Next(p: Profile) returns (item: Item)
      requires Valid()
      modifies this`offset
      ensures Valid()
      ensures item == NextItem(p, buf, old(offset)) && offset == NextOffset(p, buf, old(offset))
    {
      if offset + ENTRY_BYTES > |buf| {
        return End;
      }
      var size := Le32(buf, offset);
      var region := RegionAt(buf, offset);
      var stride: int := size;
      stride := stride + 4;
      if stride >= U32_LIMIT {
        if p.Dev? {
          return OverflowPanic;
        }
        stride := stride % U32_LIMIT;
      }
      offset := Min(offset + stride, U32_MAX);
      return Region(region);
    }
  }

  // ---------- The whole walk ----------

  /** The cursor after `k` calls. */
  ghost function OffsetAfter(p: Profile, buf: seq<byte>, off: nat, k: nat): nat
    decreases k
  {
    if k == 0 then off else OffsetAfter(p, buf, NextOffset(p, buf, off), k - 1)
  }

  /** What the call after `k` calls yields. */
  ghost function ItemAfter(p: Profile, buf: seq<byte>, off: nat, k: nat): Item {
    NextItem(p, buf, OffsetAfter(p, buf, off, k))
  }

  /** Every entry reached from `off` moves the cursor. */
  ghost predicate Halts(p: Profile, buf: seq<byte>, off: nat)
    decreases |buf| - off
  {
    NextItem(p, buf, off).Region? ==>
      off < NextOffset(p, buf, off) && Halts(p, buf, NextOffset(p, buf, off))
  }

  datatype Walked = Walked(regions: seq<MemoryRegion>, panicked: bool)

  /** Everything the iterator yields from `off` on. */
  ghost function Walk(p: Profile, buf: seq<byte>, off: nat): Walked
    requires Halts(p, buf, off)
    decreases |buf| - off
  {
    match NextItem(p, buf, off)
    case End => Walked([], false)
    case OverflowPanic => Walked([], true)
    case Region(r) =>
      var rest := Walk(p, buf, NextOffset(p, buf, off));
      Walked([r] + rest.regions, rest.panicked)
  }

  /** A whole entry lies at `off` and its stride wraps to zero. */
  ghost predicate Stuck(buf: seq<byte>, off: nat) {
    off + ENTRY_BYTES <= |buf| && Le32(buf, off) == 0xFFFF_FFFC
  }

  lemma StuckIffNotForward(p: Profile, buf: seq<byte>, off: nat)
    requires |buf| < U32_LIMIT && NextItem(p, buf, off).Region?
    ensures off <= NextOffset(p, buf, off)
    ensures off == NextOffset(p, buf, off) <==> p.Release? && Stuck(buf, off)
  {
  }

  lemma {:induction false} HaltingWalkEnds(p: Profile, buf: seq<byte>, off: nat) returns (k: nat)
    requires Halts(p, buf, off)
    ensures k == |Walk(p, buf, off).regions|
    ensures ItemAfter(p, buf, off, k) == if Walk(p, buf, off).panicked then OverflowPanic else End
    decreases |buf| - off
  {
    if NextItem(p, buf, off).Region? {
      var k' := HaltingWalkEnds(p, buf, NextOffset(p, buf, off));
      k := k' + 1;
    } else {
      k := 0;
    }
  }

  /** Each region of the walk is the one yielded by the call of its number. */
  lemma {:induction false} WalkItems(p: Profile, buf: seq<byte>, off: nat, k: nat)
    requires Halts(p, buf, off) && k < |Walk(p, buf, off).regions|
    ensures ItemAfter(p, buf, off, k) == Region(Walk(p, buf, off).regions[k])
    decreases k
  {
    if k > 0 { WalkItems(p, buf, NextOffset(p, buf, off), k - 1); }
  }

  lemma {:induction false} HaltingWalkIsNeverStuck(p: Profile, buf: seq<byte>, off: nat, k: nat)
    requires |buf| < U32_LIMIT && Halts(p, buf, off)
    ensures !(p.Release? && Stuck(buf, OffsetAfter(p, buf, off, k)))
    decreases k
  {
    if NextItem(p, buf, off).Region? { StuckIffNotForward(p, buf, off); }
    if k > 0 { HaltingWalkIsNeverStuck(p, buf, NextOffset(p, buf, off), k - 1); }
  }

  /** A walk that does not halt gets stuck, and yields a region on every call. */
  lemma {:induction false} HangingWalkIsStuck(p: Profile, buf: seq<byte>, off: nat) returns (k: nat)
    requires |buf| < U32_LIMIT && !Halts(p, buf, off)
    ensures p.Release? && Stuck(buf, OffsetAfter(p, buf, off, k))
    decreases |buf| - off
  {
    StuckIffNotForward(p, buf, off);
    if off < NextOffset(p, buf, off) {
      var k' := HangingWalkIsStuck(p, buf, NextOffset(p, buf, off));
      k := k' + 1;
    } else {
      k := 0;
    }
  }

  lemma {:induction false} HangingWalkNeverEnds(p: Profile, buf: seq<byte>, off: nat, k: nat)
    requires |buf| < U32_LIMIT && !Halts(p, buf, off)
    ensures ItemAfter(p, buf, off, k).Region?
    decreases k
  {
    if k > 0 {
      StuckIffNotForward(p, buf, off);
      HangingWalkNeverEnds(p, buf, NextOffset(p, buf, off), k - 1);
    }
  }

  ghost predicate Ends(p: Profile, buf: seq<byte>) {
    exists k: nat :: !ItemAfter(p, buf, 0, k).Region?
  }

  ghost predicate ReachesStuck(p: Profile, buf: seq<byte>) {
    exists k: nat :: Stuck(buf, OffsetAfter(p, buf, 0, k))
  }

  /** The walk comes to an end exactly when it reaches no entry of size
      2^32 - 4 in a build whose arithmetic wraps: there the stride is zero and
      the iterator yields the same region forever. */
  lemma WalkEndsIff(p: Profile, buf: seq<byte>)
    requires |buf| < U32_LIMIT
    ensures Ends(p, buf) <==> p.Dev? || !ReachesStuck(p, buf)
    ensures Halts(p, buf, 0) <==> Ends(p, buf)
  {
    if Halts(p, buf, 0) {
      var end := HaltingWalkEnds(p, buf, 0);
      assert !ItemAfter(p, buf, 0, end).Region?;
      forall k: nat ensures p.Release? ==> !Stuck(buf, OffsetAfter(p, buf, 0, k)) {
        HaltingWalkIsNeverStuck(p, buf, 0, k);
      }
    } else {
      var stuckAt := HangingWalkIsStuck(p, buf, 0);
      assert Stuck(buf, OffsetAfter(p, buf, 0, stuckAt));
      forall k: nat ensures ItemAfter(p, buf, 0, k).Region? {
        HangingWalkNeverEnds(p, buf, 0, k);
      }
    }
  }

  /** A whole entry lies at `off` and its stride does not fit 32 bits. */
  ghost predicate Oversized(buf: seq<byte>, off: nat) {
    off + ENTRY_BYTES <= |buf| && Le32(buf, off) >= 0xFFFF_FFFC
  }

  ghost predicate ReachesOversized(p: Profile, buf: seq<byte>) {
    exists k: nat :: Oversized(buf, OffsetAfter(p, buf, 0, k))
  }

  lemma {:induction false} PanicIsReached(p: Profile, buf: seq<byte>, off: nat, k: nat)
    requires Halts(p, buf, off) && ItemAfter(p, buf, off, k).OverflowPanic?
    ensures Walk(p, buf, off).panicked
    decreases k
  {
    if k > 0 { PanicIsReached(p, buf, NextOffset(p, buf, off), k - 1); }
  }

  /** A walk that ends does so in a panic exactly when a build that panics on
      overflow reaches an entry of size 2^32 - 4 or more. */
  lemma WalkPanicsIff(p: Profile, buf: seq<byte>)
    requires Halts(p, buf, 0)
    ensures Walk(p, buf, 0).panicked <==> p.Dev? && ReachesOversized(p, buf)
  {
    var end := HaltingWalkEnds(p, buf, 0);
    if Walk(p, buf, 0).panicked {
      assert Oversized(buf, OffsetAfter(p, buf, 0, end));
    }
    if k: nat :| p.Dev? && Oversized(buf, OffsetAfter(p, buf, 0, k)) {
      PanicIsReached(p, buf, 0, k);
    }
  }

  /** One whole entry whose size is 2^32 - 4: the walk of a wrapping build yields
      it forever. */
  lemma WalkCanHang(k: nat)
    ensures var buf: seq<byte> := Le32Bytes(0xFFFF_FFFC) + seq(20, _ => 0);
      ItemAfter(Profile.Release, buf, 0, k).Region? && NextItem(Dev, buf, 0).OverflowPanic?
  {
    var size: seq<byte> := Le32Bytes(0xFFFF_FFFC);
    var buf: seq<byte> := size + seq(20, _ => 0);
    assert buf[0..4] == size;
    Le32InPlace(buf, 0, 0xFFFF_FFFC);
    StuckIffNotForward(Profile.Release, buf, 0);
    HangingWalkNeverEnds(Profile.Release, buf, 0, k);
  }

  /** Once the walk ends it stays ended. */
  lemma {:induction false} EndIsForever(p: Profile, buf: seq<byte>, off: nat, k: nat)
    requires NextItem(p, buf, off).End?
    ensures ItemAfter(p, buf, off, k).End?
    decreases k
  {
    if k > 0 { EndIsForever(p, buf, off, k - 1); }
  }

  // ---------- Bounds on the walk, and the usable-memory total ----------

  /** Every size in the buffer leaves room for its own field. */
  ghost predicate SizesFit(buf: seq<byte>) {
    forall off: nat :: off + ENTRY_BYTES <= |buf| ==> Le32(buf, off) <= 0xFFFF_FFFB
  }

  lemma {:induction false} FittingSizesHalt(p: Profile, buf: seq<byte>, off: nat)
    requires |buf| < U32_LIMIT && SizesFit(buf)
    ensures Halts(p, buf, off) && !Walk(p, buf, off).panicked
    ensures var n := |Walk(p, buf, off).regions|; n > 0 ==> off + 4 * n + 20 <= |buf|
    decreases |buf| - off
  {
    if NextItem(p, buf, off).Region? {
      StuckIffNotForward(p, buf, off);
      FittingSizesHalt(p, buf, NextOffset(p, buf, off));
    }
  }

  lemma {:induction false} WalkIsShort(p: Profile, buf: seq<byte>, off: nat)
    requires Halts(p, buf, off)
    ensures var n := |Walk(p, buf, off).regions|; n > 0 ==> off + n + 23 <= |buf|
    decreases |buf| - off
  {
    if NextItem(p, buf, off).Region? { WalkIsShort(p, buf, NextOffset(p, buf, off)); }
  }

  ghost function UsableTotal(regions: seq<MemoryRegion>): nat {
    if regions == [] then 0
    else UsableTotal(regions[..|regions| - 1]) +
         var last := regions[|regions| - 1];
         if last.kind == Available then last.AddressableBytes() else 0
  }

  lemma {:induction false} UsableTotalBound(regions: seq<MemoryRegion>)
    ensures UsableTotal(regions) <= |regions| * U32_LIMIT
  {
    if regions != [] {
      AddressableBytesAreTheLowOnes(regions[|regions| - 1], 0);
      UsableTotalBound(regions[..|regions| - 1]);
    }
  }

  /** The running total of usable bytes stays below 2^64 on every walk that
      ends, and at or below 2^62 when every entry size leaves room for its own
      field. */
  lemma UsableTotalNeverOverflows(p: Profile, buf: seq<byte>, k: nat)
    requires |buf| < U32_LIMIT && Halts(p, buf, 0) && k <= |Walk(p, buf, 0).regions|
    ensures UsableTotal(Walk(p, buf, 0).regions[..k]) < U64_LIMIT
    ensures SizesFit(buf) ==> 4 * k <= |buf| && UsableTotal(Walk(p, buf, 0).regions[..k]) <= 0x4000_0000_0000_0000
  {
    UsableTotalBound(Walk(p, buf, 0).regions[..k]);
    WalkIsShort(p, buf, 0);
    if SizesFit(buf) { FittingSizesHalt(p, buf, 0); }
  }

  /** The cursor stands before the `k`-th region of the walk. */
  ghost predicate Before(p: Profile, buf: seq<byte>, off: nat, walked: Walked, k: nat) {
    && k <= |walked.regions|
    && Halts(p, buf, off)
    && Walk(p, buf, off) == Walked(walked.regions[k..], walked.panicked)
  }

  lemma BeforeNext(p: Profile, buf: seq<byte>, off: nat, walked: Walked, k: nat)
    requires Before(p, buf, off, walked, k)
    ensures match NextItem(p, buf, off)
      case End => k == |walked.regions| && !walked.panicked
      case OverflowPanic => walked.panicked
      case Region(r) =>
        && k < |walked.regions| && r == walked.regions[k]
        && off < NextOffset(p, buf, off) && Before(p, buf, NextOffset(p, buf, off), walked, k + 1)
  {
    var rest := walked.regions[k..];
    if NextItem(p, buf, off).Region? {
      assert rest[0] == walked.regions[k] && rest[1..] == walked.regions[k + 1..];
    }
  }

  /** The total of two maps read one after the other is the sum of theirs. */
  lemma {:induction false} UsableTotalAdds(a: seq<MemoryRegion>, b: seq<MemoryRegion>)
    ensures UsableTotal(a + b) == UsableTotal(a) + UsableTotal(b)
    decreases |b|
  {
    if b == [] {
      assert a + b == a;
    } else {
      assert (a + b)[..|a + b| - 1] == a + b[..|b| - 1];
      UsableTotalAdds(a, b[..|b| - 1]);
    }
  }

  /** One region counts for the bytes it has below 4 GiB, if it is available. */
  lemma UsableTotalOfOne(r: MemoryRegion)
    ensures UsableTotal([r]) ==
            if r.kind != Available || r.base >= 0x1_0000_0000 then 0
            else if r.base + r.length >= 0x1_0000_0000 then 0x1_0000_0000 - r.base
            else r.length
  {
    assert [r][..0] == [];
  }

  /** The total counts available regions only. */
  lemma {:induction false} NoRamNoTotal(regions: seq<MemoryRegion>)
    requires forall i :: 0 <= i < |regions| ==> regions[i].kind != Available
    ensures UsableTotal(regions) == 0
  {
    if regions != [] { NoRamNoTotal(regions[..|regions| - 1]); }
  }

  lemma UsableTotalStep(regions: seq<MemoryRegion>, k: nat)
    requires k < |regions|
    ensures UsableTotal(regions[..k + 1]) ==
            UsableTotal(regions[..k]) + if regions[k].kind == Available then regions[k].AddressableBytes() else 0
  {
    assert regions[..k + 1][..k] == regions[..k];
  }

  /** The loop that totals usable memory; `None` where the walk panics. */
  method UsableBytes(p: Profile, buf: seq<byte>) returns (usable: Option<u64>)
    requires |buf| < U32_LIMIT && Halts(p, buf, 0)
    ensures usable == if Walk(p, buf, 0).panicked then None else Some(UsableTotal(Walk(p, buf, 0).regions))
  {
    ghost var walked := Walk(p, buf, 0);
    ghost var k := 0;
    assert walked.regions[0..] == walked.regions;
    assert Before(p, buf, 0, walked, 0);
    hide Before, Walk, NextItem, NextOffset;
    var mmap := new MemoryMap(buf);
    var total: int := 0;
    while true
      invariant mmap.Valid() && mmap.buf == buf
      invariant Before(p, buf, mmap.offset, walked, k)
      invariant total == UsableTotal(walked.regions[..k]) < U64_LIMIT
      decreases |buf| - mmap.offset
    {
      BeforeNext(p, buf, mmap.offset, walked, k);
      var item := mmap.Next(p);
      match item
      case End =>
        assert walked.regions[..k] == walked.regions;
        return Some(total);
      case OverflowPanic =>
        return None;
      case Region(region) =>
        UsableTotalStep(walked.regions, k);
        UsableTotalNeverOverflows(p, buf, k + 1);
        if region.IsAvailable() {
          total := total + region.AddressableBytes();
        }
        k := k + 1;
    }
  }

  // ---------- Round trip ----------

  /** An entry as a boot loader lays it out, with any padding its size admits. */
  datatype RawEntry = RawEntry(region: MemoryRegion, padding: seq<byte>) {
    predicate Valid() {
      region.kind.Canonical()
    }
  }

  function SerializeEntry(e: RawEntry): (b: seq<byte>)
    requires 20 + |e.padding| < U32_LIMIT
    ensures |b| == 24 + |e.padding|
  {
    Le32Bytes(20 + |e.padding|) + Le64Bytes(e.region.base) + Le64Bytes(e.region.length)
    + Le32Bytes(KindToRaw(e.region.kind)) + e.padding
  }

  ghost predicate Serializable(es: seq<RawEntry>) {
    forall i :: 0 <= i < |es| ==> es[i].Valid() && 20 + |es[i].padding| < U32_LIMIT
  }

  function Serialize(es: seq<RawEntry>): seq<byte>
    requires Serializable(es)
  {
    if es == [] then [] else SerializeEntry(es[0]) + Serialize(es[1..])
  }

  ghost function Regions(es: seq<RawEntry>): seq<MemoryRegion> {
    if es == [] then [] else [es[0].region] + Regions(es[1..])
  }

  lemma KindRoundTrip(kind: RegionKind)
    requires kind.Canonical()
    ensures KindFromRaw(KindToRaw(kind)) == kind
  {
  }

  lemma FieldOf<T>(buf: seq<T>, off: nat, front: seq<T>, field: seq<T>, back: seq<T>)
    requires off <= |buf| && front + field + back <= buf[off..]
    ensures off + |front| + |field| <= |buf|
    ensures buf[off + |front|..off + |front| + |field|] == field
  {
    var at := off + |front|;
    forall i | 0 <= i < |field| ensures buf[at..at + |field|][i] == field[i] {
      assert buf[off..][|front| + i] == (front + field + back)[|front| + i];
    }
  }

  lemma EntryRoundTrip(buf: seq<byte>, off: nat, e: RawEntry)
    requires e.Valid() && 20 + |e.padding| < U32_LIMIT
    requires off <= |buf| && SerializeEntry(e) <= buf[off..]
    ensures off + 24 + |e.padding| <= |buf|
    ensures Le32(buf, off) == 20 + |e.padding| && RegionAt(buf, off) == e.region
  {
    var size, base, length, kind :=
      Le32Bytes(20 + |e.padding|), Le64Bytes(e.region.base), Le64Bytes(e.region.length), Le32Bytes(KindToRaw(e.region.kind));
    var s := SerializeEntry(e);
    assert s == [] + size + (base + length + kind + e.padding);
    FieldOf(buf, off, [], size, base + length + kind + e.padding);
    assert s == size + base + (length + kind + e.padding);
    FieldOf(buf, off, size, base, length + kind + e.padding);
    assert s == (size + base) + length + (kind + e.padding);
    FieldOf(buf, off, size + base, length, kind + e.padding);
    assert s == (size + base + length) + kind + e.padding;
    FieldOf(buf, off, size + base + length, kind, e.padding);
    Le32InPlace(buf, off, 20 + |e.padding|);
    Le64InPlace(buf, off + 4, e.region.base);
    Le64InPlace(buf, off + 12, e.region.length);
    Le32InPlace(buf, off + 20, KindToRaw(e.region.kind));
    KindRoundTrip(e.region.kind);
  }

  lemma DropEntry(p: Profile, buf: seq<byte>, off: nat, e: RawEntry, rest: seq<byte>)
    requires e.Valid() && 20 + |e.padding| < U32_LIMIT
    requires off <= |buf| < U32_LIMIT && buf[off..] == SerializeEntry(e) + rest
    ensures NextItem(p, buf, off) == Region(e.region)
    ensures NextOffset(p, buf, off) == off + 24 + |e.padding| <= |buf|
    ensures buf[off + 24 + |e.padding|..] == rest
  {
    EntryRoundTrip(buf, off, e);
    var n := 24 + |e.padding|;
    assert buf[off + n..] == buf[off..][n..];
  }

  lemma WalkStops(p: Profile, buf: seq<byte>, off: nat)
    requires off + ENTRY_BYTES > |buf|
    ensures Halts(p, buf, off) && Walk(p, buf, off) == Walked([], false)
  {
  }

  lemma WalkGoesOn(p: Profile, buf: seq<byte>, off: nat, r: MemoryRegion, next: nat)
    requires NextItem(p, buf, off) == Region(r) && NextOffset(p, buf, off) == next > off && Halts(p, buf, next)
    ensures Halts(p, buf, off)
    ensures Walk(p, buf, off) == Walked([r] + Walk(p, buf, next).regions, Walk(p, buf, next).panicked)
  {
  }

  lemma {:induction false} WalkFrom(p: Profile, buf: seq<byte>, off: nat, es: seq<RawEntry>, tail: seq<byte>)
    requires Serializable(es) && |tail| < ENTRY_BYTES
    requires off <= |buf| < U32_LIMIT && buf[off..] == Serialize(es) + tail
    ensures Halts(p, buf, off) && Walk(p, buf, off) == Walked(Regions(es), false)
    decreases |es|
  {
    hide Halts, Walk, NextItem, NextOffset, SerializeEntry;
    if es == [] {
      WalkStops(p, buf, off);
    } else {
      var rest := Serialize(es[1..]) + tail;
      var next := off + 24 + |es[0].padding|;
      assert Serialize(es) + tail == SerializeEntry(es[0]) + rest;
      DropEntry(p, buf, off, es[0], rest);
      WalkFrom(p, buf, next, es[1..], tail);
      WalkGoesOn(p, buf, off, es[0].region, next);
    }
  }

  /** After the regions of a walk that did not panic, every further call yields
      nothing. */
  lemma EndedWalkStaysEnded(p: Profile, buf: seq<byte>, rs: seq<MemoryRegion>, k: nat)
    requires Halts(p, buf, 0) && Walk(p, buf, 0) == Walked(rs, false)
    ensures ItemAfter(p, buf, 0, |rs| + k).End?
  {
    var n := HaltingWalkEnds(p, buf, 0);
    OffsetSplit(p, buf, 0, n, k);
    EndIsForever(p, buf, OffsetAfter(p, buf, 0, n), k);
  }

  /** Laying out any list of regions, each padded at will, with too few bytes
      left over for another entry, then walking the buffer, gives back exactly
      that list. */
  lemma MapRoundTrip(p: Profile, es: seq<RawEntry>, tail: seq<byte>, buf: seq<byte>)
    requires Serializable(es) && |tail| < ENTRY_BYTES
    requires buf == Serialize(es) + tail && |buf| < U32_LIMIT
    ensures Halts(p, buf, 0) && Walk(p, buf, 0) == Walked(Regions(es), false)
  {
    assert buf[0..] == buf;
    WalkFrom(p, buf, 0, es, tail);
  }

  lemma {:induction false} OffsetSplit(p: Profile, buf: seq<byte>, off: nat, j: nat, k: nat)
    ensures OffsetAfter(p, buf, off, j + k) == OffsetAfter(p, buf, OffsetAfter(p, buf, off, j), k)
    decreases j
  {
    if j > 0 { OffsetSplit(p, buf, NextOffset(p, buf, off), j - 1, k); }
  }
}
