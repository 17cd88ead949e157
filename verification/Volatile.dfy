/** The element-wise volatile copy, on a byte-addressed memory. */
module Volatile {
  import opened Words

  /** `n` bytes from `src` moved to `dst`, as if through a buffer. */
  ghost function Moved(m: seq<byte>, src: nat, dst: nat, n: nat): seq<byte>
    requires src + n <= |m| && dst + n <= |m|
  {
    m[..dst] + m[src..src + n] + m[dst + n..]
  }

  /** Bytes `[lo, hi)` of the destination hold the old source; all else is old. */
  ghost predicate MovedPart(now: seq<byte>, was: seq<byte>, src: nat, dst: nat, lo: nat, hi: nat)
    requires src + hi <= |was| && dst + hi <= |was|
  {
    && |now| == |was|
    && forall k :: 0 <= k < |was| ==> now[k] == MovedByte(was, src, dst, lo, hi, k)
  }

  ghost function MovedByte(was: seq<byte>, src: nat, dst: nat, lo: nat, hi: nat, k: nat): byte
    requires k < |was| && src + hi <= |was| && dst + hi <= |was|
  {
    if dst + lo <= k < dst + hi then was[src + (k - dst)] else was[k]
  }

  lemma MovedWhole(now: seq<byte>, was: seq<byte>, src: nat, dst: nat, n: nat)
    requires src + n <= |was| && dst + n <= |was| && MovedPart(now, was, src, dst, 0, n)
    ensures now == Moved(was, src, dst, n)
  {
  }

  /** One element write. */
  method WriteElement(mem: array<byte>, at: nat, data: seq<byte>)
    requires at + |data| <= mem.Length
    modifies mem
    ensures forall k :: 0 <= k < mem.Length ==> mem[k] == if at <= k < at + |data| then data[k - at] else old(mem[k])
  {
    for i := 0 to |data|
      invariant forall k :: 0 <= k < mem.Length ==> mem[k] == if at <= k < at + i then data[k - at] else old(mem[k])
    {
      mem[at + i] := data[i];
    }
  }

  /** One read and one write of the element `[lo, hi)` bytes into the regions. */
  method MoveElement(mem: array<byte>, src: nat, dst: nat, lo: nat, hi: nat)
    requires lo <= hi && src + hi <= mem.Length && dst + hi <= mem.Length
    modifies mem
    ensures MovedPart(mem[..], old(mem[..]), src, dst, lo, hi)
  {
    var tmp := mem[src + lo..src + hi];
    WriteElement(mem, dst + lo, tmp);
  }

  /** Going up, the elements still to be read lie clear of those written. */
  lemma ForwardStep(was: seq<byte>, before: seq<byte>, now: seq<byte>, src: nat, dst: nat, lo: nat, hi: nat)
    requires lo <= hi && src + hi <= |was| && dst + hi <= |was| && (dst <= src || src + hi <= dst)
    requires MovedPart(before, was, src, dst, 0, lo) && MovedPart(now, before, src, dst, lo, hi)
    ensures MovedPart(now, was, src, dst, 0, hi)
  {
  }

  /** Going down likewise. */
  lemma BackwardStep(was: seq<byte>, before: seq<byte>, now: seq<byte>, src: nat, dst: nat, lo: nat, hi: nat, n: nat)
    requires lo <= hi <= n && src + n <= |was| && dst + n <= |was| && src < dst
    requires MovedPart(before, was, src, dst, hi, n) && MovedPart(now, before, src, dst, lo, hi)
    ensures MovedPart(now, was, src, dst, lo, n)
  {
  }

  lemma ElementBounds(i: nat, count: nat, size: nat)
    requires i < count
    ensures (i + 1) * size == i * size + size && i * size + size <= count * size
  {
    assert count * size == (i + 1) * size + (count - (i + 1)) * size;
  }

  method CopyBackward(mem: array<byte>, src: nat, dst: nat, size: nat, count: nat)
    requires src + count * size <= mem.Length && dst + count * size <= mem.Length && src < dst
    modifies mem
    ensures MovedPart(mem[..], old(mem[..]), src, dst, 0, count * size)
  {
    ghost var was, n := mem[..], count * size;
    var i := count;
    var at := count * size;
    while i > 0
      invariant 0 <= i <= count && at == i * size <= n
      invariant MovedPart(mem[..], was, src, dst, at, n)
      decreases i
    {
      i := i - 1;
      ElementBounds(i, count, size);
      at := i * size;
      ghost var before := mem[..];
      MoveElement(mem, src, dst, at, at + size);
      BackwardStep(was, before, mem[..], src, dst, at, at + size, n);
    }
  }

  method CopyForward(mem: array<byte>, src: nat, dst: nat, size: nat, count: nat)
    requires src + count * size <= mem.Length && dst + count * size <= mem.Length
    requires dst <= src || src + count * size <= dst
    modifies mem
    ensures MovedPart(mem[..], old(mem[..]), src, dst, 0, count * size)
  {
    ghost var was, n := mem[..], count * size;
    var i := 0;
    var at := 0;
    while i < count
      invariant 0 <= i <= count && at == i * size <= n
      invariant MovedPart(mem[..], was, src, dst, 0, at)
    {
      ElementBounds(i, count, size);
      ghost var before := mem[..];
      MoveElement(mem, src, dst, at, at + size);
      ForwardStep(was, before, mem[..], src, dst, at, at + size);
      i := i + 1;
      at := i * size;
    }
  }

  /** Copies `count` elements of `size` bytes.  Whatever the overlap, aligned to
      elements or not, the destination ends equal to the old source and every
      other byte is as it was. */
  method Copy(mem: array<byte>, src: nat, dst: nat, size: nat, count: nat)
    requires src + count * size <= mem.Length && dst + count * size <= mem.Length
    requires mem.Length < U32_LIMIT
    modifies mem
    ensures mem[..] == Moved(old(mem[..]), src, dst, count * size)
    ensures forall k :: dst <= k < dst + count * size ==> mem[k] == old(mem[src + (k - dst)])
    ensures forall k :: 0 <= k < mem.Length && !(dst <= k < dst + count * size) ==> mem[k] == old(mem[k])
  {
    var bytes := count * size;
    if dst > src && dst < src + bytes {
      CopyBackward(mem, src, dst, size, count);
    } else {
      CopyForward(mem, src, dst, size, count);
    }
    MovedWhole(mem[..], old(mem[..]), src, dst, bytes);
    forall k | dst <= k < dst + bytes ensures mem[k] == old(mem[src + (k - dst)]) {
      assert mem[..][k] == MovedByte(old(mem[..]), src, dst, 0, bytes, k);
    }
    forall k | 0 <= k < mem.Length && !(dst <= k < dst + bytes) ensures mem[k] == old(mem[k]) {
      assert mem[..][k] == MovedByte(old(mem[..]), src, dst, 0, bytes, k);
    }
  }
}
