/** The processor's side of paging: the 32-bit two-level walk of section 4.3 and
    the access rights of section 4.6 of the Intel SDM, volume 3A, with CR4.PSE
    and CR0.WP set.  Nothing here refers to how the kernel builds its tables. */
module Mmu {
  import opened Words
  import opened FrameSpec

  type Frame = s: seq<u32> | |s| == 1024 witness seq(1024, _ => 0)

  /** A frame of absent entries. */
  function Zeros(): (z: Frame)
    ensures forall i :: 0 <= i < 1024 ==> z[i] == 0
  {
    seq(1024, _ => 0)
  }

  /** Physical memory, frame by frame, as 32-bit words. */
  type Memory = m: seq<Frame> | |m| == FRAME_COUNT ghost witness seq<Frame>(FRAME_COUNT, _ => Zeros())

  datatype Translation = Fault | Mapped(phys: nat, writable: bool, user: bool)

  /** Where virtual address `v` leads with the directory in frame `cr3`. */
  function Translate(mem: Memory, cr3: nat, v: u32): Translation
    requires cr3 < FRAME_COUNT
  {
    var pde := mem[cr3][v / 0x40_0000];
    if !Bit(pde, 0) then Fault
    else if Bit(pde, 7) then
      if Bit(pde, 21) then Fault
      else Mapped(pde / 0x2000 % 0x100 * 0x1_0000_0000 + pde / 0x40_0000 * 0x40_0000 + v % 0x40_0000, Bit(pde, 1), Bit(pde, 2))
    else
      var pte := mem[pde / 4096][v / 4096 % 1024];
      if !Bit(pte, 0) then Fault
      else Mapped(pte / 4096 * 4096 + v % 4096, Bit(pde, 1) && Bit(pte, 1), Bit(pde, 2) && Bit(pte, 2))
  }

  /** A right at a 4 KiB page needs its bit at both levels. */
  lemma RightsNeedBothLevels(mem: Memory, cr3: nat, v: u32)
    requires cr3 < FRAME_COUNT
    ensures var pde := mem[cr3][v / 0x40_0000];
      var pte := mem[pde / 4096][v / 4096 % 1024];
      var x := Translate(mem, cr3, v);
      !Bit(pde, 7) ==>
        && (x.Mapped? <==> Bit(pde, 0) && Bit(pte, 0))
        && (x.Mapped? ==> (x.writable <==> Bit(pde, 1) && Bit(pte, 1)) && (x.user <==> Bit(pde, 2) && Bit(pte, 2)))
  {
  }

  // ---------- The accessed and dirty bits ----------

  /** Two entries equal but for bits 5 and 6, which the processor sets. */
  ghost predicate SameButAccess(x: u32, y: u32) {
    forall i: nat :: i != 5 && i != 6 ==> (Bit(x, i) <==> Bit(y, i))
  }

  lemma SameHigh(x: u32, y: u32, n: nat)
    requires SameButAccess(x, y) && n >= 7
    ensures Shr(x, n) == Shr(y, n)
  {
    forall i: nat ensures Bit(Shr(x, n), i) <==> Bit(Shr(y, n), i) {
      BitOfShr(x, n, i);
      BitOfShr(y, n, i);
    }
    SameBits(Shr(x, n), Shr(y, n));
  }

  lemma FieldsAre(x: u32)
    ensures Shr(x, 12) == x / 4096 && Shr(x, 13) == x / 0x2000 && Shr(x, 22) == x / 0x40_0000
  {
    ShrWidths(x);
    ShrTwice(x, 12, 1);
  }

  lemma SameFields(x: u32, y: u32)
    requires SameButAccess(x, y)
    ensures x / 4096 == y / 4096 && x / 0x40_0000 == y / 0x40_0000 && x / 0x2000 == y / 0x2000
  {
    FieldsAre(x);
    FieldsAre(y);
    SameHigh(x, y, 12);
    SameHigh(x, y, 13);
    SameHigh(x, y, 22);
  }

  /** Whatever accessed and dirty bits the processor sets, no address is
      translated differently. */
  lemma TranslateIgnoresAccess(mem: Memory, mem': Memory, cr3: nat, v: u32)
    requires cr3 < FRAME_COUNT
    requires forall f, i :: 0 <= f < FRAME_COUNT && 0 <= i < 1024 ==> SameButAccess(mem[f][i], mem'[f][i])
    ensures Translate(mem, cr3, v) == Translate(mem', cr3, v)
  {
    var pde, pde' := mem[cr3][v / 0x40_0000], mem'[cr3][v / 0x40_0000];
    assert SameButAccess(pde, pde');
    SameFields(pde, pde');
    var pte, pte' := mem[pde / 4096][v / 4096 % 1024], mem'[pde / 4096][v / 4096 % 1024];
    assert SameButAccess(pte, pte');
    SameFields(pte, pte');
  }
}
