/** Stage-1 translation descriptors and the physical frame pool they point into
    (src/mm/mmu/mmu.h, src/mm/mmu/mmu.c). A descriptor is the 64-bit word the hardware walker
    reads; a frame is the physical address of a 4 KiB page. */
module Descriptors {

  const PAGE_SIZE: nat := 4096

  // Descriptor fields. Bodies below write composite values as literals, which the bit-vector
  // reasoning needs: 0xF03 is VALID | TABLE | SH_INNER | AF | NG, 0x0020_0000_0000_0004 is
  // ATTRIDX(1) | PXN, and 0x0060_0000_0000_00CC is the AP field with UXN, PXN and ATTRIDX(3).
  const PTE_AP_RW_EL0: bv64 := 0x40
  const PTE_AP_RO: bv64 := 0x80
  const PTE_AP_RO_EL0: bv64 := 0xC0
  const PTE_PXN: bv64 := 0x0020_0000_0000_0000
  const PTE_UXN: bv64 := 0x0040_0000_0000_0000
  const AP_MASK: bv64 := 0xC0
  const PERM_MASK: bv64 := 0x0060_0000_0000_00CC

  const PROT_READ: bv32 := 0x1
  const PROT_WRITE: bv32 := 0x2
  const PROT_EXEC: bv32 := 0x4

  // The words are wrapped so that everything above this module compares them as plain values.
  datatype Frame = Frame(addr: bv64)
  datatype Descriptor = Descriptor(bits: bv64)

  const NULL: Frame := Frame(0)
  const INVALID: Descriptor := Descriptor(0)

  predicate PteValid(d: Descriptor) {
    d.bits & 0x1 != 0
  }

  /** Bit 1: a table (or page) descriptor rather than a block. */
  predicate IsTable(d: Descriptor) {
    d.bits & 0x2 != 0
  }

  /** pte_next_table: the 48-bit output address. */
  function NextTable(d: Descriptor): Frame {
    Frame(d.bits & 0x0000_FFFF_FFFF_F000)
  }

  /** A frame address the page allocator can hand out: non-null and a page-aligned 48-bit address. */
  predicate FrameOk(f: Frame) {
    f != NULL && f.addr & 0x0000_FFFF_FFFF_F000 == f.addr
  }

  /** The frame's number: how many pages lie below its address. */
  ghost function Pfn(f: Frame): nat {
    PagesBelow(f.addr)
  }

  ghost function PagesBelow(a: bv64): nat
    decreases a
  {
    if a < 0x1000 then 0 else PagesBelow(a - 0x1000) + 1
  }

  /** The n pages from pa on are all frames. */
  ghost predicate FrameRun(pa: Frame, n: nat)
    decreases n
  {
    n == 0 || (FrameOk(pa) && FrameRun(Frame(pa.addr + 0x1000), n - 1))
  }

  /** The page behind a frame has the next number. */
  lemma NextPfn(pa: Frame)
    requires FrameOk(pa)
    ensures Pfn(Frame(pa.addr + 0x1000)) == Pfn(pa) + 1
  {
    var a := pa.addr;
    assert a & 0xFFFF_0000_0000_0000 == 0;
    assert a + 0x1000 >= 0x1000;
    assert a + 0x1000 - 0x1000 == a;
  }

  lemma RunHead(pa: Frame, n: nat)
    requires FrameRun(pa, n) && n > 0
    ensures FrameOk(pa)
  {
  }

  lemma RunTail(pa: Frame, n: nat)
    requires FrameRun(pa, n) && n > 0
    ensures FrameRun(Frame(pa.addr + 0x1000), n - 1)
  {
  }

  /** An L0-L2 entry: the next table's frame with VALID and TABLE. */
  function TableDescriptor(f: Frame): Descriptor {
    Descriptor(f.addr | 0x3)
  }

  /** The L3 descriptor mmu_map_user_range installs: the page's address, then
      VALID | TABLE | AF | SH_INNER | NG, then the caller's flags. */
  function LeafDescriptor(pa: Frame, flags: bv64): Descriptor {
    Descriptor((pa.addr & 0x0000_FFFF_FFFF_F000) | 0xF03 | flags)
  }

  /** mmu_prot_to_flags: ATTRIDX(1) | PXN, an AP field, and UXN unless PROT_EXEC. */
  function ProtToFlags(prot: bv32): bv64 {
    0x0020_0000_0000_0004
    | (if prot & PROT_WRITE != 0 then PTE_AP_RW_EL0
       else if prot & PROT_READ != 0 then PTE_AP_RO_EL0 else PTE_AP_RO)
    | (if prot & PROT_EXEC == 0 then PTE_UXN else 0)
  }

  /** The in-place rewrite of mmu_protect_user_range: PERM_MASK bits from flags, the rest kept. */
  function Reprotect(d: Descriptor, flags: bv64): Descriptor {
    Descriptor((d.bits & !0x0060_0000_0000_00CC) | (flags & 0x0060_0000_0000_00CC))
  }

  // What the hardware lets EL0 do through a valid page descriptor (AP[2:1], UXN).
  predicate UserMayRead(d: Descriptor) {
    d.bits & AP_MASK == PTE_AP_RW_EL0 || d.bits & AP_MASK == PTE_AP_RO_EL0
  }

  predicate UserMayWrite(d: Descriptor) {
    d.bits & AP_MASK == PTE_AP_RW_EL0
  }

  predicate UserMayExec(d: Descriptor) {
    d.bits & PTE_UXN == 0
  }

  predicate KernelMayExec(d: Descriptor) {
    d.bits & PTE_PXN == 0
  }

  /** A table descriptor is valid and leads back to exactly the frame it was built from. */
  lemma TableDescriptorRoundTrip(f: Frame)
    requires FrameOk(f)
    ensures PteValid(TableDescriptor(f)) && IsTable(TableDescriptor(f))
    ensures NextTable(TableDescriptor(f)) == f
  {
  }

  /** A fresh user mapping grants EL0 exactly what the protection bits ask for, never lets the
      kernel execute it, and leads to the page it was given. */
  lemma FreshMappingMeansProt(pa: Frame, prot: bv32)
    requires FrameOk(pa)
    ensures var d := LeafDescriptor(pa, ProtToFlags(prot));
            && PteValid(d)
            && NextTable(d) == pa
            && (UserMayWrite(d) <==> prot & PROT_WRITE != 0)
            && (UserMayRead(d) <==> prot & (PROT_READ | PROT_WRITE) != 0)
            && (UserMayExec(d) <==> prot & PROT_EXEC != 0)
            && !KernelMayExec(d)
    ensures ProtToFlags(prot) & PERM_MASK == ProtToFlags(prot) && ProtToFlags(prot) & 0x1C == 0x4
  {
  }

  lemma ReprotectFlags(pa: Frame, before: bv64, after: bv64)
    requires before & PERM_MASK == before && after & PERM_MASK == after
    ensures Reprotect(LeafDescriptor(pa, before), after) == LeafDescriptor(pa, after)
  {
  }

  /** Re-protecting in place gives the very descriptor a fresh map with the new protection gives:
      no stale permission survives, and address, shareability, AF and nG are untouched. */
  lemma ReprotectIsFreshMap(pa: Frame, before: bv32, after: bv32)
    ensures Reprotect(LeafDescriptor(pa, ProtToFlags(before)), ProtToFlags(after))
         == LeafDescriptor(pa, ProtToFlags(after))
  {
    var f, g := ProtToFlags(before), ProtToFlags(after);
    assert f & PERM_MASK == f && g & PERM_MASK == g;
    ReprotectFlags(pa, f, g);
  }

  /** The rewrite touches neither the address bits nor the valid bit. */
  lemma KeptBits(bits: bv64, flags: bv64)
    ensures ((bits & !0x0060_0000_0000_00CC) | (flags & 0x0060_0000_0000_00CC)) & 0x1 == bits & 0x1
    ensures ((bits & !0x0060_0000_0000_00CC) | (flags & 0x0060_0000_0000_00CC)) & 0x0000_FFFF_FFFF_F000 ==
            bits & 0x0000_FFFF_FFFF_F000
  {
  }

  lemma ReprotectKeepsMapping(d: Descriptor, flags: bv64)
    ensures PteValid(Reprotect(d, flags)) == PteValid(d)
    ensures NextTable(Reprotect(d, flags)) == NextTable(d)
  {
    KeptBits(d.bits, flags);
  }

  /** A leaf leads to the frame it was built from and carries exactly the flags it was given, whatever
      permission flags those are. */
  lemma LeafRoundTrip(pa: Frame, flags: bv64)
    requires FrameOk(pa) && flags & PERM_MASK == flags
    ensures var d := LeafDescriptor(pa, flags);
            PteValid(d) && NextTable(d) == pa && d.bits & PERM_MASK == flags
  {
  }

  lemma LeafIsValid(pa: Frame, flags: bv64)
    ensures PteValid(LeafDescriptor(pa, flags))
  {
  }

  lemma InvalidIsInvalid()
    ensures !PteValid(INVALID)
  {
  }
}
