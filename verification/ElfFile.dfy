/** Static aarch64 ELF images as src/syscall/elf.h lays them out, and the checks elf_load makes on
    them (src/syscall/elf.c). */
module ElfFile {
  import Descriptors

  const LIMIT: nat := 0x1_0000_0000_0000_0000
  const PAGE: nat := 4096
  const EHDR_SIZE: nat := 64
  const PHDR_SIZE: nat := 56
  const MAX_PHNUM: nat := 32
  const MAX_REGIONS: nat := 4
  const PT_LOAD: nat := 1
  const USER_STACK_TOP: nat := 0x80_0000

  // ---- little-endian fields ----

  function U16(buf: seq<bv8>, at: nat): (n: nat)
    requires at + 2 <= |buf|
    ensures n < 0x1_0000
  {
    buf[at] as nat + 0x100 * buf[at + 1] as nat
  }

  function U32(buf: seq<bv8>, at: nat): (n: nat)
    requires at + 4 <= |buf|
    ensures n < 0x1_0000_0000
  {
    U16(buf, at) + 0x1_0000 * U16(buf, at + 2)
  }

  function U64(buf: seq<bv8>, at: nat): (n: nat)
    requires at + 8 <= |buf|
    ensures n < LIMIT
  {
    U32(buf, at) + 0x1_0000_0000 * U32(buf, at + 4)
  }

  /** p_flags, of which only the low byte is ever looked at. */
  function FlagBits(buf: seq<bv8>, at: nat): bv32
    requires at + 4 <= |buf|
  {
    (buf[at] as bv32) | ((buf[at + 1] as bv32) << 8) | ((buf[at + 2] as bv32) << 16) | ((buf[at + 3] as bv32) << 24)
  }

  // ---- segment permissions ----

  const PF_X: bv32 := 0x1
  const PF_W: bv32 := 0x2
  const PF_R: bv32 := 0x4

  predicate Readable(pf: bv32) {
    pf & PF_R != 0
  }

  predicate Writable(pf: bv32) {
    pf & PF_W != 0
  }

  predicate Executable(pf: bv32) {
    pf & PF_X != 0
  }

  /** elf_pflags_to_pte. */
  function PflagsToPte(pf: bv32): bv64 {
    0x0020_0000_0000_0004
    | (if Writable(pf) then 0x40 else 0xC0)
    | (if Executable(pf) then 0 else 0x0040_0000_0000_0000)
  }

  /** parse_flags accepts these. */
  predicate FlagsOk(pf: bv32) {
    !(Writable(pf) && Executable(pf)) && Readable(pf)
  }

  /** Accepted are the segments that may be read and not both written and executed. A segment's descriptor
      grants EL0 exactly the rights of p_flags, never lets the kernel execute the page, is of normal memory
      (attribute 1), and has no bits beside permissions. */
  lemma SegmentRights(pa: Descriptors.Frame, pf: bv32)
    requires Descriptors.FrameOk(pa)
    ensures FlagsOk(pf) <==> pf & 0x4 != 0 && !(pf & 0x2 != 0 && pf & 0x1 != 0)
    ensures PflagsToPte(pf) & Descriptors.PERM_MASK == PflagsToPte(pf) && PflagsToPte(pf) & 0x1C == 0x4
    ensures var d := Descriptors.LeafDescriptor(pa, PflagsToPte(pf));
            && Descriptors.PteValid(d) && Descriptors.NextTable(d) == pa
            && Descriptors.UserMayRead(d)
            && (Descriptors.UserMayWrite(d) <==> pf & 0x2 != 0)
            && (Descriptors.UserMayExec(d) <==> pf & 0x1 != 0)
            && (FlagsOk(pf) ==> !(Descriptors.UserMayWrite(d) && Descriptors.UserMayExec(d)))
            && !Descriptors.KernelMayExec(d)
  {
  }

  // ---- headers ----

  datatype Phdr = Phdr(kind: nat, flags: bv32, offset: nat, vaddr: nat, filesz: nat, memsz: nat)

  function PhdrAt(buf: seq<bv8>, at: nat): (ph: Phdr)
    requires at + PHDR_SIZE <= |buf|
    ensures Fields64(ph)
  {
    Phdr(U32(buf, at), FlagBits(buf, at + 4), U64(buf, at + 8), U64(buf, at + 16), U64(buf, at + 32), U64(buf, at + 40))
  }

  predicate Fields64(ph: Phdr) {
    ph.offset < LIMIT && ph.vaddr < LIMIT && ph.filesz < LIMIT && ph.memsz < LIMIT
  }

  /** Magic, class, byte order, version, type and machine. */
  predicate IdentOk(buf: seq<bv8>)
    requires |buf| >= EHDR_SIZE
  {
    && buf[0] == 0x7F && buf[1] == 0x45 && buf[2] == 0x4C && buf[3] == 0x46
    && buf[4] == 2 && buf[5] == 1 && buf[6] == 1
    && U16(buf, 16) == 2 && U16(buf, 18) == 0xB7
  }

  /** 0x7F E L F, 64-bit, little-endian, version 1; an executable; for aarch64. */
  lemma IdentExactly(buf: seq<bv8>)
    requires |buf| >= EHDR_SIZE
    ensures IdentOk(buf) <==>
            buf[..7] == [0x7F, 0x45, 0x4C, 0x46, 2, 1, 1] && U16(buf, 16) == 2 && U16(buf, 18) == 183
  {
  }

  function Entry(buf: seq<bv8>): nat
    requires |buf| >= EHDR_SIZE
  {
    U64(buf, 24)
  }

  function PhOff(buf: seq<bv8>): nat
    requires |buf| >= EHDR_SIZE
  {
    U64(buf, 32)
  }

  function PhEntSize(buf: seq<bv8>): nat
    requires |buf| >= EHDR_SIZE
  {
    U16(buf, 54)
  }

  function PhNum(buf: seq<bv8>): nat
    requires |buf| >= EHDR_SIZE
  {
    U16(buf, 56)
  }

  /** Everything elf_load checks before it looks at the segments, in 64-bit arithmetic. */
  predicate HeaderChecks(buf: seq<bv8>) {
    && |buf| >= EHDR_SIZE && IdentOk(buf)
    && PhEntSize(buf) == PHDR_SIZE && PhNum(buf) != 0 && PhNum(buf) <= MAX_PHNUM
    && PhOff(buf) <= |buf| && (PhOff(buf) + PhNum(buf) * PHDR_SIZE) % LIMIT <= |buf|
  }

  /** The whole program-header table lies in the file. */
  predicate HeaderOk(buf: seq<bv8>) {
    && |buf| >= EHDR_SIZE && IdentOk(buf)
    && PhEntSize(buf) == PHDR_SIZE && 1 <= PhNum(buf) <= MAX_PHNUM
    && PhOff(buf) + PhNum(buf) * PHDR_SIZE <= |buf|
  }

  /** For a buffer that leaves room for one table below the top of the address space, the wrapping
      checks are the exact ones. */
  lemma HeaderChecksExact(buf: seq<bv8>)
    requires |buf| + MAX_PHNUM * PHDR_SIZE < LIMIT
    ensures HeaderChecks(buf) <==> HeaderOk(buf)
  {
    if |buf| >= EHDR_SIZE && PhOff(buf) <= |buf| && PhNum(buf) <= MAX_PHNUM {
      assert PhOff(buf) + PhNum(buf) * PHDR_SIZE < LIMIT;
    }
  }

  function Phdrs(buf: seq<bv8>): (phs: seq<Phdr>)
    requires HeaderOk(buf)
    ensures |phs| == PhNum(buf) && forall i | 0 <= i < |phs| :: Fields64(phs[i])
  {
    seq(PhNum(buf), i requires 0 <= i < PhNum(buf) => PhdrAt(buf, PhOff(buf) + i * PHDR_SIZE))
  }

  /** The checks on one PT_LOAD segment, in 64-bit arithmetic. */
  predicate SegmentChecks(ph: Phdr, size: nat) {
    && ph.filesz <= ph.memsz
    && (ph.offset + ph.filesz) % LIMIT <= size && (ph.offset + ph.filesz) % LIMIT >= ph.offset
    && ph.vaddr < USER_STACK_TOP && (ph.vaddr + ph.memsz) % LIMIT <= USER_STACK_TOP
       && (ph.vaddr + ph.memsz) % LIMIT >= ph.vaddr
  }

  /** A segment whose file bytes are in the file and whose pages are below the stack top. */
  predicate SegmentOk(ph: Phdr, size: nat) {
    && ph.filesz <= ph.memsz && ph.offset + ph.filesz <= size
    && ph.vaddr < USER_STACK_TOP && ph.vaddr + ph.memsz <= USER_STACK_TOP
  }

  /** No overflow gets past the checks. */
  lemma SegmentChecksExact(ph: Phdr, size: nat)
    requires Fields64(ph) && size < LIMIT
    ensures SegmentChecks(ph, size) <==> SegmentOk(ph, size)
  {
    Wraps(ph.offset, ph.filesz);
    Wraps(ph.vaddr, ph.memsz);
  }

  lemma Wraps(x: nat, y: nat)
    requires x < LIMIT && y < LIMIT
    ensures if x + y < LIMIT then (x + y) % LIMIT == x + y else (x + y) % LIMIT == x + y - LIMIT
  {
  }

  /** The segment takes up some page. One with memsz 0 at a page boundary does not, and the page
      allocator refuses a request for no pages. */
  predicate Occupies(ph: Phdr) {
    ph.memsz > 0 || ph.vaddr % PAGE != 0
  }

  /** elf_load may load this segment. */
  predicate Loadable(ph: Phdr, size: nat) {
    ph.kind == PT_LOAD ==> SegmentOk(ph, size) && FlagsOk(ph.flags) && Occupies(ph)
  }

  function Loads(phs: seq<Phdr>): nat {
    if phs == [] then 0 else Loads(phs[..|phs| - 1]) + if phs[|phs| - 1].kind == PT_LOAD then 1 else 0
  }

  /** The entry point lies in this segment, and it is executable. */
  predicate HoldsEntry(ph: Phdr, entry: nat) {
    ph.kind == PT_LOAD && ph.vaddr <= entry < ph.vaddr + ph.memsz && Executable(ph.flags)
  }

  /** The file can be loaded, memory permitting. */
  ghost predicate Acceptable(buf: seq<bv8>) {
    && HeaderOk(buf)
    && var phs := Phdrs(buf);
       && (forall i | 0 <= i < |phs| :: Loadable(phs[i], |buf|))
       && 1 <= Loads(phs) <= MAX_REGIONS
       && (exists i :: 0 <= i < |phs| && HoldsEntry(phs[i], Entry(buf)))
  }

  /** What that asks of the program headers: every PT_LOAD has its bytes in the file, its memory below the
      stack top, some page, and p_flags with R and not both W and X; there are one to four; and the
      entry point is in the memory of one with X. */
  lemma AcceptableExactly(buf: seq<bv8>)
    requires HeaderOk(buf)
    ensures var phs := Phdrs(buf);
            Acceptable(buf) <==>
            && (forall i | 0 <= i < |phs| && phs[i].kind == 1 ::
                  && phs[i].filesz <= phs[i].memsz && phs[i].offset + phs[i].filesz <= |buf|
                  && phs[i].vaddr < 0x80_0000 && phs[i].vaddr + phs[i].memsz <= 0x80_0000
                  && (phs[i].memsz > 0 || phs[i].vaddr % 4096 != 0)
                  && phs[i].flags & 0x4 != 0 && !(phs[i].flags & 0x2 != 0 && phs[i].flags & 0x1 != 0))
            && 1 <= Loads(phs) <= 4
            && (exists i :: 0 <= i < |phs| && phs[i].kind == 1 && phs[i].flags & 0x1 != 0
                            && phs[i].vaddr <= Entry(buf) < phs[i].vaddr + phs[i].memsz)
  {
    var phs := Phdrs(buf);
    forall i | 0 <= i < |phs|
      ensures HoldsEntry(phs[i], Entry(buf)) <==>
              phs[i].kind == 1 && phs[i].flags & 0x1 != 0
              && phs[i].vaddr <= Entry(buf) < phs[i].vaddr + phs[i].memsz
    {
    }
    if exists i :: 0 <= i < |phs| && phs[i].kind == 1 && phs[i].flags & 0x1 != 0
                   && phs[i].vaddr <= Entry(buf) < phs[i].vaddr + phs[i].memsz {
      var i :| 0 <= i < |phs| && phs[i].kind == 1 && phs[i].flags & 0x1 != 0
               && phs[i].vaddr <= Entry(buf) < phs[i].vaddr + phs[i].memsz;
      assert HoldsEntry(phs[i], Entry(buf));
    }
  }
}
