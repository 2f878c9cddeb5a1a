/** The fields of an ELF64 file header and program header in the order and the widths of the format: what
    ElfFile reads from their bytes is the fields (src/syscall/elf.h). */
module ElfEncoding {
  import opened ElfFile

  /** A number in so many bytes, least significant first, or the four bytes of a flag word. */
  datatype Field = Number(n: nat, width: nat) | Flags(f: bv32)

  function Width(f: Field): nat {
    if f.Number? then f.width else 4
  }

  /** The number that bytes stand for, least significant first. */
  function Value(b: seq<bv8>): nat {
    if b == [] then 0 else b[0] as nat + 256 * Value(b[1..])
  }

  ghost predicate FlagBytes(buf: seq<bv8>, at: nat, f: bv32) {
    && at + 4 <= |buf|
    && buf[at] == (f & 0xFF) as bv8 && buf[at + 1] == ((f >> 8) & 0xFF) as bv8
    && buf[at + 2] == ((f >> 16) & 0xFF) as bv8 && buf[at + 3] == (f >> 24) as bv8
  }

  ghost predicate FieldAt(buf: seq<bv8>, at: nat, f: Field) {
    if f.Number? then at + f.width <= |buf| && Value(buf[at..at + f.width]) == f.n else FlagBytes(buf, at, f.f)
  }

  /** The fields lie one behind the other from `at` on. */
  ghost predicate Laid(buf: seq<bv8>, at: nat, fs: seq<Field>)
    decreases |fs|
  {
    fs == [] || (FieldAt(buf, at, fs[0]) && Laid(buf, at + Width(fs[0]), fs[1..]))
  }

  // ---- reading one ----

  lemma Value16(buf: seq<bv8>, at: nat)
    requires at + 2 <= |buf|
    ensures Value(buf[at..at + 2]) == U16(buf, at)
  {
    var b := buf[at..at + 2];
    assert b[1..] == [b[1]] && [b[1]][1..] == [];
    assert Value([b[1]]) == b[1] as nat + 256 * Value([]);
  }

  /** The low two bytes of a longer number. */
  lemma TwoOff(b: seq<bv8>)
    requires |b| >= 2
    ensures Value(b) == Value(b[..2]) + 0x1_0000 * Value(b[2..])
  {
    assert b[1..][1..] == b[2..];
    var c := b[..2];
    assert c[1..] == [b[1]] && [b[1]][1..] == [];
    assert Value([b[1]]) == b[1] as nat + 256 * Value([]);
    assert Value(b[1..]) == b[1] as nat + 256 * Value(b[2..]);
  }

  lemma Value32(buf: seq<bv8>, at: nat)
    requires at + 4 <= |buf|
    ensures Value(buf[at..at + 4]) == U32(buf, at)
  {
    var b := buf[at..at + 4];
    TwoOff(b);
    assert b[..2] == buf[at..at + 2] && b[2..] == buf[at + 2..at + 4];
    Value16(buf, at);
    Value16(buf, at + 2);
  }

  lemma Value64(buf: seq<bv8>, at: nat)
    requires at + 8 <= |buf|
    ensures Value(buf[at..at + 8]) == U64(buf, at)
  {
    var b := buf[at..at + 8];
    var c, d := buf[at + 2..at + 8], buf[at + 4..at + 8];
    TwoOff(b);
    TwoOff(c);
    assert b[..2] == buf[at..at + 2] && b[2..] == c && c[..2] == buf[at + 2..at + 4] && c[2..] == d;
    Value16(buf, at);
    Value16(buf, at + 2);
    Value32(buf, at + 4);
  }

  lemma ReadFlags(buf: seq<bv8>, at: nat, f: bv32)
    requires FlagBytes(buf, at, f)
    ensures FlagBits(buf, at) == f
  {
  }

  lemma First(buf: seq<bv8>, at: nat, f: Field, rest: seq<Field>)
    requires Laid(buf, at, [f] + rest)
    ensures FieldAt(buf, at, f) && Laid(buf, at + Width(f), rest)
  {
    assert ([f] + rest)[1..] == rest;
  }

  // ---- headers ----

  function SizeFields(ph: Phdr, align: nat): seq<Field> {
    [Number(ph.filesz, 8)] + ([Number(ph.memsz, 8)] + [Number(align, 8)])
  }

  /** p_type, p_flags, p_offset, p_vaddr, p_paddr, then p_filesz, p_memsz, p_align. */
  function PhdrFields(ph: Phdr, paddr: nat, align: nat): seq<Field> {
    [Number(ph.kind, 4)] + ([Flags(ph.flags)] + ([Number(ph.offset, 8)] + ([Number(ph.vaddr, 8)]
    + ([Number(paddr, 8)] + SizeFields(ph, align)))))
  }

  /** A program header is read back from its fields, wherever they are. */
  lemma PhdrRoundTrip(buf: seq<bv8>, at: nat, ph: Phdr, paddr: nat, align: nat)
    requires Laid(buf, at, PhdrFields(ph, paddr, align)) && at + PHDR_SIZE <= |buf|
    ensures PhdrAt(buf, at) == ph
  {
    var e := [Number(paddr, 8)] + SizeFields(ph, align);
    var d := [Number(ph.vaddr, 8)] + e;
    var c := [Number(ph.offset, 8)] + d;
    First(buf, at, Number(ph.kind, 4), [Flags(ph.flags)] + c);
    First(buf, at + 4, Flags(ph.flags), c);
    First(buf, at + 8, Number(ph.offset, 8), d);
    First(buf, at + 16, Number(ph.vaddr, 8), e);
    First(buf, at + 24, Number(paddr, 8), SizeFields(ph, align));
    SizesRoundTrip(buf, at + 32, ph, align);
    Value32(buf, at);
    ReadFlags(buf, at + 4, ph.flags);
    Value64(buf, at + 8);
    Value64(buf, at + 16);
  }

  lemma SizesRoundTrip(buf: seq<bv8>, at: nat, ph: Phdr, align: nat)
    requires Laid(buf, at, SizeFields(ph, align)) && at + 16 <= |buf|
    ensures U64(buf, at) == ph.filesz && U64(buf, at + 8) == ph.memsz
  {
    First(buf, at, Number(ph.filesz, 8), [Number(ph.memsz, 8)] + [Number(align, 8)]);
    First(buf, at + 8, Number(ph.memsz, 8), [Number(align, 8)]);
    Value64(buf, at);
    Value64(buf, at + 8);
  }

  /** The fields of the file header, behind its 16 bytes of identification. */
  datatype Ehdr = Ehdr(etype: nat, machine: nat, version: nat, entry: nat, phoff: nat, shoff: nat, flags: nat,
                       ehsize: nat, phentsize: nat, phnum: nat, shentsize: nat, shnum: nat, shstrndx: nat)

  function TailFields(h: Ehdr): seq<Field> {
    [Number(h.flags, 4)] + ([Number(h.ehsize, 2)] + ([Number(h.phentsize, 2)] + ([Number(h.phnum, 2)]
    + [Number(h.shentsize, 2), Number(h.shnum, 2), Number(h.shstrndx, 2)])))
  }

  function MidFields(h: Ehdr): seq<Field> {
    [Number(h.entry, 8)] + ([Number(h.phoff, 8)] + ([Number(h.shoff, 8)] + TailFields(h)))
  }

  function EhdrFields(h: Ehdr): seq<Field> {
    [Number(h.etype, 2)] + ([Number(h.machine, 2)] + ([Number(h.version, 4)] + MidFields(h)))
  }

  /** The file header is read back from its fields. */
  lemma EhdrRoundTrip(buf: seq<bv8>, h: Ehdr)
    requires Laid(buf, 16, EhdrFields(h)) && |buf| >= EHDR_SIZE
    ensures U16(buf, 16) == h.etype && U16(buf, 18) == h.machine && Entry(buf) == h.entry && PhOff(buf) == h.phoff
    ensures PhEntSize(buf) == h.phentsize && PhNum(buf) == h.phnum
  {
    var b := [Number(h.version, 4)] + MidFields(h);
    First(buf, 16, Number(h.etype, 2), [Number(h.machine, 2)] + b);
    First(buf, 18, Number(h.machine, 2), b);
    First(buf, 20, Number(h.version, 4), MidFields(h));
    Value16(buf, 16);
    Value16(buf, 18);
    MidRoundTrip(buf, h);
    TailRoundTrip(buf, h);
  }

  lemma MidRoundTrip(buf: seq<bv8>, h: Ehdr)
    requires Laid(buf, 24, MidFields(h)) && |buf| >= EHDR_SIZE
    ensures U64(buf, 24) == h.entry && U64(buf, 32) == h.phoff && Laid(buf, 48, TailFields(h))
  {
    var e := [Number(h.shoff, 8)] + TailFields(h);
    First(buf, 24, Number(h.entry, 8), [Number(h.phoff, 8)] + e);
    First(buf, 32, Number(h.phoff, 8), e);
    First(buf, 40, Number(h.shoff, 8), TailFields(h));
    Value64(buf, 24);
    Value64(buf, 32);
  }

  lemma TailRoundTrip(buf: seq<bv8>, h: Ehdr)
    requires Laid(buf, 48, TailFields(h)) && |buf| >= EHDR_SIZE
    ensures U16(buf, 54) == h.phentsize && U16(buf, 56) == h.phnum
  {
    var c := [Number(h.shentsize, 2), Number(h.shnum, 2), Number(h.shstrndx, 2)];
    var b := [Number(h.phnum, 2)] + c;
    var a := [Number(h.phentsize, 2)] + b;
    First(buf, 48, Number(h.flags, 4), [Number(h.ehsize, 2)] + a);
    First(buf, 52, Number(h.ehsize, 2), a);
    First(buf, 54, Number(h.phentsize, 2), b);
    First(buf, 56, Number(h.phnum, 2), c);
    Value16(buf, 54);
    Value16(buf, 56);
  }
}
