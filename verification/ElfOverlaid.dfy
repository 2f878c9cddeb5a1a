/** A static ELF file that elf_load (src/syscall/elf.c) accepts and whose two segments share a page. */
module ElfOverlaid {
  import opened ElfFile
  import opened ElfImage
  import opened ElfLoader

  /** Two segments: all of the file at 4 MB, where it starts, to read and execute; and 16 bytes without
      contents at 4 MB + 2048, to read and write. */
  function OverlaidByte(i: nat): bv8 {
    if i == 0 then 0x7F else if i == 1 then 0x45 else if i == 2 then 0x4C else if i == 3 then 0x46
    else if i == 4 then 2 else if i == 5 then 1 else if i == 6 then 1
    else if i == 16 then 2 else if i == 18 then 0xB7
    else if i == 26 then 0x40 else if i == 32 then 64 else if i == 54 then 56 else if i == 56 then 2
    else if i == 64 then 1 else if i == 68 then 5 else if i == 82 then 0x40 else if i == 96 then 176
    else if i == 104 then 176
    else if i == 120 then 1 else if i == 124 then 6 else if i == 137 then 0x08 else if i == 138 then 0x40
    else if i == 160 then 16
    else 0
  }

  function OverlaidFile(): (buf: seq<bv8>)
    ensures |buf| == 176 && forall i {:trigger buf[i]} | 0 <= i < 176 :: buf[i] == OverlaidByte(i)
  {
    seq(176, i requires 0 <= i < 176 => OverlaidByte(i))
  }

  // ---- fields with few bytes other than zero ----

  lemma ZeroByte()
    ensures (0 as bv8) as nat == 0
  {
  }

  lemma U16Is(buf: seq<bv8>, at: nat, n: nat)
    requires at + 2 <= |buf| && buf[at] as nat == n && buf[at + 1] == 0
    ensures U16(buf, at) == n
  {
    ZeroByte();
  }

  lemma U32Is(buf: seq<bv8>, at: nat, a: nat, b: nat)
    requires at + 4 <= |buf| && U16(buf, at) == a && U16(buf, at + 2) == b
    ensures U32(buf, at) == a + 0x1_0000 * b
  {
  }

  lemma U64Is(buf: seq<bv8>, at: nat, a: nat, b: nat)
    requires at + 8 <= |buf| && U16(buf, at) == a && U16(buf, at + 2) == b
    requires buf[at + 4] == buf[at + 5] == buf[at + 6] == buf[at + 7] == 0
    ensures U64(buf, at) == a + 0x1_0000 * b
  {
    ZeroByte();
    U16Is(buf, at + 4, 0);
    U16Is(buf, at + 6, 0);
    U32Is(buf, at, a, b);
    U32Is(buf, at + 4, 0, 0);
  }

  lemma HeaderFields(buf: seq<bv8>)
    requires buf == OverlaidFile()
    ensures U16(buf, 16) == 2 && U16(buf, 18) == 0xB7 && U16(buf, 54) == 56 && U16(buf, 56) == 2
    ensures U64(buf, 24) == 0x40_0000 && U64(buf, 32) == 64
  {
    ZeroByte();
    U16Is(buf, 16, 2);
    U16Is(buf, 18, 0xB7);
    U16Is(buf, 54, 56);
    U16Is(buf, 56, 2);
    U16Is(buf, 24, 0);
    U16Is(buf, 26, 0x40);
    U64Is(buf, 24, 0, 0x40);
    U16Is(buf, 32, 64);
    U16Is(buf, 34, 0);
    U64Is(buf, 32, 64, 0);
  }

  lemma CodeFields(buf: seq<bv8>)
    requires buf == OverlaidFile()
    ensures PhdrAt(buf, 64) == Phdr(PT_LOAD, 5, 0, 0x40_0000, 176, 176)
  {
    ZeroByte();
    U16Is(buf, 64, 1);
    U16Is(buf, 66, 0);
    U32Is(buf, 64, 1, 0);
    U16Is(buf, 72, 0);
    U16Is(buf, 74, 0);
    U64Is(buf, 72, 0, 0);
    U16Is(buf, 80, 0);
    U16Is(buf, 82, 0x40);
    U64Is(buf, 80, 0, 0x40);
    U16Is(buf, 96, 176);
    U16Is(buf, 98, 0);
    U64Is(buf, 96, 176, 0);
    U16Is(buf, 104, 176);
    U16Is(buf, 106, 0);
    U64Is(buf, 104, 176, 0);
  }

  lemma DataFields(buf: seq<bv8>)
    requires buf == OverlaidFile()
    ensures PhdrAt(buf, 120) == Phdr(PT_LOAD, 6, 0, 0x40_0800, 0, 16)
  {
    ZeroByte();
    U16Is(buf, 120, 1);
    U16Is(buf, 122, 0);
    U32Is(buf, 120, 1, 0);
    U16Is(buf, 128, 0);
    U16Is(buf, 130, 0);
    U64Is(buf, 128, 0, 0);
    assert (8 as bv8) as nat == 8 && U16(buf, 136) == 0x800;
    U16Is(buf, 138, 0x40);
    U64Is(buf, 136, 0x800, 0x40);
    U16Is(buf, 152, 0);
    U16Is(buf, 154, 0);
    U64Is(buf, 152, 0, 0);
    U16Is(buf, 160, 16);
    U16Is(buf, 162, 0);
    U64Is(buf, 160, 16, 0);
  }

  // ---- the file ----

  function Code(): Phdr {
    Phdr(PT_LOAD, 5, 0, 0x40_0000, 176, 176)
  }

  function Data(): Phdr {
    Phdr(PT_LOAD, 6, 0, 0x40_0800, 0, 16)
  }

  lemma IdentFields(buf: seq<bv8>)
    requires buf == OverlaidFile()
    ensures IdentOk(buf)
  {
    HeaderFields(buf);
    assert buf[0] == 0x7F && buf[1] == 0x45 && buf[2] == 0x4C && buf[3] == 0x46;
    assert buf[4] == 2 && buf[5] == 1 && buf[6] == 1;
  }

  lemma TwoHeaders(buf: seq<bv8>, a: Phdr, b: Phdr)
    requires |buf| == 176 && IdentOk(buf) && PhEntSize(buf) == PHDR_SIZE && PhOff(buf) == 64 && PhNum(buf) == 2
    requires PhdrAt(buf, 64) == a && PhdrAt(buf, 120) == b
    ensures HeaderOk(buf) && Phdrs(buf) == [a, b]
  {
    assert Phdrs(buf)[0] == a && Phdrs(buf)[1] == b;
  }

  lemma FileIs(buf: seq<bv8>)
    requires buf == OverlaidFile()
    ensures HeaderOk(buf) && Entry(buf) == 0x40_0000 && PhOff(buf) == 64 && Phdrs(buf) == [Code(), Data()]
  {
    HeaderFields(buf);
    IdentFields(buf);
    CodeFields(buf);
    DataFields(buf);
    TwoHeaders(buf, Code(), Data());
  }

  lemma TwoSegments()
    ensures AllLoadable([Code(), Data()], 176) && Loads([Code(), Data()]) == 2 && HoldsEntry(Code(), 0x40_0000)
  {
    assert [Code(), Data()][..1] == [Code()] && [Code()][..0] == [];
    assert Loads([Code()]) == 1;
    assert FlagsOk(5) && FlagsOk(6) && Executable(5);
  }

  lemma FileAcceptable(buf: seq<bv8>)
    requires |buf| == 176 && HeaderOk(buf) && Entry(buf) == 0x40_0000 && Phdrs(buf) == [Code(), Data()]
    ensures Acceptable(buf)
  {
    TwoSegments();
    assert HoldsEntry(Phdrs(buf)[0], Entry(buf));
  }

  lemma LastIsData()
    ensures LastCover([Code(), Data()], 0x400) == 2
  {
    assert Covers(Data(), 0x400);
  }

  /** The entry point is in the code segment, and its page is the data segment's, which may not be
      executed. */
  lemma EntryOverlaid()
    ensures var buf := OverlaidFile();
            && Acceptable(buf) && HoldsEntry(Phdrs(buf)[0], Entry(buf))
            && LastCover(Phdrs(buf), Entry(buf) / PAGE) == 2 && !Executable(Phdrs(buf)[1].flags)
  {
    FileIs(OverlaidFile());
    FileAcceptable(OverlaidFile());
    LastIsData();
  }

  /** AT_PHDR is not zero, and the table is not there: its page is the data segment's, which has no
      contents. */
  lemma TableOverlaid()
    ensures var buf := OverlaidFile();
            && Acceptable(buf) && AddressOfTable(Phdrs(buf), PhOff(buf), 112, 0x40_0040)
            && !TableKept(Phdrs(buf), buf, PhOff(buf), 112, 0x40_0040)
  {
    var buf := OverlaidFile();
    FileIs(buf);
    FileAcceptable(buf);
    LastIsData();
    assert CoversTable(Code(), 64, 112) && FirstWithTable(Phdrs(buf), 64, 112, 0);
    assert buf[64] == 1 && SegByte(Data(), buf, 0x40_0040) == 0;
    assert !TableByteKept(Phdrs(buf), buf, 64, 0x40_0040, 0);
  }
}
