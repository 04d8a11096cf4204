/**
 The end of tools/elf2efi.py: headers are sized, the image is shifted above them, the relocation section is appended
 and the file is written. Header contents other than sizes and positions read as zeros.
 */
module PeImage {
  import opened Wrappers
  import opened Bytes
  import opened RelocTable
  import opened Elf2efi
  import opened PeRelocate

  const PE_OFFSET: nat := 64
  const PE_MAGIC_SIZE: nat := 4
  const COFF_HEADER_SIZE: nat := 20
  const SECTION_HEADER_SIZE: nat := 40

  function OptionalHeaderSize(n: nat): nat { if n == 4 then 224 else 240 }

  /** Where the section headers start. */
  function HeaderStart(n: nat): nat { PE_OFFSET + PE_MAGIC_SIZE + COFF_HEADER_SIZE + OptionalHeaderSize(n) }

  datatype Directory = Directory(rva: nat, size: nat)

  datatype Image = Image(
    sections: seq<PeSection>, sizeOfHeaders: nat, shift: nat, entry: nat, relocations: Option<Directory>)

  datatype PeFile = PeFile(wordSize: nat, imageBase: nat, image: Image, sizeOfImage: nat, file: seq<Byte>)

  // ---------- sorted(pe_reloc_blocks) ----------

  predicate IsLeast(s: set<nat>, m: nat) { m in s && forall x | x in s :: m <= x }

  lemma {:induction false} LeastExists(s: set<nat>)
    requires s != {}
    ensures exists m :: IsLeast(s, m)
    decreases |s|
  {
    var y :| y in s;
    if s == {y} {
      assert IsLeast(s, y);
    } else {
      LeastExists(s - {y});
      var m :| IsLeast(s - {y}, m);
      LeastOfTwo(s, y, m);
    }
  }

  lemma LeastOfTwo(s: set<nat>, y: nat, m: nat)
    requires y in s && IsLeast(s - {y}, m)
    ensures IsLeast(s, if m <= y then m else y)
  {
    assert forall x | x in s :: x == y || x in s - {y};
  }

  function Least(s: set<nat>): (m: nat)
    requires s != {}
    ensures IsLeast(s, m)
  {
    LeastExists(s);
    var m :| IsLeast(s, m);
    m
  }

  function SortedSet(s: set<nat>): (r: seq<nat>)
    ensures Increasing(r) && forall x :: x in r <==> x in s
  {
    if s == {} then [] else
      var m := Least(s);
      [m] + SortedSet(s - {m})
  }

  // ---------- convert_elf_relocations ----------

  function MaxInt(a: int, b: int): int { if a > b then a else b }

  function SizeOfHeaders(n: nat, sections: nat, minimumSections: int): nat
  {
    AlignTo(HeaderStart(n) + SECTION_HEADER_SIZE * MaxInt(sections + 1, minimumSections), FILE_ALIGNMENT)
  }

  function SegmentOffset(first: nat, sizeOfHeaders: nat): nat
  {
    if first < sizeOfHeaders then AlignTo(sizeOfHeaders - first, SECTION_ALIGNMENT) else 0
  }

  function Moved(s: PeSection, shift: nat): PeSection { s.(vaddr := s.vaddr + shift) }

  function MovedAll(ss: seq<PeSection>, shift: nat): seq<PeSection>
  {
    seq(|ss|, i requires 0 <= i < |ss| => Moved(ss[i], shift))
  }

  lemma MovedLayout(ss: seq<PeSection>, shift: nat)
    requires Ordered(ss) && Aligned(ss) && shift % SECTION_ALIGNMENT == 0
    ensures Ordered(MovedAll(ss, shift)) && Aligned(MovedAll(ss, shift))
    ensures AllSized(ss) ==> AllSized(MovedAll(ss, shift))
  {
    assert forall i | 0 <= i < |ss| :: Sized(ss[i]) ==> Sized(Moved(ss[i], shift));
  }

  /** The loop that emits the blocks in order of their pages. */
  method EmitTable(blocks: Blocks, shift: nat) returns (data: seq<Byte>)
    ensures AllPages(blocks, SortedSet(blocks.Keys))
    ensures data == TableBytes(blocks, SortedSet(blocks.Keys), shift)
  {
    hide BlockBytes, SortByOffset, TableBytes, SortedSet, Padded, AllPages;
    var pages := SortedSet(blocks.Keys);
    KeysArePages(blocks);
    data := [];
    TableEmpty(blocks, shift);
    PagesPrefix(blocks, pages, 0);
    assert pages[..0] == [];
    for i := 0 to |pages|
      invariant AllPages(blocks, pages[..i]) && data == TableBytes(blocks, pages[..i], shift)
    {
      PagesPrefix(blocks, pages, i);
      PagesPrefix(blocks, pages, i + 1);
      TableLast(blocks, pages[..i + 1], shift);
      assert pages[..i + 1][..i] == pages[..i];
      var entries := SortByOffset(Padded(blocks[pages[i]]));
      data := data + BlockBytes(pages[i] + shift, entries);
    }
    assert pages[..|pages|] == pages;
  }

  lemma KeysArePages(blocks: Blocks)
    ensures AllPages(blocks, SortedSet(blocks.Keys)) && ListsPages(blocks, SortedSet(blocks.Keys))
  {
    var pages := SortedSet(blocks.Keys);
    forall i | 0 <= i < |pages| ensures pages[i] in blocks { assert pages[i] in pages; }
  }

  lemma PagesPrefix(blocks: Blocks, pages: seq<nat>, i: nat)
    requires AllPages(blocks, pages) && i <= |pages|
    ensures AllPages(blocks, pages[..i]) && (i < |pages| ==> pages[i] in blocks)
  {
  }

  /** What the conversion yields for the sections `ss0` of the file. */
  ghost predicate Relocated(elf: Elf, imageBase: nat, ss0: seq<PeSection>, img: Image)
  {
    var rs := AllRelative(elf.tables);
    var ss, blocks := AllApplied(rs, imageBase + img.shift, ss0, elf.wordSize), AllEntries(rs, elf.wordSize);
    ss.Some? && AllPages(blocks, SortedSet(blocks.Keys)) && Assembled(img, ss.value, blocks)
  }

  /** The shifted sections, and the relocation table behind them if there is any relocation. */
  ghost predicate Assembled(img: Image, ss: seq<PeSection>, blocks: Blocks)
    requires AllPages(blocks, SortedSet(blocks.Keys))
  {
    var moved := MovedAll(ss, img.shift);
    if blocks == map[] then img.sections == moved && img.relocations == None
    else
      var table := TableBytes(blocks, SortedSet(blocks.Keys), img.shift);
      && moved != []
      && img.sections == moved + [AppendedSection(moved, ".reloc", table, Discardable, false)]
      && img.relocations == Some(Directory(NextSectionAddress(moved), |table|))
  }

  /** The layout of the image in memory. */
  predicate LaidOut(img: Image, n: nat)
  {
    && img.sections != [] && Ordered(img.sections) && Aligned(img.sections)
    && img.sections[0].vaddr >= img.sizeOfHeaders
    && img.shift % SECTION_ALIGNMENT == 0
    && img.sizeOfHeaders % FILE_ALIGNMENT == 0
    && HeaderStart(n) + SECTION_HEADER_SIZE * |img.sections| <= img.sizeOfHeaders
  }

  /** The shift that lifts the first section above the headers. */
  function ShiftFor(n: nat, ss0: seq<PeSection>, minimumSections: int): nat
    requires ss0 != []
  {
    SegmentOffset(ss0[0].vaddr, SizeOfHeaders(n, |ss0|, minimumSections))
  }

  ghost predicate CanRelocate(elf: Elf, imageBase: nat, ss0: seq<PeSection>, minimumSections: int)
  {
    && elf.isPie && ss0 != []
    && Relocates(elf.tables, imageBase + ShiftFor(elf.wordSize, ss0, minimumSections), ss0, elf.wordSize)
  }

  method ConvertElfRelocations(elf: Elf, imageBase: nat, ss0: seq<PeSection>, minimumSections: int)
    returns (r: Result<Image>)
    requires WellFormed(elf) && Ordered(ss0) && Aligned(ss0)
    ensures r.Ok? <==> CanRelocate(elf, imageBase, ss0, minimumSections)
    ensures r.Ok? ==>
      && LaidOut(r.value, elf.wordSize)
      && r.value.shift == ShiftFor(elf.wordSize, ss0, minimumSections)
      && r.value.sizeOfHeaders == SizeOfHeaders(elf.wordSize, |ss0|, minimumSections)
      && r.value.entry == elf.entry + r.value.shift
      && Relocated(elf, imageBase, ss0, r.value)
  {
    hide WellFormed, SameHeaders, HeaderStart, AllRelative, SizeOfHeaders, SegmentOffset, Assembled, LaidOut, Ordered,
      Aligned, SortedSet, Increasing, AllPages, Relocates, AllApplied, AllEntries;
    WordSizeIs(elf);
    if !elf.isPie || ss0 == [] {
      return Err;
    }
    var n := elf.wordSize;
    var sizeOfHeaders := SizeOfHeaders(n, |ss0|, minimumSections);
    var shift := SegmentOffset(ss0[0].vaddr, sizeOfHeaders);
    HeadersFit(n, |ss0|, minimumSections, ss0[0].vaddr);
    var entry := elf.entry + shift;
    var tables := ConvertTables(elf.tables, imageBase + shift, n, ss0);
    if tables.Err? {
      return Err;
    }
    var ss, blocks := tables.value.0, tables.value.1;
    AppliedHeaders(AllRelative(elf.tables), imageBase + shift, ss0, n);
    var img := Assemble(ss, blocks, shift, sizeOfHeaders, entry);
    IsLaidOut(img, n, |ss0|);
    return Ok(img);
  }

  lemma WordSizeIs(elf: Elf)
    requires WellFormed(elf)
    ensures elf.wordSize > 0
  {
  }

  lemma AppliedHeaders(rs: seq<Reloc>, base: nat, ss0: seq<PeSection>, n: nat)
    requires AllApplied(rs, base, ss0, n).Some? && Ordered(ss0) && Aligned(ss0) && ss0 != []
    ensures var ss := AllApplied(rs, base, ss0, n).value;
      SameHeaders(ss0, ss) && Ordered(ss) && Aligned(ss) && |ss| == |ss0| && ss[0].vaddr == ss0[0].vaddr
  {
    hide AllApplied;
    AllAppliedLonger(rs, base, ss0, n);
  }

  /** The sections are moved up, and the relocation table is put behind them. */
  method Assemble(ss: seq<PeSection>, blocks: Blocks, shift: nat, sizeOfHeaders: nat, entry: nat) returns (img: Image)
    requires ss != [] && Ordered(ss) && Aligned(ss) && shift % SECTION_ALIGNMENT == 0
    ensures AllPages(blocks, SortedSet(blocks.Keys)) && Assembled(img, ss, blocks)
    ensures img.shift == shift && img.sizeOfHeaders == sizeOfHeaders && img.entry == entry
    ensures |ss| <= |img.sections| <= |ss| + 1 && img.sections[0].vaddr == ss[0].vaddr + shift
    ensures Ordered(img.sections) && Aligned(img.sections)
  {
    MovedLayout(ss, shift);
    hide Ordered, Aligned, TableBytes, SortedSet, AllPages, AllSized, AppendedSection, Assembled, NextSectionAddress;
    var moved := MoveSections(ss, shift);
    var table := EmitTable(blocks, shift);
    if |blocks| == 0 {
      img := Image(moved, sizeOfHeaders, shift, entry, None);
      AssembledPlain(img, ss, blocks);
    } else {
      var all := Append(moved, ".reloc", table, Discardable, false);
      img := Image(all, sizeOfHeaders, shift, entry, Some(Directory(NextSectionAddress(moved), |table|)));
      AssembledWithTable(img, ss, blocks, table);
    }
  }

  method MoveSections(ss: seq<PeSection>, shift: nat) returns (moved: seq<PeSection>)
    ensures moved == MovedAll(ss, shift)
  {
    moved := [];
    for i := 0 to |ss|
      invariant moved == MovedAll(ss[..i], shift)
    {
      moved := moved + [Moved(ss[i], shift)];
      assert ss[..i + 1] == ss[..i] + [ss[i]];
    }
    assert ss[..|ss|] == ss;
  }

  lemma HeadersFit(n: nat, sections: nat, minimumSections: int, first: nat)
    ensures var h := SizeOfHeaders(n, sections, minimumSections);
      && HeaderStart(n) + SECTION_HEADER_SIZE * (sections + 1) <= h && h % FILE_ALIGNMENT == 0
      && first + SegmentOffset(first, h) >= h && SegmentOffset(first, h) % SECTION_ALIGNMENT == 0
  {
    AlignToIs(HeaderStart(n) + SECTION_HEADER_SIZE * MaxInt(sections + 1, minimumSections), FILE_ALIGNMENT);
    var h := SizeOfHeaders(n, sections, minimumSections);
    if first < h { AlignToIs(h - first, SECTION_ALIGNMENT); }
  }

  lemma AssembledPlain(img: Image, ss: seq<PeSection>, blocks: Blocks)
    requires AllPages(blocks, SortedSet(blocks.Keys)) && |blocks| == 0
    requires img.sections == MovedAll(ss, img.shift) && img.relocations == None
    ensures Assembled(img, ss, blocks)
  {
    assert blocks == map[];
  }

  lemma AssembledWithTable(img: Image, ss: seq<PeSection>, blocks: Blocks, table: seq<Byte>)
    requires AllPages(blocks, SortedSet(blocks.Keys)) && |blocks| != 0 && ss != []
    requires table == TableBytes(blocks, SortedSet(blocks.Keys), img.shift)
    requires var moved := MovedAll(ss, img.shift);
      && img.sections == moved + [AppendedSection(moved, ".reloc", table, Discardable, false)]
      && img.relocations == Some(Directory(NextSectionAddress(moved), |table|))
    ensures Assembled(img, ss, blocks)
  {
    hide TableBytes;
  }

  lemma IsLaidOut(img: Image, n: nat, count: nat)
    requires img.sections != [] && Ordered(img.sections) && Aligned(img.sections) && |img.sections| <= count + 1
    requires img.sections[0].vaddr >= img.sizeOfHeaders && img.shift % SECTION_ALIGNMENT == 0
    requires img.sizeOfHeaders % FILE_ALIGNMENT == 0
    requires HeaderStart(n) + SECTION_HEADER_SIZE * (count + 1) <= img.sizeOfHeaders
    ensures LaidOut(img, n)
  {
  }

  // ---------- write_pe ----------

  function InsertByAddress(s: PeSection, ss: seq<PeSection>): seq<PeSection>
  {
    if ss == [] || s.vaddr < ss[0].vaddr then [s] + ss else [ss[0]] + InsertByAddress(s, ss[1..])
  }

  /** `sorted(sections, key=VirtualAddress)`, which keeps the order of equal keys. */
  function SortByAddress(ss: seq<PeSection>): seq<PeSection>
  {
    if ss == [] then [] else InsertByAddress(ss[|ss| - 1], SortByAddress(ss[..|ss| - 1]))
  }

  lemma {:induction false} InsertLast(s: PeSection, ss: seq<PeSection>)
    requires forall i | 0 <= i < |ss| :: ss[i].vaddr <= s.vaddr
    ensures InsertByAddress(s, ss) == ss + [s]
  {
    if ss != [] { InsertLast(s, ss[1..]); }
  }

  /** Sections that are laid out one after the other are already sorted. */
  lemma {:induction false} OrderedIsSorted(ss: seq<PeSection>)
    requires Ordered(ss)
    ensures SortByAddress(ss) == ss
    decreases |ss|
  {
    if ss != [] {
      var k := |ss| - 1;
      OrderedIsSorted(ss[..k]);
      forall i | 0 <= i < k ensures ss[..k][i].vaddr <= ss[k].vaddr {
        assert End(ss[i]) <= ss[k].vaddr;
      }
      InsertLast(ss[k], ss[..k]);
    }
  }

  /** The file position of the data of section `i`; for `i == |ss|`, the end of the file. */
  function Pointer(ss: seq<PeSection>, sizeOfHeaders: nat, i: nat): nat
    requires i <= |ss|
  {
    if i == 0 then sizeOfHeaders
    else AlignTo(Pointer(ss, sizeOfHeaders, i - 1) + |ss[i - 1].data|, FILE_ALIGNMENT)
  }

  function WithPointers(ss: seq<PeSection>, sizeOfHeaders: nat): seq<PeSection>
  {
    seq(|ss|, i requires 0 <= i < |ss| => ss[i].(rawPtr := Pointer(ss, sizeOfHeaders, i)))
  }

  /** The data of the section is where its header says. */
  predicate InFile(s: PeSection, file: seq<Byte>)
  {
    s.rawPtr + |s.data| <= |file| && file[s.rawPtr..s.rawPtr + |s.data|] == s.data
  }

  lemma PointerStep(ss: seq<PeSection>, sizeOfHeaders: nat, i: nat)
    requires i < |ss| && sizeOfHeaders % FILE_ALIGNMENT == 0
    ensures var p, q := Pointer(ss, sizeOfHeaders, i), Pointer(ss, sizeOfHeaders, i + 1);
      p + |ss[i].data| <= q && p % FILE_ALIGNMENT == 0 && q == p + AlignTo(|ss[i].data|, FILE_ALIGNMENT)
    ensures Pointer(ss, sizeOfHeaders, i) >= sizeOfHeaders
    decreases i
  {
    hide Pointer, AlignTo;
    PointerZero(ss, sizeOfHeaders);
    if i > 0 {
      PointerStep(ss, sizeOfHeaders, i - 1);
      PointerNext(ss, sizeOfHeaders, i - 1);
      AlignToIs(Pointer(ss, sizeOfHeaders, i - 1) + |ss[i - 1].data|, FILE_ALIGNMENT);
    }
    PointerNext(ss, sizeOfHeaders, i);
    AlignSum(Pointer(ss, sizeOfHeaders, i), |ss[i].data|);
    AlignToIs(|ss[i].data|, FILE_ALIGNMENT);
  }

  lemma AlignSum(p: nat, x: nat)
    requires p % FILE_ALIGNMENT == 0
    ensures AlignTo(p + x, FILE_ALIGNMENT) == p + AlignTo(x, FILE_ALIGNMENT)
  {
    assert (p + (x + 511)) % 512 == (x + 511) % 512;
  }

  /** `seek()` and `write()`; a gap before the position is filled with zeros. */
  function Put(file: seq<Byte>, pos: nat, data: seq<Byte>): seq<Byte>
  {
    if data == [] then file
    else if pos >= |file| then file + Zeros(pos - |file|) + data
    else file[..pos] + data + file[Min(pos + |data|, |file|)..]
  }

  lemma PutBehind(file: seq<Byte>, s: PeSection)
    requires |file| <= s.rawPtr
    ensures var f := Put(file, s.rawPtr, s.data);
      file <= f && |f| <= s.rawPtr + |s.data| && (s.data != [] ==> InFile(s, f))
  {
  }

  function Truncated(file: seq<Byte>, size: nat): seq<Byte>
  {
    if size <= |file| then file[..size] else file + Zeros(size - |file|)
  }

  lemma TruncatedIs(file: seq<Byte>, size: nat)
    requires |file| <= size
    ensures file <= Truncated(file, size) && |Truncated(file, size)| == size
  {
  }

  lemma RoomForHeaders(img: Image, n: nat)
    requires LaidOut(img, n)
    ensures HeaderStart(n) + SECTION_HEADER_SIZE * |img.sections| <= img.sizeOfHeaders
    ensures img.sizeOfHeaders % FILE_ALIGNMENT == 0
  {
  }

  /** The first loop: positions, one section header each, and the overlap check that cannot fail. */
  method PlaceSections(img: Image, n: nat) returns (ok: bool, ss: seq<PeSection>, offset: nat, tell: nat)
    requires LaidOut(img, n)
    ensures ok
    ensures ss == WithPointers(img.sections, img.sizeOfHeaders)
    ensures offset == Pointer(img.sections, img.sizeOfHeaders, |img.sections|)
    ensures tell == HeaderStart(n) + SECTION_HEADER_SIZE * |img.sections|
  {
    hide LaidOut, Ordered, Aligned, Pointer, AlignTo, SortByAddress, HeaderStart, WithPointers;
    ok, ss, offset, tell := true, [], img.sizeOfHeaders, HeaderStart(n);
    AlreadySorted(img, n);
    PointerZero(img.sections, img.sizeOfHeaders);
    var order := SortByAddress(img.sections);
    ghost var all := WithPointers(img.sections, img.sizeOfHeaders);
    PointersLength(img.sections, img.sizeOfHeaders);
    for i := 0 to |order|
      invariant ss == all[..i] && offset == Pointer(img.sections, img.sizeOfHeaders, i)
      invariant tell == HeaderStart(n) + SECTION_HEADER_SIZE * i
    {
      AboveHeaders(img, n, i);
      PointerNext(img.sections, img.sizeOfHeaders, i);
      if order[i].vaddr < img.sizeOfHeaders {
        ok := false;
        return;
      }
      ss := ss + [order[i].(rawPtr := offset)];
      tell := tell + SECTION_HEADER_SIZE;
      offset := AlignTo(offset + |order[i].data|, FILE_ALIGNMENT);
    }
    assert all[..|order|] == all;
  }

  lemma PointersLength(ss: seq<PeSection>, sizeOfHeaders: nat)
    ensures var all := WithPointers(ss, sizeOfHeaders);
      |all| == |ss| && forall i | 0 <= i < |ss| :: all[i] == ss[i].(rawPtr := Pointer(ss, sizeOfHeaders, i))
  {
  }

  lemma AlreadySorted(img: Image, n: nat)
    requires LaidOut(img, n)
    ensures SortByAddress(img.sections) == img.sections
  {
    OrderedIsSorted(img.sections);
  }

  lemma AboveHeaders(img: Image, n: nat, i: nat)
    requires LaidOut(img, n) && i < |img.sections|
    ensures img.sections[i].vaddr >= img.sizeOfHeaders
  {
    assert i > 0 ==> End(img.sections[0]) <= img.sections[i].vaddr;
  }

  lemma PointerNext(ss: seq<PeSection>, sizeOfHeaders: nat, i: nat)
    requires i < |ss|
    ensures Pointer(ss, sizeOfHeaders, i + 1) == AlignTo(Pointer(ss, sizeOfHeaders, i) + |ss[i].data|, FILE_ALIGNMENT)
  {
  }

  method WritePe(img: Image, n: nat) returns (ss: seq<PeSection>, file: seq<Byte>)
    requires LaidOut(img, n)
    ensures ss == WithPointers(img.sections, img.sizeOfHeaders)
    ensures |file| == Pointer(img.sections, img.sizeOfHeaders, |img.sections|)
    ensures forall i | 0 <= i < |ss| :: InFile(ss[i], file)
  {
    hide Put, LaidOut, Pointer, Truncated, InFile, HeaderStart;
    RoomForHeaders(img, n);
    PointerZero(img.sections, img.sizeOfHeaders);
    var ok, offset, tell;
    ok, ss, offset, tell := PlaceSections(img, n);
    assert tell <= img.sizeOfHeaders;
    file := Zeros(tell);
    for i := 0 to |ss|
      invariant |file| <= Pointer(img.sections, img.sizeOfHeaders, i)
      invariant forall j | 0 <= j < i :: ss[j].data == [] || InFile(ss[j], file)
    {
      PointerStep(img.sections, img.sizeOfHeaders, i);
      PutBehind(file, ss[i]);
      ghost var before := file;
      file := Put(file, ss[i].rawPtr, ss[i].data);
      forall j | 0 <= j < i ensures ss[j].data == [] || InFile(ss[j], file) {
        if ss[j].data != [] { InFileLonger(ss[j], before, file); }
      }
    }
    TruncatedIs(file, offset);
    ghost var before := file;
    file := Truncated(file, offset);
    forall j | 0 <= j < |ss| ensures InFile(ss[j], file) {
      PointersGrow(img.sections, img.sizeOfHeaders, j);
      if ss[j].data != [] { InFileLonger(ss[j], before, file); } else { NothingInFile(ss[j], file); }
    }
  }

  lemma InFileLonger(s: PeSection, file: seq<Byte>, longer: seq<Byte>)
    requires InFile(s, file) && file <= longer
    ensures InFile(s, longer)
  {
    assert longer[s.rawPtr..s.rawPtr + |s.data|] == file[s.rawPtr..s.rawPtr + |s.data|];
  }

  lemma NothingInFile(s: PeSection, file: seq<Byte>)
    requires s.data == [] && s.rawPtr <= |file|
    ensures InFile(s, file)
  {
  }

  lemma {:induction false} PointersGrow(ss: seq<PeSection>, sizeOfHeaders: nat, i: nat)
    requires i <= |ss| && sizeOfHeaders % FILE_ALIGNMENT == 0
    ensures Pointer(ss, sizeOfHeaders, i) <= Pointer(ss, sizeOfHeaders, |ss|)
    decreases |ss| - i
  {
    if i < |ss| {
      PointerStep(ss, sizeOfHeaders, i);
      PointersGrow(ss, sizeOfHeaders, i + 1);
    }
  }

  /** The raw data, as the headers describe it, fills the file from the headers to the end without gap or overlap. */
  predicate RawTiles(ss: seq<PeSection>, sizeOfHeaders: nat, fileSize: nat)
  {
    && (forall i | 0 <= i < |ss| :: ss[i].rawPtr % FILE_ALIGNMENT == 0 && ss[i].rawSize % FILE_ALIGNMENT == 0)
    && (ss != [] ==> ss[0].rawPtr == sizeOfHeaders)
    && (forall i | 0 <= i < |ss| - 1 :: ss[i].rawPtr + ss[i].rawSize == ss[i + 1].rawPtr)
    && (ss != [] ==> ss[|ss| - 1].rawPtr + ss[|ss| - 1].rawSize == fileSize)
  }

  /** It does so exactly if no section's data has outgrown the size recorded for it. */
  lemma TilesExactly(ss: seq<PeSection>, sizeOfHeaders: nat)
    requires sizeOfHeaders % FILE_ALIGNMENT == 0
    ensures RawTiles(WithPointers(ss, sizeOfHeaders), sizeOfHeaders, Pointer(ss, sizeOfHeaders, |ss|)) <==>
      forall i | 0 <= i < |ss| :: ss[i].rawSize == AlignTo(|ss[i].data|, FILE_ALIGNMENT)
  {
    hide Pointer, AlignTo;
    PointerZero(ss, sizeOfHeaders);
    forall i | 0 <= i < |ss|
      ensures Pointer(ss, sizeOfHeaders, i) % FILE_ALIGNMENT == 0
      ensures AlignTo(|ss[i].data|, FILE_ALIGNMENT) % FILE_ALIGNMENT == 0
      ensures Pointer(ss, sizeOfHeaders, i + 1) == Pointer(ss, sizeOfHeaders, i) + AlignTo(|ss[i].data|, FILE_ALIGNMENT)
    {
      PointerStep(ss, sizeOfHeaders, i);
      AlignToIs(|ss[i].data|, FILE_ALIGNMENT);
    }
    if RawTiles(WithPointers(ss, sizeOfHeaders), sizeOfHeaders, Pointer(ss, sizeOfHeaders, |ss|)) {
      forall i | 0 <= i < |ss| ensures ss[i].rawSize == AlignTo(|ss[i].data|, FILE_ALIGNMENT) {
        TileSize(ss, sizeOfHeaders, i);
      }
    }
  }

  lemma TileSize(ss: seq<PeSection>, sizeOfHeaders: nat, i: nat)
    requires i < |ss|
    requires RawTiles(WithPointers(ss, sizeOfHeaders), sizeOfHeaders, Pointer(ss, sizeOfHeaders, |ss|))
    ensures Pointer(ss, sizeOfHeaders, i) + ss[i].rawSize == Pointer(ss, sizeOfHeaders, i + 1)
  {
    hide Pointer;
    var ps := WithPointers(ss, sizeOfHeaders);
    if i + 1 < |ss| {
      assert ps[i].rawPtr + ps[i].rawSize == ps[i + 1].rawPtr;
    }
  }

  lemma PointerZero(ss: seq<PeSection>, sizeOfHeaders: nat)
    ensures Pointer(ss, sizeOfHeaders, 0) == sizeOfHeaders
  {
  }

  /** Whether a recorded size is still that of the data, for data that has at most grown. */
  lemma StillSized(size: nat, data: nat, rawSize: nat)
    requires rawSize == AlignTo(size, FILE_ALIGNMENT) && size <= data
    ensures rawSize == AlignTo(data, FILE_ALIGNMENT) <==> data <= rawSize
  {
    AlignToIs(size, FILE_ALIGNMENT);
    AlignToIs(data, FILE_ALIGNMENT);
    hide AlignTo;
    SameMultiple(AlignTo(data, FILE_ALIGNMENT), rawSize);
  }

  lemma SameMultiple(a: nat, b: nat)
    requires a % 512 == 0 && b % 512 == 0
    ensures a < b + 512 && b < a + 512 ==> a == b
  {
  }

  lemma SizesExactly(ss0: seq<PeSection>, ss: seq<PeSection>)
    requires AllSized(ss0) && LongerData(ss0, ss)
    ensures WithinRaw(ss) <==> forall i | 0 <= i < |ss| :: ss[i].rawSize == AlignTo(|ss[i].data|, FILE_ALIGNMENT)
  {
    hide AlignTo;
    forall i | 0 <= i < |ss|
      ensures |ss[i].data| <= ss[i].rawSize <==> ss[i].rawSize == AlignTo(|ss[i].data|, FILE_ALIGNMENT)
    {
      assert Sized(ss0[i]);
      StillSized(|ss0[i].data|, |ss[i].data|, ss[i].rawSize);
    }
  }

  /** The moved sections, and the table, which is always sized by its data. */
  lemma AssembledSizes(img: Image, ss: seq<PeSection>, blocks: Blocks)
    requires AllPages(blocks, SortedSet(blocks.Keys)) && Assembled(img, ss, blocks)
    ensures |ss| <= |img.sections|
    ensures forall i | 0 <= i < |ss| :: img.sections[i] == Moved(ss[i], img.shift)
    ensures forall i | |ss| <= i < |img.sections| :: Sized(img.sections[i])
  {
    hide TableBytes, SortedSet, AllPages, NextSectionAddress, AlignTo;
  }

  /**
   A converted file is tiled by the raw data of its sections if and only if no relocated word reaches over the raw
   size of the section in which it starts.
   */
  lemma ConversionTilesExactly(elf: Elf, imageBase: nat, ss0: seq<PeSection>, img: Image)
    requires Ordered(ss0) && Aligned(ss0) && AllSized(ss0)
    requires Relocated(elf, imageBase, ss0, img) && img.sizeOfHeaders % FILE_ALIGNMENT == 0
    ensures
      RawTiles(WithPointers(img.sections, img.sizeOfHeaders), img.sizeOfHeaders,
               Pointer(img.sections, img.sizeOfHeaders, |img.sections|))
      <==> NoneStraddles(ss0, AllRelative(elf.tables), elf.wordSize)
  {
    hide Pointer, WithPointers, AlignTo, RawTiles, Assembled, SortedSet, AllPages, Increasing, AllRelative, AllApplied,
      NoneStraddles, WithinRaw, Spaced, LongerData, AllSized, Ordered, Aligned, AllEntries;
    var rs, n := AllRelative(elf.tables), elf.wordSize;
    var ss := AllApplied(rs, imageBase + img.shift, ss0, n).value;
    LaidOutIsSpaced(ss0);
    GrowthExactly(rs, imageBase + img.shift, ss0, n);
    AllAppliedLonger(rs, imageBase + img.shift, ss0, n);
    SizesExactly(ss0, ss);
    AssembledSizes(img, ss, AllEntries(rs, n));
    TilesExactly(img.sections, img.sizeOfHeaders);
    SizedExactly(img.sections, ss, img.shift);
  }

  lemma SizedExactly(all: seq<PeSection>, ss: seq<PeSection>, shift: nat)
    requires |ss| <= |all| && (forall i | 0 <= i < |ss| :: all[i] == Moved(ss[i], shift))
    requires forall i | |ss| <= i < |all| :: Sized(all[i])
    ensures (forall i | 0 <= i < |all| :: all[i].rawSize == AlignTo(|all[i].data|, FILE_ALIGNMENT))
       <==> (forall i | 0 <= i < |ss| :: ss[i].rawSize == AlignTo(|ss[i].data|, FILE_ALIGNMENT))
  {
    hide AlignTo;
    if forall i | 0 <= i < |all| :: all[i].rawSize == AlignTo(|all[i].data|, FILE_ALIGNMENT) {
      forall i | 0 <= i < |ss| ensures ss[i].rawSize == AlignTo(|ss[i].data|, FILE_ALIGNMENT) {
        assert all[i].rawSize == AlignTo(|all[i].data|, FILE_ALIGNMENT);
      }
    }
  }
}
