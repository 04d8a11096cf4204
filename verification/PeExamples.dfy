/**
 Three ELF files that the converter takes. In the first a relocation reaches over the end of its section, and the image
 is not tiled by its raw data. In the second a relocation is listed twice, and in the third two relocations overlap; the
 images of both are not faithful at some base address.
 */
module PeExamples {
  import opened Wrappers
  import opened Bytes
  import opened RelocTable
  import opened Elf2efi
  import opened PeRelocate
  import opened PeImage
  import opened PeLoader

  /** A section of 512 zeros on the second page. */
  function Section(): ElfSection
  {
    ElfSection(".data", "SHT_NOBITS", true, false, true, false, 4096, 512, 8, [])
  }

  /** The word at `o` is the base address. */
  function Pointer8(o: nat): Reloc { Reloc(Relative, o, Some(0)) }

  predicate InSection(rs: seq<Reloc>)
  {
    forall i | 0 <= i < |rs| :: rs[i] == Pointer8(rs[i].offset) && 4096 <= rs[i].offset < 4608
  }

  /** A file of that one section and relocations in it. */
  function Holding(rs: seq<Reloc>): Elf
  {
    Elf(8, [4096], [Section()], 4096, true, [RelocTab(true, rs)])
  }

  lemma SectionIsCopied()
    ensures IsCopied(Section()) && |Data(Section())| == 512
  {
    assert |"SHT_NOBITS"| == 10 && "SHT_NOBITS"[4] == 'N' && "SHT_NOBITS"[6] == 'B';
    assert ".data"[1] == 'd';
  }

  /** The one section of the PE image. */
  function Placed(): PeSection { Paged(Begun(Section())) }

  lemma AlreadyPaged(x: nat)
    requires x % 4096 == 0
    ensures AlignDown(x, 4096) == x
  {
  }

  lemma AlreadyRounded(x: nat)
    requires x % 512 == 0
    ensures AlignTo(x, 512) == x
  {
    AlignToIs(x, 512);
    hide AlignTo;
    SameMultiple(AlignTo(x, 512), x);
  }

  lemma PlacedIs()
    ensures var p := Placed(); p.vaddr == 4096 && |p.data| == 512 && p.rawSize == 512 && !p.frozen
  {
    hide Data, AlignDown, AlignTo, IsCopied, Protection, Zeros;
    SectionIsCopied();
    AlreadyPaged(4096);
    AlreadyRounded(512);
    PagedShape(Begun(Section()));
    PagedIs(Begun(Section()));
  }

  lemma HoldingLayout(rs: seq<Reloc>)
    ensures LaysOut(Holding(rs), []) && Layout(Holding(rs), []) == [Placed()]
  {
    SectionIsCopied();
    hide IsCopied, Data, Placed, Paged, Begun;
    var es := [Section()];
    assert es[..0] == [];
    assert Merged([]) == [] && Merged(es) == [Begun(Section())];
    assert LastCopied([]) == None && Mergeable([]) && Mergeable(es);
    assert PagedAll([Begun(Section())]) == [Paged(Begun(Section()))];
    assert Paged(Begun(Section())) == Placed() by { SamePlaced(); }
  }

  lemma SamePlaced()
    ensures Placed() == Paged(Begun(Section()))
  {
  }

  lemma NoShift()
    ensures ShiftFor(8, [Placed()], 0) == 0
  {
    PlacedIs();
    hide Placed;
    assert SizeOfHeaders(8, 1, 0) == 512;
  }

  lemma {:induction false} AllOfThem(rs: seq<Reloc>)
    requires InSection(rs)
    ensures RelativeOnes(rs) == rs
  {
    if rs != [] {
      var k := |rs| - 1;
      AllOfThem(rs[..k]);
      assert rs[..k] + [rs[k]] == rs;
    }
  }

  lemma HoldingRelocations(rs: seq<Reloc>)
    requires InSection(rs)
    ensures AllRelative(Holding(rs).tables) == rs && AllKnown(Holding(rs).tables)
  {
    AllOfThem(rs);
    hide RelativeOnes;
    var tables := Holding(rs).tables;
    assert tables[..0] == [] && AllRelative([]) == [];
  }

  lemma {:induction false} TheyApply(rs: seq<Reloc>, base: nat)
    requires InSection(rs) && base < Modulus(8)
    ensures AllApplied(rs, base, [Placed()], 8).Some?
    decreases |rs|
  {
    hide Placed, Applied, Modulus;
    if rs != [] {
      var k := |rs| - 1;
      TheyApply(rs[..k], base);
      PlacedIs();
      AllAppliedLonger(rs[..k], base, [Placed()], 8);
      var ss := AllApplied(rs[..k], base, [Placed()], 8).value;
      assert OnlyHit(ss, rs[k].offset, 0) && Addend(rs[k], ss[0], 8) == 0;
      assert Relocatable(rs[k], base, ss, 8);
      AppliedExactly(rs[k], base, ss, 8);
    }
  }

  lemma HoldingConverts(rs: seq<Reloc>, imageBase: nat)
    requires InSection(rs) && imageBase < Modulus(8)
    ensures WellFormed(Holding(rs)) && Convertible(Holding(rs), [], imageBase, 0)
  {
    hide Placed, LaysOut, Layout, AllRelative, AllApplied, AllKnown, ShiftFor, Modulus, InSection;
    HoldingLayout(rs);
    NoShift();
    HoldingRelocations(rs);
    TheyApply(rs, imageBase);
    assert [Placed()] != [];
  }

  // ---------- over the end of a section ----------

  /** A word of eight bytes that starts four bytes before the end of the section. */
  function Straddling(): Elf { Holding([Pointer8(4604)]) }

  lemma ItStraddles()
    ensures !NoneStraddles([Placed()], [Pointer8(4604)], 8)
  {
    hide Placed;
    PlacedIs();
    assert !Whole([Placed()][0], [Pointer8(4604)][0].offset, 8);
  }

  /** At every image base the converter takes this file, and what it makes of it is not tiled by its raw data. */
  lemma StraddlingIsNotTiled(imageBase: nat, img: Image)
    requires imageBase < Modulus(8) && LaysOut(Straddling(), []) && img.sizeOfHeaders % FILE_ALIGNMENT == 0
    requires Relocated(Straddling(), imageBase, Layout(Straddling(), []), img)
    ensures Convertible(Straddling(), [], imageBase, 0)
    ensures !RawTiles(WithPointers(img.sections, img.sizeOfHeaders), img.sizeOfHeaders,
                      Pointer(img.sections, img.sizeOfHeaders, |img.sections|))
  {
    hide Placed, Layout, AllRelative, RawTiles, WithPointers, Pointer, Relocated, NoneStraddles, Ordered, Aligned,
      AllSized, AllCovered, Convertible, WellFormed, Modulus;
    var rs := [Pointer8(4604)];
    HoldingConverts(rs, imageBase);
    HoldingLayout(rs);
    HoldingRelocations(rs);
    ItStraddles();
    LayoutIs(Straddling(), []);
    ConversionTilesExactly(Straddling(), imageBase, Layout(Straddling(), []), img);
  }

  // ---------- the image is small ----------

  lemma OnePage(rs: seq<Reloc>)
    requires InSection(rs) && rs != []
    ensures var blocks := AllEntries(rs, 8);
      blocks.Keys == {4096} && SortedSet(blocks.Keys) == [4096] && |Final(blocks, 4096)| <= |rs| + 1
  {
    hide AllEntries, SortedSet, Final;
    var blocks, offs := AllEntries(rs, 8), Offsets(rs);
    var pages := SortedSet(blocks.Keys);
    assert |pages| > 1 ==> pages[0] < pages[1];
    EntriesHold(rs, 8);
    forall i | 0 <= i < |offs| ensures PageOf(offs[i]) == 4096 { assert offs[i] == rs[i].offset; }
    assert PageOf(offs[0]) == 4096;
    assert blocks.Keys == {4096};
    assert 4096 in pages;
    forall i | 0 <= i < |pages| ensures pages[i] == 4096 { assert pages[i] in pages; }
    BlockTyped(blocks, offs, 10, 4096, 0);
  }

  lemma SmallTable(rs: seq<Reloc>, shift: nat)
    requires InSection(rs) && rs != []
    requires AllPages(AllEntries(rs, 8), SortedSet(AllEntries(rs, 8).Keys))
    ensures |TableBytes(AllEntries(rs, 8), SortedSet(AllEntries(rs, 8).Keys), shift)| <= 10 + 2 * |rs|
  {
    hide AllEntries, SortedSet, Final, BlockBytes, InSection;
    OnePage(rs);
    var blocks := AllEntries(rs, 8);
    assert [4096][..0] == [];
    assert TableBytes(blocks, [], shift) == [];
  }

  lemma SmallImage(rs: seq<Reloc>, imageBase: nat, img: Image)
    requires InSection(rs) && 0 < |rs| < 1000 && img.shift == 0
    requires Relocated(Holding(rs), imageBase, [Placed()], img)
    ensures Fits32(img)
  {
    hide AllEntries, SortedSet, AllApplied, TableBytes, AllRelative, Placed, InSection, Increasing, AllPages, AlignTo;
    HoldingRelocations(rs);
    OnePage(rs);
    var blocks := AllEntries(rs, 8);
    var ss := AllApplied(rs, imageBase + 0, [Placed()], 8).value;
    AllAppliedLonger(rs, imageBase, [Placed()], 8);
    SmallTable(rs, 0);
    PlacedEnd();
    var moved := MovedAll(ss, 0);
    assert moved[0].vaddr == 4096 && End(moved[0]) == 4608;
    AlignToIs(End(moved[0]), SECTION_ALIGNMENT);
    assert blocks != map[] by { assert 4096 in blocks.Keys; }
  }

  lemma PlacedEnd()
    ensures Placed().vaddr == 4096 && End(Placed()) == 4608
  {
    PlacedIs();
    SectionIsCopied();
    hide Data, AlignDown, AlignTo, IsCopied, Protection, Zeros;
    AlreadyPaged(4096);
  }

  lemma HoldingFits(rs: seq<Reloc>, f: PeFile)
    requires InSection(rs) && 0 < |rs| < 1000 && Converted(Holding(rs), [], 0, f)
    ensures Fits32(f.image) && f.image.shift == 0
  {
    hide Placed, LaysOut, Layout, Relocated, InSection, Written, LaidOut, ShiftFor, Holding, Fits32;
    HoldingLayout(rs);
    NoShift();
    HoldingIs(rs);
    var img :| Relocated(Holding(rs), f.imageBase, Layout(Holding(rs), []), img) && Written(f, img);
    WrittenEnds(f, img);
    SmallImage(rs, f.imageBase, img);
  }

  lemma WrittenEnds(f: PeFile, img: Image)
    requires Written(f, img)
    ensures f.image.shift == img.shift && (Fits32(img) ==> Fits32(f.image))
  {
    hide InFile, Pointer;
    forall i | 0 <= i < |f.image.sections| ensures End(f.image.sections[i]) == End(img.sections[i]) { }
  }

  lemma HoldingIs(rs: seq<Reloc>)
    ensures Holding(rs).wordSize == 8 && Holding(rs).sections == [Section()]
  {
  }

  lemma HoldingInside(rs: seq<Reloc>)
    requires InSection(rs) && forall i | 0 <= i < |rs| :: rs[i].offset <= 4600
    ensures RelocationsInside(Holding(rs))
  {
    SectionIsCopied();
    hide AllRelative, IsCopied, Data;
    HoldingRelocations(rs);
    var elf := Holding(rs);
    forall i | 0 <= i < |rs| ensures InCopiedSection(elf, rs[i]) { assert elf.sections[0] == Section(); }
  }

  // ---------- a relocation listed twice ----------

  function Twice(): Elf { Holding([Pointer8(4096), Pointer8(4096)]) }

  /** At every image base the converter takes this file, and the image is faithful where nothing is shifted only. */
  lemma TwiceIsUnfaithful(imageBase: nat, f: PeFile, base: nat)
    requires imageBase < Modulus(8) && Converted(Twice(), [], 0, f)
    ensures Convertible(Twice(), [], imageBase, 0) && WellFormed(Twice()) && RelocationsInside(Twice())
    ensures Faithful(Twice(), f, base) <==> (base - f.imageBase) % Modulus(8) == 0
    ensures !Faithful(Twice(), f, f.imageBase + 4096)
  {
    hide Convertible, Converted, WellFormed, RelocationsInside, Faithful, Fits32, AllRelative, Modulus;
    var r := Pointer8(4096);
    HoldingConverts([r, r], imageBase);
    HoldingInside([r, r]);
    HoldingRelocations([r, r]);
    HoldingFits([r, r], f);
    ListedTwice(Twice(), [], 0, f, base, r);
    ListedTwice(Twice(), [], 0, f, f.imageBase + 4096, r);
    EightBytes();
  }

  // ---------- two relocations that overlap ----------

  /** The second word starts in the middle of the first. */
  function Overlapping(): Elf { Holding([Pointer8(4096), Pointer8(4100)]) }

  const FOUR_GIGABYTES := 0x1_0000_0000

  lemma HalfCarry(low: nat, high: nat)
    requires low < 0x1_0000_0000 && high < 0x1_0000_0000
    ensures (low + 0x1_0000_0000 * high + 0x1_0000_0000) % 0x1_0000_0000_0000_0000
         == low + 0x1_0000_0000 * ((high + 1) % 0x1_0000_0000)
    ensures ((high + 1) % 0x1_0000_0000) % 256 == (high % 256 + 1) % 256
  {
  }

  /** Four gigabytes more change the upper half of a word only, and add one to its lowest byte. */
  lemma UpperHalf(bs: seq<Byte>)
    requires |bs| == 8
    ensures var bs' := LeBytes((LeValue(bs) + FOUR_GIGABYTES) % Modulus(8), 8);
      bs'[..4] == bs[..4] && bs'[4] == (bs[4] as int + 1) % 256
  {
    FourBytes();
    EightBytes();
    var a, b := bs[..4], bs[4..];
    assert a + b == bs;
    ValueOfJoin(a, b);
    ValueFits(a);
    ValueFits(b);
    BytesOfValue(b);
    hide Modulus;
    var high := (LeValue(b) + 1) % FOUR_GIGABYTES;
    HalfCarry(LeValue(a), LeValue(b));
    var c := LeBytes(high, 4);
    ValueOfBytes(high, 4);
    ValueOfJoin(a, c);
    BytesOfValue(a + c);
    assert LeValue(a + c) == (LeValue(bs) + FOUR_GIGABYTES) % Modulus(8);
    assert c[0] == high % 256 && b[0] == LeValue(b) % 256;
    assert (a + c)[..4] == a && (a + c)[4] == c[0] && bs[4] == b[0];
  }

  lemma ShiftHigh(m: Memory, a: int)
    requires Mapped(m, a, 8)
    ensures var m' := ApplyFix(m, ShiftBy(a, FOUR_GIGABYTES), 8);
      && m'.Keys == m.Keys && m'[a + 4] == (m[a + 4] as int + 1) % 256
      && forall x | x in m && !(a + 4 <= x < a + 8) :: m'[x] == m[x]
  {
    hide LeBytes, LeValue, Modulus;
    var bs := ReadBytes(m, a, 8);
    UpperHalf(bs);
    FixEffect(m, ShiftBy(a, FOUR_GIGABYTES), 8);
    var bs' := LeBytes((LeValue(bs) + FOUR_GIGABYTES) % Modulus(8), 8);
    var m' := ApplyFix(m, ShiftBy(a, FOUR_GIGABYTES), 8);
    assert m' == WriteBytes(m, a, bs');
    forall x | x in m && a <= x < a + 4 ensures m'[x] == m[x] {
      assert m'[x] == bs'[x - a] == bs'[..4][x - a] == bs[..4][x - a] == bs[x - a];
    }
  }

  lemma TwoPlaces(ats: seq<nat>, p: nat, q: nat)
    requires multiset(ats) == multiset([p, q])
    ensures ats == [p, q] || ats == [q, p]
  {
    assert |ats| == |multiset(ats)| == 2;
    assert ats == [ats[0], ats[1]];
    assert ats[0] in multiset(ats) && p in multiset([p, q]) && q in multiset([p, q]);
  }

  /** In either order the second word ends up one too high. */
  lemma OverlapShifts(m: Memory, ats: seq<nat>, p: nat)
    requires Mapped(m, p, 8) && Mapped(m, p + 4, 8) && multiset(ats) == multiset([p, p + 4])
    ensures var m' := ApplyAll(m, ShiftsFor(ats, FOUR_GIGABYTES), 8);
      m'.Keys == m.Keys && m'[p + 4] == (m[p + 4] as int + 1) % 256
  {
    hide ApplyFix;
    TwoPlaces(ats, p, p + 4);
    var fs := ShiftsFor(ats, FOUR_GIGABYTES);
    assert fs[..1] == [fs[0]] && [fs[0]][..0] == [];
    var m1 := ApplyFix(m, fs[0], 8);
    assert ApplyAll(m, [fs[0]], 8) == m1;
    assert Mapped(m, ats[0], 8) && Mapped(m, ats[1], 8);
    ShiftHigh(m, ats[0]);
    assert Mapped(m1, ats[1], 8) by { assert m1.Keys == m.Keys; }
    ShiftHigh(m1, ats[1]);
  }

  /** Where the second word starts, both loaders put the lowest byte of the base address. */
  lemma SecondWord(m: Memory, base: int)
    requires Mapped(m, 4096, 8) && Mapped(m, 4100, 8)
    ensures var m' := ApplyAll(m, FixesFor([Pointer8(4096), Pointer8(4100)], base), 8);
      m'.Keys == m.Keys && m'[4100] == base % 256
  {
    hide ApplyFix;
    var rs := [Pointer8(4096), Pointer8(4100)];
    var fs := FixesFor(rs, base);
    assert fs == [SetTo(4096, base), SetTo(4100, base)];
    assert fs[..1] == [fs[0]] && [fs[0]][..0] == [];
    var m1 := ApplyFix(m, fs[0], 8);
    assert ApplyAll(m, [fs[0]], 8) == m1;
    FixEffect(m, fs[0], 8);
    assert Mapped(m1, 4100, 8) by { assert m1.Keys == m.Keys; }
    FirstByte(m1, 4100, base);
  }

  lemma FirstByte(m: Memory, a: int, v: int)
    requires Mapped(m, a, 8)
    ensures var m' := ApplyFix(m, SetTo(a, v), 8); m'.Keys == m.Keys && m'[a] == v % 256
  {
    EightBytes();
    FixEffect(m, SetTo(a, v), 8);
    hide Modulus, Word;
    var w := v % Modulus(8);
    assert LeBytes(w, 8)[0] == w % 256;
    assert w % 256 == v % 256 by { LowBits(v); }
  }

  lemma LowBits(v: int)
    ensures (v % 0x1_0000_0000_0000_0000) % 256 == v % 256
  {
  }

  lemma AgreeKeys(a: Memory, b: Memory)
    requires Agrees(a, b, 0)
    ensures a.Keys <= b.Keys && forall x | x in a :: b[x] == a[x]
  {
    forall x | x in a ensures x in b && b[x] == a[x] { assert ByteAgrees(a, b, 0, x) && x + 0 == x; }
  }

  /** The images of the two loaders differ where the second word starts. */
  lemma OverlapDiffers(e0: Memory, m0: Memory, m1: Memory, m2: Memory, ats: seq<nat>, base: int)
    requires Links(e0, m0, m1, m2, [Pointer8(4096), Pointer8(4100)], ats, base, 0, 8)
    ensures !Agrees(ApplyAll(e0, FixesFor([Pointer8(4096), Pointer8(4100)], base + FOUR_GIGABYTES), 8),
                    ApplyAll(m2, ShiftsFor(ats, FOUR_GIGABYTES), 8), 0)
  {
    hide ApplyAll, Agrees;
    var rs := [Pointer8(4096), Pointer8(4100)];
    assert FixesFor(rs, 0)[0].at == 4096 && FixesFor(rs, 0)[1].at == 4100;
    AgreeKeys(e0, m0);
    AgreeKeys(m1, m2);
    SecondWord(e0, base + FOUR_GIGABYTES);
    SecondWord(m0, base + 0);
    assert Shifted(Offsets(rs), 0) == [4096, 4100];
    OverlapShifts(m2, ats, 4096);
    var e, p := ApplyAll(e0, FixesFor(rs, base + FOUR_GIGABYTES), 8), ApplyAll(m2, ShiftsFor(ats, FOUR_GIGABYTES), 8);
    assert 4100 in e && e[4100] != p[4100];
    if Agrees(e, p, 0) { AgreeKeys(e, p); }
  }

  /** At every image base the converter takes this file, and the image is not faithful four gigabytes higher. */
  lemma OverlapIsUnfaithful(imageBase: nat, f: PeFile)
    requires imageBase < Modulus(8) && Converted(Overlapping(), [], 0, f)
    ensures Convertible(Overlapping(), [], imageBase, 0)
      && WellFormed(Overlapping()) && RelocationsInside(Overlapping())
    ensures Faithful(Overlapping(), f, f.imageBase)
    ensures !Faithful(Overlapping(), f, f.imageBase + FOUR_GIGABYTES)
  {
    hide Convertible, Converted, WellFormed, RelocationsInside, Fits32, AllRelative, Modulus, Links, ApplyAll, FixesFor,
      ShiftsFor, Agrees, TableInMemory, OnlyKind, Typed, SectionMemory, FileSections;
    var rs := [Pointer8(4096), Pointer8(4100)];
    HoldingConverts(rs, imageBase);
    HoldingInside(rs);
    HoldingRelocations(rs);
    HoldingFits(rs, f);
    UnshiftedIsFaithful(Overlapping(), [], 0, f, f.imageBase);
    var table, m0, m1 := LinksOf(Overlapping(), [], 0, f);
    OverlapDiffers(ElfMemory([Section()]), m0, m1, SectionMemory(FileSections(f)), Typed(table), f.imageBase);
  }
}
