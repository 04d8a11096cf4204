/**
 tools/elf2efi.py: the conversion of an ELF static PIE into a PE image, from section headers and contents to
 section layout. Addresses are unbounded integers here; header fields that only carry constants are left out.
 */
module Elf2efi {
  import opened Wrappers
  import opened Bytes

  const SECTION_ALIGNMENT: nat := 4096
  const FILE_ALIGNMENT: nat := 512

  const IGNORE_SECTIONS: seq<string> := [".eh_frame", ".eh_frame_hdr", ".ARM.exidx", ".relro_padding"]

  const IGNORE_SECTION_TYPES: seq<string> := [
    "SHT_DYNAMIC", "SHT_DYNSYM", "SHT_GNU_ATTRIBUTES", "SHT_GNU_HASH", "SHT_HASH", "SHT_NOTE", "SHT_REL",
    "SHT_RELA", "SHT_RELR", "SHT_STRTAB", "SHT_SYMTAB"]

  // ---------- the input ----------

  /** `inRelro`: the section lies in the PT_GNU_RELRO segment. */
  datatype ElfSection = ElfSection(
    name: string, shType: string, alloc: bool, exec: bool, write: bool, inRelro: bool,
    addr: nat, size: nat, align: nat, contents: seq<Byte>)

  datatype RelocKind = NoneReloc | Relative | Unsupported

  /** `addend` is present in a RELA entry; in a REL entry the relocated word holds it. */
  datatype Reloc = Reloc(kind: RelocKind, offset: nat, addend: Option<int>)

  /** `known`: the table is of type REL or RELA. */
  datatype RelocTab = RelocTab(known: bool, relocs: seq<Reloc>)

  /**
   `wordSize` is 4 or 8. `loadAligns` are the alignments of the PT_LOAD segments. `isPie` says that there is a
   dynamic section, that it has one DT_FLAGS_1 entry with DF_1_PIE, and that the image base is 0.
   */
  datatype Elf = Elf(
    wordSize: nat, loadAligns: seq<nat>, sections: seq<ElfSection>, entry: nat, isPie: bool, tables: seq<RelocTab>)

  predicate WellFormed(elf: Elf)
  {
    && (elf.wordSize == 4 || elf.wordSize == 8)
    && forall i | 0 <= i < |elf.sections| ::
         elf.sections[i].shType != "SHT_NOBITS" ==> |elf.sections[i].contents| == elf.sections[i].size
  }

  /** `elf_s.data()` */
  function Data(s: ElfSection): seq<Byte>
  {
    if s.shType == "SHT_NOBITS" then Zeros(s.size) else s.contents
  }

  /** The sections that make up the PE image. */
  predicate IsCopied(s: ElfSection)
  {
    s.alloc && s.shType !in IGNORE_SECTION_TYPES && s.name !in IGNORE_SECTIONS && s.size != 0
  }

  datatype Rwx = RX | RW | R | Discardable

  function Protection(s: ElfSection): Rwx
  {
    if s.inRelro then R else if s.exec then RX else if s.write then RW else R
  }

  // ---------- the output ----------

  /** `frozen`: the data is an immutable `bytes` object. */
  datatype PeSection = PeSection(
    name: string, vaddr: nat, vsize: nat, rawSize: nat, rawPtr: nat, rwx: Rwx, data: seq<Byte>, frozen: bool)

  /** `x & ~(align - 1)` clears the low bits: for a power of two, the remainder goes. */
  function AlignTo(x: nat, align: nat): nat
    requires align > 0
  {
    (x + align - 1) - (x + align - 1) % align
  }

  function AlignDown(x: nat, align: nat): nat
    requires align > 0
  {
    x - x % align
  }

  lemma AlignToIs(x: nat, align: nat)
    requires align == SECTION_ALIGNMENT || align == FILE_ALIGNMENT
    ensures var r := AlignTo(x, align); x <= r < x + align && r % align == 0
  {
    var y := x + align - 1;
    if align == 4096 { assert (y - y % 4096) % 4096 == 0; } else { assert (y - y % 512) % 512 == 0; }
  }

  lemma AlignDownIs(x: nat, align: nat)
    requires align == SECTION_ALIGNMENT || align == FILE_ALIGNMENT
    ensures var r := AlignDown(x, align); r <= x < r + align && r % align == 0
  {
    if align == 4096 { assert AlignDown(x, 4096) % 4096 == 0; } else { assert AlignDown(x, 512) % 512 == 0; }
  }

  /** The end of a section in the address space of the image. */
  function End(s: PeSection): nat { s.vaddr + s.vsize }

  function NextSectionAddress(ss: seq<PeSection>): nat
    requires ss != []
  {
    AlignTo(End(ss[|ss| - 1]), SECTION_ALIGNMENT)
  }

  // ---------- layout ----------

  predicate Ordered(ss: seq<PeSection>)
  {
    forall i, j | 0 <= i < j < |ss| :: End(ss[i]) <= ss[j].vaddr
  }

  predicate Aligned(ss: seq<PeSection>)
  {
    forall i | 0 <= i < |ss| :: ss[i].vaddr % SECTION_ALIGNMENT == 0
  }

  /** The sizes in the section headers are those of the data. */
  predicate Sized(s: PeSection)
  {
    s.vsize == |s.data| && s.rawSize == AlignTo(|s.data|, FILE_ALIGNMENT)
  }

  predicate AllSized(ss: seq<PeSection>)
  {
    forall i | 0 <= i < |ss| :: Sized(ss[i])
  }

  /** The bytes of `es` are in `ps` at the address they have in the ELF image, with the protection they had. */
  predicate Covers(ps: PeSection, es: ElfSection)
  {
    var d := Data(es);
    && ps.rwx == Protection(es)
    && ps.vaddr <= es.addr && es.addr - ps.vaddr + |d| <= |ps.data|
    && ps.data[es.addr - ps.vaddr..es.addr - ps.vaddr + |d|] == d
  }

  predicate Covered(es: ElfSection, ss: seq<PeSection>)
  {
    exists j | 0 <= j < |ss| :: !ss[j].frozen && Covers(ss[j], es)
  }

  predicate AllCovered(es: seq<ElfSection>, ss: seq<PeSection>)
  {
    forall i | 0 <= i < |es| :: IsCopied(es[i]) ==> Covered(es[i], ss)
  }

  // ---------- iter_copy_sections ----------

  function Pending(out: seq<PeSection>, cur: Option<PeSection>): seq<PeSection>
  {
    if cur.None? then out else out + [cur.value]
  }

  lemma CoveredMore(es: ElfSection, ss: seq<PeSection>, p: PeSection)
    requires Covered(es, ss)
    ensures Covered(es, ss + [p])
  {
    var j :| 0 <= j < |ss| && !ss[j].frozen && Covers(ss[j], es);
    assert (ss + [p])[j] == ss[j];
  }

  lemma CoversExtended(p: PeSection, more: seq<Byte>, es: ElfSection)
    requires Covers(p, es)
    ensures Covers(p.(data := p.data + more), es)
  {
    var a, d := es.addr - p.vaddr, Data(es);
    assert (p.data + more)[a..a + |d|] == p.data[a..a + |d|];
  }

  lemma CoveredExtended(es: ElfSection, out: seq<PeSection>, p: PeSection, more: seq<Byte>)
    requires Covered(es, out + [p])
    ensures Covered(es, out + [p.(data := p.data + more)])
  {
    var ss, ss' := out + [p], out + [p.(data := p.data + more)];
    var j :| 0 <= j < |ss| && !ss[j].frozen && Covers(ss[j], es);
    if j < |out| {
      assert ss'[j] == ss[j];
    } else {
      CoversExtended(p, more, es);
      assert Covers(ss'[j], es);
    }
  }

  lemma CoversAppended(p: PeSection, es: ElfSection)
    requires p.vaddr + |p.data| <= es.addr && p.rwx == Protection(es)
    ensures Covers(p.(data := p.data + Zeros(es.addr - p.vaddr - |p.data|) + Data(es)), es)
  {
    var pad := Zeros(es.addr - p.vaddr - |p.data|);
    var d := Data(es);
    assert (p.data + pad + d)[es.addr - p.vaddr..es.addr - p.vaddr + |d|] == d;
  }

  lemma CoversItself(es: ElfSection)
    ensures Covers(PeSection("", es.addr, 0, 0, 0, Protection(es), Data(es), false), es)
  {
    hide Data, Protection;
    assert Data(es)[0..|Data(es)|] == Data(es);
  }

  predicate Solid(s: PeSection) { |s.data| > 0 && !s.frozen }

  predicate AllSolid(ss: seq<PeSection>)
  {
    forall i | 0 <= i < |ss| :: Solid(ss[i])
  }

  function DataEnd(s: PeSection): nat { s.vaddr + |s.data| }

  /** Neighbours of the same protection have been merged. */
  predicate Alternating(ss: seq<PeSection>)
  {
    forall i | 0 <= i < |ss| - 1 :: ss[i].rwx != ss[i + 1].rwx
  }

  /** A section begun with `es`. */
  function Begun(es: ElfSection): PeSection
  {
    PeSection("", es.addr, 0, 0, 0, Protection(es), Data(es), false)
  }

  /** `es` behind what has been assembled, with zeros in between. */
  function Extended(p: PeSection, es: ElfSection): PeSection
  {
    p.(data := p.data + (Zeros(if es.addr < DataEnd(p) then 0 else es.addr - DataEnd(p)) + Data(es)))
  }

  /** One more ELF section: it joins the last section if the protection is the same. */
  function Taken(out: seq<PeSection>, es: ElfSection): seq<PeSection>
  {
    var k := |out| - 1;
    if k >= 0 && out[k].rwx == Protection(es) then out[..k] + [Extended(out[k], es)] else out + [Begun(es)]
  }

  /** The sections of the PE image before they are moved to page boundaries. */
  function Merged(es: seq<ElfSection>): seq<PeSection>
  {
    if es == [] then []
    else
      var before, s := Merged(es[..|es| - 1]), es[|es| - 1];
      if IsCopied(s) then Taken(before, s) else before
  }

  /** Where `es` may go: behind the data that it would join. */
  predicate Fits(out: seq<PeSection>, es: ElfSection)
  {
    out != [] && out[|out| - 1].rwx == Protection(es) ==> DataEnd(out[|out| - 1]) <= es.addr
  }

  /** The last section ends with `es`. */
  predicate EndsWith(out: seq<PeSection>, es: ElfSection)
  {
    out != [] && out[|out| - 1].rwx == Protection(es) && DataEnd(out[|out| - 1]) == es.addr + |Data(es)|
  }

  lemma TakenSolid(out: seq<PeSection>, es: ElfSection)
    requires AllSolid(out) && Alternating(out) && |Data(es)| > 0 && Fits(out, es)
    ensures AllSolid(Taken(out, es)) && Alternating(Taken(out, es)) && EndsWith(Taken(out, es), es)
  {
    hide Data, Protection;
    var k := |out| - 1;
    if k >= 0 && out[k].rwx == Protection(es) {
      assert out == out[..k] + [out[k]];
      SolidReplaced(out[..k], out[k], Extended(out[k], es));
      AlternatingReplaced(out[..k], out[k], Extended(out[k], es));
    }
  }

  /** The bytes of `es` are there at their address, and nothing that was there is lost. */
  lemma TakenCovers(out: seq<PeSection>, es: ElfSection)
    requires AllSolid(out) && |Data(es)| > 0 && Fits(out, es)
    ensures Covered(es, Taken(out, es))
    ensures forall e :: Covered(e, out) ==> Covered(e, Taken(out, es))
  {
    hide Covered, Covers, Zeros, Data, Protection;
    var k := |out| - 1;
    if k >= 0 && out[k].rwx == Protection(es) {
      var p := out[k];
      var more := Zeros(es.addr - p.vaddr - |p.data|) + Data(es);
      assert Extended(p, es) == p.(data := p.data + more);
      assert Solid(out[k]) && out == out[..k] + [p];
      CoversAppended(p, es);
      assert p.data + Zeros(es.addr - p.vaddr - |p.data|) + Data(es) == p.data + more;
      CoveredLast(es, out[..k], Extended(p, es));
      forall e | Covered(e, out) ensures Covered(e, Taken(out, es)) { CoveredExtended(e, out[..k], p, more); }
    } else {
      CoversItself(es);
      CoveredLast(es, out, Begun(es));
      forall e | Covered(e, out) ensures Covered(e, out + [Begun(es)]) { CoveredMore(e, out, Begun(es)); }
    }
  }

  /** One ELF section is taken over: appended to the section being assembled, or started anew. */
  method TakeSection(out0: seq<PeSection>, cur0: Option<PeSection>, es: ElfSection)
    returns (r: Result<(seq<PeSection>, Option<PeSection>)>)
    requires cur0.None? ==> out0 == []
    ensures r.Ok? <==> Fits(Pending(out0, cur0), es)
    ensures r.Ok? ==> r.value.1.Some? && Pending(r.value.0, r.value.1) == Taken(Pending(out0, cur0), es)
    ensures r.Ok? && AllSolid(Pending(out0, cur0)) && |Data(es)| > 0 ==>
      && Covered(es, Pending(r.value.0, r.value.1))
      && forall e :: Covered(e, Pending(out0, cur0)) ==> Covered(e, Pending(r.value.0, r.value.1))
  {
    hide Zeros, Data, Taken, Covered, AllSolid;
    TakenIs(out0, cur0, es);
    if AllSolid(Pending(out0, cur0)) && |Data(es)| > 0 && Fits(Pending(out0, cur0), es) {
      TakenCovers(Pending(out0, cur0), es);
    }
    var out, cur := out0, cur0;
    var rwx := Protection(es);
    if cur.Some? && cur.value.rwx != rwx {
      out, cur := out + [cur.value], None;
    }
    if cur.Some? {
      var p := cur.value;
      if es.addr < DataEnd(p) {
        return Err;   // the padding would have negative length
      }
      return Ok((out, Some(p.(data := p.data + (Zeros(es.addr - p.vaddr - |p.data|) + Data(es))))));
    }
    return Ok((out, Some(PeSection("", es.addr, 0, 0, 0, rwx, Data(es), false))));
  }

  lemma TakenIs(out: seq<PeSection>, cur: Option<PeSection>, es: ElfSection)
    requires cur.None? ==> out == []
    ensures Taken(Pending(out, cur), es) ==
      if cur.None? then [Begun(es)]
      else if cur.value.rwx == Protection(es) then out + [Extended(cur.value, es)]
      else out + [cur.value] + [Begun(es)]
  {
    hide Data, Protection, Zeros;
    if cur.Some? { assert (out + [cur.value])[..|out|] == out; }
  }

  lemma SolidReplaced(out: seq<PeSection>, p: PeSection, p': PeSection)
    requires AllSolid(out + [p]) && |p'.data| >= |p.data| && p'.frozen == p.frozen
    ensures AllSolid(out + [p']) && Solid(p')
  {
    assert forall i | 0 <= i < |out| :: (out + [p'])[i] == (out + [p])[i];
    assert Solid((out + [p])[|out|]);
  }

  lemma AlternatingReplaced(out: seq<PeSection>, p: PeSection, p': PeSection)
    requires Alternating(out + [p]) && p'.rwx == p.rwx
    ensures Alternating(out + [p'])
  {
    var ss, ss' := out + [p], out + [p'];
    assert forall i | 0 <= i < |ss| :: ss'[i].rwx == ss[i].rwx;
    forall i | 0 <= i < |ss'| - 1 ensures ss'[i].rwx != ss'[i + 1].rwx {
      assert ss[i].rwx != ss[i + 1].rwx;
    }
  }

  lemma CoveredLast(es: ElfSection, out: seq<PeSection>, p: PeSection)
    requires Covers(p, es) && !p.frozen
    ensures Covered(es, out + [p])
  {
    assert (out + [p])[|out|] == p;
  }

  function LastCopied(es: seq<ElfSection>): (r: Option<ElfSection>)
    ensures r.Some? ==> IsCopied(r.value)
  {
    if es == [] then None
    else if IsCopied(es[|es| - 1]) then Some(es[|es| - 1]) else LastCopied(es[..|es| - 1])
  }

  /** A copied section holds bits or zeros, and starts behind the copied section before it if both go together. */
  predicate Mergeable(es: seq<ElfSection>)
  {
    es == [] ||
    var s, before := es[|es| - 1], LastCopied(es[..|es| - 1]);
    && Mergeable(es[..|es| - 1])
    && (IsCopied(s) ==>
          && (s.shType == "SHT_PROGBITS" || s.shType == "SHT_NOBITS")
          && (before.Some? && Protection(before.value) == Protection(s) ==>
                before.value.addr + |Data(before.value)| <= s.addr))
  }

  lemma {:induction false} MergeablePrefix(es: seq<ElfSection>, i: nat)
    requires Mergeable(es) && i <= |es|
    ensures Mergeable(es[..i])
    decreases |es|
  {
    if i < |es| {
      MergeablePrefix(es[..|es| - 1], i);
      assert es[..|es| - 1][..i] == es[..i];
    } else {
      assert es[..i] == es;
    }
  }

  predicate PageAlignedLoads(elf: Elf)
  {
    forall i | 0 <= i < |elf.loadAligns| :: elf.loadAligns[i] == SECTION_ALIGNMENT
  }

  /** What merging gives: every copied byte at its address with its protection, and neighbours that differ. */
  ghost predicate WellMerged(es: seq<ElfSection>, out: seq<PeSection>)
  {
    && AllCovered(es, out) && AllSolid(out) && Alternating(out)
    && (if LastCopied(es).None? then out == [] else EndsWith(out, LastCopied(es).value))
  }

  predicate HaveData(es: seq<ElfSection>)
  {
    forall i | 0 <= i < |es| && IsCopied(es[i]) :: |Data(es[i])| > 0
  }

  lemma {:induction false} MergedIs(es: seq<ElfSection>)
    requires Mergeable(es) && HaveData(es)
    ensures WellMerged(es, Merged(es))
    decreases |es|
  {
    hide Covered, AllSolid, Alternating, Protection, LastCopied, Mergeable, Data, IsCopied, AllCovered, Merged, Taken,
      EndsWith, Fits;
    if es == [] {
      NothingTaken();
    } else {
      var k := |es| - 1;
      var s, out := es[k], Merged(es[..k]);
      assert es[..k + 1] == es;
      Grown(es, k);
      MergedNext(es, k);
      MergedIs(es[..k]);
      if IsCopied(s) {
        FitsBehind(es, k, out);
        TakenSolid(out, s);
        TakenCovers(out, s);
        CoveredNext(es, k, out, Taken(out, s));
      } else {
        CoveredNext(es, k, out, out);
      }
    }
  }

  /** A section fits what has been merged exactly if it starts behind the copied section before it. */
  lemma FitsBehind(es: seq<ElfSection>, k: nat, out: seq<PeSection>)
    requires k < |es| && WellMerged(es[..k], out)
    ensures var s, before := es[k], LastCopied(es[..k]);
      Fits(out, s) <==>
        (before.Some? && Protection(before.value) == Protection(s) ==>
         before.value.addr + |Data(before.value)| <= s.addr)
  {
    hide AllCovered, AllSolid, Alternating, LastCopied, Protection, Data;
  }

  method IterCopySections(elf: Elf) returns (r: Result<seq<PeSection>>)
    requires WellFormed(elf)
    ensures r.Ok? <==> PageAlignedLoads(elf) && Mergeable(elf.sections)
    ensures r.Ok? ==> r.value == Merged(elf.sections) && WellMerged(elf.sections, r.value)
  {
    hide Pending, Protection, LastCopied, Mergeable, Data, IsCopied, WellFormed, Merged, Taken, WellMerged, Fits,
      HaveData;
    for i := 0 to |elf.loadAligns|
      invariant forall j | 0 <= j < i :: elf.loadAligns[j] == SECTION_ALIGNMENT
    {
      if elf.loadAligns[i] != SECTION_ALIGNMENT {
        return Err;
      }
    }
    var out: seq<PeSection>, cur: Option<PeSection> := [], None;
    NothingTaken();
    HasData(elf);
    assert elf.sections[..0] == [];
    for i := 0 to |elf.sections|
      invariant cur.None? ==> out == []
      invariant Mergeable(elf.sections[..i]) && Pending(out, cur) == Merged(elf.sections[..i])
    {
      var es := elf.sections[i];
      Grown(elf.sections, i);
      MergedNext(elf.sections, i);
      if !IsCopied(es) {
        continue;
      }
      if es.shType != "SHT_PROGBITS" && es.shType != "SHT_NOBITS" {
        return Err;
      }
      DataPrefix(elf.sections, i);
      MergedIs(elf.sections[..i]);
      FitsBehind(elf.sections, i, Pending(out, cur));
      var taken := TakeSection(out, cur, es);
      if taken.Err? {
        return Err;
      }
      out, cur := taken.value.0, taken.value.1;
    }
    assert elf.sections[..|elf.sections|] == elf.sections;
    MergedIs(elf.sections);
    return Ok(Pending(out, cur));
  }

  lemma NothingTaken()
    ensures AllSolid([]) && Alternating([]) && AllCovered([], []) && LastCopied([]) == None && Mergeable([])
    ensures Merged([]) == [] == Pending([], None)
  {
  }

  lemma MergedNext(es: seq<ElfSection>, i: nat)
    requires i < |es|
    ensures Merged(es[..i + 1]) == if IsCopied(es[i]) then Taken(Merged(es[..i]), es[i]) else Merged(es[..i])
  {
    hide Taken, IsCopied;
    assert es[..i + 1][..i] == es[..i];
  }

  lemma HasData(elf: Elf)
    requires WellFormed(elf)
    ensures HaveData(elf.sections)
  {
  }

  lemma DataPrefix(es: seq<ElfSection>, i: nat)
    requires HaveData(es) && i <= |es|
    ensures HaveData(es[..i])
  {
    hide Data, IsCopied;
  }

  lemma CoveredNext(es: seq<ElfSection>, i: nat, ss: seq<PeSection>, ss': seq<PeSection>)
    requires i < |es| && AllCovered(es[..i], ss) && (IsCopied(es[i]) ==> Covered(es[i], ss'))
    requires forall e :: Covered(e, ss) ==> Covered(e, ss')
    ensures AllCovered(es[..i + 1], ss')
  {
    hide Covered, IsCopied;
    forall j | 0 <= j < i + 1 && IsCopied(es[j]) ensures Covered(es[j], ss') {
      if j < i { assert es[..i][j] == es[j]; }
    }
  }

  lemma Grown(es: seq<ElfSection>, i: nat)
    requires i < |es|
    ensures var s, before := es[i], LastCopied(es[..i]);
      && LastCopied(es[..i + 1]) == (if IsCopied(s) then Some(s) else before)
      && (Mergeable(es[..i + 1]) <==>
            && Mergeable(es[..i])
            && (IsCopied(s) ==>
                  && (s.shType == "SHT_PROGBITS" || s.shType == "SHT_NOBITS")
                  && (before.Some? && Protection(before.value) == Protection(s) ==>
                        before.value.addr + |Data(before.value)| <= s.addr)))
      && (Mergeable(es) ==> Mergeable(es[..i + 1]))
  {
    hide Data, Protection, IsCopied;
    assert es[..i + 1][..i] == es[..i];
    if Mergeable(es) { MergeablePrefix(es, i + 1); }
  }

  // ---------- convert_sections ----------

  function SectionName(rwx: Rwx): string
  {
    if rwx == RX then ".text" else if rwx == RW then ".data" else ".rodata"
  }

  /** The section moved down to a page boundary, with padding in front. */
  function Paged(p: PeSection): PeSection
  {
    var vaddr := AlignDown(p.vaddr, SECTION_ALIGNMENT);
    AlignDownIs(p.vaddr, SECTION_ALIGNMENT);
    var data := Zeros(p.vaddr - vaddr) + p.data;
    p.(name := SectionName(p.rwx), vaddr := vaddr, vsize := |data|,
       rawSize := AlignTo(|data|, FILE_ALIGNMENT), data := data)
  }

  lemma PagedIs(p: PeSection)
    ensures var q := Paged(p);
      && q.vaddr % SECTION_ALIGNMENT == 0 && Sized(q) && q.frozen == p.frozen
      && (Solid(p) ==> Solid(q))
  {
    AlignDownIs(p.vaddr, SECTION_ALIGNMENT);
    hide AlignDown, AlignTo;
  }

  lemma PagedShape(p: PeSection)
    ensures var q := Paged(p);
      && q.vaddr <= p.vaddr && q.data == Zeros(p.vaddr - q.vaddr) + p.data
      && q.rwx == p.rwx && q.frozen == p.frozen
  {
    AlignDownIs(p.vaddr, SECTION_ALIGNMENT);
    hide AlignDown, AlignTo, SectionName;
  }

  lemma PagedCoversSame(p: PeSection, es: ElfSection)
    requires Covers(p, es)
    ensures Covers(Paged(p), es)
  {
    hide Data, Protection, Paged;
    PagedShape(p);
    var q, a, d := Paged(p), es.addr - p.vaddr, Data(es);
    var k := p.vaddr - q.vaddr;
    Behind(Zeros(k), p.data, a, |d|);
  }

  lemma Behind(pad: seq<Byte>, data: seq<Byte>, a: nat, n: nat)
    requires a + n <= |data|
    ensures (pad + data)[|pad| + a..|pad| + a + n] == data[a..a + n]
  {
  }

  function PagedAll(pending: seq<PeSection>): seq<PeSection>
  {
    seq(|pending|, i requires 0 <= i < |pending| => Paged(pending[i]))
  }

  /** The sections so far, and where the last of them ends. */
  ghost predicate LaidBelow(ss: seq<PeSection>, lastEnd: nat)
  {
    && Ordered(ss) && Aligned(ss) && AllSized(ss) && AllSolid(ss)
    && (forall j | 0 <= j < |ss| :: End(ss[j]) <= lastEnd)
    && lastEnd == if ss == [] then 0 else End(ss[|ss| - 1])
  }

  lemma LaidNext(ss: seq<PeSection>, lastEnd: nat, p: PeSection)
    requires LaidBelow(ss, lastEnd) && lastEnd <= p.vaddr && p.vaddr % SECTION_ALIGNMENT == 0 && Sized(p) && Solid(p)
    ensures LaidBelow(ss + [p], End(p))
  {
    hide Sized, Solid;
  }

  lemma Overlap(all: seq<PeSection>, i: nat, lastEnd: nat)
    requires i < |all| && LaidBelow(all[..i], lastEnd) && all[i].vaddr < lastEnd
    ensures !Ordered(all)
  {
    hide Sized, Solid;
    assert i > 0 && all[..i][i - 1] == all[i - 1];
    assert End(all[i - 1]) > all[i].vaddr;
  }

  method ConvertSections(pending: seq<PeSection>) returns (r: Result<seq<PeSection>>)
    requires AllSolid(pending)
    ensures r.Ok? <==> Ordered(PagedAll(pending))
    ensures r.Ok? ==>
      && r.value == PagedAll(pending)
      && Ordered(r.value) && Aligned(r.value) && AllSized(r.value) && AllSolid(r.value)
  {
    hide Paged, Sized, Ordered, Aligned, AllSized, LaidBelow, End;
    var lastEnd := 0;
    var ss: seq<PeSection> := [];
    NothingLaid();
    ghost var all := PagedAll(pending);
    for i := 0 to |pending|
      invariant ss == all[..i] && LaidBelow(ss, lastEnd)
    {
      PagedIs(pending[i]);
      var p := Paged(pending[i]);
      assert all[i] == p && Solid(pending[i]);
      if p.vaddr < lastEnd {
        Overlap(all, i, lastEnd);
        return Err;
      }
      LaidNext(ss, lastEnd, p);
      lastEnd := End(p);
      ss := ss + [p];
    }
    assert all[..|pending|] == all;
    LaidIs(ss, lastEnd);
    return Ok(ss);
  }

  lemma NothingLaid()
    ensures LaidBelow([], 0)
  {
  }

  lemma LaidIs(ss: seq<PeSection>, lastEnd: nat)
    requires LaidBelow(ss, lastEnd)
    ensures Ordered(ss) && Aligned(ss) && AllSized(ss) && AllSolid(ss)
  {
  }

  lemma PagedCovers(es: seq<ElfSection>, pending: seq<PeSection>, ss: seq<PeSection>)
    requires ss == PagedAll(pending)
    requires AllCovered(es, pending)
    ensures AllCovered(es, ss)
  {
    forall i | 0 <= i < |es| && IsCopied(es[i]) ensures Covered(es[i], ss) {
      assert Covered(es[i], pending);
      var j :| 0 <= j < |pending| && !pending[j].frozen && Covers(pending[j], es[i]);
      PagedIs(pending[j]);
      PagedCoversSame(pending[j], es[i]);
      assert ss[j] == Paged(pending[j]);
    }
  }

  // ---------- copy_sections ----------

  /** `get_section_by_name()` */
  function FindByName(es: seq<ElfSection>, name: string): Option<ElfSection>
  {
    if es == [] then None else if es[0].name == name then Some(es[0]) else FindByName(es[1..], name)
  }

  /** The requested sections that the file has, in order of request. */
  function Requested(elf: Elf, names: seq<string>): seq<ElfSection>
  {
    if names == [] then []
    else
      var found := FindByName(elf.sections, names[|names| - 1]);
      Requested(elf, names[..|names| - 1]) + if found.Some? then [found.value] else []
  }

  /** A read-only data section whose alignment a page satisfies and whose name fits its field. */
  predicate Copyable(es: ElfSection)
  {
    (es.align <= 1 || SECTION_ALIGNMENT % es.align == 0) && !es.exec && !es.write && |es.name| <= 8
  }

  lemma {:induction false} FoundName(es: seq<ElfSection>, name: string)
    ensures FindByName(es, name).Some? ==> FindByName(es, name).value.name == name
  {
    if es != [] { FoundName(es[1..], name); }
  }

  /** The copied section: same name and bytes, read-only. */
  predicate CopyOf(p: PeSection, es: ElfSection)
  {
    p.name == es.name && p.data == Data(es) && p.rwx == R && p.frozen
  }

  /** The sections `es` copied behind `ss`. */
  function WithCopies(ss: seq<PeSection>, es: seq<ElfSection>): (r: seq<PeSection>)
    requires ss != [] || es == []
    ensures |r| == |ss| + |es|
  {
    if es == [] then ss
    else
      var before, e := WithCopies(ss, es[..|es| - 1]), es[|es| - 1];
      before + [AppendedSection(before, e.name, Data(e), R, true)]
  }

  method CopySections(elf: Elf, names: seq<string>, ss0: seq<PeSection>) returns (r: Result<seq<PeSection>>)
    requires Ordered(ss0) && Aligned(ss0) && AllSized(ss0)
    ensures var es := Requested(elf, names);
      && (r.Ok? <==> es == [] || (ss0 != [] && forall i | 0 <= i < |es| :: Copyable(es[i])))
      && (r.Ok? ==> |r.value| == |ss0| + |es| && forall i | 0 <= i < |es| :: CopyOf(r.value[|ss0| + i], es[i]))
      && (r.Ok? ==> r.value == WithCopies(ss0, es))
    ensures r.Ok? ==> ss0 <= r.value && Ordered(r.value) && Aligned(r.value) && AllSized(r.value)
  {
    hide Ordered, Aligned, AllSized, AppendedSection, Data, CopiesOf, Copyable, CopyOf, FindByName, Requested,
      WithCopies;
    var ss := ss0;
    NothingCopied(elf, ss0);
    assert names[..0] == [];
    for k := 0 to |names|
      invariant ss0 <= ss && Ordered(ss) && Aligned(ss) && AllSized(ss)
      invariant CopiesOf(Requested(elf, names[..k]), ss0, ss)
    {
      RequestedNext(elf, names, k);
      ghost var before := Requested(elf, names[..k]);
      var found := FindByName(elf.sections, names[k]);
      FoundName(elf.sections, names[k]);
      if found.None? {
        continue;
      }
      var es := found.value;
      CopyableIs(es);
      CopiesNext(before, es, ss0, ss);
      if (es.align > 1 && SECTION_ALIGNMENT % es.align != 0) || es.exec || es.write {
        RefusedOne(elf, names, k, ss0);
        return Err;
      }
      if |names[k]| > 8 || ss == [] {
        RefusedOne(elf, names, k, ss0);
        return Err;   // the name does not fit its field; or there is no section to come after
      }
      ss := Append(ss, names[k], Data(es), R, true);
    }
    assert names[..|names|] == names;
    CopiesAre(Requested(elf, names), ss0, ss);
    return Ok(ss);
  }

  /** The sections `es` have been copied behind `ss0`. */
  predicate CopiesOf(es: seq<ElfSection>, ss0: seq<PeSection>, ss: seq<PeSection>)
  {
    && (es == [] || (ss0 != [] && forall i | 0 <= i < |es| :: Copyable(es[i])))
    && |ss| == |ss0| + |es| && (forall i | 0 <= i < |es| :: CopyOf(ss[|ss0| + i], es[i]))
    && ss == WithCopies(ss0, es)
  }

  lemma NothingCopied(elf: Elf, ss0: seq<PeSection>)
    ensures CopiesOf(Requested(elf, []), ss0, ss0)
  {
  }

  lemma CopyableIs(es: ElfSection)
    ensures Copyable(es) <==>
      (es.align <= 1 || SECTION_ALIGNMENT % es.align == 0) && !es.exec && !es.write && |es.name| <= 8
  {
  }

  lemma CopiesNext(es: seq<ElfSection>, e: ElfSection, ss0: seq<PeSection>, ss: seq<PeSection>)
    requires CopiesOf(es, ss0, ss)
    ensures ss == [] ==> ss0 == []
    ensures ss != [] && Copyable(e) ==>
      CopiesOf(es + [e], ss0, ss + [AppendedSection(ss, e.name, Data(e), R, true)])
  {
    hide Copyable, NextSectionAddress, AlignTo, Data;
    assert (es + [e])[..|es|] == es;
  }

  lemma CopiesAre(es: seq<ElfSection>, ss0: seq<PeSection>, ss: seq<PeSection>)
    requires CopiesOf(es, ss0, ss)
    ensures es == [] || (ss0 != [] && forall i | 0 <= i < |es| :: Copyable(es[i]))
    ensures |ss| == |ss0| + |es| && forall i | 0 <= i < |es| :: CopyOf(ss[|ss0| + i], es[i])
    ensures ss == WithCopies(ss0, es)
  {
    hide WithCopies, CopyOf, Copyable;
  }

  lemma RequestedNext(elf: Elf, names: seq<string>, k: nat)
    requires k < |names|
    ensures var found := FindByName(elf.sections, names[k]);
      Requested(elf, names[..k + 1]) ==
        if found.Some? then Requested(elf, names[..k]) + [found.value] else Requested(elf, names[..k])
  {
    assert names[..k + 1][..k] == names[..k];
  }

  /** One section that cannot be copied is among those requested. */
  lemma RefusedOne(elf: Elf, names: seq<string>, k: nat, ss0: seq<PeSection>)
    requires k < |names| && FindByName(elf.sections, names[k]).Some?
    requires ss0 == [] || !Copyable(FindByName(elf.sections, names[k]).value)
    ensures var es := Requested(elf, names);
      es != [] && (ss0 == [] || exists i | 0 <= i < |es| :: !Copyable(es[i]))
  {
    hide Copyable, FindByName;
    RequestedNext(elf, names, k);
    RequestedPrefix(elf, names, k + 1);
    var es := Requested(elf, names);
    var j := |Requested(elf, names[..k + 1])| - 1;
    assert es[j] == FindByName(elf.sections, names[k]).value;
  }

  lemma {:induction false} RequestedPrefix(elf: Elf, names: seq<string>, k: nat)
    requires k <= |names|
    ensures Requested(elf, names[..k]) <= Requested(elf, names)
    decreases |names|
  {
    if k < |names| {
      RequestedPrefix(elf, names[..|names| - 1], k);
      assert names[..|names| - 1][..k] == names[..k];
    } else {
      assert names[..k] == names;
    }
  }

  /** A further section on the next free page. */
  function AppendedSection(ss: seq<PeSection>, name: string, data: seq<Byte>, rwx: Rwx, frozen: bool): PeSection
    requires ss != []
  {
    PeSection(name, NextSectionAddress(ss), |data|, AlignTo(|data|, FILE_ALIGNMENT), 0, rwx, data, frozen)
  }

  method Append(ss: seq<PeSection>, name: string, data: seq<Byte>, rwx: Rwx, frozen: bool) returns (ss': seq<PeSection>)
    requires ss != [] && Ordered(ss) && Aligned(ss)
    ensures ss' == ss + [AppendedSection(ss, name, data, rwx, frozen)]
    ensures Ordered(ss') && Aligned(ss') && (AllSized(ss) ==> AllSized(ss'))
  {
    AppendKeepsLayout(ss, name, data, rwx, frozen);
    ss' := ss + [AppendedSection(ss, name, data, rwx, frozen)];
  }

  lemma AppendKeepsLayout(ss: seq<PeSection>, name: string, data: seq<Byte>, rwx: Rwx, frozen: bool)
    requires ss != [] && Ordered(ss) && Aligned(ss)
    ensures var ss' := ss + [AppendedSection(ss, name, data, rwx, frozen)];
      Ordered(ss') && Aligned(ss') && (AllSized(ss) ==> AllSized(ss'))
  {
    AlignToIs(End(ss[|ss| - 1]), SECTION_ALIGNMENT);
  }

  // ---------- the layout before relocation ----------

  /** Section copying succeeds. */
  predicate LaysOut(elf: Elf, names: seq<string>)
  {
    var ss, es := PagedAll(Merged(elf.sections)), Requested(elf, names);
    && PageAlignedLoads(elf) && Mergeable(elf.sections) && Ordered(ss)
    && (es == [] || (ss != [] && forall i | 0 <= i < |es| :: Copyable(es[i])))
  }

  /** What it yields: the copied sections on page boundaries, and the requested ones behind them. */
  function Layout(elf: Elf, names: seq<string>): seq<PeSection>
    requires LaysOut(elf, names)
  {
    WithCopies(PagedAll(Merged(elf.sections)), Requested(elf, names))
  }

  lemma CoveredPrefix(es: seq<ElfSection>, ss: seq<PeSection>, more: seq<PeSection>)
    requires AllCovered(es, ss) && ss <= more
    ensures AllCovered(es, more)
  {
    hide Covers, IsCopied;
    forall i | 0 <= i < |es| && IsCopied(es[i]) ensures Covered(es[i], more) {
      assert Covered(es[i], ss);
      var j :| 0 <= j < |ss| && !ss[j].frozen && Covers(ss[j], es[i]);
      assert more[j] == ss[j];
    }
  }

  lemma {:induction false} CopiesKeepLayout(ss: seq<PeSection>, es: seq<ElfSection>)
    requires (ss != [] || es == []) && Ordered(ss) && Aligned(ss) && AllSized(ss)
    ensures var r := WithCopies(ss, es); ss <= r && Ordered(r) && Aligned(r) && AllSized(r)
    decreases |es|
  {
    if es != [] {
      var k := |es| - 1;
      CopiesKeepLayout(ss, es[..k]);
      AppendKeepsLayout(WithCopies(ss, es[..k]), es[k].name, Data(es[k]), R, true);
    }
  }

  lemma PagedLayout(pending: seq<PeSection>)
    ensures Aligned(PagedAll(pending)) && AllSized(PagedAll(pending))
  {
    hide Paged, Sized;
    forall i | 0 <= i < |pending| ensures Paged(pending[i]).vaddr % SECTION_ALIGNMENT == 0 && Sized(Paged(pending[i])) {
      PagedIs(pending[i]);
    }
  }

  /** The layout is page-aligned and disjoint, is sized by its data, and has every copied byte at its address. */
  lemma LayoutIs(elf: Elf, names: seq<string>)
    requires WellFormed(elf) && LaysOut(elf, names)
    ensures var ss := Layout(elf, names);
      Ordered(ss) && Aligned(ss) && AllSized(ss) && AllCovered(elf.sections, ss)
  {
    hide Merged, PagedAll, WithCopies, Ordered, Aligned, AllSized, AllCovered, Requested, Mergeable, PageAlignedLoads,
      WellFormed, AllSolid, Alternating, EndsWith, LastCopied, HaveData;
    HasData(elf);
    MergedIs(elf.sections);
    var ss := PagedAll(Merged(elf.sections));
    PagedLayout(Merged(elf.sections));
    PagedCovers(elf.sections, Merged(elf.sections), ss);
    CopiesKeepLayout(ss, Requested(elf, names));
    CoveredPrefix(elf.sections, ss, Layout(elf, names));
  }

  /** The three stages of section copying. */
  method LayOut(elf: Elf, names: seq<string>) returns (r: Result<seq<PeSection>>)
    requires WellFormed(elf)
    ensures r.Ok? <==> LaysOut(elf, names)
    ensures r.Ok? ==>
      && r.value == Layout(elf, names) && AllCovered(elf.sections, r.value)
      && Ordered(r.value) && Aligned(r.value) && AllSized(r.value)
  {
    hide WellFormed, AllCovered, Ordered, Aligned, AllSized, AllSolid, Mergeable, Alternating, PagedAll, Requested,
      PageAlignedLoads, Merged, WithCopies, Copyable, EndsWith, LastCopied;
    var copied := IterCopySections(elf);
    if copied.Err? { return Err; }
    var paged := ConvertSections(copied.value);
    if paged.Err? { return Err; }
    r := CopySections(elf, names, paged.value);
    if r.Ok? { LayoutIs(elf, names); }
  }
}
