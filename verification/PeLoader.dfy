/**
 Two small loaders, one for the copied part of the ELF image and one for the PE file, and the proof that the converter
 preserves meaning between them.
 */
module PeLoader {
  import opened Wrappers
  import opened Bytes
  import opened RelocTable
  import opened Elf2efi
  import opened PeRelocate
  import opened PeImage

  // ---------- the ELF loader ----------

  /** The copied sections at their addresses. */
  function ElfMemory(es: seq<ElfSection>): Memory
  {
    if es == [] then map[]
    else
      var s := es[|es| - 1];
      var m := ElfMemory(es[..|es| - 1]);
      if IsCopied(s) then m + Chunk(s.addr, Data(s)) else m
  }

  /** The image, relative to its base, after loading at `base`: each relative relocation yields base plus addend. */
  function ElfLoad(elf: Elf, base: nat): Memory
  {
    ApplyAll(ElfMemory(elf.sections), FixesFor(AllRelative(elf.tables), base), elf.wordSize)
  }

  // ---------- the PE loader ----------

  /** A section as it is read from the file: as much as both sizes allow, then zeros. */
  function FromFile(s: PeSection, file: seq<Byte>): seq<Byte>
  {
    seq(s.vsize, k requires 0 <= k < s.vsize =>
      if k < s.rawSize && s.rawPtr + k < |file| then file[s.rawPtr + k] else 0)
  }

  function FileSections(f: PeFile): seq<PeSection>
  {
    seq(|f.image.sections|, i requires 0 <= i < |f.image.sections| =>
      f.image.sections[i].(data := FromFile(f.image.sections[i], f.file)))
  }

  /** The base relocation table as it lies in memory. */
  function TableInMemory(f: PeFile, m: Memory): Option<seq<Placed>>
  {
    if f.image.relocations.None? then Some([])
    else
      var d := f.image.relocations.value;
      if Mapped(m, d.rva, d.size) then ParseTable(ReadBytes(m, d.rva, d.size), -1) else None
  }

  function ShiftsFor(ats: seq<nat>, delta: int): seq<Fix>
  {
    seq(|ats|, i requires 0 <= i < |ats| => ShiftBy(ats[i], delta))
  }

  /** The image, relative to its base, after loading at `base`; fails on a malformed table or an unknown type. */
  function PeLoad(f: PeFile, base: nat): Option<Memory>
  {
    var m := SectionMemory(FileSections(f));
    match TableInMemory(f, m)
    case None => None
    case Some(table) =>
      if !OnlyKind(table, EntryKind(f.wordSize)) then None
      else Some(ApplyAll(m, ShiftsFor(Typed(table), base - f.imageBase), f.wordSize))
  }

  // ---------- what is assumed of the input ----------

  /** Relocated words do not overlap. */
  predicate RelocationsApart(elf: Elf)
  {
    Apart(FixesFor(AllRelative(elf.tables), 0), elf.wordSize)
  }

  /** Two relocations are for the same word, or for words that do not overlap. */
  predicate RelocationsTidy(elf: Elf)
  {
    Tidy(FixesFor(AllRelative(elf.tables), 0), elf.wordSize)
  }

  predicate InCopiedSection(elf: Elf, r: Reloc)
  {
    exists i | 0 <= i < |elf.sections| ::
      && IsCopied(elf.sections[i])
      && elf.sections[i].addr <= r.offset
      && r.offset + elf.wordSize <= elf.sections[i].addr + |Data(elf.sections[i])|
  }

  predicate RelocationsInside(elf: Elf)
  {
    var rs := AllRelative(elf.tables);
    forall i | 0 <= i < |rs| :: InCopiedSection(elf, rs[i])
  }

  /** Every address of the image fits 32 bits. */
  predicate Fits32(img: Image)
  {
    forall i | 0 <= i < |img.sections| :: End(img.sections[i]) <= U32
  }

  predicate ByteAgrees(a: Memory, b: Memory, shift: int, x: int)
    requires x in a
  {
    x + shift in b && b[x + shift] == a[x]
  }

  /** Every byte of `a` is in `b`, `shift` higher. */
  ghost predicate Agrees(a: Memory, b: Memory, shift: int)
  {
    forall x | x in a :: ByteAgrees(a, b, shift, x)
  }

  /** What the PE image holds after loading at `base` is what the ELF image holds after loading `shift` higher. */
  ghost predicate Faithful(elf: Elf, f: PeFile, base: nat)
  {
    && PeLoad(f, base).Some?
    && Agrees(ElfLoad(elf, base + f.image.shift), PeLoad(f, base).value, f.image.shift)
  }

  // ---------- the copied sections hold the ELF image ----------

  lemma {:induction false} ElfInSections(es: seq<ElfSection>, ss: seq<PeSection>, x: int)
    requires AllCovered(es, ss) && Disjoint(ss) && x in ElfMemory(es)
    ensures x in SectionMemory(ss) && SectionMemory(ss)[x] == ElfMemory(es)[x]
    decreases |es|
  {
    hide SectionMemory, Disjoint, Chunk, Data;
    var k := |es| - 1;
    var s := es[k];
    if IsCopied(s) && s.addr <= x < s.addr + |Data(s)| {
      assert Covered(s, ss);
      var j :| 0 <= j < |ss| && !ss[j].frozen && Covers(ss[j], s);
      MemoryAt(ss, j, x);
      var a := s.addr - ss[j].vaddr;
      assert ss[j].data[a..a + |Data(s)|][x - s.addr] == ss[j].data[x - ss[j].vaddr];
    } else {
      ElfInSections(es[..k], ss, x);
    }
  }

  lemma {:induction false} InElfMemory(es: seq<ElfSection>, i: nat, x: int)
    requires i < |es| && IsCopied(es[i]) && es[i].addr <= x < es[i].addr + |Data(es[i])|
    ensures x in ElfMemory(es)
    decreases |es|
  {
    hide Chunk, Data, IsCopied;
    var k := |es| - 1;
    if i < k { InElfMemory(es[..k], i, x); }
  }

  lemma InsideInPe(elf: Elf, ss: seq<PeSection>)
    requires AllCovered(elf.sections, ss) && RelocationsInside(elf)
    ensures AllInside(ss, AllRelative(elf.tables), elf.wordSize)
  {
    hide Data, IsCopied;
    var rs := AllRelative(elf.tables);
    forall i | 0 <= i < |rs| ensures InsideOne(ss, rs[i].offset, elf.wordSize) {
      assert InCopiedSection(elf, rs[i]);
      var q :| 0 <= q < |elf.sections| && IsCopied(elf.sections[q]) && elf.sections[q].addr <= rs[i].offset
               && rs[i].offset + elf.wordSize <= elf.sections[q].addr + |Data(elf.sections[q])|;
      assert Covered(elf.sections[q], ss);
      var j :| 0 <= j < |ss| && !ss[j].frozen && Covers(ss[j], elf.sections[q]);
      assert ss[j].vaddr <= rs[i].offset && rs[i].offset + elf.wordSize <= ss[j].vaddr + |ss[j].data|;
    }
  }

  lemma MappedInElf(elf: Elf, base: int)
    requires RelocationsInside(elf)
    ensures AllMapped(ElfMemory(elf.sections), FixesFor(AllRelative(elf.tables), base), elf.wordSize)
  {
    hide Data, IsCopied, ElfMemory;
    var rs := AllRelative(elf.tables);
    var fs := FixesFor(rs, base);
    forall i | 0 <= i < |fs| ensures Mapped(ElfMemory(elf.sections), fs[i].at, elf.wordSize) {
      assert InCopiedSection(elf, rs[i]);
      var q :| 0 <= q < |elf.sections| && IsCopied(elf.sections[q]) && elf.sections[q].addr <= rs[i].offset
               && rs[i].offset + elf.wordSize <= elf.sections[q].addr + |Data(elf.sections[q])|;
      assert fs[i].at == rs[i].offset;
      forall x | fs[i].at <= x < fs[i].at + elf.wordSize ensures x in ElfMemory(elf.sections) {
        InElfMemory(elf.sections, q, x);
      }
    }
  }

  lemma ElfAgrees(elf: Elf, ss: seq<PeSection>)
    requires AllCovered(elf.sections, ss) && Disjoint(ss)
    ensures Agrees(ElfMemory(elf.sections), SectionMemory(ss), 0)
  {
    hide ElfMemory, SectionMemory, AllCovered, Disjoint;
    forall x | x in ElfMemory(elf.sections) ensures ByteAgrees(ElfMemory(elf.sections), SectionMemory(ss), 0, x) {
      ElfInSections(elf.sections, ss, x);
    }
  }

  // ---------- permuted relocations ----------

  lemma SameElements(s: seq<nat>, t: seq<nat>, x: nat)
    requires multiset(s) == multiset(t)
    ensures x in s <==> x in t
  {
    assert x in s <==> x in multiset(s);
    assert x in t <==> x in multiset(t);
  }

  /** The places of the relocations in the PE image. */
  ghost predicate Places(rs: seq<Reloc>, ats: seq<nat>, shift: nat)
  {
    multiset(ats) == multiset(Shifted(Offsets(rs), shift))
  }

  lemma PlaceOf(rs: seq<Reloc>, ats: seq<nat>, shift: nat, j: nat) returns (i: nat)
    requires Places(rs, ats, shift) && j < |ats|
    ensures i < |rs| && ats[j] == rs[i].offset + shift
  {
    SameElements(ats, Shifted(Offsets(rs), shift), ats[j]);
    i :| 0 <= i < |rs| && Shifted(Offsets(rs), shift)[i] == ats[j];
  }

  lemma OffsetPlaced(rs: seq<Reloc>, ats: seq<nat>, shift: nat, i: nat) returns (j: nat)
    requires Places(rs, ats, shift) && i < |rs|
    ensures j < |ats| && ats[j] == rs[i].offset + shift
  {
    var s := Shifted(Offsets(rs), shift);
    assert s[i] in s;
    SameElements(ats, s, s[i]);
    j :| 0 <= j < |ats| && ats[j] == s[i];
  }

  lemma ShiftsTidy(rs: seq<Reloc>, ats: seq<nat>, shift: nat, delta: int, n: nat)
    requires Places(rs, ats, shift) && Tidy(FixesFor(rs, 0), n)
    ensures Tidy(ShiftsFor(ats, delta), n)
  {
    hide Places;
    var fs, gs := FixesFor(rs, 0), ShiftsFor(ats, delta);
    forall i, j | 0 <= i < j < |gs| ensures gs[i].at == gs[j].at || Clear(gs[i], gs[j], n) {
      var i' := PlaceOf(rs, ats, shift, i);
      var j' := PlaceOf(rs, ats, shift, j);
      if i' < j' {
        assert fs[i'].at == fs[j'].at || Clear(fs[i'], fs[j'], n);
      } else if j' < i' {
        assert fs[j'].at == fs[i'].at || Clear(fs[j'], fs[i'], n);
      }
    }
  }

  // ---------- one word, relocated twice ----------

  lemma WordAgrees(a: Memory, b: Memory, shift: int, o: int, n: nat)
    requires Agrees(a, b, shift) && Mapped(a, o, n)
    ensures Mapped(b, o + shift, n) && Word(b, o + shift, n) == Word(a, o, n)
  {
    forall x | o + shift <= x < o + shift + n ensures x in b { assert (x - shift) in a; }
    assert ReadBytes(b, o + shift, n) == ReadBytes(a, o, n);
  }

  lemma ModShift(u: int, v: int, q: int, k: int)
    requires k == 0x1_0000_0000 || k == 0x1_0000_0000_0000_0000
    requires u == v + k * q
    ensures u % k == v % k
  {
    if k == 0x1_0000_0000 { assert u % 0x1_0000_0000 == v % 0x1_0000_0000; }
    else { assert u % 0x1_0000_0000_0000_0000 == v % 0x1_0000_0000_0000_0000; }
  }

  lemma EightBytes()
    ensures Modulus(8) == 0x1_0000_0000_0000_0000
  {
    FourBytes();
    assert Modulus(8) == 256 * Modulus(7) == 256 * 256 * Modulus(6);
    assert Modulus(6) == 256 * Modulus(5) == 256 * 256 * Modulus(4);
  }

  /** Reducing before a further shift makes no difference. */
  lemma Rebase(u: int, v: int, n: nat)
    requires n == 4 || n == 8
    ensures (u % Modulus(n) + v) % Modulus(n) == (u + v) % Modulus(n)
  {
    FourBytes();
    EightBytes();
    hide Modulus;
    var k := Modulus(n);
    ModShift(u + v, u % k + v, u / k, k);
  }

  lemma ModEqual(u: int, v: int, n: nat)
    requires n == 4 || n == 8
    ensures u % Modulus(n) == (u + v) % Modulus(n) <==> v % Modulus(n) == 0
  {
    FourBytes();
    EightBytes();
    hide Modulus;
    var k := Modulus(n);
    if v % k == 0 { ModShift(u + v, u, v / k, k); }
    if u % k == (u + v) % k { ModShift(v, 0, (u + v) / k - u / k, k); }
  }

  // ---------- one word, through all its relocations ----------

  /** How many relocations there are for the word at `o`. */
  function Total(rs: seq<Reloc>, o: nat): nat
  {
    if rs == [] then 0
    else Total(rs[..|rs| - 1], o) + if rs[|rs| - 1].offset == o then 1 else 0
  }

  /** How many of them an ELF loader forgets: those before the last one with an addend of its own. */
  function Lost(rs: seq<Reloc>, o: nat): nat
  {
    if rs == [] then 0
    else
      var front, r := rs[..|rs| - 1], rs[|rs| - 1];
      if r.offset == o && r.addend.Some? then Total(front, o) else Lost(front, o)
  }

  /** And how many it keeps; each adds the base address once. */
  function Kept(rs: seq<Reloc>, o: nat): nat
  {
    if rs == [] then 0
    else
      var front, r := rs[..|rs| - 1], rs[|rs| - 1];
      if r.offset != o then Kept(front, o) else if r.addend.Some? then 1 else Kept(front, o) + 1
  }

  /** What it adds them to: the last addend, or the word itself. */
  function Basis(rs: seq<Reloc>, o: nat, w: nat): int
  {
    if rs == [] then w
    else
      var front, r := rs[..|rs| - 1], rs[|rs| - 1];
      if r.offset == o && r.addend.Some? then r.addend.value else Basis(front, o, w)
  }

  lemma {:induction false} KeptAndLost(rs: seq<Reloc>, o: nat)
    ensures Total(rs, o) == Kept(rs, o) + Lost(rs, o)
  {
    if rs != [] { KeptAndLost(rs[..|rs| - 1], o); }
  }

  /** The word after relocation for `base`. */
  lemma {:induction false} RelocatedTo(rs: seq<Reloc>, base: int, o: nat, w: nat, n: nat)
    requires (n == 4 || n == 8) && w < Modulus(n)
    ensures WordAfter(FixesFor(rs, base), o, w, n) == (Basis(rs, o, w) + Kept(rs, o) * base) % Modulus(n)
    decreases |rs|
  {
    hide Modulus, NewWord;
    var fs := FixesFor(rs, base);
    if rs == [] {
      InRange(w, n);
    } else {
      var k := |rs| - 1;
      var r := rs[k];
      assert fs[..k] == FixesFor(rs[..k], base);
      RelocatedTo(rs[..k], base, o, w, n);
      var before := Basis(rs[..k], o, w) + Kept(rs[..k], o) * base;
      if r.offset == o {
        if r.addend.Some? {
          SetWord(o, base + r.addend.value, WordAfter(fs[..k], o, w, n), n);
        } else {
          ShiftWord(o, base, before, n);
          OneMore(Kept(rs[..k], o), base);
        }
      }
    }
  }

  lemma OneMore(k: nat, x: int)
    ensures (k + 1) * x == k * x + x
  {
  }

  lemma SetWord(o: int, v: int, w: nat, n: nat)
    ensures NewWord(SetTo(o, v), w, n) == v % Modulus(n)
  {
  }

  lemma ShiftWord(o: int, delta: int, v: int, n: nat)
    requires n == 4 || n == 8
    ensures NewWord(ShiftBy(o, delta), v % Modulus(n), n) == (v + delta) % Modulus(n)
  {
    hide Modulus;
    Rebase(v, delta, n);
  }

  function CountOf(ats: seq<nat>, a: nat): nat
  {
    if ats == [] then 0 else CountOf(ats[..|ats| - 1], a) + if ats[|ats| - 1] == a then 1 else 0
  }

  /** The word after a PE loader has shifted it, once for each entry of the table. */
  lemma {:induction false} ShiftedTo(ats: seq<nat>, delta: int, a: nat, v: int, n: nat)
    requires n == 4 || n == 8
    ensures WordAfter(ShiftsFor(ats, delta), a, v % Modulus(n), n) == (v + CountOf(ats, a) * delta) % Modulus(n)
    decreases |ats|
  {
    hide Modulus, NewWord;
    var fs := ShiftsFor(ats, delta);
    if ats != [] {
      var k := |ats| - 1;
      assert fs[..k] == ShiftsFor(ats[..k], delta);
      ShiftedTo(ats[..k], delta, a, v, n);
      if ats[k] == a {
        ShiftWord(a, delta, v + CountOf(ats[..k], a) * delta, n);
        OneMore(CountOf(ats[..k], a), delta);
      }
    }
  }

  lemma {:induction false} CountIsMultiplicity(ats: seq<nat>, a: nat)
    ensures CountOf(ats, a) == multiset(ats)[a]
    decreases |ats|
  {
    if ats != [] {
      var k := |ats| - 1;
      CountIsMultiplicity(ats[..k], a);
      assert ats == ats[..k] + [ats[k]];
    }
  }

  lemma {:induction false} CountIsTotal(rs: seq<Reloc>, shift: nat, o: nat)
    ensures CountOf(Shifted(Offsets(rs), shift), o + shift) == Total(rs, o)
    decreases |rs|
  {
    if rs != [] {
      var k := |rs| - 1;
      CountIsTotal(rs[..k], shift, o);
      assert Shifted(Offsets(rs), shift)[..k] == Shifted(Offsets(rs[..k]), shift);
    }
  }

  lemma PlacesCount(rs: seq<Reloc>, ats: seq<nat>, shift: nat, o: nat)
    requires Places(rs, ats, shift)
    ensures CountOf(ats, o + shift) == Total(rs, o)
  {
    CountIsMultiplicity(ats, o + shift);
    CountIsMultiplicity(Shifted(Offsets(rs), shift), o + shift);
    CountIsTotal(rs, shift, o);
  }

  /**
   Relocating for the preferred base, and then shifting by the difference once for each relocation, is relocating
   for the real base if and only if the forgotten relocations do not matter.
   */
  lemma SameWord(rs: seq<Reloc>, ats: seq<nat>, w: nat, base: int, shift: nat, delta: int, o: nat, n: nat)
    requires (n == 4 || n == 8) && w < Modulus(n) && Places(rs, ats, shift)
    ensures var file := WordAfter(FixesFor(rs, base + shift), o, w, n);
      WordAfter(ShiftsFor(ats, delta), o + shift, file, n) == WordAfter(FixesFor(rs, base + delta + shift), o, w, n)
      <==> (Lost(rs, o) * delta) % Modulus(n) == 0
  {
    hide Modulus, WordAfter, FixesFor, ShiftsFor, Places, Basis;
    RelocatedTo(rs, base + shift, o, w, n);
    RelocatedTo(rs, base + delta + shift, o, w, n);
    var v := Basis(rs, o, w) + Kept(rs, o) * (base + shift);
    ShiftedTo(ats, delta, o + shift, v, n);
    PlacesCount(rs, ats, shift, o);
    KeptAndLost(rs, o);
    Products(Kept(rs, o), Lost(rs, o), base, shift, delta);
    ModEqual(Basis(rs, o, w) + Kept(rs, o) * (base + delta + shift), Lost(rs, o) * delta, n);
  }

  lemma Products(k: nat, l: nat, base: int, shift: int, delta: int)
    ensures k * (base + shift) + (k + l) * delta == k * (base + delta + shift) + l * delta
  {
  }

  // ---------- the two chains of relocations ----------

  /** `e0` and `m0` before relocation, `m1` as converted, `m2` as loaded from the file, `ats` as read from the table. */
  ghost predicate Links(
    e0: Memory, m0: Memory, m1: Memory, m2: Memory, rs: seq<Reloc>, ats: seq<nat>, base: int, shift: nat, n: nat)
  {
    && (n == 4 || n == 8)
    && Agrees(e0, m0, 0) && Agrees(m1, m2, shift)
    && Places(rs, ats, shift) && AllMapped(e0, FixesFor(rs, 0), n)
    && m1 == ApplyAll(m0, FixesFor(rs, base + shift), n)
  }

  ghost predicate Chain(
    e0: Memory, m0: Memory, m1: Memory, m2: Memory, rs: seq<Reloc>, ats: seq<nat>, base: int, shift: nat, n: nat)
  {
    Links(e0, m0, m1, m2, rs, ats, base, shift, n) && Tidy(FixesFor(rs, 0), n)
  }

  lemma FixesElsewhere(m: Memory, rs: seq<Reloc>, base: int, n: nat)
    requires Tidy(FixesFor(rs, 0), n) && AllMapped(m, FixesFor(rs, 0), n) && n > 0
    ensures Tidy(FixesFor(rs, base), n) && AllMapped(m, FixesFor(rs, base), n)
    ensures Effect(m, ApplyAll(m, FixesFor(rs, base), n), FixesFor(rs, base), n)
  {
    hide Effect, ApplyAll;
    var fs, gs := FixesFor(rs, 0), FixesFor(rs, base);
    assert forall i | 0 <= i < |rs| :: fs[i].at == gs[i].at;
    forall i, j | 0 <= i < j < |gs| ensures gs[i].at == gs[j].at || Clear(gs[i], gs[j], n) {
      assert fs[i].at == fs[j].at || Clear(fs[i], fs[j], n);
    }
    forall i | 0 <= i < |gs| ensures Mapped(m, gs[i].at, n) { assert Mapped(m, fs[i].at, n); }
    AllEffect(m, gs, n);
  }

  lemma MappedAlong(a: Memory, b: Memory, rs: seq<Reloc>, n: nat)
    requires Agrees(a, b, 0) && AllMapped(a, FixesFor(rs, 0), n)
    ensures AllMapped(b, FixesFor(rs, 0), n)
  {
    hide Agrees, Mapped, Word;
    var fs := FixesFor(rs, 0);
    forall i | 0 <= i < |fs| ensures Mapped(b, fs[i].at, n) {
      assert Mapped(a, fs[i].at, n);
      WordAgrees(a, b, 0, fs[i].at, n);
      assert fs[i].at + 0 == fs[i].at;
    }
  }

  lemma ShiftsEffect(m1: Memory, m2: Memory, rs: seq<Reloc>, ats: seq<nat>, shift: nat, delta: int, n: nat)
    requires n > 0 && Agrees(m1, m2, shift) && Places(rs, ats, shift)
    requires Tidy(FixesFor(rs, 0), n) && AllMapped(m1, FixesFor(rs, 0), n)
    ensures AllMapped(m2, ShiftsFor(ats, delta), n)
    ensures Effect(m2, ApplyAll(m2, ShiftsFor(ats, delta), n), ShiftsFor(ats, delta), n)
  {
    hide Effect, ApplyAll, Places, Agrees, Mapped, Word, Tidy;
    var fs, gs := FixesFor(rs, 0), ShiftsFor(ats, delta);
    ShiftsTidy(rs, ats, shift, delta, n);
    forall j | 0 <= j < |gs| ensures Mapped(m2, gs[j].at, n) {
      var i := PlaceOf(rs, ats, shift, j);
      assert Mapped(m1, fs[i].at, n);
      WordAgrees(m1, m2, shift, fs[i].at, n);
    }
    AllEffect(m2, gs, n);
  }

  /** The effects of the three lists of fixes. */
  lemma Effects(
    e0: Memory, m0: Memory, m1: Memory, m2: Memory, rs: seq<Reloc>, ats: seq<nat>, base: int, shift: nat, n: nat,
    real': int)
    requires Chain(e0, m0, m1, m2, rs, ats, base, shift, n)
    ensures AllMapped(e0, FixesFor(rs, real' + shift), n) && AllMapped(m0, FixesFor(rs, base + shift), n)
    ensures AllMapped(m2, ShiftsFor(ats, real' - base), n)
    ensures Effect(e0, ApplyAll(e0, FixesFor(rs, real' + shift), n), FixesFor(rs, real' + shift), n)
    ensures Effect(m0, m1, FixesFor(rs, base + shift), n)
    ensures Effect(m2, ApplyAll(m2, ShiftsFor(ats, real' - base), n), ShiftsFor(ats, real' - base), n)
  {
    hide Effect, ApplyAll, Places, Agrees, Tidy, FixesFor, ShiftsFor;
    FixesElsewhere(e0, rs, real' + shift, n);
    MappedAlong(e0, m0, rs, n);
    FixesElsewhere(m0, rs, base + shift, n);
    KeysKept(m0, m1, rs, base + shift, n);
    ShiftsEffect(m1, m2, rs, ats, shift, real' - base, n);
  }

  lemma KeysKept(m: Memory, m': Memory, rs: seq<Reloc>, base: int, n: nat)
    requires AllMapped(m, FixesFor(rs, 0), n) && AllMapped(m, FixesFor(rs, base), n)
    requires Effect(m, m', FixesFor(rs, base), n)
    ensures AllMapped(m', FixesFor(rs, 0), n)
  {
    SameKeysMapped(m, m', FixesFor(rs, 0), n);
  }

  /** A relocated word has the same value in both loaded images exactly if what is forgotten does not matter. */
  lemma RelocatedWord(
    e0: Memory, m0: Memory, m1: Memory, m2: Memory, rs: seq<Reloc>, ats: seq<nat>, base: int, shift: nat, n: nat,
    real': int, i: nat)
    requires Chain(e0, m0, m1, m2, rs, ats, base, shift, n) && i < |rs|
    ensures var e1 := ApplyAll(e0, FixesFor(rs, real' + shift), n);
      var p := ApplyAll(m2, ShiftsFor(ats, real' - base), n);
      var o := rs[i].offset;
      && Mapped(e1, o, n) && Mapped(p, o + shift, n)
      && (Word(e1, o, n) == Word(p, o + shift, n) <==> (Lost(rs, o) * (real' - base)) % Modulus(n) == 0)
  {
    hide ApplyAll, Places, Agrees, Tidy, Word, Mapped, WordAfter, Touched, Modulus;
    Effects(e0, m0, m1, m2, rs, ats, base, shift, n, real');
    var o := rs[i].offset;
    var fe, fc, fp := FixesFor(rs, real' + shift), FixesFor(rs, base + shift), ShiftsFor(ats, real' - base);
    var e1, p := ApplyAll(e0, fe, n), ApplyAll(m2, fp, n);
    var j := OffsetPlaced(rs, ats, shift, i);
    assert fe[i].at == o && fc[i].at == o && fp[j].at == o + shift;
    assert Mapped(e1, fe[i].at, n) && Mapped(p, fp[j].at, n) && Mapped(e0, fe[i].at, n) && Mapped(m1, fc[i].at, n);
    WordAgrees(e0, m0, 0, o, n);
    assert o + 0 == o;
    WordAgrees(m1, m2, shift, o, n);
    WordFits(e0, o, n);
    SameWord(rs, ats, Word(e0, o, n), base, shift, real' - base, o, n);
    assert base + (real' - base) + shift == real' + shift;
  }

  lemma WordFits(m: Memory, a: int, n: nat)
    requires Mapped(m, a, n)
    ensures Word(m, a, n) < Modulus(n)
  {
    ValueFits(ReadBytes(m, a, n));
  }

  /** Every other byte is the same. */
  lemma OtherByte(
    e0: Memory, m0: Memory, m1: Memory, m2: Memory, rs: seq<Reloc>, ats: seq<nat>, base: int, shift: nat, n: nat,
    real': int, x: int)
    requires Chain(e0, m0, m1, m2, rs, ats, base, shift, n)
    requires x in e0 && !Touched(FixesFor(rs, 0), n, x)
    ensures var e1 := ApplyAll(e0, FixesFor(rs, real' + shift), n);
      var p := ApplyAll(m2, ShiftsFor(ats, real' - base), n);
      x in e1 && x + shift in p && p[x + shift] == e1[x]
  {
    hide ApplyAll, Places, Tidy, Word, Mapped, WordAfter, Touched, FixesFor, ShiftsFor;
    Effects(e0, m0, m1, m2, rs, ats, base, shift, n, real');
    SameTouched(rs, ats, base, shift, n, real', x);
    var fe, fc, fp := FixesFor(rs, real' + shift), FixesFor(rs, base + shift), ShiftsFor(ats, real' - base);
    var e1, p := ApplyAll(e0, fe, n), ApplyAll(m2, fp, n);
    assert x in e1.Keys && ByteAgrees(e0, m0, 0, x);
    assert x + 0 == x && x in m1.Keys;
    assert ByteAgrees(m1, m2, shift, x) && x + shift in p.Keys;
  }

  lemma TouchedAnyBase(rs: seq<Reloc>, base: int, n: nat, x: int)
    requires Touched(FixesFor(rs, base), n, x)
    ensures Touched(FixesFor(rs, 0), n, x)
  {
    var i :| 0 <= i < |rs| && FixesFor(rs, base)[i].at <= x < FixesFor(rs, base)[i].at + n;
    assert FixesFor(rs, 0)[i].at <= x < FixesFor(rs, 0)[i].at + n;
  }

  lemma SameTouched(rs: seq<Reloc>, ats: seq<nat>, base: int, shift: nat, n: nat, real': int, x: int)
    requires Places(rs, ats, shift) && !Touched(FixesFor(rs, 0), n, x)
    ensures !Touched(FixesFor(rs, real' + shift), n, x) && !Touched(FixesFor(rs, base + shift), n, x)
    ensures !Touched(ShiftsFor(ats, real' - base), n, x + shift)
  {
    hide Places;
    if Touched(FixesFor(rs, real' + shift), n, x) {
      TouchedAnyBase(rs, real' + shift, n, x);
      assert false;
    }
    if Touched(FixesFor(rs, base + shift), n, x) {
      TouchedAnyBase(rs, base + shift, n, x);
      assert false;
    }
    if Touched(ShiftsFor(ats, real' - base), n, x + shift) {
      TouchedShifted(rs, ats, shift, real' - base, n, x);
      assert false;
    }
  }

  lemma TouchedShifted(rs: seq<Reloc>, ats: seq<nat>, shift: nat, delta: int, n: nat, x: int)
    requires Places(rs, ats, shift) && Touched(ShiftsFor(ats, delta), n, x + shift)
    ensures Touched(FixesFor(rs, 0), n, x)
  {
    hide Places;
    var fs, fp := FixesFor(rs, 0), ShiftsFor(ats, delta);
    var j :| 0 <= j < |fp| && fp[j].at <= x + shift < fp[j].at + n;
    var i := PlaceOf(rs, ats, shift, j);
    assert fs[i].at <= x < fs[i].at + n;
  }

  /** No word is changed by the relocations for it that an ELF loader forgets. */
  ghost predicate NothingLost(rs: seq<Reloc>, delta: int, n: nat)
  {
    forall i | 0 <= i < |rs| :: (Lost(rs, rs[i].offset) * delta) % Modulus(n) == 0
  }

  /** Together: the two loaded images agree exactly if nothing is lost. */
  lemma ChainAgrees(
    e0: Memory, m0: Memory, m1: Memory, m2: Memory, rs: seq<Reloc>, ats: seq<nat>, base: int, shift: nat, n: nat,
    real': int)
    requires Chain(e0, m0, m1, m2, rs, ats, base, shift, n)
    ensures
      Agrees(ApplyAll(e0, FixesFor(rs, real' + shift), n), ApplyAll(m2, ShiftsFor(ats, real' - base), n), shift)
      <==> NothingLost(rs, real' - base, n)
  {
    hide ApplyAll, Chain, ShiftsFor, FixesFor, Mapped, Word, Lost, Modulus, Agrees;
    var e1, p := ApplyAll(e0, FixesFor(rs, real' + shift), n), ApplyAll(m2, ShiftsFor(ats, real' - base), n);
    if Agrees(e1, p, shift) {
      forall i | 0 <= i < |rs| ensures (Lost(rs, rs[i].offset) * (real' - base)) % Modulus(n) == 0 {
        RelocatedWord(e0, m0, m1, m2, rs, ats, base, shift, n, real', i);
        WordAgrees(e1, p, shift, rs[i].offset, n);
      }
    }
    if NothingLost(rs, real' - base, n) {
      forall x | x in e1 ensures ByteAgrees(e1, p, shift, x) {
        SameByte(e0, m0, m1, m2, rs, ats, base, shift, n, real', x);
      }
      EveryByte(e1, p, shift);
    }
  }

  lemma EveryByte(a: Memory, b: Memory, shift: int)
    requires forall x | x in a :: ByteAgrees(a, b, shift, x)
    ensures Agrees(a, b, shift)
  {
  }

  lemma SameByte(
    e0: Memory, m0: Memory, m1: Memory, m2: Memory, rs: seq<Reloc>, ats: seq<nat>, base: int, shift: nat, n: nat,
    real': int, x: int)
    requires Chain(e0, m0, m1, m2, rs, ats, base, shift, n) && NothingLost(rs, real' - base, n)
    requires x in ApplyAll(e0, FixesFor(rs, real' + shift), n)
    ensures ByteAgrees(ApplyAll(e0, FixesFor(rs, real' + shift), n), ApplyAll(m2, ShiftsFor(ats, real' - base), n),
                       shift, x)
  {
    hide ApplyAll, Chain, ShiftsFor, Mapped, Word, Lost, Modulus;
    var e1, p := ApplyAll(e0, FixesFor(rs, real' + shift), n), ApplyAll(m2, ShiftsFor(ats, real' - base), n);
    if Touched(FixesFor(rs, 0), n, x) {
      var i :| 0 <= i < |rs| && FixesFor(rs, 0)[i].at <= x < FixesFor(rs, 0)[i].at + n;
      RelocatedWord(e0, m0, m1, m2, rs, ats, base, shift, n, real', i);
      var o := rs[i].offset;
      MappedByte(p, o + shift, n, x - o);
      WordDetermines(e1, o, p, o + shift, n, x - o);
    } else {
      SameKeys(e0, m0, m1, m2, rs, ats, base, shift, n, real', x);
      OtherByte(e0, m0, m1, m2, rs, ats, base, shift, n, real', x);
    }
  }

  lemma MappedByte(m: Memory, a: int, n: nat, k: nat)
    requires Mapped(m, a, n) && k < n
    ensures a + k in m
  {
  }

  lemma SameKeys(
    e0: Memory, m0: Memory, m1: Memory, m2: Memory, rs: seq<Reloc>, ats: seq<nat>, base: int, shift: nat, n: nat,
    real': int, x: int)
    requires Chain(e0, m0, m1, m2, rs, ats, base, shift, n) && x in ApplyAll(e0, FixesFor(rs, real' + shift), n)
    ensures x in e0
  {
    hide ApplyAll, Chain, FixesFor, ShiftsFor;
    Effects(e0, m0, m1, m2, rs, ats, base, shift, n, real');
    assert x in ApplyAll(e0, FixesFor(rs, real' + shift), n).Keys;
  }

  // ---------- what the loader finds in the file ----------

  lemma SectionFromFile(s: PeSection, file: seq<Byte>)
    requires InFile(s, file) && Sized(s)
    ensures FromFile(s, file) == s.data
  {
    AlignToIs(|s.data|, FILE_ALIGNMENT);
    hide AlignTo;
    forall k | 0 <= k < |s.data| ensures FromFile(s, file)[k] == s.data[k] {
      assert s.data[k] == file[s.rawPtr..s.rawPtr + |s.data|][k];
    }
  }

  /** The converted sections, before and after the file is written and read. */
  ghost predicate Written(f: PeFile, img: Image)
  {
    && f.image == img.(sections := WithPointers(img.sections, img.sizeOfHeaders))
    && forall i | 0 <= i < |f.image.sections| :: InFile(f.image.sections[i], f.file)
  }

  lemma FileIsRead(f: PeFile, img: Image)
    requires Written(f, img) && AllSized(img.sections)
    ensures |FileSections(f)| == |img.sections|
    ensures forall i | 0 <= i < |img.sections| ::
      FileSections(f)[i].vaddr == img.sections[i].vaddr && FileSections(f)[i].data == img.sections[i].data
  {
    hide InFile, AllSized, Sized, FromFile;
    forall i | 0 <= i < |img.sections|
      ensures FileSections(f)[i].vaddr == img.sections[i].vaddr && FileSections(f)[i].data == img.sections[i].data
    {
      SizedWithPointer(img.sections, img.sizeOfHeaders, i);
      SectionFromFile(f.image.sections[i], f.file);
    }
  }

  lemma SizedWithPointer(ss: seq<PeSection>, sizeOfHeaders: nat, i: nat)
    requires AllSized(ss) && i < |ss|
    ensures Sized(WithPointers(ss, sizeOfHeaders)[i])
  {
    assert Sized(ss[i]);
  }

  lemma OrderedIsDisjoint(ss: seq<PeSection>)
    requires Ordered(ss) && AllSized(ss)
    ensures Disjoint(ss)
  {
    forall i, j | 0 <= i < j < |ss| ensures ss[i].vaddr + |ss[i].data| <= ss[j].vaddr {
      assert Sized(ss[i]) && End(ss[i]) <= ss[j].vaddr;
    }
  }

  lemma MovedByte(ss: seq<PeSection>, shift: nat, all: seq<PeSection>, i: nat, x: int)
    requires Disjoint(ss) && Disjoint(all) && i < |ss| <= |all| && Hits(ss[i], x)
    requires all[i].vaddr == ss[i].vaddr + shift && all[i].data == ss[i].data
    ensures x in SectionMemory(ss) && x + shift in SectionMemory(all)
    ensures SectionMemory(all)[x + shift] == SectionMemory(ss)[x]
  {
    hide SectionMemory, Disjoint;
    MemoryAt(ss, i, x);
    MemoryAt(all, i, x + shift);
  }

  lemma MovedAgrees(ss: seq<PeSection>, shift: nat, all: seq<PeSection>)
    requires Disjoint(ss) && Disjoint(all) && |all| >= |ss|
    requires forall i | 0 <= i < |ss| :: all[i].vaddr == ss[i].vaddr + shift && all[i].data == ss[i].data
    ensures Agrees(SectionMemory(ss), SectionMemory(all), shift)
  {
    hide SectionMemory, Disjoint, Hits;
    forall x | x in SectionMemory(ss) ensures ByteAgrees(SectionMemory(ss), SectionMemory(all), shift, x) {
      MemoryOnly(ss, x);
      var i :| 0 <= i < |ss| && Hits(ss[i], x);
      MovedByte(ss, shift, all, i, x);
    }
  }

  lemma SectionIsRead(ss: seq<PeSection>, i: nat)
    requires Disjoint(ss) && i < |ss|
    ensures var m := SectionMemory(ss);
      Mapped(m, ss[i].vaddr, |ss[i].data|) && ReadBytes(m, ss[i].vaddr, |ss[i].data|) == ss[i].data
  {
    hide SectionMemory, Disjoint;
    forall x | Hits(ss[i], x) ensures x in SectionMemory(ss) && SectionMemory(ss)[x] == ss[i].data[x - ss[i].vaddr] {
      MemoryAt(ss, i, x);
    }
  }

  lemma NoBlocks(rs: seq<Reloc>, kind: nat, shift: nat)
    requires BlocksHold(map[], Offsets(rs), kind)
    ensures Places(rs, [], shift)
  {
    if rs != [] {
      SomeBlock(map[], Offsets(rs), kind);
      assert false;
    }
  }

  lemma SomeBlock(blocks: Blocks, offs: seq<nat>, kind: nat)
    requires BlocksHold(blocks, offs, kind) && offs != []
    ensures blocks != map[]
  {
    assert PageOf(offs[0]) in blocks;
  }

  /** Offsets of relocations, moved up, are below the end of the image. */
  lemma OffsetsFit(elf: Elf, ss: seq<PeSection>, shift: nat)
    requires AllInside(ss, AllRelative(elf.tables), elf.wordSize) && elf.wordSize > 0
    requires forall i | 0 <= i < |ss| :: ss[i].vaddr + |ss[i].data| + shift <= U32
    ensures var offs := Offsets(AllRelative(elf.tables)); forall i | 0 <= i < |offs| :: offs[i] + shift < U32
  {
    var rs := AllRelative(elf.tables);
    forall i | 0 <= i < |rs| ensures rs[i].offset + shift < U32 { assert InsideOne(ss, rs[i].offset, elf.wordSize); }
  }

  /** The table that the loader finds lists the places of all relocations. */
  lemma TableIsFound(f: PeFile, img: Image, ss: seq<PeSection>, blocks: Blocks, rs: seq<Reloc>, n: nat)
    requires AllPages(blocks, SortedSet(blocks.Keys)) && Assembled(img, ss, blocks)
    requires BlocksHold(blocks, Offsets(rs), EntryKind(n))
    requires blocks != map[] ==> TableFits(blocks, Offsets(rs), SortedSet(blocks.Keys), img.shift)
    requires f.image.relocations == img.relocations && Disjoint(FileSections(f))
    requires |FileSections(f)| == |img.sections|
    requires forall i | 0 <= i < |img.sections| ::
      FileSections(f)[i].vaddr == img.sections[i].vaddr && FileSections(f)[i].data == img.sections[i].data
    ensures var t := TableInMemory(f, SectionMemory(FileSections(f)));
      t.Some? && OnlyKind(t.value, EntryKind(n)) && Places(rs, Typed(t.value), img.shift)
  {
    hide SectionMemory, Disjoint, FileSections, BlocksHold, TableBytes, SortedSet, Increasing, ParseTable, AllPages,
      ListsPages, MovedAll, TableFits;
    if blocks == map[] {
      NoBlocks(rs, EntryKind(n), img.shift);
    } else {
      var pages := SortedSet(blocks.Keys);
      KeysArePages(blocks);
      TableIsFaithful(blocks, Offsets(rs), EntryKind(n), pages, img.shift);
      var table := TableBytes(blocks, pages, img.shift);
      SectionIsRead(FileSections(f), |img.sections| - 1);
      assert img.sections[|img.sections| - 1].data == table;
    }
  }

  // ---------- the whole conversion ----------

  /** What `elf2efi()` makes of `elf`. */
  ghost predicate Converted(elf: Elf, names: seq<string>, minimumSections: int, f: PeFile)
  {
    && LaysOut(elf, names) && Layout(elf, names) != []
    && f.image.shift == ShiftFor(elf.wordSize, Layout(elf, names), minimumSections)
    && exists img ::
         && Relocated(elf, f.imageBase, Layout(elf, names), img) && LaidOut(img, elf.wordSize)
         && Written(f, img)
         && f.wordSize == elf.wordSize && f.image.entry == elf.entry + f.image.shift
  }

  lemma SizedSameShape(ss0: seq<PeSection>, ss: seq<PeSection>)
    requires AllSized(ss0) && SameShape(ss0, ss)
    ensures AllSized(ss)
  {
    forall i | 0 <= i < |ss| ensures Sized(ss[i]) { assert Sized(ss0[i]); }
  }

  lemma SizedAssembled(img: Image, ss: seq<PeSection>, blocks: Blocks)
    requires AllPages(blocks, SortedSet(blocks.Keys)) && Assembled(img, ss, blocks) && AllSized(ss)
    ensures AllSized(img.sections) && |img.sections| >= |ss|
    ensures forall i | 0 <= i < |ss| :: img.sections[i] == Moved(ss[i], img.shift)
  {
    hide TableBytes, SortedSet, AllPages, NextSectionAddress, AlignTo, Assembled;
    AssembledSizes(img, ss, blocks);
    forall i | 0 <= i < |img.sections| ensures Sized(img.sections[i]) {
      if i < |ss| { assert Sized(ss[i]); }
    }
  }

  /** The pieces of a conversion, put together. */
  lemma ChainOf(elf: Elf, f: PeFile, ss0: seq<PeSection>, img: Image) returns (table: seq<Placed>, ss: seq<PeSection>)
    requires WellFormed(elf) && RelocationsInside(elf) && Fits32(f.image)
    requires AllCovered(elf.sections, ss0) && Ordered(ss0) && AllSized(ss0)
    requires Relocated(elf, f.imageBase, ss0, img) && LaidOut(img, elf.wordSize) && Written(f, img)
    ensures var m2 := SectionMemory(FileSections(f));
      && TableInMemory(f, m2) == Some(table) && OnlyKind(table, EntryKind(elf.wordSize))
      && Links(ElfMemory(elf.sections), SectionMemory(ss0), SectionMemory(ss), m2, AllRelative(elf.tables),
               Typed(table), f.imageBase, f.image.shift, elf.wordSize)
  {
    hide SectionMemory, Disjoint, FileSections, BlocksHold, SortedSet, Increasing, AllPages, Assembled, AllSized,
      AllCovered, RelocationsInside, AllInside, FixesFor, ApplyAll, Agrees, AllMapped, Places, AllRelative,
      ElfMemory, TableInMemory, OnlyKind, Typed, Ordered, Aligned, HeaderStart, SameHeaders, SameShape, InFile,
      WithPointers, Offsets, AllApplied, AllEntries, TableFits, LaidOut, Fits32;
    var rs, n := AllRelative(elf.tables), elf.wordSize;
    var blocks := AllEntries(rs, n);
    ss := AllApplied(rs, f.imageBase + img.shift, ss0, n).value;
    OrderedIsDisjoint(ss0);
    InsideInPe(elf, ss0);
    ElfAgrees(elf, ss0);
    MappedInElf(elf, 0);
    AllAppliedAreFixes(rs, f.imageBase + img.shift, ss0, n);
    EntriesHold(rs, n);
    SizedSameShape(ss0, ss);
    SizedAssembled(img, ss, blocks);
    LaidOutOrdered(img, n);
    OrderedIsDisjoint(img.sections);
    FileIsRead(f, img);
    DisjointSameShape(img.sections, FileSections(f));
    MovedAgrees(ss, img.shift, FileSections(f));
    ImageFits(elf, f, img, ss0, ss, blocks);
    TableIsFound(f, img, ss, blocks, rs, n);
    table := TableInMemory(f, SectionMemory(FileSections(f))).value;
  }

  lemma LaidOutOrdered(img: Image, n: nat)
    requires LaidOut(img, n)
    ensures Ordered(img.sections) && img.shift % PAGE == 0
  {
  }

  lemma ImageFits(elf: Elf, f: PeFile, img: Image, ss0: seq<PeSection>, ss: seq<PeSection>, blocks: Blocks)
    requires WellFormed(elf) && Fits32(f.image) && Written(f, img) && SameShape(ss0, ss) && AllSized(ss)
    requires AllInside(ss0, AllRelative(elf.tables), elf.wordSize) && |img.sections| >= |ss|
    requires forall i | 0 <= i < |ss| :: img.sections[i] == Moved(ss[i], img.shift)
    requires LaidOut(img, elf.wordSize) && AllPages(blocks, SortedSet(blocks.Keys)) && Assembled(img, ss, blocks)
    ensures blocks != map[] ==>
      TableFits(blocks, Offsets(AllRelative(elf.tables)), SortedSet(blocks.Keys), img.shift)
  {
    hide AllInside, AllRelative, Offsets, InFile, Assembled, SortedSet, Increasing, AllPages, TableBytes, Ordered,
      Aligned, HeaderStart;
    forall i | 0 <= i < |ss0| ensures ss0[i].vaddr + |ss0[i].data| + img.shift <= U32 {
      assert Sized(ss[i]);
      assert End(f.image.sections[i]) == End(Moved(ss[i], img.shift));
    }
    OffsetsFit(elf, ss0, img.shift);
    if blocks != map[] { TableLength(f, img, ss, blocks, elf.wordSize); }
  }

  /** The table lies above the headers, so that it is shorter than the address space. */
  lemma TableLength(f: PeFile, img: Image, ss: seq<PeSection>, blocks: Blocks, n: nat)
    requires Fits32(f.image) && Written(f, img) && LaidOut(img, n) && blocks != map[]
    requires AllPages(blocks, SortedSet(blocks.Keys)) && Assembled(img, ss, blocks)
    ensures |TableBytes(blocks, SortedSet(blocks.Keys), img.shift)| < U32
  {
    hide SortedSet, Increasing, AllPages, TableBytes, Ordered, Aligned, InFile, MovedAll, NextSectionAddress;
    var k := |img.sections| - 1;
    AboveHeaders(img, n, k);
    assert End(f.image.sections[k]) == End(img.sections[k]);
  }

  /**
   The PE loader accepts the converted file at every base address. The image that it makes is the one that the ELF
   loader makes, `shift` higher, if and only if nothing is lost to relocations listed more than once; and the entry
   point is in the same place of it.
   */
  lemma ConversionIsFaithful(elf: Elf, names: seq<string>, minimumSections: int, f: PeFile, base: nat)
    requires WellFormed(elf) && RelocationsTidy(elf) && RelocationsInside(elf)
    requires Converted(elf, names, minimumSections, f) && Fits32(f.image)
    ensures PeLoad(f, base).Some?
    ensures Faithful(elf, f, base) <==> NothingLost(AllRelative(elf.tables), base - f.imageBase, elf.wordSize)
    ensures base + f.image.entry == base + f.image.shift + elf.entry
  {
    hide WellFormed, RelocationsInside, Fits32, SectionMemory, FileSections, TableInMemory, Links, OnlyKind, Typed,
      AllRelative, FixesFor, ShiftsFor, ApplyAll, Agrees, NothingLost, Converted, Tidy;
    var table, m0, m1 := LinksOf(elf, names, minimumSections, f);
    ChainAgrees(ElfMemory(elf.sections), m0, m1, SectionMemory(FileSections(f)), AllRelative(elf.tables), Typed(table),
                f.imageBase, f.image.shift, elf.wordSize, base);
  }

  /** The memories of a conversion and its table. */
  lemma LinksOf(elf: Elf, names: seq<string>, minimumSections: int, f: PeFile)
    returns (table: seq<Placed>, m0: Memory, m1: Memory)
    requires WellFormed(elf) && RelocationsInside(elf) && Converted(elf, names, minimumSections, f) && Fits32(f.image)
    ensures var m2 := SectionMemory(FileSections(f));
      && TableInMemory(f, m2) == Some(table) && OnlyKind(table, EntryKind(elf.wordSize))
      && Links(ElfMemory(elf.sections), m0, m1, m2, AllRelative(elf.tables), Typed(table), f.imageBase, f.image.shift,
               elf.wordSize)
    ensures f.wordSize == elf.wordSize && f.image.entry == elf.entry + f.image.shift
  {
    hide WellFormed, RelocationsInside, Fits32, AllCovered, Ordered, Aligned, AllSized, LaidOut, Written, Relocated,
      SectionMemory, FileSections, TableInMemory, Links, OnlyKind, Typed, AllRelative, Layout, LaysOut, ShiftFor;
    LayoutIs(elf, names);
    var ss0 := Layout(elf, names);
    var img :|
      && Relocated(elf, f.imageBase, ss0, img) && LaidOut(img, elf.wordSize)
      && Written(f, img)
      && f.wordSize == elf.wordSize && f.image.entry == elf.entry + f.image.shift;
    var ss;
    table, ss := ChainOf(elf, f, ss0, img);
    m0, m1 := SectionMemory(ss0), SectionMemory(ss);
  }

  // ---------- at the preferred base ----------

  lemma CongruentFix(m: Memory, r: Reloc, base: int, delta: int, n: nat)
    requires (n == 4 || n == 8) && delta % Modulus(n) == 0
    ensures ApplyFix(m, FixFor(r, base + delta), n) == ApplyFix(m, FixFor(r, base), n)
  {
    hide Modulus, LeBytes, Word, Mapped;
    if Mapped(m, r.offset, n) {
      var v := if r.addend.Some? then base + r.addend.value else Word(m, r.offset, n) + base;
      ModEqual(v, delta, n);
    }
  }

  lemma {:induction false} CongruentFixes(m: Memory, rs: seq<Reloc>, base: int, delta: int, n: nat)
    requires (n == 4 || n == 8) && delta % Modulus(n) == 0
    ensures ApplyAll(m, FixesFor(rs, base + delta), n) == ApplyAll(m, FixesFor(rs, base), n)
    decreases |rs|
  {
    hide ApplyFix, Modulus, FixFor;
    var fs, gs := FixesFor(rs, base + delta), FixesFor(rs, base);
    if rs != [] {
      var k := |rs| - 1;
      CongruentFixes(m, rs[..k], base, delta, n);
      assert fs[..k] == FixesFor(rs[..k], base + delta) && gs[..k] == FixesFor(rs[..k], base);
      CongruentFix(ApplyAll(m, gs[..k], n), rs[k], base, delta, n);
    }
  }

  /** The same fix keeps two memories in agreement. */
  lemma FixAgrees(a: Memory, b: Memory, f: Fix, n: nat)
    requires Agrees(a, b, 0) && Mapped(a, f.at, n)
    ensures Agrees(ApplyFix(a, f, n), ApplyFix(b, f, n), 0) && ApplyFix(a, f, n).Keys == a.Keys
  {
    WordAgrees(a, b, 0, f.at, n);
    FixEffect(a, f, n);
    hide Word, LeBytes, NewWord;
    assert f.at + 0 == f.at;
    var a', b' := ApplyFix(a, f, n), ApplyFix(b, f, n);
    forall x | x in a' ensures ByteAgrees(a', b', 0, x) {
      assert x in a'.Keys && ByteAgrees(a, b, 0, x) && x + 0 == x;
    }
  }

  lemma {:induction false} FixesAgree(a: Memory, b: Memory, fs: seq<Fix>, n: nat)
    requires Agrees(a, b, 0) && AllMapped(a, fs, n)
    ensures Agrees(ApplyAll(a, fs, n), ApplyAll(b, fs, n), 0) && ApplyAll(a, fs, n).Keys == a.Keys
    decreases |fs|
  {
    hide ApplyFix, Agrees;
    if fs != [] {
      var k := |fs| - 1;
      FixesAgree(a, b, fs[..k], n);
      SameKeysMapped(a, ApplyAll(a, fs[..k], n), fs, n);
      FixAgrees(ApplyAll(a, fs[..k], n), ApplyAll(b, fs[..k], n), fs[k], n);
    }
  }

  /** A shift by nothing, modulo the word size, changes nothing. */
  lemma NoShift(m: Memory, at: int, delta: int, n: nat)
    requires (n == 4 || n == 8) && delta % Modulus(n) == 0
    ensures ApplyFix(m, ShiftBy(at, delta), n) == m
  {
    hide Modulus, LeBytes, LeValue;
    if Mapped(m, at, n) {
      var w, bs := Word(m, at, n), ReadBytes(m, at, n);
      WordFits(m, at, n);
      ModEqual(w, delta, n);
      InRange(w, n);
      BytesOfValue(bs);
      assert ApplyFix(m, ShiftBy(at, delta), n) == WriteBytes(m, at, bs);
      assert WriteBytes(m, at, bs) == m;
    }
  }

  lemma {:induction false} NoShifts(m: Memory, ats: seq<nat>, delta: int, n: nat)
    requires (n == 4 || n == 8) && delta % Modulus(n) == 0
    ensures ApplyAll(m, ShiftsFor(ats, delta), n) == m
    decreases |ats|
  {
    hide ApplyFix, Modulus;
    var fs := ShiftsFor(ats, delta);
    if ats != [] {
      var k := |ats| - 1;
      assert fs[..k] == ShiftsFor(ats[..k], delta);
      NoShifts(m, ats[..k], delta, n);
      NoShift(m, ats[k], delta, n);
    }
  }

  lemma AgreesThrough(a: Memory, b: Memory, c: Memory, shift: int)
    requires Agrees(a, b, 0) && Agrees(b, c, shift)
    ensures Agrees(a, c, shift)
  {
    forall x | x in a ensures ByteAgrees(a, c, shift, x) {
      assert ByteAgrees(a, b, 0, x) && x + 0 == x;
      assert ByteAgrees(b, c, shift, x);
    }
  }

  /** Where fixes go does not depend on the base address. */
  lemma SamePlacesMapped(m: Memory, rs: seq<Reloc>, base: int, n: nat)
    requires AllMapped(m, FixesFor(rs, 0), n)
    ensures AllMapped(m, FixesFor(rs, base), n)
  {
    var fs, gs := FixesFor(rs, 0), FixesFor(rs, base);
    forall i | 0 <= i < |gs| ensures Mapped(m, gs[i].at, n) { assert Mapped(m, fs[i].at, n); }
  }

  lemma LinksUnshifted(
    e0: Memory, m0: Memory, m1: Memory, m2: Memory, rs: seq<Reloc>, ats: seq<nat>, base: int, shift: nat, n: nat,
    real': int)
    requires Links(e0, m0, m1, m2, rs, ats, base, shift, n) && (real' - base) % Modulus(n) == 0
    ensures Agrees(ApplyAll(e0, FixesFor(rs, real' + shift), n), ApplyAll(m2, ShiftsFor(ats, real' - base), n), shift)
  {
    hide ApplyAll, Agrees, ShiftsFor, Modulus, Places;
    CongruentFixes(e0, rs, base + shift, real' - base, n);
    assert base + shift + (real' - base) == real' + shift;
    SamePlacesMapped(e0, rs, base + shift, n);
    FixesAgree(e0, m0, FixesFor(rs, base + shift), n);
    NoShifts(m2, ats, real' - base, n);
    AgreesThrough(ApplyAll(e0, FixesFor(rs, base + shift), n), m1, m2, shift);
  }

  /** At a base address that needs no shift, the conversion is faithful however relocations overlap. */
  lemma UnshiftedIsFaithful(elf: Elf, names: seq<string>, minimumSections: int, f: PeFile, base: nat)
    requires WellFormed(elf) && RelocationsInside(elf) && Converted(elf, names, minimumSections, f) && Fits32(f.image)
    requires (base - f.imageBase) % Modulus(elf.wordSize) == 0
    ensures Faithful(elf, f, base)
  {
    hide WellFormed, RelocationsInside, Fits32, SectionMemory, FileSections, TableInMemory, Links, OnlyKind, Typed,
      AllRelative, FixesFor, ShiftsFor, ApplyAll, Agrees, Converted, Modulus;
    var table, m0, m1 := LinksOf(elf, names, minimumSections, f);
    LinksUnshifted(ElfMemory(elf.sections), m0, m1, SectionMemory(FileSections(f)), AllRelative(elf.tables),
                   Typed(table), f.imageBase, f.image.shift, elf.wordSize, base);
  }

  /** Every copied byte is in the image that the ELF loader makes, so `Faithful` speaks about all of them. */
  lemma NothingIsLost(elf: Elf, base: nat, i: nat, x: int)
    requires WellFormed(elf) && RelocationsTidy(elf) && RelocationsInside(elf)
    requires i < |elf.sections| && IsCopied(elf.sections[i])
    requires elf.sections[i].addr <= x < elf.sections[i].addr + |Data(elf.sections[i])|
    ensures x in ElfLoad(elf, base)
  {
    WordSizeIs(elf);
    hide ElfMemory, ApplyAll, FixesFor, Tidy, AllMapped, Data, IsCopied, WellFormed;
    InElfMemory(elf.sections, i, x);
    MappedInElf(elf, 0);
    FixesElsewhere(ElfMemory(elf.sections), AllRelative(elf.tables), base, elf.wordSize);
    assert x in ElfMemory(elf.sections).Keys;
  }

  // ---------- relocations listed once, twice, and without addends ----------

  lemma {:induction false} TotalOf(rs: seq<Reloc>, o: nat)
    requires forall i | 0 <= i < |rs| :: rs[i].offset != o
    ensures Total(rs, o) == 0
  {
    if rs != [] { TotalOf(rs[..|rs| - 1], o); }
  }

  /** No relocation with an addend of its own follows one for the same word. */
  predicate NoneOvertaken(rs: seq<Reloc>)
  {
    forall i, j | 0 <= i < j < |rs| :: rs[j].addend.None? || rs[i].offset != rs[j].offset
  }

  /** Nothing is lost where no relocation with an addend of its own follows one for the same word. */
  lemma {:induction false} NoneLost(rs: seq<Reloc>, o: nat)
    requires NoneOvertaken(rs)
    ensures Lost(rs, o) == 0
    decreases |rs|
  {
    if rs != [] {
      var k := |rs| - 1;
      NoneLost(rs[..k], o);
      if rs[k].offset == o && rs[k].addend.Some? {
        forall i | 0 <= i < k ensures rs[..k][i].offset != o { assert rs[i].offset != rs[k].offset; }
        TotalOf(rs[..k], o);
      }
    }
  }

  /** The ordinary case, relocated words that do not overlap: the conversion is faithful at every base. */
  lemma ApartIsFaithful(elf: Elf, names: seq<string>, minimumSections: int, f: PeFile, base: nat)
    requires WellFormed(elf) && RelocationsApart(elf) && RelocationsInside(elf)
    requires Converted(elf, names, minimumSections, f) && Fits32(f.image)
    ensures Faithful(elf, f, base)
  {
    hide WellFormed, RelocationsInside, RelocationsApart, RelocationsTidy, Converted, Fits32, Faithful, AllRelative;
    ApartIsTidy(elf);
    NoneLostAnywhere(AllRelative(elf.tables), base - f.imageBase, elf.wordSize);
    ConversionIsFaithful(elf, names, minimumSections, f, base);
  }

  lemma ApartIsTidy(elf: Elf)
    requires WellFormed(elf) && RelocationsApart(elf)
    ensures RelocationsTidy(elf)
    ensures NoneOvertaken(AllRelative(elf.tables))
  {
    WordSizeIs(elf);
    hide WellFormed, AllRelative;
    var rs := AllRelative(elf.tables);
    var fs := FixesFor(rs, 0);
    forall i, j | 0 <= i < j < |rs| ensures Clear(fs[i], fs[j], elf.wordSize) && rs[i].offset != rs[j].offset {
      assert Clear(fs[i], fs[j], elf.wordSize);
    }
  }

  /** So it is with REL relocations, however often they are listed. */
  lemma RelIsFaithful(elf: Elf, names: seq<string>, minimumSections: int, f: PeFile, base: nat)
    requires WellFormed(elf) && RelocationsTidy(elf) && RelocationsInside(elf)
    requires Converted(elf, names, minimumSections, f) && Fits32(f.image)
    requires forall i | 0 <= i < |AllRelative(elf.tables)| :: AllRelative(elf.tables)[i].addend.None?
    ensures Faithful(elf, f, base)
  {
    hide WellFormed, RelocationsInside, RelocationsTidy, Converted, Fits32, Faithful, AllRelative;
    NoneLostAnywhere(AllRelative(elf.tables), base - f.imageBase, elf.wordSize);
    ConversionIsFaithful(elf, names, minimumSections, f, base);
  }

  lemma NoneLostAnywhere(rs: seq<Reloc>, delta: int, n: nat)
    requires NoneOvertaken(rs)
    ensures NothingLost(rs, delta, n)
  {
    hide Modulus, Lost;
    forall i | 0 <= i < |rs| ensures (Lost(rs, rs[i].offset) * delta) % Modulus(n) == 0 {
      NoneLost(rs, rs[i].offset);
      ZeroTimes(delta, n);
    }
  }

  lemma ZeroTimes(delta: int, n: nat)
    ensures (0 * delta) % Modulus(n) == 0
  {
    hide Modulus;
    SmallMod(0, Modulus(n));
  }

  /**
   A RELA relocation listed twice: the ELF loader sets the word twice to the same value, but the PE loader shifts it
   twice. The file is right exactly at the base addresses that need no shift.
   */
  lemma ListedTwice(elf: Elf, names: seq<string>, minimumSections: int, f: PeFile, base: nat, r: Reloc)
    requires WellFormed(elf) && RelocationsInside(elf) && Converted(elf, names, minimumSections, f) && Fits32(f.image)
    requires AllRelative(elf.tables) == [r, r] && r.addend.Some?
    ensures Faithful(elf, f, base) <==> (base - f.imageBase) % Modulus(elf.wordSize) == 0
  {
    hide WellFormed, RelocationsInside, Converted, Fits32, Faithful, AllRelative, Modulus;
    var rs := [r, r];
    assert rs[..1] == [r] && [r][..0] == [];
    assert Total([r], r.offset) == 1;
    assert Lost(rs, r.offset) == 1;
    ConversionIsFaithful(elf, names, minimumSections, f, base);
    var delta := base - f.imageBase;
    assert rs[0].offset == r.offset && 1 * delta == delta;
  }

  // ---------- the converter ----------

  lemma InsideImage(img: Image, n: nat, i: nat)
    requires LaidOut(img, n) && i < |img.sections|
    ensures End(img.sections[i]) <= NextSectionAddress(img.sections)
  {
    var k := |img.sections| - 1;
    AlignToIs(End(img.sections[k]), SECTION_ALIGNMENT);
    assert i < k ==> End(img.sections[i]) <= img.sections[k].vaddr;
  }

  /** The conversion succeeds. */
  ghost predicate Convertible(elf: Elf, names: seq<string>, imageBase: nat, minimumSections: int)
  {
    LaysOut(elf, names) && CanRelocate(elf, imageBase, Layout(elf, names), minimumSections)
  }

  /** `elf2efi()`; the base address, a hash of the file name, is a parameter. */
  method Elf2Efi(elf: Elf, names: seq<string>, imageBase: nat, minimumSections: int) returns (r: Result<PeFile>)
    requires WellFormed(elf)
    ensures r.Ok? <==> Convertible(elf, names, imageBase, minimumSections)
    ensures r.Ok? ==> r.value.imageBase == imageBase && Converted(elf, names, minimumSections, r.value)
    ensures r.Ok? ==> forall i | 0 <= i < |r.value.image.sections| ::
      End(r.value.image.sections[i]) <= r.value.sizeOfImage
    ensures r.Ok? ==>
      (RawTiles(r.value.image.sections, r.value.image.sizeOfHeaders, |r.value.file|)
       <==> NoneStraddles(Layout(elf, names), AllRelative(elf.tables), elf.wordSize))
    ensures r.Ok? && RelocationsInside(elf) && RelocationsTidy(elf) && Fits32(r.value.image) ==>
      forall base: nat ::
        Faithful(elf, r.value, base) <==> NothingLost(AllRelative(elf.tables), base - imageBase, elf.wordSize)
  {
    hide WellFormed, RelocationsTidy, RelocationsInside, Fits32, AllCovered, Ordered, Aligned, AllSized, Faithful,
      RawTiles, Relocated, LaidOut, Pointer, InFile, NextSectionAddress, CanRelocate, NoneStraddles, NothingLost,
      AllRelative, Layout, LaysOut, ShiftFor;
    var all := LayOut(elf, names);
    if all.Err? { return Err; }
    var converted := ConvertElfRelocations(elf, imageBase, all.value, minimumSections);
    if converted.Err? { return Err; }
    var img := converted.value;
    SomeLayout(elf, imageBase, all.value, minimumSections);
    SomeSections(img, elf.wordSize);
    var sizeOfImage := NextSectionAddress(img.sections);
    var ss, file := WritePe(img, elf.wordSize);
    var f := PeFile(elf.wordSize, imageBase, img.(sections := ss), sizeOfImage, file);
    forall i | 0 <= i < |ss| ensures End(ss[i]) <= sizeOfImage { InsideImage(img, elf.wordSize, i); }
    assert Written(f, img);
    ConversionTilesExactly(elf, imageBase, all.value, img);
    if RelocationsInside(elf) && RelocationsTidy(elf) && Fits32(f.image) {
      forall base: nat
        ensures Faithful(elf, f, base) <==> NothingLost(AllRelative(elf.tables), base - imageBase, elf.wordSize)
      {
        ConversionIsFaithful(elf, names, minimumSections, f, base);
      }
    }
    return Ok(f);
  }

  lemma SomeLayout(elf: Elf, imageBase: nat, ss0: seq<PeSection>, minimumSections: int)
    requires CanRelocate(elf, imageBase, ss0, minimumSections)
    ensures ss0 != []
  {
  }

  lemma SomeSections(img: Image, n: nat)
    requires LaidOut(img, n)
    ensures img.sections != [] && img.sizeOfHeaders % FILE_ALIGNMENT == 0
  {
  }

  /** Relocated words that lie inside copied sections straddle nothing. */
  lemma InsideTiles(elf: Elf, names: seq<string>)
    requires WellFormed(elf) && LaysOut(elf, names) && RelocationsInside(elf)
    ensures NoneStraddles(Layout(elf, names), AllRelative(elf.tables), elf.wordSize)
  {
    LayoutIs(elf, names);
    WordSizeIs(elf);
    var ss, rs, n := Layout(elf, names), AllRelative(elf.tables), elf.wordSize;
    hide LaysOut, WellFormed, Layout, RelocationsInside, AllCovered, Ordered, Aligned, AllSized, AllRelative;
    InsideInPe(elf, ss);
    LaidOutIsSpaced(ss);
    forall k, i | 0 <= k < |rs| && 0 <= i < |ss| ensures Whole(ss[i], rs[k].offset, n) {
      assert InsideOne(ss, rs[k].offset, n);
      var t :| 0 <= t < |ss| && ss[t].vaddr <= rs[k].offset && rs[k].offset + n <= ss[t].vaddr + |ss[t].data|;
      assert |ss[t].data| <= ss[t].rawSize;
      SpacedOnce(ss, rs[k].offset, t, i);
    }
  }

  lemma SpacedOnce(ss: seq<PeSection>, o: nat, t: nat, i: nat)
    requires Spaced(ss) && t < |ss| && i < |ss| && ss[t].vaddr <= o < ss[t].vaddr + ss[t].rawSize
    ensures ss[i].vaddr <= o < ss[i].vaddr + ss[i].rawSize ==> i == t
  {
  }
}
