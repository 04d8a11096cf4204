/**
 The relocation half of tools/elf2efi.py: ELF relative relocations are applied to the copied sections, turned into
 PE base relocations, and the image is shifted above its headers.
 */
module PeRelocate {
  import opened Wrappers
  import opened Bytes
  import opened RelocTable
  import opened Elf2efi

  // ---------- sections as memory ----------

  /** The data of the sections, each at its address. */
  function SectionMemory(ss: seq<PeSection>): Memory
  {
    if ss == [] then map[]
    else SectionMemory(ss[..|ss| - 1]) + Chunk(ss[|ss| - 1].vaddr, ss[|ss| - 1].data)
  }

  /** Where the data of the sections lies; unlike `vsize`, it follows `data`. */
  predicate Disjoint(ss: seq<PeSection>)
  {
    forall i, j | 0 <= i < j < |ss| :: ss[i].vaddr + |ss[i].data| <= ss[j].vaddr
  }

  predicate Hits(s: PeSection, o: int)
  {
    s.vaddr <= o < s.vaddr + |s.data|
  }

  lemma {:induction false} MemoryAt(ss: seq<PeSection>, i: nat, x: int)
    requires Disjoint(ss) && i < |ss| && Hits(ss[i], x)
    ensures x in SectionMemory(ss) && SectionMemory(ss)[x] == ss[i].data[x - ss[i].vaddr]
    decreases |ss|
  {
    hide Chunk;
    var k := |ss| - 1;
    if i < k {
      assert Disjoint(ss[..k]);
      MemoryAt(ss[..k], i, x);
    }
  }

  lemma {:induction false} MemoryOnly(ss: seq<PeSection>, x: int)
    requires x in SectionMemory(ss)
    ensures exists i | 0 <= i < |ss| :: Hits(ss[i], x)
    decreases |ss|
  {
    hide Chunk;
    var k := |ss| - 1;
    if !Hits(ss[k], x) {
      MemoryOnly(ss[..k], x);
      var i :| 0 <= i < k && Hits(ss[..k][i], x);
      assert Hits(ss[i], x);
    }
  }

  /** Replacing the data of one section changes the memory there and nowhere else. */
  lemma {:induction false} ReplaceData(ss: seq<PeSection>, i: nat, data: seq<Byte>)
    requires Disjoint(ss) && i < |ss| && |data| == |ss[i].data|
    ensures var m, m' := SectionMemory(ss), SectionMemory(ss[i := ss[i].(data := data)]);
      && m'.Keys == m.Keys
      && forall x | x in m :: m'[x] == if Hits(ss[i], x) then data[x - ss[i].vaddr] else m[x]
    decreases |ss|
  {
    hide SectionMemory, Chunk;
    var k := |ss| - 1;
    var ss' := ss[i := ss[i].(data := data)];
    MemoryLast(ss);
    MemoryLast(ss');
    if i < k {
      assert Disjoint(ss[..k]);
      ReplaceData(ss[..k], i, data);
      assert ss'[..k] == ss[..k][i := ss[i].(data := data)];
      assert ss'[k] == ss[k];
      assert forall x | Hits(ss[i], x) :: !Hits(ss[k], x);
    } else {
      assert ss'[..k] == ss[..k];
      assert ss'[k] == ss[k].(data := data);
    }
  }

  lemma MemoryLast(ss: seq<PeSection>)
    requires ss != []
    ensures var k := |ss| - 1; SectionMemory(ss) == SectionMemory(ss[..k]) + Chunk(ss[k].vaddr, ss[k].data)
  {
  }

  /** Overwriting part of one section's data is writing to memory. */
  lemma UpdateIsWrite(ss: seq<PeSection>, i: nat, o: nat, value: seq<Byte>)
    requires Disjoint(ss) && i < |ss| && o + |value| <= |ss[i].data|
    ensures var data := ss[i].data[..o] + value + ss[i].data[o + |value|..];
      && |data| == |ss[i].data|
      && Disjoint(ss[i := ss[i].(data := data)])
      && SectionMemory(ss[i := ss[i].(data := data)]) == WriteBytes(SectionMemory(ss), ss[i].vaddr + o, value)
  {
    hide SectionMemory, Disjoint, Chunk;
    var data := ss[i].data[..o] + value + ss[i].data[o + |value|..];
    var a := ss[i].vaddr + o;
    ReplaceData(ss, i, data);
    DisjointSameShape(ss, ss[i := ss[i].(data := data)]);
    var m, m' := SectionMemory(ss), SectionMemory(ss[i := ss[i].(data := data)]);
    forall x | Hits(ss[i], x) ensures x in m && m[x] == ss[i].data[x - ss[i].vaddr] { MemoryAt(ss, i, x); }
    SameWrite(m, m', ss[i], o, value, data);
  }

  lemma SameWrite(m: Memory, m': Memory, s: PeSection, o: nat, value: seq<Byte>, data: seq<Byte>)
    requires o + |value| <= |s.data| && data == s.data[..o] + value + s.data[o + |value|..]
    requires forall x | Hits(s, x) :: x in m && m[x] == s.data[x - s.vaddr]
    requires m'.Keys == m.Keys
    requires forall x | x in m :: m'[x] == if Hits(s, x) then data[x - s.vaddr] else m[x]
    ensures m' == WriteBytes(m, s.vaddr + o, value)
  {
    hide Chunk;
    var a := s.vaddr + o;
    var w := WriteBytes(m, a, value);
    assert forall x | a <= x < a + |value| :: Hits(s, x);
    assert w.Keys == m.Keys;
  }

  lemma DisjointSameShape(ss: seq<PeSection>, ss': seq<PeSection>)
    requires Disjoint(ss) && |ss'| == |ss|
    requires forall i | 0 <= i < |ss| :: ss'[i].vaddr == ss[i].vaddr && |ss'[i].data| == |ss[i].data|
    ensures Disjoint(ss')
  {
  }

  // ---------- apply_elf_relative_relocation ----------

  /** The word to be relocated lies inside the data of one section. */
  predicate InsideOne(ss: seq<PeSection>, o: int, n: nat)
  {
    exists i | 0 <= i < |ss| :: ss[i].vaddr <= o && o + n <= ss[i].vaddr + |ss[i].data|
  }

  function FixFor(r: Reloc, base: int): Fix
  {
    if r.addend.Some? then SetTo(r.offset, base + r.addend.value) else ShiftBy(r.offset, base)
  }

  /** Everything but the data is the same. */
  predicate SameHeaders(ss: seq<PeSection>, ss': seq<PeSection>)
  {
    |ss| == |ss'| && forall i | 0 <= i < |ss| :: ss'[i] == ss[i].(data := ss'[i].data)
  }

  /** And the data has the same length. */
  predicate SameShape(ss: seq<PeSection>, ss': seq<PeSection>)
  {
    SameHeaders(ss, ss') && forall i | 0 <= i < |ss| :: |ss'[i].data| == |ss[i].data|
  }

  predicate OnlyHit(ss: seq<PeSection>, o: int, i: nat)
    requires i < |ss|
  {
    Hits(ss[i], o) && forall j | 0 <= j < |ss| && Hits(ss[j], o) :: j == i
  }

  lemma OnlyHitUnique(ss: seq<PeSection>, o: int, i: nat, j: nat)
    requires i < |ss| && j < |ss| && OnlyHit(ss, o, i) && OnlyHit(ss, o, j)
    ensures i == j
  {
  }

  /** The one section that contains the offset, if it is one. */
  ghost function Target(ss: seq<PeSection>, o: int): (t: Option<nat>)
    ensures t.Some? ==> t.value < |ss| && OnlyHit(ss, o, t.value)
    ensures t.None? ==> forall i | 0 <= i < |ss| :: !OnlyHit(ss, o, i)
  {
    if exists i | 0 <= i < |ss| :: OnlyHit(ss, o, i)
    then var i: nat :| i < |ss| && OnlyHit(ss, o, i); Some(i)
    else None
  }

  /** `[target] = [...]`, which fails unless there is exactly one. */
  method FindTarget(ss: seq<PeSection>, o: nat) returns (target: Option<nat>)
    ensures target == Target(ss, o)
    ensures target.Some? ==> target.value < |ss| && OnlyHit(ss, o, target.value)
    ensures target.None? ==> forall i | 0 <= i < |ss| :: !OnlyHit(ss, o, i)
  {
    target := None;
    for i := 0 to |ss|
      invariant target.Some? ==> target.value < i && Hits(ss[target.value], o)
      invariant forall j | 0 <= j < i && Hits(ss[j], o) :: target == Some(j)
    {
      if Hits(ss[i], o) {
        if target.Some? {
          return None;
        }
        target := Some(i);
      }
    }
    if target.Some? {
      assert OnlyHit(ss, o, target.value);
      OnlyHitUnique(ss, o, target.value, Target(ss, o).value);
    }
  }

  function Min(a: nat, b: nat): nat { if a < b then a else b }

  function Max(a: nat, b: nat): nat { if a < b then b else a }

  /** The addend of the relocation: its own, or the word to be relocated, cut short by the end of the section. */
  function Addend(r: Reloc, s: PeSection, n: nat): int
    requires Hits(s, r.offset)
  {
    var o := r.offset - s.vaddr;
    if r.addend.Some? then r.addend.value else LeValue(s.data[o..Min(o + n, |s.data|)])
  }

  /** One section has the place, its data can be changed, and the new value fits the word. */
  ghost predicate Relocatable(r: Reloc, base: nat, ss: seq<PeSection>, n: nat)
  {
    exists i | 0 <= i < |ss| ::
      OnlyHit(ss, r.offset, i) && !ss[i].frozen && 0 <= base + Addend(r, ss[i], n) < Modulus(n)
  }

  /** A slice assignment to a `bytearray`: at the end it makes the array longer. */
  function Overwritten(data: seq<Byte>, o: nat, value: seq<Byte>): seq<Byte>
    requires o <= |data|
  {
    data[..o] + value + data[Min(o + |value|, |data|)..]
  }

  /** The sections after one relocation, if it can be applied. */
  ghost function Applied(r: Reloc, base: nat, ss: seq<PeSection>, n: nat): Option<seq<PeSection>>
  {
    var t := Target(ss, r.offset);
    if t.None? then None
    else
      var s := ss[t.value];
      var v := base + Addend(r, s, n);
      if s.frozen || v < 0 || v >= Modulus(n) then None
      else Some(ss[t.value := s.(data := Overwritten(s.data, r.offset - s.vaddr, LeBytes(v, n)))])
  }

  /** It can be applied exactly if it is relocatable. */
  lemma AppliedExactly(r: Reloc, base: nat, ss: seq<PeSection>, n: nat)
    ensures Applied(r, base, ss, n).Some? <==> Relocatable(r, base, ss, n)
  {
    hide Modulus, LeValue, LeBytes;
    if Relocatable(r, base, ss, n) {
      var i :| 0 <= i < |ss| && OnlyHit(ss, r.offset, i) && !ss[i].frozen
               && 0 <= base + Addend(r, ss[i], n) < Modulus(n);
      OnlyHitUnique(ss, r.offset, i, Target(ss, r.offset).value);
    }
  }

  /** The target's data then reaches at least to the end of the word, and all else is as before. */
  ghost predicate GrownAt(ss: seq<PeSection>, ss': seq<PeSection>, t: nat, o: nat, n: nat)
  {
    && t < |ss| == |ss'| && Hits(ss[t], o)
    && ss' == ss[t := ss[t].(data := ss'[t].data)]
    && |ss'[t].data| == Max(|ss[t].data|, o - ss[t].vaddr + n)
  }

  lemma AppliedGrows(r: Reloc, base: nat, ss: seq<PeSection>, n: nat)
    requires Applied(r, base, ss, n).Some?
    ensures var t := Target(ss, r.offset);
      t.Some? && GrownAt(ss, Applied(r, base, ss, n).value, t.value, r.offset, n)
    ensures SameHeaders(ss, Applied(r, base, ss, n).value)
  {
    hide Modulus, LeValue;
  }

  lemma AppliedIsFix(r: Reloc, base: nat, ss: seq<PeSection>, n: nat)
    requires Applied(r, base, ss, n).Some? && n > 0 && Disjoint(ss) && InsideOne(ss, r.offset, n)
    ensures var out := Applied(r, base, ss, n).value;
      && SameShape(ss, out) && Disjoint(out)
      && SectionMemory(out) == ApplyFix(SectionMemory(ss), FixFor(r, base), n)
  {
    hide Modulus, LeValue, LeBytes, SectionMemory, ApplyFix, Disjoint, InsideOne, FixFor, SameShape;
    var t := Target(ss, r.offset).value;
    RelocationIsFix(r, base, ss, n, t, Addend(r, ss[t], n));
  }

  method ApplyElfRelativeRelocation(r: Reloc, base: nat, ss: seq<PeSection>, n: nat)
    returns (out: Result<seq<PeSection>>)
    requires n > 0
    ensures out == (if Applied(r, base, ss, n).Some? then Ok(Applied(r, base, ss, n).value) else Err)
    ensures out.Ok? <==> Relocatable(r, base, ss, n)
    ensures out.Ok? ==> SameHeaders(ss, out.value)
    ensures out.Ok? ==> exists t | 0 <= t < |ss| && OnlyHit(ss, r.offset, t) :: GrownAt(ss, out.value, t, r.offset, n)
    ensures out.Ok? && Disjoint(ss) && InsideOne(ss, r.offset, n) ==>
      && SameShape(ss, out.value) && Disjoint(out.value)
      && SectionMemory(out.value) == ApplyFix(SectionMemory(ss), FixFor(r, base), n)
  {
    hide Modulus, LeBytes, LeValue, SectionMemory, ApplyFix, Disjoint, InsideOne, FixFor, Relocatable, GrownAt;
    AppliedExactly(r, base, ss, n);
    var target := FindTarget(ss, r.offset);
    if target.None? || ss[target.value].frozen {
      return Err;
    }
    var t := target.value;
    var data := ss[t].data;
    var o := r.offset - ss[t].vaddr;
    var addend: int;
    if r.addend.Some? {
      addend := r.addend.value;
    } else {
      addend := LeValue(data[o..Min(o + n, |data|)]);
    }
    if base + addend < 0 || base + addend >= Modulus(n) {
      return Err;   // OverflowError
    }
    var value := LeBytes(base + addend, n);
    var data' := data[..o] + value + data[Min(o + n, |data|)..];
    out := Ok(ss[t := ss[t].(data := data')]);
    AppliedGrows(r, base, ss, n);
    if Disjoint(ss) && InsideOne(ss, r.offset, n) {
      AppliedIsFix(r, base, ss, n);
    }
  }

  lemma RelocationIsFix(r: Reloc, base: nat, ss: seq<PeSection>, n: nat, t: nat, addend: int)
    requires n > 0 && Disjoint(ss) && InsideOne(ss, r.offset, n) && t < |ss| && Hits(ss[t], r.offset)
    requires var o, data := r.offset - ss[t].vaddr, ss[t].data;
      addend == if r.addend.Some? then r.addend.value else LeValue(data[o..Min(o + n, |data|)])
    requires 0 <= base + addend < Modulus(n)
    ensures var o, data := r.offset - ss[t].vaddr, ss[t].data;
      && o + n <= |data|
      && var out := ss[t := ss[t].(data := data[..o] + LeBytes(base + addend, n) + data[o + n..])];
         && SameShape(ss, out) && Disjoint(out)
         && SectionMemory(out) == ApplyFix(SectionMemory(ss), FixFor(r, base), n)
  {
    hide LeBytes, LeValue, Modulus, SectionMemory, Disjoint;
    var o, data := r.offset - ss[t].vaddr, ss[t].data;
    OnlyTarget(ss, r.offset, n, t);
    WordInSection(ss, t, r.offset, n);
    InRange(base + addend, n);
    UpdateIsWrite(ss, t, o, LeBytes(base + addend, n));
  }

  lemma OnlyTarget(ss: seq<PeSection>, o: int, n: nat, t: nat)
    requires n > 0 && Disjoint(ss) && InsideOne(ss, o, n) && t < |ss| && Hits(ss[t], o)
    ensures o + n <= ss[t].vaddr + |ss[t].data|
  {
    var i :| 0 <= i < |ss| && ss[i].vaddr <= o && o + n <= ss[i].vaddr + |ss[i].data|;
    assert i == t;
  }

  lemma WordInSection(ss: seq<PeSection>, t: nat, a: int, n: nat)
    requires Disjoint(ss) && t < |ss| && ss[t].vaddr <= a && a + n <= ss[t].vaddr + |ss[t].data|
    ensures Mapped(SectionMemory(ss), a, n)
    ensures Word(SectionMemory(ss), a, n) == LeValue(ss[t].data[a - ss[t].vaddr..a - ss[t].vaddr + n])
  {
    hide SectionMemory, Disjoint, LeValue;
    var m := SectionMemory(ss);
    forall x | a <= x < a + n ensures x in m && m[x] == ss[t].data[x - ss[t].vaddr] {
      MemoryAt(ss, t, x);
    }
    assert ReadBytes(m, a, n) == ss[t].data[a - ss[t].vaddr..a - ss[t].vaddr + n];
  }

  lemma InRange(v: nat, n: nat)
    requires v < Modulus(n)
    ensures v % Modulus(n) == v
  {
    hide Modulus;
    SmallMod(v, Modulus(n));
  }

  lemma SmallMod(v: nat, m: nat)
    requires v < m
    ensures v % m == v
  {
  }

  // ---------- convert_elf_reloc_table ----------

  /** The relative relocations of a table, in order. */
  function RelativeOnes(rs: seq<Reloc>): seq<Reloc>
  {
    if rs == [] then []
    else RelativeOnes(rs[..|rs| - 1]) + if rs[|rs| - 1].kind == Relative then [rs[|rs| - 1]] else []
  }

  function FixesFor(rs: seq<Reloc>, base: int): seq<Fix>
  {
    seq(|rs|, i requires 0 <= i < |rs| => FixFor(rs[i], base))
  }

  function Offsets(rs: seq<Reloc>): seq<nat>
  {
    seq(|rs|, i requires 0 <= i < |rs| => rs[i].offset)
  }

  predicate AllInside(ss: seq<PeSection>, rs: seq<Reloc>, n: nat)
  {
    forall i | 0 <= i < |rs| :: InsideOne(ss, rs[i].offset, n)
  }

  /** REL_BASED_HIGHLOW or REL_BASED_DIR64. */
  function EntryKind(n: nat): nat { if n == 4 then 3 else 10 }

  /** The sections after all relocations in order, if all can be applied. */
  ghost function AllApplied(rs: seq<Reloc>, base: nat, ss: seq<PeSection>, n: nat): Option<seq<PeSection>>
  {
    if rs == [] then Some(ss)
    else
      var before := AllApplied(rs[..|rs| - 1], base, ss, n);
      if before.None? then None else Applied(rs[|rs| - 1], base, before.value, n)
  }

  lemma AppliedNext(rs: seq<Reloc>, r: Reloc, base: nat, ss: seq<PeSection>, n: nat)
    ensures var before := AllApplied(rs, base, ss, n);
      AllApplied(rs + [r], base, ss, n) == if before.None? then None else Applied(r, base, before.value, n)
  {
    hide Applied;
    assert (rs + [r])[..|rs|] == rs;
  }

  lemma {:induction false} AppliedPrefix(rs: seq<Reloc>, more: seq<Reloc>, base: nat, ss: seq<PeSection>, n: nat)
    requires rs <= more && AllApplied(more, base, ss, n).Some?
    ensures AllApplied(rs, base, ss, n).Some?
    decreases |more|
  {
    hide Applied;
    if rs != more { AppliedPrefix(rs, more[..|more| - 1], base, ss, n); }
  }

  /** The entries for all relocations. */
  function AllEntries(rs: seq<Reloc>, n: nat): Blocks
  {
    if rs == [] then map[] else AddEntry(AllEntries(rs[..|rs| - 1], n), rs[|rs| - 1].offset, EntryKind(n))
  }

  lemma EntriesNext(rs: seq<Reloc>, r: Reloc, n: nat)
    ensures AllEntries(rs + [r], n) == AddEntry(AllEntries(rs, n), r.offset, EntryKind(n))
  {
    assert (rs + [r])[..|rs|] == rs;
  }

  /** One entry for each relocation, on its page. */
  lemma {:induction false} EntriesHold(rs: seq<Reloc>, n: nat)
    ensures BlocksHold(AllEntries(rs, n), Offsets(rs), EntryKind(n))
  {
    if rs != [] {
      hide AddEntry, BlocksHold;
      var k := |rs| - 1;
      EntriesHold(rs[..k], n);
      AddEntryHolds(AllEntries(rs[..k], n), Offsets(rs[..k]), rs[k].offset, EntryKind(n));
      assert Offsets(rs) == Offsets(rs[..k]) + [rs[k].offset];
    }
  }

  lemma InsideSameShape(ss0: seq<PeSection>, ss: seq<PeSection>, o: int, n: nat)
    requires SameShape(ss0, ss) && InsideOne(ss0, o, n)
    ensures InsideOne(ss, o, n)
  {
    var i :| 0 <= i < |ss0| && ss0[i].vaddr <= o && o + n <= ss0[i].vaddr + |ss0[i].data|;
    assert ss[i].vaddr <= o && o + n <= ss[i].vaddr + |ss[i].data|;
  }

  lemma FixesNext(m: Memory, done: seq<Reloc>, r: Reloc, base: int, n: nat)
    ensures ApplyAll(m, FixesFor(done + [r], base), n) ==
      ApplyFix(ApplyAll(m, FixesFor(done, base), n), FixFor(r, base), n)
  {
    hide ApplyFix;
    var fs := FixesFor(done + [r], base);
    assert fs[..|fs| - 1] == FixesFor(done, base);
  }

  /** Inside their sections, the relocations act on memory as a loader's fixes do. */
  lemma {:induction false} AllAppliedAreFixes(rs: seq<Reloc>, base: nat, ss: seq<PeSection>, n: nat)
    requires AllApplied(rs, base, ss, n).Some? && n > 0 && Disjoint(ss) && AllInside(ss, rs, n)
    ensures var out := AllApplied(rs, base, ss, n).value;
      && SameShape(ss, out) && Disjoint(out)
      && SectionMemory(out) == ApplyAll(SectionMemory(ss), FixesFor(rs, base), n)
    decreases |rs|
  {
    hide Applied, ApplyFix, SectionMemory, InsideOne, Disjoint;
    if rs == [] {
      assert FixesFor(rs, base) == [];
    } else {
      var k := |rs| - 1;
      var front, r := rs[..k], rs[k];
      assert rs == front + [r];
      forall i | 0 <= i < k ensures InsideOne(ss, front[i].offset, n) { assert InsideOne(ss, rs[i].offset, n); }
      AllAppliedAreFixes(front, base, ss, n);
      var before := AllApplied(front, base, ss, n).value;
      InsideSameShape(ss, before, r.offset, n);
      AppliedIsFix(r, base, before, n);
      FixesNext(SectionMemory(ss), front, r, base, n);
      SameShapeTwice(ss, before, AllApplied(rs, base, ss, n).value);
    }
  }

  lemma SameShapeTwice(a: seq<PeSection>, b: seq<PeSection>, c: seq<PeSection>)
    requires SameShape(a, b) && SameShape(b, c)
    ensures SameShape(a, c)
  {
  }

  // ---------- how far the data reaches ----------

  predicate LongerData(ss: seq<PeSection>, ss': seq<PeSection>)
  {
    SameHeaders(ss, ss') && forall i | 0 <= i < |ss| :: |ss[i].data| <= |ss'[i].data|
  }

  lemma {:induction false} AllAppliedLonger(rs: seq<Reloc>, base: nat, ss: seq<PeSection>, n: nat)
    requires AllApplied(rs, base, ss, n).Some?
    ensures LongerData(ss, AllApplied(rs, base, ss, n).value)
    decreases |rs|
  {
    if rs != [] {
      hide Applied;
      var k := |rs| - 1;
      AllAppliedLonger(rs[..k], base, ss, n);
      AppliedGrows(rs[k], base, AllApplied(rs[..k], base, ss, n).value, n);
    }
  }

  /** The data is no longer than the size in the section header says. */
  predicate WithinRaw(ss: seq<PeSection>)
  {
    forall i | 0 <= i < |ss| :: |ss[i].data| <= ss[i].rawSize
  }

  /** The places in the file image that the headers promise do not overlap, and hold the data. */
  predicate Spaced(ss: seq<PeSection>)
  {
    WithinRaw(ss) && forall i, j | 0 <= i < j < |ss| :: ss[i].vaddr + ss[i].rawSize <= ss[j].vaddr
  }

  /** A word that starts in the section's raw size ends in it. */
  predicate Whole(s: PeSection, o: nat, n: nat)
  {
    s.vaddr <= o < s.vaddr + s.rawSize ==> o + n <= s.vaddr + s.rawSize
  }

  /** No relocated word reaches over the raw size of its section. */
  predicate NoneStraddles(ss: seq<PeSection>, rs: seq<Reloc>, n: nat)
  {
    forall k, i | 0 <= k < |rs| && 0 <= i < |ss| :: Whole(ss[i], rs[k].offset, n)
  }

  lemma LaidOutIsSpaced(ss: seq<PeSection>)
    requires Ordered(ss) && Aligned(ss) && AllSized(ss)
    ensures Spaced(ss)
  {
    hide AlignTo;
    forall i | 0 <= i < |ss| ensures |ss[i].data| <= ss[i].rawSize {
      assert Sized(ss[i]);
      AlignToIs(|ss[i].data|, FILE_ALIGNMENT);
    }
    forall i, j | 0 <= i < j < |ss| ensures ss[i].vaddr + ss[i].rawSize <= ss[j].vaddr {
      assert Sized(ss[i]) && End(ss[i]) <= ss[j].vaddr;
      RoundedBelow(ss[i].vaddr, |ss[i].data|, ss[j].vaddr);
    }
  }

  lemma RoundedBelow(a: nat, d: nat, b: nat)
    requires a % SECTION_ALIGNMENT == 0 && b % SECTION_ALIGNMENT == 0 && a + d <= b
    ensures a + AlignTo(d, FILE_ALIGNMENT) <= b
  {
    AlignToIs(d, FILE_ALIGNMENT);
    hide AlignTo;
    var r := AlignTo(d, FILE_ALIGNMENT);
    MultiplesApart(b - a, r);
  }

  lemma MultiplesApart(x: int, r: nat)
    requires x % 4096 == 0 && r % 512 == 0 && r < x + 512
    ensures r <= x
  {
    assert x % 512 == 0;
  }

  /** One step: the data stays within the raw sizes exactly if it did and the new word does not straddle. */
  lemma GrowthNext(ss0: seq<PeSection>, ss: seq<PeSection>, ss': seq<PeSection>, t: nat, o: nat, n: nat)
    requires Spaced(ss0) && LongerData(ss0, ss) && GrownAt(ss, ss', t, o, n)
    ensures WithinRaw(ss') <==> WithinRaw(ss) && forall i | 0 <= i < |ss0| :: Whole(ss0[i], o, n)
  {
    if WithinRaw(ss') {
      forall i | 0 <= i < |ss| ensures |ss[i].data| <= ss[i].rawSize {
        assert |ss[i].data| <= |ss'[i].data| <= ss'[i].rawSize;
      }
      assert |ss'[t].data| <= ss'[t].rawSize;
      forall i | 0 <= i < |ss0| ensures Whole(ss0[i], o, n) { OtherRange(ss0, ss, t, o, i); }
    }
    if WithinRaw(ss) && forall i | 0 <= i < |ss0| :: Whole(ss0[i], o, n) {
      assert |ss[t].data| <= ss[t].rawSize && Whole(ss0[t], o, n);
      forall i | 0 <= i < |ss'| ensures |ss'[i].data| <= ss'[i].rawSize {
        assert |ss[i].data| <= ss[i].rawSize;
      }
    }
  }

  /** A place in the raw range of one section is in that of no other. */
  lemma OtherRange(ss0: seq<PeSection>, ss: seq<PeSection>, t: nat, o: nat, i: nat)
    requires Spaced(ss0) && LongerData(ss0, ss) && WithinRaw(ss) && t < |ss| && i < |ss| && Hits(ss[t], o)
    ensures ss0[i].vaddr <= o < ss0[i].vaddr + ss0[i].rawSize ==> i == t
  {
    assert |ss[t].data| <= ss[t].rawSize;
    assert ss0[t].vaddr <= o < ss0[t].vaddr + ss0[t].rawSize;
  }

  /** The data stays within the raw sizes if and only if no relocated word straddles one. */
  lemma {:induction false} GrowthExactly(rs: seq<Reloc>, base: nat, ss: seq<PeSection>, n: nat)
    requires AllApplied(rs, base, ss, n).Some? && Spaced(ss)
    ensures WithinRaw(AllApplied(rs, base, ss, n).value) <==> NoneStraddles(ss, rs, n)
    decreases |rs|
  {
    hide Applied, Whole, WithinRaw, LongerData, GrownAt;
    if rs == [] {
      SpacedWithin(ss);
    } else {
      var k := |rs| - 1;
      var before := AllApplied(rs[..k], base, ss, n).value;
      GrowthExactly(rs[..k], base, ss, n);
      AllAppliedLonger(rs[..k], base, ss, n);
      AppliedGrows(rs[k], base, before, n);
      GrowthNext(ss, before, AllApplied(rs, base, ss, n).value, Target(before, rs[k].offset).value, rs[k].offset, n);
      StraddlesNext(ss, rs, n);
    }
  }

  lemma SpacedWithin(ss: seq<PeSection>)
    requires Spaced(ss)
    ensures WithinRaw(ss)
  {
  }

  lemma StraddlesNext(ss: seq<PeSection>, rs: seq<Reloc>, n: nat)
    requires rs != []
    ensures var k := |rs| - 1;
      NoneStraddles(ss, rs, n) <==>
        NoneStraddles(ss, rs[..k], n) && forall i | 0 <= i < |ss| :: Whole(ss[i], rs[k].offset, n)
  {
    hide Whole;
    var k := |rs| - 1;
    if NoneStraddles(ss, rs, n) {
      forall j, i | 0 <= j < k && 0 <= i < |ss| ensures Whole(ss[i], rs[..k][j].offset, n) {
        assert Whole(ss[i], rs[j].offset, n);
      }
    }
    if NoneStraddles(ss, rs[..k], n) && forall i | 0 <= i < |ss| :: Whole(ss[i], rs[k].offset, n) {
      forall j, i | 0 <= j < |rs| && 0 <= i < |ss| ensures Whole(ss[i], rs[j].offset, n) {
        if j < k { assert Whole(ss[i], rs[..k][j].offset, n); }
      }
    }
  }

  // ---------- the loops ----------

  predicate AllSupported(rs: seq<Reloc>)
  {
    forall i | 0 <= i < |rs| :: rs[i].kind != Unsupported
  }

  lemma {:induction false} RelativePrefix(rs: seq<Reloc>, i: nat)
    requires i <= |rs|
    ensures RelativeOnes(rs[..i]) <= RelativeOnes(rs)
    decreases |rs|
  {
    if i < |rs| {
      RelativePrefix(rs[..|rs| - 1], i);
      assert rs[..|rs| - 1][..i] == rs[..i];
    } else {
      assert rs[..i] == rs;
    }
  }

  /** `done` are the relocations of earlier tables, which have led from `ss0` to `ss`. */
  method ConvertElfRelocTable(
    rs: seq<Reloc>, base: nat, n: nat, ss: seq<PeSection>, blocks: Blocks,
    ghost ss0: seq<PeSection>, ghost done: seq<Reloc>)
    returns (out: Result<(seq<PeSection>, Blocks)>)
    requires n > 0 && AllApplied(done, base, ss0, n) == Some(ss) && blocks == AllEntries(done, n)
    ensures out.Ok? <==> AllSupported(rs) && AllApplied(done + RelativeOnes(rs), base, ss0, n).Some?
    ensures out.Ok? ==>
      && Some(out.value.0) == AllApplied(done + RelativeOnes(rs), base, ss0, n)
      && out.value.1 == AllEntries(done + RelativeOnes(rs), n)
  {
    hide AllApplied, Applied, AllEntries, Relocatable, SameHeaders, SameShape, Disjoint, InsideOne, GrownAt,
      SectionMemory;
    var ss', blocks' := ss, blocks;
    assert done + RelativeOnes([]) == done;
    for i := 0 to |rs|
      invariant AllApplied(done + RelativeOnes(rs[..i]), base, ss0, n) == Some(ss')
      invariant blocks' == AllEntries(done + RelativeOnes(rs[..i]), n)
      invariant AllSupported(rs[..i])
    {
      var r := rs[i];
      assert rs[..i + 1][..i] == rs[..i];
      ghost var before := done + RelativeOnes(rs[..i]);
      if r.kind == NoneReloc {
        assert RelativeOnes(rs[..i + 1]) == RelativeOnes(rs[..i]);
        continue;
      }
      if r.kind == Unsupported {
        return Err;
      }
      var applied := ApplyElfRelativeRelocation(r, base, ss', n);
      assert done + RelativeOnes(rs[..i + 1]) == before + [r];
      AppliedNext(before, r, base, ss0, n);
      if applied.Err? {
        RefusedInTable(rs, i, base, ss0, done, n);
        return Err;
      }
      EntriesNext(before, r, n);
      ss', blocks' := applied.value, AddEntry(blocks', r.offset, EntryKind(n));
    }
    assert rs[..|rs|] == rs;
    return Ok((ss', blocks'));
  }

  lemma RefusedInTable(rs: seq<Reloc>, i: nat, base: nat, ss0: seq<PeSection>, done: seq<Reloc>, n: nat)
    requires i < |rs| && AllApplied(done + RelativeOnes(rs[..i + 1]), base, ss0, n).None?
    ensures AllApplied(done + RelativeOnes(rs), base, ss0, n).None?
  {
    hide AllApplied;
    RelativePrefix(rs, i + 1);
    if AllApplied(done + RelativeOnes(rs), base, ss0, n).Some? {
      AppliedPrefix(done + RelativeOnes(rs[..i + 1]), done + RelativeOnes(rs), base, ss0, n);
      assert false;
    }
  }

  /** All relative relocations of the file. */
  function AllRelative(tables: seq<RelocTab>): seq<Reloc>
  {
    if tables == [] then []
    else AllRelative(tables[..|tables| - 1]) + RelativeOnes(tables[|tables| - 1].relocs)
  }

  lemma {:induction false} AllRelativePrefix(tables: seq<RelocTab>, i: nat)
    requires i <= |tables|
    ensures AllRelative(tables[..i]) <= AllRelative(tables)
    decreases |tables|
  {
    if i < |tables| {
      AllRelativePrefix(tables[..|tables| - 1], i);
      assert tables[..|tables| - 1][..i] == tables[..i];
    } else {
      assert tables[..i] == tables;
    }
  }

  predicate AllKnown(tables: seq<RelocTab>)
  {
    forall i | 0 <= i < |tables| :: tables[i].known && AllSupported(tables[i].relocs)
  }

  /** Every table is of a known type, and every relocation can be applied when its turn comes. */
  ghost predicate Relocates(tables: seq<RelocTab>, base: nat, ss0: seq<PeSection>, n: nat)
  {
    AllKnown(tables) && AllApplied(AllRelative(tables), base, ss0, n).Some?
  }

  /** The loop over the tables in `convert_elf_relocations()`. */
  method ConvertTables(tables: seq<RelocTab>, base: nat, n: nat, ss0: seq<PeSection>)
    returns (out: Result<(seq<PeSection>, Blocks)>)
    requires n > 0
    ensures out.Ok? <==> Relocates(tables, base, ss0, n)
    ensures out.Ok? ==>
      && Some(out.value.0) == AllApplied(AllRelative(tables), base, ss0, n)
      && out.value.1 == AllEntries(AllRelative(tables), n)
  {
    hide AllApplied, AllEntries, AllSupported;
    var ss, blocks: Blocks := ss0, map[];
    NothingApplied(base, ss0, n);
    for i := 0 to |tables|
      invariant AllApplied(AllRelative(tables[..i]), base, ss0, n) == Some(ss)
      invariant blocks == AllEntries(AllRelative(tables[..i]), n)
      invariant AllKnown(tables[..i])
    {
      assert tables[..i + 1][..i] == tables[..i];
      if !tables[i].known {
        return Err;
      }
      var r := ConvertElfRelocTable(tables[i].relocs, base, n, ss, blocks, ss0, AllRelative(tables[..i]));
      if r.Err? {
        RefusedInTables(tables, i, base, ss0, n);
        return Err;
      }
      ss, blocks := r.value.0, r.value.1;
    }
    assert tables[..|tables|] == tables;
    return Ok((ss, blocks));
  }

  lemma NothingApplied(base: nat, ss0: seq<PeSection>, n: nat)
    ensures AllApplied([], base, ss0, n) == Some(ss0) && AllEntries([], n) == map[]
  {
  }

  lemma RefusedInTables(tables: seq<RelocTab>, i: nat, base: nat, ss0: seq<PeSection>, n: nat)
    requires i < |tables|
    requires !AllSupported(tables[i].relocs) || AllApplied(AllRelative(tables[..i + 1]), base, ss0, n).None?
    ensures !Relocates(tables, base, ss0, n)
  {
    hide AllApplied, AllSupported;
    AllRelativePrefix(tables, i + 1);
    if Relocates(tables, base, ss0, n) {
      AppliedPrefix(AllRelative(tables[..i + 1]), AllRelative(tables), base, ss0, n);
      assert false;
    }
  }
}
