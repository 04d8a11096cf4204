/**
 The base relocation table that `elf2efi` emits ("The .reloc Section (Image Only)" of the Microsoft PE Format
 specification): blocks per page of 16-bit entries, as built, serialised and read back.
 */
module RelocTable {
  import opened Wrappers
  import opened Bytes

  const PAGE: nat := 4096
  const U32: nat := 0x1_0000_0000

  /** `PeRelocationEntry`: a 12-bit offset and a 4-bit type. */
  datatype Entry = Entry(offset: nat, kind: nat)

  /** `pe_reloc_blocks`: the entries of each page, in order of appearance. */
  type Blocks = map<nat, seq<Entry>>

  /** An entry as a loader sees it. */
  datatype Placed = Placed(at: nat, kind: nat)

  function PageOf(o: nat): nat { o - o % PAGE }

  // ---------- building ----------

  /** The offsets that lie on `page`. */
  function OnPage(offs: seq<nat>, page: nat): seq<nat>
  {
    if offs == [] then []
    else
      var k := |offs| - 1;
      OnPage(offs[..k], page) + if PageOf(offs[k]) == page then [offs[k]] else []
  }

  function EntriesFor(offs: seq<nat>, kind: nat): seq<Entry>
  {
    seq(|offs|, i requires 0 <= i < |offs| => Entry(offs[i] % PAGE, kind))
  }

  /** The blocks hold one entry per offset, each on its page. */
  ghost predicate BlocksHold(blocks: Blocks, offs: seq<nat>, kind: nat)
  {
    && (forall p :: p in blocks <==> exists i | 0 <= i < |offs| :: PageOf(offs[i]) == p)
    && forall p | p in blocks :: blocks[p] == EntriesFor(OnPage(offs, p), kind)
  }

  function AddEntry(blocks: Blocks, o: nat, kind: nat): Blocks
  {
    var page := PageOf(o);
    var old' := if page in blocks then blocks[page] else [];
    blocks[page := old' + [Entry(o % PAGE, kind)]]
  }

  lemma OnPageNext(offs: seq<nat>, o: nat, page: nat)
    ensures OnPage(offs + [o], page) == OnPage(offs, page) + if PageOf(o) == page then [o] else []
  {
    assert (offs + [o])[..|offs|] == offs;
  }

  lemma {:induction false} OnPageNone(offs: seq<nat>, page: nat)
    requires forall i | 0 <= i < |offs| :: PageOf(offs[i]) != page
    ensures OnPage(offs, page) == []
  {
    if offs != [] { OnPageNone(offs[..|offs| - 1], page); }
  }

  lemma AddEntryHolds(blocks: Blocks, offs: seq<nat>, o: nat, kind: nat)
    requires BlocksHold(blocks, offs, kind)
    ensures BlocksHold(AddEntry(blocks, o, kind), offs + [o], kind)
  {
    var page := PageOf(o);
    var offs' := offs + [o];
    var blocks' := AddEntry(blocks, o, kind);
    forall p ensures p in blocks' <==> exists i | 0 <= i < |offs'| :: PageOf(offs'[i]) == p {
      if p in blocks {
        var i :| 0 <= i < |offs| && PageOf(offs[i]) == p;
        assert PageOf(offs'[i]) == p;
      }
      assert PageOf(offs'[|offs|]) == page;
    }
    forall p | p in blocks' ensures blocks'[p] == EntriesFor(OnPage(offs', p), kind) {
      OnPageNext(offs, o, p);
      if p == page {
        if page !in blocks {
          OnPageNone(offs, page);
        }
        assert EntriesFor(OnPage(offs, page) + [o], kind) ==
          EntriesFor(OnPage(offs, page), kind) + [Entry(o % PAGE, kind)];
      }
    }
  }

  // ---------- serialising ----------

  /** An even number of entries keeps the following block aligned to four bytes. */
  function Padded(es: seq<Entry>): seq<Entry>
  {
    if |es| % 2 != 0 then es + [Entry(0, 0)] else es
  }

  function InsertByOffset(e: Entry, es: seq<Entry>): (r: seq<Entry>)
    ensures |r| == |es| + 1
  {
    if es == [] || e.offset < es[0].offset then [e] + es else [es[0]] + InsertByOffset(e, es[1..])
  }

  /** `sorted(entries, key=offset)`, which keeps the order of equal keys. */
  function SortByOffset(es: seq<Entry>): (r: seq<Entry>)
    ensures |r| == |es|
  {
    if es == [] then [] else InsertByOffset(es[|es| - 1], SortByOffset(es[..|es| - 1]))
  }

  function EntryBytes(es: seq<Entry>): (bs: seq<Byte>)
    ensures |bs| == 2 * |es|
  {
    if es == [] then [] else LeBytes(es[0].offset + PAGE * es[0].kind, 2) + EntryBytes(es[1..])
  }

  /** One block; the 32-bit fields are truncated as ctypes does. */
  function BlockBytes(page: nat, es: seq<Entry>): (bs: seq<Byte>)
    ensures |bs| == 8 + 2 * |es|
  {
    LeBytes(page % U32, 4) + LeBytes((8 + 2 * |es|) % U32, 4) + EntryBytes(es)
  }

  function Final(blocks: Blocks, page: nat): seq<Entry>
    requires page in blocks
  {
    SortByOffset(Padded(blocks[page]))
  }

  predicate AllPages(blocks: Blocks, pages: seq<nat>)
  {
    forall i | 0 <= i < |pages| :: pages[i] in blocks
  }

  function TableBytes(blocks: Blocks, pages: seq<nat>, shift: nat): seq<Byte>
    requires AllPages(blocks, pages)
  {
    if pages == [] then []
    else
      var k := |pages| - 1;
      assert AllPages(blocks, pages[..k]);
      TableBytes(blocks, pages[..k], shift) + BlockBytes(pages[k] + shift, Final(blocks, pages[k]))
  }

  // ---------- reading back ----------

  function PlaceAll(page: nat, es: seq<Entry>): seq<Placed>
  {
    if es == [] then [] else [Placed(page + es[0].offset, es[0].kind)] + PlaceAll(page, es[1..])
  }

  function ParseEntries(page: nat, bs: seq<Byte>): seq<Placed>
  {
    if |bs| < 2 then []
    else
      var w := LeValue(bs[..2]);
      [Placed(page + w % PAGE, w / PAGE)] + ParseEntries(page, bs[2..])
  }

  /** Block by block; refuses a block that does not end on a 32-bit boundary or a page that does not increase. */
  function ParseTable(bs: seq<Byte>, above: int): Option<seq<Placed>>
    decreases |bs|
  {
    if bs == [] then Some([])
    else if |bs| < 8 then None
    else
      var page, size := LeValue(bs[..4]), LeValue(bs[4..8]);
      if page <= above || page % PAGE != 0 || size < 8 || size > |bs| || size % 4 != 0 then None
      else
        match ParseTable(bs[size..], page)
        case None => None
        case Some(rest) => Some(ParseEntries(page, bs[8..size]) + rest)
  }

  // ---------- round trip ----------

  predicate Encodable(es: seq<Entry>)
  {
    forall i | 0 <= i < |es| :: es[i].offset < PAGE && es[i].kind < 16
  }

  lemma {:induction false} EntriesRoundTrip(page: nat, es: seq<Entry>)
    requires Encodable(es)
    ensures ParseEntries(page, EntryBytes(es)) == PlaceAll(page, es)
  {
    if es != [] {
      var w := es[0].offset + PAGE * es[0].kind;
      var bs := EntryBytes(es);
      assert Encodable(es[1..]);
      EntriesRoundTrip(page, es[1..]);
      assert bs[..2] == LeBytes(w, 2) && bs[2..] == EntryBytes(es[1..]);
      assert Modulus(2) == 65536;
      ValueOfBytes(w, 2);
      assert w % PAGE == es[0].offset && w / PAGE == es[0].kind;
    }
  }

  lemma BlockHeader(page: nat, es: seq<Entry>, more: seq<Byte>)
    requires page < U32 && 8 + 2 * |es| < U32
    ensures var bs := BlockBytes(page, es) + more;
      && LeValue(bs[..4]) == page && LeValue(bs[4..8]) == 8 + 2 * |es|
      && bs[8..8 + 2 * |es|] == EntryBytes(es) && bs[8 + 2 * |es|..] == more
  {
    FourBytes();
    BlockBytesAre(page, es);
    hide LeBytes, LeValue, EntryBytes, Modulus, BlockBytes;
    ValueOfBytes(page, 4);
    ValueOfBytes(8 + 2 * |es|, 4);
    Pieces(LeBytes(page, 4), LeBytes(8 + 2 * |es|, 4), EntryBytes(es), more);
  }

  lemma FourBytes()
    ensures Modulus(4) == U32
  {
    assert Modulus(2) == 65536;
    assert Modulus(4) == 65536 * Modulus(2);
  }

  lemma BlockBytesAre(page: nat, es: seq<Entry>)
    requires page < U32 && 8 + 2 * |es| < U32
    ensures BlockBytes(page, es) == LeBytes(page, 4) + LeBytes(8 + 2 * |es|, 4) + EntryBytes(es)
  {
    hide LeBytes, EntryBytes;
  }

  lemma Pieces(a: seq<Byte>, b: seq<Byte>, c: seq<Byte>, d: seq<Byte>)
    requires |a| == 4 && |b| == 4
    ensures var s := a + b + c + d; s[..4] == a && s[4..8] == b && s[8..8 + |c|] == c && s[8 + |c|..] == d
  {
  }

  /** What a table that lists `pages` in order means. */
  function TableMeaning(blocks: Blocks, pages: seq<nat>, shift: nat): seq<Placed>
    requires AllPages(blocks, pages)
  {
    if pages == [] then []
    else
      assert AllPages(blocks, pages[1..]);
      PlaceAll(pages[0] + shift, Final(blocks, pages[0])) + TableMeaning(blocks, pages[1..], shift)
  }

  /** Nothing is lost to the field widths. */
  predicate Representable(blocks: Blocks, pages: seq<nat>, shift: nat)
    requires AllPages(blocks, pages)
  {
    forall i | 0 <= i < |pages| ::
      && pages[i] + shift < U32 && (pages[i] + shift) % PAGE == 0
      && |Final(blocks, pages[i])| % 2 == 0
      && 8 + 2 * |Final(blocks, pages[i])| < U32 && Encodable(Final(blocks, pages[i]))
  }

  predicate Increasing(s: seq<nat>)
  {
    forall i, j | 0 <= i < j < |s| :: s[i] < s[j]
  }

  lemma {:induction false} TableFront(blocks: Blocks, pages: seq<nat>, shift: nat)
    requires AllPages(blocks, pages) && pages != []
    ensures AllPages(blocks, pages[1..])
    ensures TableBytes(blocks, pages, shift)
         == BlockBytes(pages[0] + shift, Final(blocks, pages[0])) + TableBytes(blocks, pages[1..], shift)
    decreases |pages|
  {
    hide BlockBytes, Final, TableBytes;
    var k := |pages| - 1;
    assert AllPages(blocks, pages[..k]);
    TableLast(blocks, pages, shift);
    if k > 0 {
      TableFront(blocks, pages[..k], shift);
      assert pages[1..][..k - 1] == pages[..k][1..];
      assert pages[1..][k - 1] == pages[k];
      TableLast(blocks, pages[1..], shift);
      var first := BlockBytes(pages[0] + shift, Final(blocks, pages[0]));
      var middle := TableBytes(blocks, pages[..k][1..], shift);
      var last := BlockBytes(pages[k] + shift, Final(blocks, pages[k]));
      assert (first + middle) + last == first + (middle + last);
    } else {
      assert pages[..k] == [] && pages[1..] == [];
      TableEmpty(blocks, shift);
      var only := BlockBytes(pages[0] + shift, Final(blocks, pages[0]));
      assert [] + only == only + [];
    }
  }

  lemma TableLast(blocks: Blocks, pages: seq<nat>, shift: nat)
    requires AllPages(blocks, pages) && pages != []
    ensures var k := |pages| - 1;
      AllPages(blocks, pages[..k]) &&
      TableBytes(blocks, pages, shift) ==
        TableBytes(blocks, pages[..k], shift) + BlockBytes(pages[k] + shift, Final(blocks, pages[k]))
  {
    hide BlockBytes, Final;
    assert AllPages(blocks, pages[..|pages| - 1]);
  }

  lemma TableEmpty(blocks: Blocks, shift: nat)
    ensures TableBytes(blocks, [], shift) == []
  {
  }

  lemma ParseOneBlock(page: nat, es: seq<Entry>, more: seq<Byte>, above: int)
    requires page < U32 && page % PAGE == 0 && 8 + 2 * |es| < U32 && |es| % 2 == 0 && above < page && Encodable(es)
    ensures ParseTable(BlockBytes(page, es) + more, above) ==
      var rest := ParseTable(more, page);
      if rest.None? then None else Some(PlaceAll(page, es) + rest.value)
  {
    hide BlockBytes, PlaceAll, ParseEntries, EntryBytes, LeValue, Encodable, ParseTable;
    BlockHeader(page, es, more);
    EntriesRoundTrip(page, es);
    WholeWords(|es|);
    ParseStep(BlockBytes(page, es) + more, above, page, 8 + 2 * |es|);
  }

  lemma WholeWords(n: nat)
    requires n % 2 == 0
    ensures (8 + 2 * n) % 4 == 0
  {
  }

  lemma ParseStep(bs: seq<Byte>, above: int, page: nat, size: nat)
    requires 8 <= size <= |bs| && size % 4 == 0 && above < page && page % PAGE == 0
    requires LeValue(bs[..4]) == page && LeValue(bs[4..8]) == size
    ensures var rest := ParseTable(bs[size..], page);
      ParseTable(bs, above) == if rest.None? then None else Some(ParseEntries(page, bs[8..size]) + rest.value)
  {
    hide LeValue, ParseEntries;
  }

  /** Reading the emitted table back gives its entries, with pages increasing and blocks on 32-bit boundaries. */
  lemma {:induction false} TableRoundTrip(blocks: Blocks, pages: seq<nat>, shift: nat, above: int)
    requires AllPages(blocks, pages) && Representable(blocks, pages, shift) && Increasing(pages)
    requires pages != [] ==> above < pages[0] + shift
    ensures ParseTable(TableBytes(blocks, pages, shift), above) == Some(TableMeaning(blocks, pages, shift))
    decreases |pages|
  {
    hide ParseTable, BlockBytes, PlaceAll, Final, Encodable;
    if pages == [] {
      ParseNothing(above);
    } else {
      TableFront(blocks, pages, shift);
      var page := pages[0] + shift;
      TableRoundTrip(blocks, pages[1..], shift, page);
      ParseOneBlock(page, Final(blocks, pages[0]), TableBytes(blocks, pages[1..], shift), above);
    }
  }

  lemma ParseNothing(above: int)
    ensures ParseTable([], above) == Some([])
  {
  }

  // ---------- one typed entry per relocation ----------

  /** The addresses of the entries that are not padding. */
  function Typed(ps: seq<Placed>): seq<nat>
  {
    if ps == [] then [] else (if ps[0].kind != 0 then [ps[0].at] else []) + Typed(ps[1..])
  }

  function Shifted(offs: seq<nat>, shift: nat): seq<nat>
  {
    seq(|offs|, i requires 0 <= i < |offs| => offs[i] + shift)
  }

  lemma {:induction false} TypedConcat(a: seq<Placed>, b: seq<Placed>)
    ensures Typed(a + b) == Typed(a) + Typed(b)
  {
    if a == [] {
      assert a + b == b;
    } else {
      assert (a + b)[1..] == a[1..] + b;
      TypedConcat(a[1..], b);
    }
  }

  lemma {:induction false} PlaceConcat(page: nat, a: seq<Entry>, b: seq<Entry>)
    ensures PlaceAll(page, a + b) == PlaceAll(page, a) + PlaceAll(page, b)
  {
    if a == [] {
      assert a + b == b;
    } else {
      assert (a + b)[1..] == a[1..] + b;
      PlaceConcat(page, a[1..], b);
    }
  }

  /** The typed addresses of a list of entries on a page. */
  function TypedOn(page: nat, es: seq<Entry>): seq<nat> { Typed(PlaceAll(page, es)) }

  lemma TypedOnConcat(page: nat, a: seq<Entry>, b: seq<Entry>)
    ensures TypedOn(page, a + b) == TypedOn(page, a) + TypedOn(page, b)
  {
    PlaceConcat(page, a, b);
    TypedConcat(PlaceAll(page, a), PlaceAll(page, b));
  }

  lemma TypedOnOne(page: nat, e: Entry)
    ensures TypedOn(page, [e]) == if e.kind != 0 then [page + e.offset] else []
  {
    assert [e][1..] == [];
    var p := Placed(page + e.offset, e.kind);
    assert PlaceAll(page, [e]) == [p];
    assert [p][1..] == [];
    assert Typed([p]) == if p.kind != 0 then [p.at] else [];
  }

  lemma {:induction false} InsertTyped(page: nat, e: Entry, es: seq<Entry>)
    ensures multiset(TypedOn(page, InsertByOffset(e, es))) == multiset(TypedOn(page, es)) + multiset(TypedOn(page, [e]))
    ensures Encodable(es) && Encodable([e]) ==> Encodable(InsertByOffset(e, es))
  {
    hide TypedOn;
    if es == [] || e.offset < es[0].offset {
      TypedOnConcat(page, [e], es);
    } else {
      var head, tail := [es[0]], es[1..];
      assert es == head + tail;
      InsertTyped(page, e, tail);
      TypedOnConcat(page, head, tail);
      TypedOnConcat(page, head, InsertByOffset(e, tail));
    }
  }

  lemma {:induction false} SortTyped(page: nat, es: seq<Entry>)
    ensures multiset(TypedOn(page, SortByOffset(es))) == multiset(TypedOn(page, es))
    ensures Encodable(es) ==> Encodable(SortByOffset(es))
  {
    hide TypedOn;
    if es != [] {
      var k := |es| - 1;
      assert es == es[..k] + [es[k]];
      SortTyped(page, es[..k]);
      InsertTyped(page, es[k], SortByOffset(es[..k]));
      TypedOnConcat(page, es[..k], [es[k]]);
    }
  }

  lemma PaddingIsIgnored(page: nat, es: seq<Entry>)
    ensures TypedOn(page, Padded(es)) == TypedOn(page, es)
    ensures |Padded(es)| % 2 == 0 && (Encodable(es) ==> Encodable(Padded(es)))
  {
    if |es| % 2 != 0 {
      TypedOnConcat(page, es, [Entry(0, 0)]);
      TypedOnOne(page, Entry(0, 0));
    }
  }

  lemma {:induction false} EntriesTyped(offs: seq<nat>, page: nat, shift: nat, kind: nat)
    requires kind != 0 && forall i | 0 <= i < |offs| :: PageOf(offs[i]) == page
    ensures TypedOn(page + shift, EntriesFor(offs, kind)) == Shifted(offs, shift)
  {
    hide TypedOn;
    if offs == [] {
      assert EntriesFor(offs, kind) == [];
      TypedOnNothing(page + shift);
    } else {
      var k := |offs| - 1;
      EntriesTyped(offs[..k], page, shift, kind);
      var e := Entry(offs[k] % PAGE, kind);
      assert EntriesFor(offs, kind) == EntriesFor(offs[..k], kind) + [e];
      TypedOnConcat(page + shift, EntriesFor(offs[..k], kind), [e]);
      TypedOnOne(page + shift, e);
      assert Shifted(offs, shift) == Shifted(offs[..k], shift) + [offs[k] + shift];
    }
  }

  lemma TypedOnNothing(page: nat)
    ensures TypedOn(page, []) == []
  {
  }

  lemma {:induction false} OnPageIs(offs: seq<nat>, page: nat)
    ensures forall i | 0 <= i < |OnPage(offs, page)| :: PageOf(OnPage(offs, page)[i]) == page
    ensures |OnPage(offs, page)| <= |offs|
    ensures forall o | o in OnPage(offs, page) :: o in offs
  {
    if offs != [] { OnPageIs(offs[..|offs| - 1], page); }
  }

  lemma BlockTyped(blocks: Blocks, offs: seq<nat>, kind: nat, page: nat, shift: nat)
    requires BlocksHold(blocks, offs, kind) && 0 < kind < 16 && page in blocks
    ensures multiset(TypedOn(page + shift, Final(blocks, page))) == multiset(Shifted(OnPage(offs, page), shift))
    ensures |Final(blocks, page)| % 2 == 0 && Encodable(Final(blocks, page))
    ensures |Final(blocks, page)| <= |offs| + 1
  {
    hide TypedOn;
    var es := blocks[page];
    OnPageIs(offs, page);
    EntriesTyped(OnPage(offs, page), page, shift, kind);
    PaddingIsIgnored(page + shift, es);
    SortTyped(page + shift, Padded(es));
  }

  /** The shifted offsets, page by page. */
  function PageByPage(offs: seq<nat>, pages: seq<nat>, shift: nat): seq<nat>
  {
    if pages == [] then [] else Shifted(OnPage(offs, pages[0]), shift) + PageByPage(offs, pages[1..], shift)
  }

  function One(x: nat, present: bool): multiset<nat> { if present then multiset{x} else multiset{} }

  lemma {:induction false} PageByPageNext(offs: seq<nat>, o: nat, pages: seq<nat>, shift: nat)
    requires Increasing(pages)
    ensures multiset(PageByPage(offs + [o], pages, shift))
         == multiset(PageByPage(offs, pages, shift)) + One(o + shift, PageOf(o) in pages)
    decreases |pages|
  {
    if pages != [] {
      hide OnPage, PageOf, Shifted;
      PageByPageNext(offs, o, pages[1..], shift);
      OnPageNext(offs, o, pages[0]);
      var before, rest := OnPage(offs, pages[0]), PageByPage(offs, pages[1..], shift);
      ShiftedNext(before, o, shift);
      assert pages == [pages[0]] + pages[1..];
      assert multiset(PageByPage(offs, pages, shift)) == multiset(Shifted(before, shift)) + multiset(rest);
    }
    hide *;
  }

  lemma ShiftedNext(offs: seq<nat>, o: nat, shift: nat)
    ensures Shifted(offs + [o], shift) == Shifted(offs, shift) + [o + shift]
    ensures Shifted(offs + [], shift) == Shifted(offs, shift)
  {
    assert offs + [] == offs;
  }

  lemma {:induction false} PagesCover(offs: seq<nat>, pages: seq<nat>, shift: nat)
    requires Increasing(pages) && forall i | 0 <= i < |offs| :: PageOf(offs[i]) in pages
    ensures multiset(PageByPage(offs, pages, shift)) == multiset(Shifted(offs, shift))
    decreases |offs|
  {
    hide PageByPage, PageOf, Shifted;
    if offs == [] {
      NoOffsets(pages, shift);
      NothingShifted(shift);
    } else {
      var k := |offs| - 1;
      assert offs == offs[..k] + [offs[k]];
      PagesCover(offs[..k], pages, shift);
      PageByPageNext(offs[..k], offs[k], pages, shift);
      ShiftedNext(offs[..k], offs[k], shift);
    }
  }

  lemma NothingShifted(shift: nat)
    ensures Shifted([], shift) == []
  {
  }

  lemma {:induction false} NoOffsets(pages: seq<nat>, shift: nat)
    ensures PageByPage([], pages, shift) == []
  {
    if pages != [] {
      NoOffsets(pages[1..], shift);
      assert OnPage([], pages[0]) == [];
      assert Shifted([], shift) == [];
    }
  }

  lemma {:induction false} MeaningTyped(blocks: Blocks, offs: seq<nat>, kind: nat, pages: seq<nat>, shift: nat)
    requires AllPages(blocks, pages) && BlocksHold(blocks, offs, kind) && 0 < kind < 16
    ensures multiset(Typed(TableMeaning(blocks, pages, shift))) == multiset(PageByPage(offs, pages, shift))
    decreases |pages|
  {
    hide Final, BlocksHold, Typed, PlaceAll, PageByPage, TableMeaning;
    if pages == [] {
      NoPages(blocks, offs, shift);
    } else {
      assert AllPages(blocks, pages[1..]);
      MeaningSplit(blocks, offs, pages, shift);
      MeaningTyped(blocks, offs, kind, pages[1..], shift);
      BlockTyped(blocks, offs, kind, pages[0], shift);
      TypedConcat(PlaceAll(pages[0] + shift, Final(blocks, pages[0])), TableMeaning(blocks, pages[1..], shift));
    }
  }

  lemma NoPages(blocks: Blocks, offs: seq<nat>, shift: nat)
    ensures Typed(TableMeaning(blocks, [], shift)) == [] && PageByPage(offs, [], shift) == []
  {
  }

  lemma MeaningSplit(blocks: Blocks, offs: seq<nat>, pages: seq<nat>, shift: nat)
    requires AllPages(blocks, pages) && pages != []
    ensures AllPages(blocks, pages[1..])
    ensures TableMeaning(blocks, pages, shift) ==
      PlaceAll(pages[0] + shift, Final(blocks, pages[0])) + TableMeaning(blocks, pages[1..], shift)
    ensures PageByPage(offs, pages, shift) ==
      Shifted(OnPage(offs, pages[0]), shift) + PageByPage(offs, pages[1..], shift)
  {
    hide PlaceAll, Final, Shifted, OnPage;
  }

  /** Apart from padding, only entries of type `kind`. */
  predicate OnlyKind(ps: seq<Placed>, kind: nat)
  {
    forall i | 0 <= i < |ps| :: ps[i].kind == 0 || ps[i].kind == kind
  }

  predicate EntriesOfKind(es: seq<Entry>, kind: nat)
  {
    forall i | 0 <= i < |es| :: es[i].kind == 0 || es[i].kind == kind
  }

  lemma {:induction false} InsertKind(e: Entry, es: seq<Entry>, kind: nat)
    requires EntriesOfKind(es, kind) && (e.kind == 0 || e.kind == kind)
    ensures EntriesOfKind(InsertByOffset(e, es), kind)
  {
    if es != [] && e.offset >= es[0].offset { InsertKind(e, es[1..], kind); }
  }

  lemma {:induction false} SortKind(es: seq<Entry>, kind: nat)
    requires EntriesOfKind(es, kind)
    ensures EntriesOfKind(SortByOffset(es), kind)
  {
    if es != [] {
      SortKind(es[..|es| - 1], kind);
      InsertKind(es[|es| - 1], SortByOffset(es[..|es| - 1]), kind);
    }
  }

  lemma {:induction false} PlaceKind(page: nat, es: seq<Entry>, kind: nat)
    requires EntriesOfKind(es, kind)
    ensures OnlyKind(PlaceAll(page, es), kind)
  {
    if es != [] { PlaceKind(page, es[1..], kind); }
  }

  lemma {:induction false} MeaningKind(blocks: Blocks, offs: seq<nat>, kind: nat, pages: seq<nat>, shift: nat)
    requires AllPages(blocks, pages) && BlocksHold(blocks, offs, kind)
    ensures OnlyKind(TableMeaning(blocks, pages, shift), kind)
    decreases |pages|
  {
    if pages != [] {
      hide BlocksHold, PlaceAll, Final, EntriesOfKind, TableMeaning;
      MeaningSplit(blocks, offs, pages, shift);
      MeaningKind(blocks, offs, kind, pages[1..], shift);
      BlockKind(blocks, offs, kind, pages[0]);
      PlaceKind(pages[0] + shift, Final(blocks, pages[0]), kind);
    }
  }

  lemma BlockKind(blocks: Blocks, offs: seq<nat>, kind: nat, page: nat)
    requires BlocksHold(blocks, offs, kind) && page in blocks
    ensures EntriesOfKind(Final(blocks, page), kind)
  {
    hide OnPage;
    SortKind(Padded(blocks[page]), kind);
  }

  /** The pages of the table: all of them, in increasing order. */
  ghost predicate ListsPages(blocks: Blocks, pages: seq<nat>)
  {
    Increasing(pages) && forall p :: p in pages <==> p in blocks
  }

  /** The table fits what its directory entry can say, so its addresses and block sizes fit their fields too. */
  ghost predicate TableFits(blocks: Blocks, offs: seq<nat>, pages: seq<nat>, shift: nat)
  {
    && AllPages(blocks, pages) && |TableBytes(blocks, pages, shift)| < U32
    && shift % PAGE == 0 && forall i | 0 <= i < |offs| :: offs[i] + shift < U32
  }

  /**
   The emitted table reads back as exactly one typed entry per relocation, at its offset plus the shift of the
   image, and padding of type 0.
   */
  lemma TableIsFaithful(blocks: Blocks, offs: seq<nat>, kind: nat, pages: seq<nat>, shift: nat)
    requires BlocksHold(blocks, offs, kind) && 0 < kind < 16 && ListsPages(blocks, pages)
    requires TableFits(blocks, offs, pages, shift)
    ensures var r := ParseTable(TableBytes(blocks, pages, shift), -1);
            r.Some? && multiset(Typed(r.value)) == multiset(Shifted(offs, shift)) && OnlyKind(r.value, kind)
  {
    hide Final, Encodable, BlocksHold, OnlyKind, ParseTable, TableMeaning, Typed, TableBytes;
    FieldsSuffice(blocks, offs, kind, pages, shift);
    TableRoundTrip(blocks, pages, shift, -1);
    MeaningTyped(blocks, offs, kind, pages, shift);
    MeaningKind(blocks, offs, kind, pages, shift);
    PagesCover(offs, pages, shift);
  }

  /** No block is larger than the table. */
  lemma {:induction false} BlockWithin(blocks: Blocks, pages: seq<nat>, shift: nat, i: nat)
    requires AllPages(blocks, pages) && i < |pages|
    ensures 8 + 2 * |Final(blocks, pages[i])| <= |TableBytes(blocks, pages, shift)|
    decreases |pages|
  {
    hide BlockBytes, Final, TableBytes;
    var k := |pages| - 1;
    TableLast(blocks, pages, shift);
    if i < k { BlockWithin(blocks, pages[..k], shift, i); }
  }

  lemma FieldsSuffice(blocks: Blocks, offs: seq<nat>, kind: nat, pages: seq<nat>, shift: nat)
    requires BlocksHold(blocks, offs, kind) && 0 < kind < 16 && ListsPages(blocks, pages)
    requires TableFits(blocks, offs, pages, shift)
    ensures Representable(blocks, pages, shift)
    ensures forall i | 0 <= i < |offs| :: PageOf(offs[i]) in pages
  {
    hide Final, Encodable, TableBytes, BlocksHold;
    forall i | 0 <= i < |pages|
      ensures
        && pages[i] + shift < U32 && (pages[i] + shift) % PAGE == 0
        && |Final(blocks, pages[i])| % 2 == 0
        && 8 + 2 * |Final(blocks, pages[i])| < U32 && Encodable(Final(blocks, pages[i]))
    {
      BlockTyped(blocks, offs, kind, pages[i], shift);
      BlockWithin(blocks, pages, shift, i);
      PageHasOffset(blocks, offs, kind, pages[i]);
      var j :| 0 <= j < |offs| && PageOf(offs[j]) == pages[i];
      PageAligned(offs[j], shift);
    }
    forall i | 0 <= i < |offs| ensures PageOf(offs[i]) in pages {
      PageHasOffset(blocks, offs, kind, PageOf(offs[i]));
    }
  }

  lemma PageHasOffset(blocks: Blocks, offs: seq<nat>, kind: nat, page: nat)
    requires BlocksHold(blocks, offs, kind)
    ensures page in blocks ==> exists j | 0 <= j < |offs| :: PageOf(offs[j]) == page
    ensures forall i | 0 <= i < |offs| && PageOf(offs[i]) == page :: page in blocks
  {
    hide OnPage, EntriesFor;
  }

  lemma PageAligned(o: nat, shift: nat)
    requires shift % PAGE == 0
    ensures PageOf(o) <= o && (PageOf(o) + shift) % PAGE == 0
  {
  }
}
