/** A whole image: `.eh_frame` with CIEs, FDEs that share them and gaps, in any order an
    assembler may choose, and the `.eh_frame_hdr` table over the FDEs. Printing it, loading it
    and looking functions up by address is the identity. */
module ImagePrinter {
  import opened Words
  import opened Bytes
  import opened Leb128
  import opened PointerEncoding
  import opened Entries
  import T = EhFrameTable
  import opened FunctionLookup
  import opened Printer
  import opened Modules
  import C = FunctionCache

  /** One piece of `.eh_frame`. An FDE names its CIE by index; gaps hold any bytes. */
  datatype Entry = CieEntry(cie: Cie) | FdeEntry(owner: nat, fde: Fde) | Gap(bytes: seq<u8>)

  /** The section's entries in file order, and the FDEs its table lists, in table order. */
  datatype Layout = Layout(entries: seq<Entry>, listed: seq<nat>)

  /** Where the sections are loaded. */
  datatype Placement = Placement(ehAvma: u64, hdrAvma: u64, textBase: u64)

  /** An FDE comes after its CIE. */
  predicate EntryShaped(es: seq<Entry>, i: nat)
    requires i < |es|
  {
    match es[i]
    case CieEntry(c) => c.sized || c.augs == []
    case FdeEntry(o, _) => o < i && es[o].CieEntry?
    case Gap(_) => true
  }

  predicate AllShaped(es: seq<Entry>) {
    forall i: nat :: i < |es| ==> EntryShaped(es, i)
  }

  predicate Shaped(s: Layout) {
    && AllShaped(s.entries)
    && forall i: nat :: i < |s.listed| ==> s.listed[i] < |s.entries| && s.entries[s.listed[i]].FdeEntry?
  }

  // ---------------------------------------------------------------------------
  // The section

  /** How the FDEs of a CIE are encoded. */
  function ConfigFor(c: Cie, textBase: u64, dataBase: u64): FdeConfig {
    var e := AllAugEffects(c.augs, NO_AUGMENTATION, 0, 0);
    FdeConfig(e.fdeEnc, e.lsdaEnc, c.sized, textBase, dataBase)
  }

  function EntryBytes(es: seq<Entry>, i: nat): seq<u8>
    requires AllShaped(es) && i < |es|
  {
    assert EntryShaped(es, i);
    match es[i]
    case CieEntry(c) => PrintCie(c)
    case FdeEntry(o, f) => PrintFde(f, ConfigFor(es[o].cie, 0, 0))
    case Gap(bytes) => bytes
  }

  function BytesFrom(es: seq<Entry>, i: nat): seq<u8>
    requires AllShaped(es) && i <= |es|
    decreases |es| - i
  {
    if i == |es| then [] else EntryBytes(es, i) + BytesFrom(es, i + 1)
  }

  /** `.eh_frame`, the same bytes wherever it is loaded. */
  function EhBytes(s: Layout): seq<u8>
    requires Shaped(s)
  {
    BytesFrom(s.entries, 0)
  }

  function OffsetOf(es: seq<Entry>, i: nat): nat
    requires AllShaped(es) && i <= |es|
  {
    if i == 0 then 0 else OffsetOf(es, i - 1) + |EntryBytes(es, i - 1)|
  }

  lemma {:induction false} RestIsAt(es: seq<Entry>, i: nat)
    requires AllShaped(es) && i <= |es|
    ensures At(BytesFrom(es, 0), OffsetOf(es, i), BytesFrom(es, i))
  {
    hide At, EntryBytes;
    if i == 0 {
      AtWhole(BytesFrom(es, 0));
    } else {
      RestIsAt(es, i - 1);
      AtSplit(BytesFrom(es, 0), OffsetOf(es, i - 1), EntryBytes(es, i - 1), BytesFrom(es, i));
    }
  }

  lemma EntryIsAt(es: seq<Entry>, i: nat)
    requires AllShaped(es) && i < |es|
    ensures At(BytesFrom(es, 0), OffsetOf(es, i), EntryBytes(es, i))
  {
    hide At, EntryBytes;
    RestIsAt(es, i);
    AtSplit(BytesFrom(es, 0), OffsetOf(es, i), EntryBytes(es, i), BytesFrom(es, i + 1));
  }

  lemma {:induction false} OffsetsIncrease(es: seq<Entry>, i: nat, j: nat)
    requires AllShaped(es) && i < j <= |es|
    ensures OffsetOf(es, i) + |EntryBytes(es, i)| <= OffsetOf(es, j)
    decreases j
  {
    hide EntryBytes;
    if i + 1 < j {
      OffsetsIncrease(es, i, j - 1);
    }
  }

  /** An FDE's bytes do not depend on the bases it will be resolved against. */
  lemma BasesAreNotPrinted(c: Cie, f: Fde, textBase: u64, dataBase: u64)
    ensures var cfg := ConfigFor(c, textBase, dataBase);
      && PrintFde(f, cfg) == PrintFde(f, ConfigFor(c, 0, 0))
      && (PrintableFde(f, cfg) <==> PrintableFde(f, ConfigFor(c, 0, 0)))
  {
    hide AllAugEffects, RawBytes, LeBytes, Uleb, PrintablePointer, Representable;
  }

  /** The encodings a CIE declares do not depend on where it is. */
  lemma {:induction false} EncodingsAreFixed(augs: seq<Augmentation>, st: AugState, st': AugState, base: u64, pos: nat, base': u64, pos': nat)
    requires st.fdeEnc == st'.fdeEnc && st.lsdaEnc == st'.lsdaEnc
    ensures AllAugEffects(augs, st, base, pos).fdeEnc == AllAugEffects(augs, st', base', pos').fdeEnc
    ensures AllAugEffects(augs, st, base, pos).lsdaEnc == AllAugEffects(augs, st', base', pos').lsdaEnc
    decreases |augs|
  {
    hide Target;
    if augs != [] {
      var n := |AugBytes(augs[0])|;
      EncodingsAreFixed(augs[1..], AugEffect(augs[0], st, base, pos), AugEffect(augs[0], st', base', pos'), base, pos + n, base', pos' + n);
    }
  }

  lemma ConfigIsParsed(c: Cie, off: nat, avmaBase: u64, textBase: u64, dataBase: u64)
    requires c.sized || c.augs == []
    ensures var p := ExpectedCie(c, off, avmaBase);
      FdeConfig(p.fdeEnc, p.lsdaEnc, p.hasZ, textBase, dataBase) == ConfigFor(c, textBase, dataBase)
  {
    hide AllAugEffects, PrintCie, AllAugBytes;
    var pos := off + |PrintCie(c)| - |Rest(c)| - |AllAugBytes(c.augs)|;
    EncodingsAreFixed(c.augs, NO_AUGMENTATION, NO_AUGMENTATION, avmaBase, pos, 0, 0);
  }

  // ---------------------------------------------------------------------------
  // What each listed function must decode to

  function FdeOf(s: Layout, i: nat): Fde
    requires Shaped(s) && i < |s.listed|
  {
    s.entries[s.listed[i]].fde
  }

  function OwnerOf(s: Layout, i: nat): (o: nat)
    requires Shaped(s) && i < |s.listed|
    ensures o < s.listed[i] && s.entries[o].CieEntry? && EntryShaped(s.entries, o)
  {
    assert EntryShaped(s.entries, s.listed[i]);
    s.entries[s.listed[i]].owner
  }

  function CieOf(s: Layout, i: nat): (c: Cie)
    requires Shaped(s) && i < |s.listed|
    ensures c.sized || c.augs == []
  {
    s.entries[OwnerOf(s, i)].cie
  }

  function ConfigAt(s: Layout, pl: Placement, i: nat): FdeConfig
    requires Shaped(s) && i < |s.listed|
  {
    ConfigFor(CieOf(s, i), pl.textBase, pl.hdrAvma)
  }

  function CieOffsetAt(s: Layout, i: nat): nat
    requires Shaped(s) && i < |s.listed|
  {
    OffsetOf(s.entries, OwnerOf(s, i))
  }

  function FdeOffset(s: Layout, i: nat): nat
    requires Shaped(s) && i < |s.listed|
  {
    OffsetOf(s.entries, s.listed[i])
  }

  function CieAt(s: Layout, pl: Placement, i: nat): ParsedCie
    requires Shaped(s) && i < |s.listed|
  {
    ExpectedCie(CieOf(s, i), CieOffsetAt(s, i), pl.ehAvma)
  }

  function FdeAt(s: Layout, pl: Placement, i: nat): ParsedFde
    requires Shaped(s) && i < |s.listed|
  {
    ExpectedFde(FdeOf(s, i), ConfigAt(s, pl, i), FdeOffset(s, i), pl.ehAvma)
  }

  /** The records of listed function `i` are in the section, the CIE before the FDE. */
  lemma RecordsAreAt(s: Layout, pl: Placement, i: nat)
    requires Shaped(s) && i < |s.listed|
    ensures At(EhBytes(s), CieOffsetAt(s, i), PrintCie(CieOf(s, i)))
    ensures At(EhBytes(s), FdeOffset(s, i), PrintFde(FdeOf(s, i), ConfigAt(s, pl, i)))
    ensures CieOffsetAt(s, i) <= FdeOffset(s, i)
  {
    hide At, OffsetOf, BytesFrom, PrintCie, PrintFde, ConfigFor;
    EntryIsAt(s.entries, OwnerOf(s, i));
    EntryIsAt(s.entries, s.listed[i]);
    OffsetsIncrease(s.entries, OwnerOf(s, i), s.listed[i]);
    BasesAreNotPrinted(CieOf(s, i), FdeOf(s, i), pl.textBase, pl.hdrAvma);
  }

  // ---------------------------------------------------------------------------
  // The header

  function Relative(target: u64, hdrAvma: u64): seq<u8> {
    LeBytes(Narrow(WrapSub(target, hdrAvma), 0x1_0000_0000), 4)
  }

  function Row(s: Layout, pl: Placement, i: nat): (bytes: seq<u8>)
    requires Shaped(s) && i < |s.listed|
    ensures |bytes| == 8
  {
    Relative(FdeAt(s, pl, i).initialPc, pl.hdrAvma) + Relative(Avma(pl.ehAvma, FdeOffset(s, i)), pl.hdrAvma)
  }

  function Rows(s: Layout, pl: Placement, i: nat): (bytes: seq<u8>)
    requires Shaped(s) && i <= |s.listed|
    ensures |bytes| == 8 * (|s.listed| - i)
    decreases |s.listed| - i
  {
    if i == |s.listed| then [] else Row(s, pl, i) + Rows(s, pl, i + 1)
  }

  /** How the header encodes its `.eh_frame` pointer and its entry count. */
  datatype HdrFormat = HdrFormat(ptrEnc: u8, rawPtr: u64, countEnc: u8)

  /** The fixed-width pointer formats and the count formats the header parser understands. */
  predicate ValidFormat(h: HdrFormat, n: nat) {
    && h.ptrEnc != OMIT && Format(h.ptrEnc) in {UDATA2, SDATA2, UDATA4, SDATA4, UDATA8, SDATA8}
    && h.countEnc != OMIT && Format(h.countEnc) in {UDATA4, SDATA4, UDATA8}
    && n < TWO64 && TableOffset(h, n) + 8 * n < 0x8000_0000_0000_0000
    && (Format(h.countEnc) == UDATA4 ==> n < 0x1_0000_0000) && (Format(h.countEnc) == SDATA4 ==> n < 0x8000_0000)
  }

  function PtrBytes(h: HdrFormat): seq<u8> {
    RawBytes(Format(h.ptrEnc), h.rawPtr)
  }

  function CountBytes(h: HdrFormat, n: u64): seq<u8> {
    RawBytes(Format(h.countEnc), n)
  }

  function TableOffset(h: HdrFormat, n: u64): nat {
    4 + |PtrBytes(h)| + |CountBytes(h, n)|
  }

  /** Version 1, the three encodings, the pointer, the count, the datarel sdata4 table. */
  function HdrBytes(s: Layout, pl: Placement, h: HdrFormat): (bytes: seq<u8>)
    requires Shaped(s) && ValidFormat(h, |s.listed|)
    ensures |bytes| == TableOffset(h, |s.listed|) + 8 * |s.listed|
  {
    [1, h.ptrEnc, h.countEnc, T.DATAREL_SDATA4] + (PtrBytes(h) + (CountBytes(h, |s.listed|) + Rows(s, pl, 0)))
  }

  lemma {:induction false} RowIsAt(bs: seq<u8>, pos: nat, s: Layout, pl: Placement, i: nat, j: nat)
    requires Shaped(s) && i <= j < |s.listed| && At(bs, pos, Rows(s, pl, i))
    ensures At(bs, pos + 8 * (j - i), Row(s, pl, j))
    decreases j - i
  {
    hide At, Row;
    AtSplit(bs, pos, Row(s, pl, i), Rows(s, pl, i + 1));
    if i < j {
      RowIsAt(bs, pos + 8, s, pl, i + 1, j);
    }
  }

  predicate NearHeader(target: u64, hdrAvma: u64) {
    Representable(SDATA4, WrapSub(target, hdrAvma))
  }

  lemma RelativeRoundTrip(bs: seq<u8>, pos: nat, target: u64, hdrAvma: u64)
    requires NearHeader(target, hdrAvma) && At(bs, pos, Relative(target, hdrAvma))
    ensures LeValue(bs[pos..pos + 4]) < 0x1_0000_0000
    ensures WrapAdd(hdrAvma, SignExtend32(LeValue(bs[pos..pos + 4]))) == target
  {
    PowersOf256();
    LeRoundTrip(Narrow(WrapSub(target, hdrAvma), 0x1_0000_0000), 4);
  }

  // ---------------------------------------------------------------------------
  // The image

  function PrintedTable(s: Layout, pl: Placement, h: HdrFormat): T.Table
    requires ValidFormat(h, |s.listed|)
  {
    T.Table(TableOffset(h, |s.listed|), |s.listed|, pl.hdrAvma)
  }

  function PrintedImage(s: Layout, pl: Placement, h: HdrFormat): Image
    requires Shaped(s) && ValidFormat(h, |s.listed|)
  {
    Image(Some(HdrBytes(s, pl, h)), Some(EhBytes(s)), PrintedTable(s, pl, h), pl.ehAvma, pl.textBase, pl.hdrAvma)
  }

  /** A listed function's records are printable, its FDE points back to its CIE, and the
      table can reach it. */
  predicate PrintableFunction(s: Layout, pl: Placement, i: nat)
    requires Shaped(s) && i < |s.listed|
  {
    var fde := FdeAt(s, pl, i);
    && PrintableCie(CieOf(s, i))
    && PrintableFde(FdeOf(s, i), ConfigAt(s, pl, i))
    && PointsBack(FdeOf(s, i), FdeOffset(s, i), CieOffsetAt(s, i))
    && NearHeader(fde.initialPc, pl.hdrAvma)
    && NearHeader(Avma(pl.ehAvma, FdeOffset(s, i)), pl.hdrAvma)
    && fde.initialPc + fde.addressRange < TWO64
  }

  /** The CIE pointer counts back from its own position. */
  predicate PointsBack(f: Fde, fdeOffset: nat, cieOffset: nat) {
    f.ciePtr + cieOffset == fdeOffset + if f.is64 then 12 else 4
  }

  /** Every listed function can be printed, in a section that does not wrap. */
  predicate PrintableSection(s: Layout, pl: Placement) {
    && Shaped(s)
    && pl.ehAvma + |EhBytes(s)| < TWO64
    && forall i: nat :: i < |s.listed| ==> PrintableFunction(s, pl, i)
  }

  predicate Ascending(s: Layout, pl: Placement)
    requires Shaped(s)
  {
    forall i: nat, j: nat :: i < j < |s.listed| ==> FdeAt(s, pl, i).initialPc < FdeAt(s, pl, j).initialPc
  }

  predicate Disjoint(s: Layout, pl: Placement)
    requires Shaped(s)
  {
    forall i: nat, j: nat :: i < j < |s.listed| ==>
      FdeAt(s, pl, i).initialPc + FdeAt(s, pl, i).addressRange <= FdeAt(s, pl, j).initialPc
  }

  /** The table is in address order and the functions do not overlap. */
  predicate PrintableImage(s: Layout, pl: Placement) {
    PrintableSection(s, pl) && Ascending(s, pl) && Disjoint(s, pl)
  }

  /** The header parser finds the printed table. */
  lemma HeaderRoundTrip(s: Layout, pl: Placement, h: HdrFormat)
    requires Shaped(s) && ValidFormat(h, |s.listed|)
    ensures var hdr := HdrBytes(s, pl, h);
      && T.IsSlice(hdr) && T.ParseTable(hdr, pl.hdrAvma) == Ok(PrintedTable(s, pl, h))
      && At(hdr, TableOffset(h, |s.listed|), Rows(s, pl, 0))
  {
    hide At, Rows, RawBytes, T.ParseTable;
    var hdr := HdrBytes(s, pl, h);
    var count := CountBytes(h, |s.listed|) + Rows(s, pl, 0);
    AtWhole(hdr);
    AtSplit(hdr, 0, [1, h.ptrEnc, h.countEnc, T.DATAREL_SDATA4], PtrBytes(h) + count);
    AtSplit(hdr, 4, PtrBytes(h), count);
    AtSplit(hdr, 4 + |PtrBytes(h)|, CountBytes(h, |s.listed|), Rows(s, pl, 0));
    CountRoundTrip(hdr, 4 + |PtrBytes(h)|, h, |s.listed|, Rows(s, pl, 0));
    AcceptedHeader(hdr, h, |s.listed|, pl.hdrAvma);
  }

  lemma CountRoundTrip(hdr: seq<u8>, pos: nat, h: HdrFormat, n: u64, rest: seq<u8>)
    requires ValidFormat(h, n) && At(hdr, pos, CountBytes(h, n) + rest)
    ensures T.ReadUnsigned(hdr, pos, h.countEnc) == Some((n, |CountBytes(h, n)|))
  {
    hide At, LeBytes, ReadLe;
    PowersOf256();
    AtLe(hdr, pos, n, |CountBytes(h, n)|, rest);
  }

  lemma PtrWidth(h: HdrFormat, n: nat)
    requires ValidFormat(h, n)
    ensures T.EncSize(h.ptrEnc) == Some(|PtrBytes(h)|) && |PtrBytes(h)| <= 8
    ensures |CountBytes(h, n)| <= 8
  {
    hide LeBytes;
  }

  lemma AcceptedHeader(hdr: seq<u8>, h: HdrFormat, n: nat, avma: u64)
    requires ValidFormat(h, n) && |hdr| == TableOffset(h, n) + 8 * n
    requires hdr[0] == 1 && hdr[1] == h.ptrEnc && hdr[2] == h.countEnc && hdr[3] == T.DATAREL_SDATA4
    requires T.ReadUnsigned(hdr, 4 + |PtrBytes(h)|, h.countEnc) == Some((n, |CountBytes(h, n)|))
    ensures T.IsSlice(hdr) && T.ParseTable(hdr, avma) == Ok(T.Table(TableOffset(h, n), n, avma))
  {
    hide PtrBytes, CountBytes, T.EncSize, T.ReadUnsigned;
    PtrWidth(h, n);
  }

  lemma AtWhole(bs: seq<u8>)
    ensures At(bs, 0, bs)
  {
  }

  lemma RowRoundTrip(hdr: seq<u8>, t: T.Table, i: nat, pc: u64, fde: u64)
    requires T.Inside(hdr, t) && i < t.count && NearHeader(pc, t.avma) && NearHeader(fde, t.avma)
    requires At(hdr, t.dataOffset + 8 * i, Relative(pc, t.avma) + Relative(fde, t.avma))
    ensures T.EntryPc(hdr, t, i) == pc && T.EntryFde(hdr, t, i) == fde
  {
    hide At, Relative, NearHeader, SignExtend32, WrapAdd;
    var pos := t.dataOffset + 8 * i;
    RelativeSize(pc, t.avma);
    RelativeSize(fde, t.avma);
    AtSplit(hdr, pos, Relative(pc, t.avma), Relative(fde, t.avma));
    RelativeRoundTrip(hdr, pos, pc, t.avma);
    RelativeRoundTrip(hdr, pos + 4, fde, t.avma);
  }

  lemma EntriesRoundTrip(s: Layout, pl: Placement, h: HdrFormat, i: nat)
    requires PrintableSection(s, pl) && ValidFormat(h, |s.listed|) && i < |s.listed|
    ensures var hdr, t := HdrBytes(s, pl, h), PrintedTable(s, pl, h);
      && T.Inside(hdr, t)
      && T.EntryPc(hdr, t, i) == FdeAt(s, pl, i).initialPc
      && T.EntryFde(hdr, t, i) == Avma(pl.ehAvma, FdeOffset(s, i))
  {
    hide At, HdrBytes, TableOffset, Rows, Relative, FdeAt, FdeOffset, T.ParseTable, T.EntryPc, T.EntryFde, NearHeader,
      PrintableCie, PrintableFde, PointsBack, EhBytes, Avma, ConfigAt, CieOf, FdeOf, CieOffsetAt, ValidFormat, Shaped;
    HeaderRoundTrip(s, pl, h);
    RowIsAt(HdrBytes(s, pl, h), TableOffset(h, |s.listed|), s, pl, 0, i);
    assert PrintableFunction(s, pl, i);
    RowRoundTrip(HdrBytes(s, pl, h), PrintedTable(s, pl, h), i, FdeAt(s, pl, i).initialPc, Avma(pl.ehAvma, FdeOffset(s, i)));
  }

  lemma RelativeSize(target: u64, hdrAvma: u64)
    ensures |Relative(target, hdrAvma)| == 4
  {
  }

  /** An FDE leads back to its CIE. */
  lemma PointerBack(bs: seq<u8>, off: nat, f: Fde, cfg: FdeConfig, cieOff: nat)
    requires PrintableFde(f, cfg) && At(bs, off, PrintFde(f, cfg))
    requires PointsBack(f, off, cieOff)
    ensures CieOffset(bs, off) == Ok(cieOff)
  {
    hide At, RawBytes, FdeAugField, ReadLe, LeBytes, PrintablePointer, Representable;
    var body := FdeBody(f, cfg);
    PowersOf256();
    if f.is64 {
      var n := LeBytes(|body|, 8);
      assert PrintFde(f, cfg) == LeBytes(0xffff_ffff, 4) + (n + body);
      AtLe(bs, off, 0xffff_ffff, 4, n + body);
      AtSplit(bs, off + 4, n, body);
    } else {
      AtLe(bs, off, |body|, 4, body);
    }
    var fmt := Format(cfg.fdeEnc);
    IdRoundTrip(bs, off + (if f.is64 then 12 else 4), f.is64, f.ciePtr,
                RawBytes(fmt, f.rawPc) + (RawBytes(fmt, f.rawRange) + FdeAugField(f, cfg, f.instructions)));
  }

  lemma PairRoundTrip(m: Image, eh: seq<u8>, c: Cie, f: Fde, cieOff: nat, fdeOff: nat)
    requires c.sized || c.augs == []
    requires At(eh, cieOff, PrintCie(c)) && At(eh, fdeOff, PrintFde(f, ConfigFor(c, m.textBase, m.dataBase))) && |eh| < TWO64
    requires PrintableCie(c) && PrintableFde(f, ConfigFor(c, m.textBase, m.dataBase)) && PointsBack(f, fdeOff, cieOff)
    ensures fdeOff < |eh|
    ensures DecodePair(m, eh, fdeOff) ==
              Ok((ExpectedCie(c, cieOff, m.ehAvma), ExpectedFde(f, ConfigFor(c, m.textBase, m.dataBase), fdeOff, m.ehAvma)))
  {
    hide At, ExpectedCie, ExpectedFde, ParseCie, ParseFde, CieOffset, PrintCie, PrintFde, PrintableCie, PrintableFde, PointsBack, ConfigFor;
    var cfg := ConfigFor(c, m.textBase, m.dataBase);
    CieRoundTrip(eh, cieOff, m.ehAvma, c);
    ConfigIsParsed(c, cieOff, m.ehAvma, m.textBase, m.dataBase);
    FdeRoundTrip(eh, fdeOff, m.ehAvma, f, cfg);
    PointerBack(eh, fdeOff, f, cfg, cieOff);
    FdeIsNotEmpty(f, cfg);
  }

  /** Each listed function decodes to the records it was printed from. */
  lemma PairDecodes(s: Layout, pl: Placement, h: HdrFormat, i: nat)
    requires PrintableSection(s, pl) && ValidFormat(h, |s.listed|) && i < |s.listed|
    ensures var m := PrintedImage(s, pl, h);
      && pl.ehAvma + FdeOffset(s, i) < TWO64
      && DecodeAt(m, m.eh.value, Avma(pl.ehAvma, FdeOffset(s, i))) == Ok((CieAt(s, pl, i), FdeAt(s, pl, i)))
  {
    hide At, ExpectedCie, ExpectedFde, DecodePair, HdrBytes, EhBytes, PrintCie, PrintFde, PrintableCie, PrintableFde, NearHeader, ConfigFor,
      Avma, ValidFormat, TableOffset, FdeOffset, CieOffsetAt, FdeOf, CieOf, PointsBack, Shaped;
    assert PrintableFunction(s, pl, i);
    RecordsAreAt(s, pl, i);
    PairRoundTrip(PrintedImage(s, pl, h), EhBytes(s), CieOf(s, i), FdeOf(s, i), CieOffsetAt(s, i), FdeOffset(s, i));
    AvmaExact(pl.ehAvma, FdeOffset(s, i));
  }

  lemma AvmaExact(base: u64, pos: nat)
    requires base + pos < TWO64
    ensures Avma(base, pos) == base + pos
  {
  }

  lemma FdeIsNotEmpty(f: Fde, cfg: FdeConfig)
    ensures |PrintFde(f, cfg)| >= 4
  {
  }

  /** The details the lookup must produce for function `i`. */
  function ExpectedDetails(s: Layout, pl: Placement, h: HdrFormat, i: nat): FunctionDetails
    requires PrintableSection(s, pl) && ValidFormat(h, |s.listed|) && i < |s.listed|
  {
    assert PrintableFunction(s, pl, i);
    BuildDetails(PrintedImage(s, pl, h), CieAt(s, pl, i), FdeAt(s, pl, i))
  }

  lemma PrintedEntry(s: Layout, pl: Placement, h: HdrFormat, i: nat)
    requires PrintableSection(s, pl) && ValidFormat(h, |s.listed|) && i < |s.listed|
    ensures var m := PrintedImage(s, pl, h);
      T.Inside(m.hdr.value, m.table) && EntryDecodes(m, i)
  {
    hide DecodeAt, T.EntryPc, T.EntryFde, CieAt, FdeAt, FdeOffset, HdrBytes, EhBytes;
    EntriesRoundTrip(s, pl, h, i);
    PairDecodes(s, pl, h, i);
    assert PrintableFunction(s, pl, i);
  }

  lemma PrintedListing(s: Layout, pl: Placement, h: HdrFormat, i: nat)
    requires PrintableSection(s, pl) && ValidFormat(h, |s.listed|) && i < |s.listed| && Readable(PrintedImage(s, pl, h))
    ensures Listed(PrintedImage(s, pl, h), i) == ExpectedDetails(s, pl, h, i)
  {
    hide DecodeAt, T.EntryPc, T.EntryFde, CieAt, FdeAt, FdeOffset, HdrBytes, EhBytes, Readable, BuildInfo;
    EntriesRoundTrip(s, pl, h, i);
    PairDecodes(s, pl, h, i);
  }

  /** A printed section is readable, and its table lists exactly the printed functions. */
  lemma PrintedIsReadable(s: Layout, pl: Placement, h: HdrFormat)
    requires PrintableSection(s, pl) && ValidFormat(h, |s.listed|)
    ensures var m := PrintedImage(s, pl, h);
      && Readable(m) && m.table.count == |s.listed|
      && forall i: nat :: i < |s.listed| ==> Listed(m, i) == ExpectedDetails(s, pl, h, i)
  {
    hide EntryDecodes, Listed, HdrBytes, EhBytes, CieAt, FdeAt, PrintableFunction, BuildInfo;
    var m := PrintedImage(s, pl, h);
    forall i: nat | i < |s.listed|
      ensures T.Inside(m.hdr.value, m.table) && EntryDecodes(m, i)
    {
      PrintedEntry(s, pl, h, i);
    }
    assert Readable(m) by {
      HeaderRoundTrip(s, pl, h);
    }
    forall i: nat | i < |s.listed|
      ensures Listed(m, i) == ExpectedDetails(s, pl, h, i)
    {
      PrintedListing(s, pl, h, i);
    }
  }

  lemma DetailsSpan(s: Layout, pl: Placement, h: HdrFormat, i: nat)
    requires PrintableSection(s, pl) && ValidFormat(h, |s.listed|) && i < |s.listed|
    ensures var d, fde := ExpectedDetails(s, pl, h, i), FdeAt(s, pl, i);
      d.startIp == fde.initialPc && d.endIp == fde.initialPc + fde.addressRange
  {
    hide EhBytes, HdrBytes, CieAt, FdeAt, PrintableFunction, BuildInfo;
  }

  /** A printed image is well formed, and its table lists exactly the printed functions. */
  lemma PrintedImageIsWellFormed(s: Layout, pl: Placement, h: HdrFormat)
    requires PrintableImage(s, pl) && ValidFormat(h, |s.listed|)
    ensures var m := PrintedImage(s, pl, h);
      && WellFormed(m)
      && forall i: nat :: i < |s.listed| ==> Listed(m, i) == ExpectedDetails(s, pl, h, i)
  {
    hide Readable, Listed, PrintedImage, ExpectedDetails, FdeAt, PrintableFunction, EhBytes, Shaped;
    PrintedIsReadable(s, pl, h);
    forall i: nat | i < |s.listed|
      ensures var d, fde := ExpectedDetails(s, pl, h, i), FdeAt(s, pl, i);
        d.startIp == fde.initialPc && d.endIp == fde.initialPc + fde.addressRange
    {
      DetailsSpan(s, pl, h, i);
    }
  }

  /** For a printed image in address order the cache is invisible in every run if and only if
      no printed function reaches past the start of the next. */
  lemma PrintedCacheIsInvisibleIff(s: Layout, pl: Placement, h: HdrFormat)
    requires PrintableSection(s, pl) && Ascending(s, pl) && ValidFormat(h, |s.listed|)
    ensures C.Sorted(PrintedImage(s, pl, h))
    ensures C.Transparent(PrintedImage(s, pl, h)) <==>
      forall i: nat :: i + 1 < |s.listed| ==>
        FdeAt(s, pl, i).initialPc + FdeAt(s, pl, i).addressRange <= FdeAt(s, pl, i + 1).initialPc
  {
    hide Readable, Listed, PrintedImage, ExpectedDetails, FdeAt, PrintableFunction, EhBytes, Shaped, C.Transparent;
    PrintedIsReadable(s, pl, h);
    forall i: nat | i < |s.listed|
      ensures var d, fde := ExpectedDetails(s, pl, h, i), FdeAt(s, pl, i);
        d.startIp == fde.initialPc && d.endIp == fde.initialPc + fde.addressRange
    {
      DetailsSpan(s, pl, h, i);
    }
    C.TransparentIffDisjoint(PrintedImage(s, pl, h));
  }

  /** Print any functions, load the image anywhere, ask about any address: the answer is the
      printed function covering it, with every field, or a miss when there is none. */
  lemma PrintedLookup(s: Layout, pl: Placement, h: HdrFormat, ip: u64)
    requires PrintableImage(s, pl) && ValidFormat(h, |s.listed|)
    ensures var r := ParseFunctionDetails(PrintedImage(s, pl, h), ip);
      && (forall i: nat :: i < |s.listed| && Covers(ExpectedDetails(s, pl, h, i), ip) ==> r == Ok(ExpectedDetails(s, pl, h, i)))
      && ((forall i: nat :: i < |s.listed| ==> !Covers(ExpectedDetails(s, pl, h, i), ip)) ==> r == Err(EhFrameHeaderLookupMiss(ip)))
  {
    hide Listed, ExpectedDetails, ParseFunctionDetails, WellFormed, HdrBytes, EhBytes, PrintableFunction, Shaped, FdeAt;
    PrintedImageIsWellFormed(s, pl, h);
    LookupSucceedsIffCovered(PrintedImage(s, pl, h), ip);
  }

  // ---------------------------------------------------------------------------
  // From the parts of a module

  /** The sections end up at `pl`: each as far from the load base as it was linked from the
      link base. Without a text section its base is the start of the code range. */
  predicate PlacedAt(p: Parts, pl: Placement)
    requires HasHdr(p) && HasEh(p)
  {
    && WrapSub(pl.ehAvma, p.baseAvma) == WrapSub(p.ehSvma.value, p.baseSvma)
    && WrapSub(pl.hdrAvma, p.baseAvma) == WrapSub(p.hdrSvma.value, p.baseSvma)
    && if p.textSvma.Some? then WrapSub(pl.textBase, p.baseAvma) == WrapSub(p.textSvma.value, p.baseSvma)
       else pl.textBase == p.avmaStart
  }

  lemma PlacedOnce(p: Parts, pl: Placement)
    requires HasHdr(p) && HasEh(p) && PlacedAt(p, pl)
    ensures pl == Placement(EhAvma(p), HdrAvma(p), TextBase(p))
  {
    hide WrapSub;
    DistancesStay(p);
    OnePlace(pl.ehAvma, EhAvma(p), p.ehSvma.value, p);
    OnePlace(pl.hdrAvma, HdrAvma(p), p.hdrSvma.value, p);
    if p.textSvma.Some? {
      OnePlace(pl.textBase, TextBase(p), p.textSvma.value, p);
    }
  }

  /** The parts carry the printed sections to `pl`, wherever that is. */
  predicate Carries(p: Parts, pl: Placement, s: Layout, h: HdrFormat) {
    && HasHdr(p) && HasEh(p) && Shaped(s) && ValidFormat(h, |s.listed|) && PlacedAt(p, pl)
    && p.hdr == Some(HdrBytes(s, pl, h)) && p.eh == Some(EhBytes(s))
    && T.IsSlice(EhBytes(s))
  }

  /** `Module::from_parts` parses the printed header and arrives at the printed image. */
  lemma LoadedImage(p: Parts, pl: Placement, s: Layout, h: HdrFormat)
    requires Carries(p, pl, s, h)
    ensures ValidParts(p) && ImageOf(p) == PrintedImage(s, pl, h) && HdrErrorOf(p) == None
  {
    hide HdrBytes, EhBytes, T.ParseTable, ValidFormat, Shaped, TableOffset, PlacedAt;
    PlacedOnce(p, pl);
    HeaderRoundTrip(s, pl, h);
  }

  /** Parts to answer in one: load a module from printed sections and ask about any address. */
  lemma LoadedLookup(p: Parts, pl: Placement, s: Layout, h: HdrFormat, ip: u64)
    requires Carries(p, pl, s, h) && PrintableImage(s, pl)
    ensures ValidParts(p)
    ensures var r := ParseFunctionDetails(ImageOf(p), ip);
      && (forall i: nat :: i < |s.listed| && Covers(ExpectedDetails(s, pl, h, i), ip) ==> r == Ok(ExpectedDetails(s, pl, h, i)))
      && ((forall i: nat :: i < |s.listed| ==> !Covers(ExpectedDetails(s, pl, h, i), ip)) ==> r == Err(EhFrameHeaderLookupMiss(ip)))
  {
    hide ExpectedDetails, ParseFunctionDetails, PrintableImage, PrintedImage, ImageOf;
    LoadedImage(p, pl, s, h);
    PrintedLookup(s, pl, h, ip);
  }

  // ---------------------------------------------------------------------------
  // The descriptor

  lemma {:induction false} SignalIffS(augs: seq<Augmentation>, st: AugState, base: u64, pos: nat)
    ensures AllAugEffects(augs, st, base, pos).signalFrame <==> st.signalFrame || S in augs
    decreases |augs|
  {
    if augs != [] {
      SignalIffS(augs[1..], AugEffect(augs[0], st, base, pos), base, pos + |AugBytes(augs[0])|);
    }
  }

  /** The descriptor's instruction addresses delimit, in the printed section, exactly the
      printed instructions, but for padding in the CIE's augmentation data, which counts as
      instructions; the other fields are the CIE's, and the signal flag is the letter S. */
  lemma PrintedDescriptor(s: Layout, pl: Placement, h: HdrFormat, i: nat)
    requires PrintableSection(s, pl) && ValidFormat(h, |s.listed|) && i < |s.listed|
    ensures var d := ExpectedDetails(s, pl, h, i);
      var eh, base, info, cie, fde := EhBytes(s), pl.ehAvma, d.info, CieOf(s, i), FdeOf(s, i);
      && base <= info.cieInstrStart <= info.cieInstrEnd <= base + |eh|
      && eh[info.cieInstrStart - base..info.cieInstrEnd - base] == Rest(cie)
      && (Rest(cie) == cie.instructions <==> cie.padding == [])
      && base <= info.fdeInstrStart <= info.fdeInstrEnd <= base + |eh|
      && eh[info.fdeInstrStart - base..info.fdeInstrEnd - base] == fde.instructions
      && info.codeAlign == cie.codeAlign && AsSigned(info.dataAlign) == cie.dataAlign
      && info.retColumn == cie.retColumn && info.sizedAugmentation == cie.sized
      && (d.signalFrame <==> S in cie.augs) && info.signalFrame == d.signalFrame
      && info.handler == d.handler == CieAt(s, pl, i).personality && d.lsda == FdeAt(s, pl, i).lsda
      && info.fdeEnc == CieAt(s, pl, i).fdeEnc && info.lsdaEnc == CieAt(s, pl, i).lsdaEnc
      && d.startIp == FdeAt(s, pl, i).initialPc && d.endIp - d.startIp == fde.rawRange
  {
    hide At, EhBytes, FdeAt, CieAt, PrintableFunction, BuildInfo, HdrBytes, PrintedTable, ValidFormat, Shaped, AsSigned, CieOf, FdeOf;
    PrintedInstructions(s, pl, i);
    CieFieldsAt(s, pl, i);
    assert PrintableFunction(s, pl, i);
    InfoDelimits(EhBytes(s), pl.ehAvma, CieAt(s, pl, i), FdeAt(s, pl, i), Rest(CieOf(s, i)), FdeOf(s, i).instructions);
  }

  /** `build_dwarf_cie_info` turns offsets and lengths into addresses in the section. */
  lemma InfoDelimits(eh: seq<u8>, base: u64, cie: ParsedCie, fde: ParsedFde, c: seq<u8>, f: seq<u8>)
    requires base + |eh| < TWO64
    requires At(eh, cie.instrOffset, c) && cie.instrLen == |c| && At(eh, fde.instrOffset, f) && fde.instrLen == |f|
    ensures var info := BuildInfo(cie, fde, base);
      && base <= info.cieInstrStart <= info.cieInstrEnd <= base + |eh|
      && eh[info.cieInstrStart - base..info.cieInstrEnd - base] == c
      && base <= info.fdeInstrStart <= info.fdeInstrEnd <= base + |eh|
      && eh[info.fdeInstrStart - base..info.fdeInstrEnd - base] == f
      && info.codeAlign == cie.codeAlign && AsSigned(info.dataAlign) == cie.dataAlign && info.retColumn == cie.retColumn
      && info.sizedAugmentation == cie.hasZ && info.signalFrame == cie.signalFrame && info.handler == cie.personality
      && info.fdeEnc == cie.fdeEnc && info.lsdaEnc == cie.lsdaEnc
  {
    hide At, Avma;
    InSection(eh, base, cie.instrOffset, c);
    InSection(eh, base, fde.instrOffset, f);
  }

  lemma CieFieldsAt(s: Layout, pl: Placement, i: nat)
    requires Shaped(s) && i < |s.listed|
    ensures var c, p := CieOf(s, i), CieAt(s, pl, i);
      && p.codeAlign == c.codeAlign && p.dataAlign == c.dataAlign && p.retColumn == c.retColumn
      && p.hasZ == c.sized && (p.signalFrame <==> S in c.augs)
    ensures FdeAt(s, pl, i).addressRange == FdeOf(s, i).rawRange
  {
    hide AllAugEffects, PrintCie, PrintFde, AllAugBytes, OffsetOf, ConfigAt, Shaped, CieOf, FdeOf;
    var c := CieOf(s, i);
    SignalIffS(c.augs, NO_AUGMENTATION, pl.ehAvma, CieAt(s, pl, i).instrOffset - |AllAugBytes(c.augs)|);
  }

  lemma PrintedInstructions(s: Layout, pl: Placement, i: nat)
    requires PrintableSection(s, pl) && i < |s.listed|
    ensures var eh, c, f, cie, fde := EhBytes(s), CieOf(s, i), FdeOf(s, i), CieAt(s, pl, i), FdeAt(s, pl, i);
      && At(eh, cie.instrOffset, Rest(c)) && cie.instrLen == |Rest(c)|
      && At(eh, fde.instrOffset, f.instructions) && fde.instrLen == |f.instructions|
  {
    hide At, EhBytes, OffsetOf, ExpectedCie, ExpectedFde, PrintableCie, PrintableFde, NearHeader, PointsBack,
      ParseCie, ParseFde, PrintCie, PrintFde, ConfigAt, Shaped, CieOf, FdeOf, CieOffsetAt, FdeOffset;
    var eh := EhBytes(s);
    assert PrintableFunction(s, pl, i);
    RecordsAreAt(s, pl, i);
    CieRoundTrip(eh, CieOffsetAt(s, i), pl.ehAvma, CieOf(s, i));
    FdeRoundTrip(eh, FdeOffset(s, i), pl.ehAvma, FdeOf(s, i), ConfigAt(s, pl, i));
    ExpectedLengths(CieOf(s, i), FdeOf(s, i), CieOffsetAt(s, i), FdeOffset(s, i), ConfigAt(s, pl, i), pl.ehAvma);
  }

  lemma ExpectedLengths(c: Cie, f: Fde, cieOff: nat, fdeOff: nat, cfg: FdeConfig, avmaBase: u64)
    requires c.sized || c.augs == []
    ensures ExpectedCie(c, cieOff, avmaBase).instrLen == |Rest(c)|
    ensures ExpectedFde(f, cfg, fdeOff, avmaBase).instrLen == |f.instructions|
  {
    hide PrintCie, PrintFde, AllAugEffects, AllAugBytes, Target;
  }

  lemma InSection(eh: seq<u8>, base: u64, off: nat, w: seq<u8>)
    requires At(eh, off, w) && base + |eh| < TWO64
    ensures Avma(base, off) == base + off && Avma(Avma(base, off), |w|) == base + off + |w|
    ensures off + |w| <= |eh| && eh[off..off + |w|] == w
  {
  }

  // ---------------------------------------------------------------------------
  // Two signal trampolines under one CIE, once adjacent and once overlapping

  const TEST_CIE: Cie := Cie(false, 1, true, [S], [], 1, -8, 16, [])
  const TEST_HDR: HdrFormat := HdrFormat(UDATA4, 0x3000, UDATA4)
  const TEST_PLACE: Placement := Placement(0x3000, 0x4000, 0x1000)

  function TestFde(ciePtr: u64, pc: u64, range: u64): Fde {
    Fde(false, ciePtr, pc, range, 0, [], [])
  }

  /** The second function, at 0x1010, lies inside the range of the first when that is longer
      than 0x10 bytes. */
  function TestLayout(range: u64): Layout {
    Layout([CieEntry(TEST_CIE), FdeEntry(0, TestFde(20, 0x1000, range)), FdeEntry(0, TestFde(45, 0x1010, 0x10))], [1, 2])
  }

  lemma TestCie()
    ensures |PrintCie(TEST_CIE)| == 16 && PrintableCie(TEST_CIE)
  {
    hide LeBytes;
    assert Uleb(1) == [1] && Sleb(-8) == [0x78] && Uleb(0) == [0];
    assert AllAugBytes([S]) == [];
    assert |AugString(TEST_CIE)| == 2;
  }

  lemma TestFdeSize(ciePtr: u64, pc: u64, range: u64, cfg: FdeConfig)
    requires cfg.fdeEnc == ABSPTR && cfg.lsdaEnc == OMIT && cfg.hasZ
    ensures var f := TestFde(ciePtr, pc, range);
      |PrintFde(f, cfg)| == 25 && (0 < ciePtr < 0x1_0000_0000 ==> PrintableFde(f, cfg))
  {
    hide LeBytes;
    assert Uleb(0) == [0];
  }

  lemma TestConfig(textBase: u64, dataBase: u64)
    ensures ConfigFor(TEST_CIE, textBase, dataBase) == FdeConfig(ABSPTR, OMIT, true, textBase, dataBase)
  {
    assert [S][1..] == [];
  }

  lemma TestOffsets(range: u64)
    ensures var s := TestLayout(range);
      && Shaped(s) && |EhBytes(s)| == 66
      && OffsetOf(s.entries, 0) == 0 && OffsetOf(s.entries, 1) == 16 && OffsetOf(s.entries, 2) == 41
  {
    hide PrintCie, PrintFde, ConfigFor;
    var s := TestLayout(range);
    TestConfig(0, 0);
    TestCie();
    TestFdeSize(20, 0x1000, range, ConfigFor(TEST_CIE, 0, 0));
    TestFdeSize(45, 0x1010, 0x10, ConfigFor(TEST_CIE, 0, 0));
    assert BytesFrom(s.entries, 3) == [];
    assert |BytesFrom(s.entries, 2)| == 25;
    assert |BytesFrom(s.entries, 1)| == 50;
  }

  lemma TestShape(range: u64, i: nat)
    requires i < 2
    ensures var s := TestLayout(range);
      && Shaped(s) && |s.listed| == 2
      && FdeOffset(s, i) == (if i == 0 then 16 else 41) && CieOffsetAt(s, i) == 0 && CieOf(s, i) == TEST_CIE
      && FdeOf(s, i) == if i == 0 then TestFde(20, 0x1000, range) else TestFde(45, 0x1010, 0x10)
  {
    hide PrintCie, PrintFde, ConfigFor, OffsetOf, EhBytes;
    TestOffsets(range);
  }

  lemma TestRecord(range: u64, i: nat)
    requires i < 2
    ensures var s, pl := TestLayout(range), TEST_PLACE;
      && Shaped(s) && |s.listed| == 2
      && FdeAt(s, pl, i).initialPc == (if i == 0 then 0x1000 else 0x1010)
      && FdeAt(s, pl, i).addressRange == if i == 0 then range else 0x10
  {
    hide PrintCie, PrintFde, ConfigFor, OffsetOf, EhBytes, FdeOf, FdeOffset, CieOf, TestLayout, Shaped, LengthField, IdWord, FdeBody,
      FdeAugData;
    TestShape(range, i);
    TestConfig(TEST_PLACE.textBase, TEST_PLACE.hdrAvma);
  }

  lemma TestFunction(range: u64, i: nat)
    requires range < 0x1_0000 && i < 2
    ensures Shaped(TestLayout(range)) && |TestLayout(range).listed| == 2 && PrintableFunction(TestLayout(range), TEST_PLACE, i)
  {
    hide PrintableCie, PrintableFde, FdeAt, FdeOffset, CieOffsetAt, CieOf, FdeOf, OffsetOf, EhBytes, ConfigFor, Shaped, TestLayout;
    var pl := TEST_PLACE;
    TestShape(range, i);
    TestRecord(range, i);
    TestCie();
    TestConfig(pl.textBase, pl.hdrAvma);
    TestFdeSize(20, 0x1000, range, ConfigFor(TEST_CIE, pl.textBase, pl.hdrAvma));
    TestFdeSize(45, 0x1010, 0x10, ConfigFor(TEST_CIE, pl.textBase, pl.hdrAvma));
  }

  lemma TestIsPrintable(range: u64)
    requires range < 0x1_0000
    ensures var s, pl := TestLayout(range), TEST_PLACE;
      && PrintableSection(s, pl) && Ascending(s, pl) && |s.listed| == 2 && ValidFormat(TEST_HDR, 2)
      && FdeAt(s, pl, 0).initialPc == 0x1000 && FdeAt(s, pl, 0).addressRange == range
      && FdeAt(s, pl, 1).initialPc == 0x1010 && FdeAt(s, pl, 1).addressRange == 0x10
  {
    hide PrintableFunction, FdeAt, OffsetOf, EhBytes, Shaped, TestLayout;
    TestOffsets(range);
    TestRecord(range, 0);
    TestRecord(range, 1);
    TestFunction(range, 0);
    TestFunction(range, 1);
  }

  /** With a first function of 0x10 bytes the functions are adjacent, and the image is that of
      two signal trampolines. */
  lemma TrampolineImage()
    ensures var s, pl, h := TestLayout(0x10), TEST_PLACE, TEST_HDR;
      && PrintableImage(s, pl) && |s.listed| == 2 && ValidFormat(h, 2)
      && var r := ParseFunctionDetails(PrintedImage(s, pl, h), 0x1000);
      && r.Ok? && r.value.startIp == 0x1000 && r.value.signalFrame
  {
    hide ParseFunctionDetails, FdeAt, CieAt, PrintedImage, ExpectedDetails, PrintableFunction, EhBytes, Shaped, TestLayout;
    var s, pl, h := TestLayout(0x10), TEST_PLACE, TEST_HDR;
    TestIsPrintable(0x10);
    TestShape(0x10, 0);
    DetailsSpan(s, pl, h, 0);
    PrintedDescriptor(s, pl, h, 0);
    PrintedLookup(s, pl, h, 0x1000);
    assert Covers(ExpectedDetails(s, pl, h, 0), 0x1000);
  }

  /** With a first function of 0x20 bytes the two overlap: asking about 0x1000 and then about
      0x1010 gets an answer from the cache that the parser would not give. */
  lemma OverlappingImage()
    ensures var s, pl, h := TestLayout(0x20), TEST_PLACE, TEST_HDR;
      && PrintableSection(s, pl) && Ascending(s, pl) && |s.listed| == 2 && ValidFormat(h, 2)
      && C.Sorted(PrintedImage(s, pl, h)) && !C.Uncached(PrintedImage(s, pl, h), [0x1000, 0x1010])
  {
    hide ParseFunctionDetails, FdeAt, CieAt, PrintedImage, ExpectedDetails, PrintableFunction, EhBytes, Shaped, C.Uncached, Readable, Listed, TestLayout;
    var s, pl, h := TestLayout(0x20), TEST_PLACE, TEST_HDR;
    TestIsPrintable(0x20);
    var m := PrintedImage(s, pl, h);
    DetailsSpan(s, pl, h, 0);
    DetailsSpan(s, pl, h, 1);
    PrintedIsReadable(s, pl, h);
    PrintedCacheIsInvisibleIff(s, pl, h);
    C.OverlapIsVisible(m, 0);
  }
}
