/** Position independence: loading the same image `k` bytes higher shifts every answer
    by `k` and changes nothing else. */
module Slide {
  import opened Words
  import opened Bytes
  import opened Leb128
  import opened PointerEncoding
  import opened Entries
  import opened EhFrameTable
  import opened FunctionLookup
  import opened Modules

  /** Either fixed or moved along with the image. */
  predicate StaysOrMoves(v: u64, v': u64, k: u64) {
    v' == v || v' == WrapAdd(v, k)
  }

  function MovedIf(moves: bool, v: u64, k: u64): u64 {
    if moves then WrapAdd(v, k) else v
  }

  lemma AvmaSlides(base: u64, k: u64, pos: nat)
    ensures Avma(WrapAdd(base, k), pos) == WrapAdd(Avma(base, pos), k)
  {
    var t := base + pos;
    var q, m := t / TWO64, t % TWO64;
    assert t == q * TWO64 + m;
    assert WrapAdd(base, k) + pos == t + k || WrapAdd(base, k) + pos == t + k - TWO64;
    ModShift(m, k, q);
    ModShift(m, k, q - 1);
  }

  lemma ModShift(m: u64, k: u64, q: int)
    ensures (q * TWO64 + m + k) % TWO64 == WrapAdd(m, k)
  {
    assert q * TWO64 + m + k == q * TWO64 + (m + k);
    if m + k >= TWO64 {
      assert q * TWO64 + m + k == (q + 1) * TWO64 + (m + k - TWO64);
    }
  }

  function SlideBases(b: Bases, k: u64): Bases {
    Bases(WrapAdd(b.text, k), WrapAdd(b.data, k), b.func)
  }

  predicate RelativeTo(enc: u8) {
    Application(enc) in {PCREL, TEXTREL, DATAREL}
  }

  /** Two reads of the same bytes at two load addresses fail alike or end alike. */
  predicate SameShape<T>(r: Read<T>, r': Read<T>) {
    match (r, r')
    case (Got(_, n), Got(_, n')) => n == n'
    case (Bad(e, n), Bad(e', n')) => e == e' && n == n'
    case _ => false
  }

  /** A pointer read moves with the image exactly when it is relative to something that
      moves and its raw word is not the "absent" zero. */
  lemma EncodedSlides(bs: seq<u8>, pos: nat, enc: u8, base: u64, bases: Bases, k: u64)
    requires 0 < k
    ensures var r := ReadEncoded(bs, pos, enc, base, bases, false);
      var r' := ReadEncoded(bs, pos, enc, WrapAdd(base, k), SlideBases(bases, k), false);
      && SameShape(r, r')
      && (r.Got? ==> (r'.value == WrapAdd(r.value, k) <==> RelativeTo(enc) && ReadRaw(bs, pos, enc).value != 0))
      && (r.Got? ==> StaysOrMoves(r.value, r'.value, k))
  {
    hide ReadRaw, Avma;
    AvmaSlides(base, k, pos);
  }

  /** The word of a pointer that is relative to its own address and is not absent. */
  predicate PcRelativeWord(bs: seq<u8>, pos: nat, enc: u8) {
    && !Indirect(enc) && Application(enc) == PCREL
    && ReadRaw(bs, pos, enc).Got? && ReadRaw(bs, pos, enc).value != 0
  }

  /** Against fixed bases only a pointer relative to its own address moves. */
  lemma FixedBasesSlide(bs: seq<u8>, pos: nat, enc: u8, base: u64, k: u64, allow: bool)
    ensures var r := ReadEncoded(bs, pos, enc, base, NO_BASES, allow);
      var r' := ReadEncoded(bs, pos, enc, WrapAdd(base, k), NO_BASES, allow);
      && SameShape(r, r')
      && (r.Got? ==> r'.value == MovedIf(PcRelativeWord(bs, pos, enc), r.value, k))
      && (r.Got? && Application(enc) == 0 ==> r'.value == r.value)
  {
    hide ReadRaw, Avma;
    AvmaSlides(base, k, pos);
  }

  /** Whether the personality pointer set by the letters moves: the last P decides. */
  predicate LettersMove(bs: seq<u8>, pos: nat, base: u64, chars: seq<u8>, st: AugState, moves: bool)
    requires pos <= |bs|
    decreases |chars|
  {
    if chars == [] then moves
    else
      var r := ReadLetter(bs, pos, base, chars[0], st);
      r.Got? && LettersMove(bs, r.next, base, chars[1..], r.value, LetterMoves(bs, pos, chars[0], moves))
  }

  predicate LetterMoves(bs: seq<u8>, pos: nat, ch: u8, moves: bool) {
    if ch == CHAR_P then pos < |bs| && PcRelativeWord(bs, pos + 1, bs[pos]) else moves
  }

  /** The same augmentation but for a personality pointer that has moved along. */
  predicate AugSlides(a: AugState, a': AugState, k: u64, moves: bool) {
    a' == a.(personality := MovedIf(moves, a.personality, k))
  }

  lemma LetterSlides(bs: seq<u8>, pos: nat, base: u64, k: u64, ch: u8, st: AugState, st': AugState, moves: bool)
    requires pos <= |bs| && AugSlides(st, st', k, moves)
    ensures var r := ReadLetter(bs, pos, base, ch, st);
      var r' := ReadLetter(bs, pos, WrapAdd(base, k), ch, st');
      SameShape(r, r') && (r.Got? ==> AugSlides(r.value, r'.value, k, LetterMoves(bs, pos, ch, moves)))
  {
    hide ReadEncoded, PcRelativeWord;
    if ch == CHAR_P && pos < |bs| {
      FixedBasesSlide(bs, pos + 1, bs[pos], base, k, true);
    }
  }

  lemma {:induction false} LettersSlide(bs: seq<u8>, pos: nat, base: u64, k: u64, chars: seq<u8>, st: AugState, st': AugState, moves: bool)
    requires pos <= |bs| && AugSlides(st, st', k, moves)
    ensures var r := ReadLetters(bs, pos, base, chars, st);
      var r' := ReadLetters(bs, pos, WrapAdd(base, k), chars, st');
      SameShape(r, r') && (r.Got? ==> AugSlides(r.value, r'.value, k, LettersMove(bs, pos, base, chars, st, moves)))
    decreases |chars|
  {
    hide ReadLetter, AugSlides, LetterMoves;
    if chars != [] {
      LetterSlides(bs, pos, base, k, chars[0], st, st', moves);
      var r := ReadLetter(bs, pos, base, chars[0], st);
      if r.Got? {
        var r' := ReadLetter(bs, pos, WrapAdd(base, k), chars[0], st');
        LettersSlide(bs, r.next, base, k, chars[1..], r.value, r'.value, LetterMoves(bs, pos, chars[0], moves));
      }
    }
  }

  predicate AugmentationMoves(bs: seq<u8>, pos: nat, base: u64, f: CieFields) {
    && Sized(f.aug) && ReadUleb(bs, pos).Got?
    && LettersMove(bs, ReadUleb(bs, pos).next, base, f.aug[1..], NO_AUGMENTATION, false)
  }

  lemma AugmentationSlides(bs: seq<u8>, pos: nat, base: u64, k: u64, f: CieFields)
    requires pos <= |bs|
    ensures var r := ReadAugmentation(bs, pos, base, f);
      var r' := ReadAugmentation(bs, pos, WrapAdd(base, k), f);
      SameShape(r, r') && (r.Got? ==> AugSlides(r.value, r'.value, k, AugmentationMoves(bs, pos, base, f)))
  {
    hide ReadLetters, LettersMove;
    var n := ReadUleb(bs, pos);
    if Sized(f.aug) && n.Got? {
      LettersSlide(bs, n.next, base, k, f.aug[1..], NO_AUGMENTATION, NO_AUGMENTATION, false);
    }
  }

  /** Whether the personality pointer of the CIE at `offset` moves with the image. */
  predicate HandlerMoves(bs: seq<u8>, offset: nat, base: u64) {
    var head := ReadHead(bs, offset);
    head.Got? &&
      var id := ReadIdWord(bs, head.next, head.value.is64);
      id.Got? &&
        var f := ReadCieFields(bs, id.next);
        f.Got? && AugmentationMoves(bs, f.next, base, f.value)
  }

  predicate CieSlid(c: ParsedCie, c': ParsedCie, k: u64, moves: bool) {
    c' == c.(personality := MovedIf(moves, c.personality, k))
  }

  /** The load address enters a CIE through its personality pointer alone, and that moves
      exactly when it is relative to its own address, direct and present. */
  lemma CieSlides(bs: seq<u8>, offset: nat, base: u64, k: u64)
    ensures var r := ParseCie(bs, offset, base);
      var r' := ParseCie(bs, offset, WrapAdd(base, k));
      SameShape(r, r') && (r.Got? ==> CieSlid(r.value, r'.value, k, HandlerMoves(bs, offset, base)))
  {
    hide ReadHead, ReadIdWord, ReadCieFields, ReadAugmentation, AugmentationMoves;
    var head := ReadHead(bs, offset);
    if head.Got? {
      var id := ReadIdWord(bs, head.next, head.value.is64);
      if id.Got? {
        var f := ReadCieFields(bs, id.next);
        if f.Got? {
          AugmentationSlides(bs, f.next, base, k, f.value);
        }
      }
    }
  }

  function SlideConfig(cfg: FdeConfig, k: u64): FdeConfig {
    cfg.(textBase := WrapAdd(cfg.textBase, k), dataBase := WrapAdd(cfg.dataBase, k))
  }

  /** The LSDA pointer behind the length at `pos` is relative and not absent. */
  predicate LsdaWordMoves(bs: seq<u8>, pos: nat, cfg: FdeConfig) {
    && cfg.hasZ && cfg.lsdaEnc != PointerEncoding.OMIT && Application(cfg.lsdaEnc) != 0
    && var len := ReadUleb(bs, pos);
    && len.Got?
    && var raw := ReadRaw(bs, len.next, cfg.lsdaEnc);
    && raw.Got? && raw.value != 0
  }

  /** Every base an LSDA pointer can be relative to moves, the function's start included. */
  lemma LsdaPointerSlides(bs: seq<u8>, pos: nat, base: u64, cfg: FdeConfig, pc: u64, k: u64)
    ensures var cfg' := SlideConfig(cfg, k);
      var r := ReadEncoded(bs, pos, cfg.lsdaEnc, base, Bases(cfg.textBase, cfg.dataBase, pc), false);
      var r' := ReadEncoded(bs, pos, cfg.lsdaEnc, WrapAdd(base, k), Bases(cfg'.textBase, cfg'.dataBase, WrapAdd(pc, k)), false);
      && SameShape(r, r')
      && (r.Got? ==>
            && ReadRaw(bs, pos, cfg.lsdaEnc).Got?
            && r'.value == MovedIf(Application(cfg.lsdaEnc) != 0 && ReadRaw(bs, pos, cfg.lsdaEnc).value != 0, r.value, k))
  {
    hide ReadRaw, Avma;
    AvmaSlides(base, k, pos);
  }

  lemma LsdaSlides(bs: seq<u8>, pos: nat, end: nat, base: u64, cfg: FdeConfig, pc: u64, k: u64)
    ensures var r := ReadFdeAugmentation(bs, pos, end, base, cfg, pc);
      var r' := ReadFdeAugmentation(bs, pos, end, WrapAdd(base, k), SlideConfig(cfg, k), WrapAdd(pc, k));
      SameShape(r, r') && (r.Got? ==> r'.value == MovedIf(LsdaWordMoves(bs, pos, cfg), r.value, k))
  {
    hide ReadUleb, ReadEncoded, ReadRaw;
    if cfg.hasZ && ReadUleb(bs, pos).Got? {
      LsdaPointerSlides(bs, ReadUleb(bs, pos).next, base, cfg, pc, k);
    }
  }

  /** Whether the LSDA pointer of the FDE at `offset` moves with the image. */
  predicate LsdaMoves(bs: seq<u8>, offset: nat, base: u64, cfg: FdeConfig) {
    var head := ReadHead(bs, offset);
    head.Got? &&
      var fields := ReadFdeFields(bs, head.next, head.value.is64, base, cfg);
      fields.Got? && LsdaWordMoves(bs, fields.next, cfg)
  }

  /** The FDE's start is relative to something that moves, and is not the raw zero. */
  predicate RelativeStart(bs: seq<u8>, offset: nat, cfg: FdeConfig) {
    var head := ReadHead(bs, offset);
    head.Got? ==>
      var id := ReadIdWord(bs, head.next, head.value.is64);
      id.Got? ==>
        && RelativeTo(cfg.fdeEnc)
        && (ReadRaw(bs, id.next, cfg.fdeEnc).Got? ==> ReadRaw(bs, id.next, cfg.fdeEnc).value != 0)
  }

  predicate FdeSlid(f: ParsedFde, f': ParsedFde, k: u64, moves: bool) {
    f' == f.(initialPc := WrapAdd(f.initialPc, k), lsda := MovedIf(moves, f.lsda, k))
  }

  lemma FdeSlides(bs: seq<u8>, offset: nat, base: u64, cfg: FdeConfig, k: u64)
    requires 0 < k && RelativeStart(bs, offset, cfg)
    ensures var r := ParseFde(bs, offset, base, cfg);
      var r' := ParseFde(bs, offset, WrapAdd(base, k), SlideConfig(cfg, k));
      SameShape(r, r') && (r.Got? ==> FdeSlid(r.value, r'.value, k, LsdaMoves(bs, offset, base, cfg)))
  {
    hide ReadHead, ReadIdWord, ReadEncoded, ReadFdeAugmentation, ReadRaw, RelativeTo, StaysOrMoves, LsdaWordMoves, PcRelativeWord;
    var head := ReadHead(bs, offset);
    if head.Got? {
      var id := ReadIdWord(bs, head.next, head.value.is64);
      if id.Got? && id.value != 0 {
        var bases := Bases(cfg.textBase, cfg.dataBase, 0);
        EncodedSlides(bs, id.next, cfg.fdeEnc, base, bases, k);
        var pc := ReadEncoded(bs, id.next, cfg.fdeEnc, base, bases, false);
        if pc.Got? {
          RawUnderPointer(bs, id.next, cfg.fdeEnc, base, bases);
          FixedBasesSlide(bs, pc.next, Format(cfg.fdeEnc), base, k, false);
          var range := ReadEncoded(bs, pc.next, Format(cfg.fdeEnc), base, NO_BASES, false);
          LsdaSlides(bs, range.next, head.value.end, base, cfg, pc.value, k);
        }
      }
    }
  }

  lemma RawUnderPointer(bs: seq<u8>, pos: nat, enc: u8, base: u64, bases: Bases)
    requires ReadEncoded(bs, pos, enc, base, bases, false).Got?
    ensures ReadRaw(bs, pos, enc).Got?
    ensures Application(Format(enc)) == 0
  {
    hide ReadRaw;
  }

  function SlideTable(t: Table, k: u64): Table {
    t.(avma := WrapAdd(t.avma, k))
  }

  function SlideImage(m: Image, k: u64): Image {
    m.(table := SlideTable(m.table, k), ehAvma := WrapAdd(m.ehAvma, k),
       textBase := WrapAdd(m.textBase, k), dataBase := WrapAdd(m.dataBase, k))
  }

  lemma EntrySlides(hdr: seq<u8>, t: Table, k: u64, i: nat)
    requires Inside(hdr, t) && i < t.count
    ensures EntryPc(hdr, SlideTable(t, k), i) == WrapAdd(EntryPc(hdr, t, i), k)
    ensures EntryFde(hdr, SlideTable(t, k), i) == WrapAdd(EntryFde(hdr, t, i), k)
  {
  }

  predicate NoTableWrap(hdr: seq<u8>, t: Table, k: u64)
    requires Inside(hdr, t)
  {
    forall i: nat :: i < t.count ==> EntryPc(hdr, t, i) + k < TWO64 && EntryFde(hdr, t, i) + k < TWO64
  }

  lemma {:induction false} SearchSlides(hdr: seq<u8>, t: Table, k: u64, ip: u64, lo: nat, hi: nat)
    requires Inside(hdr, t) && NoTableWrap(hdr, t, k) && ip + k < TWO64
    requires lo < hi <= t.count
    ensures Search(hdr, SlideTable(t, k), ip + k, lo, hi) == Search(hdr, t, ip, lo, hi)
    decreases hi - lo
  {
    hide EntryPc, EntryFde;
    if lo + 1 < hi {
      var mid := lo + (hi - lo) / 2;
      EntrySlides(hdr, t, k, mid);
      if EntryPc(hdr, t, mid) <= ip {
        SearchSlides(hdr, t, k, ip, mid, hi);
      } else {
        SearchSlides(hdr, t, k, ip, lo, mid);
      }
    }
  }

  /** What one table entry must satisfy for its function to move as a whole. */
  predicate EntrySlidable(m: Image, i: nat, k: u64)
    requires m.hdr.Some? && m.eh.Some? && Inside(m.hdr.value, m.table) && i < m.table.count
  {
    var eh := m.eh.value;
    var fdeAvma := EntryFde(m.hdr.value, m.table, i);
    m.ehAvma <= fdeAvma < m.ehAvma + |eh| && CieOffset(eh, fdeAvma - m.ehAvma).Ok? ==>
      var fdeOffset := fdeAvma - m.ehAvma;
      var cie := ParseCie(eh, CieOffset(eh, fdeOffset).value, m.ehAvma);
      cie.Got? ==>
        var cfg := ConfigOf(m, cie.value);
        var fde := ParseFde(eh, fdeOffset, m.ehAvma, cfg);
        && RelativeStart(eh, fdeOffset, cfg)
        && (fde.Got? ==>
              && fde.value.initialPc + k < TWO64
              && (fde.value.initialPc + fde.value.addressRange < TWO64 ==>
                    fde.value.initialPc + fde.value.addressRange + k < TWO64))
  }

  /** Relative encodings with nonzero raw words, and no address wraps when moved by `k`. */
  predicate Slidable(m: Image, k: u64) {
    && m.hdr.Some? && m.eh.Some? && Inside(m.hdr.value, m.table)
    && m.ehAvma + k < TWO64
    && NoTableWrap(m.hdr.value, m.table, k)
    && forall i: nat :: i < m.table.count ==> EntrySlidable(m, i, k)
  }

  function SlideError(e: LookupError, k: u64): LookupError {
    match e
    case MissingLocalUnwindSections(ip) => MissingLocalUnwindSections(WrapAdd(ip, k))
    case EhFrameHeaderLookupMiss(ip) => EhFrameHeaderLookupMiss(WrapAdd(ip, k))
    case FdeOffsetBeforeEhFrame(a, b) => FdeOffsetBeforeEhFrame(WrapAdd(a, k), WrapAdd(b, k))
    case _ => e
  }

  /** Which of a function's two optional pointers move with the image. */
  datatype Motion = Motion(handler: bool, lsda: bool)

  /** Decided by the bytes of the FDE at `off` and of its CIE. */
  function MotionAt(m: Image, eh: seq<u8>, off: nat): Motion {
    match CieOffset(eh, off)
    case Err(_) => Motion(false, false)
    case Ok(cieOffset) =>
      var cie := ParseCie(eh, cieOffset, m.ehAvma);
      Motion(HandlerMoves(eh, cieOffset, m.ehAvma), cie.Got? && LsdaMoves(eh, off, m.ehAvma, ConfigOf(m, cie.value)))
  }

  /** The same for the function the header leads `ip` to. */
  function MotionFor(m: Image, ip: u64): Motion {
    if m.hdr.None? || m.eh.None? then Motion(false, false)
    else match Lookup(m.hdr.value, m.table, ip)
      case None => Motion(false, false)
      case Some((_, fdeAvma)) => if fdeAvma < m.ehAvma then Motion(false, false) else MotionAt(m, m.eh.value, fdeAvma - m.ehAvma)
  }

  /** Start, end and all four instruction addresses move by `k`; alignments, return column,
      encodings and flags stay; the handler and the LSDA move where their encodings say so. */
  predicate DetailsSlid(d: FunctionDetails, d': FunctionDetails, k: u64, mv: Motion) {
    && d'.startIp == d.startIp + k
    && d'.endIp == d.endIp + k
    && d'.signalFrame == d.signalFrame
    && d'.handler == MovedIf(mv.handler, d.handler, k)
    && d'.lsda == MovedIf(mv.lsda, d.lsda, k)
    && d'.info == d.info.(
         cieInstrStart := WrapAdd(d.info.cieInstrStart, k),
         cieInstrEnd := WrapAdd(d.info.cieInstrEnd, k),
         fdeInstrStart := WrapAdd(d.info.fdeInstrStart, k),
         fdeInstrEnd := WrapAdd(d.info.fdeInstrEnd, k),
         handler := d'.handler)
  }

  predicate ResultSlid(r: Result<FunctionDetails, LookupError>, r': Result<FunctionDetails, LookupError>, k: u64, mv: Motion) {
    match r
    case Ok(d) => r'.Ok? && DetailsSlid(d, r'.value, k, mv)
    case Err(e) => r' == Err(SlideError(e, k))
  }

  predicate PairSlid(pair: (ParsedCie, ParsedFde), pair': (ParsedCie, ParsedFde), k: u64, mv: Motion) {
    CieSlid(pair.0, pair'.0, k, mv.handler) && FdeSlid(pair.1, pair'.1, k, mv.lsda)
  }

  lemma PairSlides(m: Image, i: nat, k: u64)
    requires Slidable(m, k) && 0 < k && i < m.table.count
    requires m.ehAvma <= EntryFde(m.hdr.value, m.table, i) < m.ehAvma + |m.eh.value|
    ensures var off := EntryFde(m.hdr.value, m.table, i) - m.ehAvma;
      var r := DecodePair(m, m.eh.value, off);
      var r' := DecodePair(SlideImage(m, k), m.eh.value, off);
      match r {
        case Ok((c, f)) =>
          && r'.Ok? && PairSlid((c, f), r'.value, k, MotionAt(m, m.eh.value, off))
          && f.initialPc + k < TWO64
          && (f.initialPc + f.addressRange < TWO64 ==> f.initialPc + f.addressRange + k < TWO64)
        case Err(e) => r' == Err(e) && SlideError(e, k) == e
      }
  {
    hide ParseCie, ParseFde, RelativeStart, EntryFde, NoTableWrap, StaysOrMoves, HandlerMoves, LsdaMoves;
    assert EntrySlidable(m, i, k);
    var off := EntryFde(m.hdr.value, m.table, i) - m.ehAvma;
    var eh := m.eh.value;
    if CieOffset(eh, off).Ok? {
      var cieOffset := CieOffset(eh, off).value;
      CieSlides(eh, cieOffset, m.ehAvma, k);
      var cie := ParseCie(eh, cieOffset, m.ehAvma);
      if cie.Got? {
        FdeSlides(eh, off, m.ehAvma, ConfigOf(m, cie.value), k);
      }
    }
  }

  lemma RangeSlides(m: Image, k: u64, ip: u64, pair: (ParsedCie, ParsedFde), pair': (ParsedCie, ParsedFde), mv: Motion)
    requires PairSlid(pair, pair', k, mv)
    requires ip + k < TWO64 && pair.1.initialPc + k < TWO64
    requires pair.1.initialPc + pair.1.addressRange < TWO64 ==> pair.1.initialPc + pair.1.addressRange + k < TWO64
    ensures ResultSlid(CheckRange(m, ip, pair), CheckRange(SlideImage(m, k), ip + k, pair'), k, mv)
  {
    hide Avma;
    var (c, f) := pair;
    AvmaSlides(m.ehAvma, k, c.instrOffset);
    AvmaSlides(m.ehAvma, k, f.instrOffset);
    AvmaSlides(Avma(m.ehAvma, c.instrOffset), k, c.instrLen);
    AvmaSlides(Avma(m.ehAvma, f.instrOffset), k, f.instrLen);
  }

  /** Equivariance of the whole lookup, for every address and every outcome. */
  lemma LookupSlides(m: Image, k: u64, ip: u64)
    requires Slidable(m, k) && 0 < k && ip + k < TWO64
    ensures ResultSlid(ParseFunctionDetails(m, ip), ParseFunctionDetails(SlideImage(m, k), ip + k), k, MotionFor(m, ip))
  {
    hide DecodePair, EntryPc, EntryFde, CheckRange, Search, DetailsSlid, PairSlid, EntrySlidable, MotionAt;
    var hdr, t := m.hdr.value, m.table;
    if t.count != 0 {
      SearchSlides(hdr, t, k, ip, 0, t.count);
      var i := Search(hdr, t, ip, 0, t.count);
      EntrySlides(hdr, t, k, i);
      var fdeAvma := EntryFde(hdr, t, i);
      if EntryPc(hdr, t, i) <= ip && m.ehAvma <= fdeAvma < m.ehAvma + |m.eh.value| {
        PairSlides(m, i, k);
        var r := DecodePair(m, m.eh.value, fdeAvma - m.ehAvma);
        if r.Ok? {
          RangeSlides(m, k, ip, r.value, DecodePair(SlideImage(m, k), m.eh.value, fdeAvma - m.ehAvma).value,
                      MotionAt(m, m.eh.value, fdeAvma - m.ehAvma));
        }
      }
    }
  }

  /** The same object loaded `k` bytes higher. */
  function LoadHigher(p: Parts, k: u64): Parts
    requires p.baseAvma + k < TWO64 && p.avmaStart + k < TWO64 && p.avmaEnd + k < TWO64
  {
    p.(baseAvma := p.baseAvma + k, avmaStart := p.avmaStart + k, avmaEnd := p.avmaEnd + k)
  }

  lemma LoadHigherSlidesImage(p: Parts, k: u64)
    requires ValidParts(p) && HasHdr(p) && HasEh(p)
    requires p.baseAvma + k < TWO64 && p.avmaStart + k < TWO64 && p.avmaEnd + k < TWO64
    ensures ImageOf(LoadHigher(p, k)) == SlideImage(ImageOf(p), k)
  {
    hide ParseTable, WrapAdd, WrapSub;
    SlideMoves(p.hdrSvma.value, p, k);
    SlideMoves(p.ehSvma.value, p, k);
    if p.textSvma.Some? {
      SlideMoves(p.textSvma.value, p, k);
    }
    WrapIsSum(p.avmaStart, k);
    TableMoves(p.hdr.value, HdrAvma(p), WrapAdd(HdrAvma(p), k));
  }

  lemma WrapIsSum(a: u64, k: u64)
    requires a + k < TWO64
    ensures WrapAdd(a, k) == a + k
  {
  }

  lemma SlideMoves(svma: u64, p: Parts, k: u64)
    requires p.baseAvma + k < TWO64
    ensures WrapAdd(svma, WrapSub(p.baseAvma + k, p.baseSvma)) == WrapAdd(WrapAdd(svma, WrapSub(p.baseAvma, p.baseSvma)), k)
  {
  }

  /** The header's own address is only recorded, never looked at. */
  lemma TableMoves(hdr: seq<u8>, avma: u64, avma': u64)
    requires IsSlice(hdr)
    ensures match ParseTable(hdr, avma) {
        case Ok(t) => t.avma == avma && ParseTable(hdr, avma') == Ok(t.(avma := avma'))
        case Err(e) => ParseTable(hdr, avma') == Err(e)
      }
  {
    hide ReadUnsigned, EncSize;
  }

  /** Loading an image higher by `k` and asking about `ip + k` answers what the original
      answers about `ip`, moved by `k`. */
  lemma LoadedHigher(p: Parts, k: u64, ip: u64)
    requires ValidParts(p) && HasHdr(p) && HasEh(p)
    requires p.baseAvma + k < TWO64 && p.avmaStart + k < TWO64 && p.avmaEnd + k < TWO64
    requires 0 < k && ip + k < TWO64 && Slidable(ImageOf(p), k)
    ensures ResultSlid(ParseFunctionDetails(ImageOf(p), ip), ParseFunctionDetails(ImageOf(LoadHigher(p, k)), ip + k), k, MotionFor(ImageOf(p), ip))
  {
    LoadHigherSlidesImage(p, k);
    LookupSlides(ImageOf(p), k, ip);
  }
}
