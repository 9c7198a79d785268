/** Where a module's sections end up in memory: the address arithmetic of
    `Module::from_parts`. */
module Modules {
  import opened Words
  import opened EhFrameTable
  import opened FunctionLookup

  /** `ModuleParts`. Only the start of each SVMA range is used. */
  datatype Parts = Parts(
    avmaStart: u64,
    avmaEnd: u64,
    baseAvma: u64,
    baseSvma: u64,
    textSvma: Option<u64>,
    ehSvma: Option<u64>,
    eh: Option<seq<u8>>,
    hdrSvma: Option<u64>,
    hdr: Option<seq<u8>>)

  /** A mirrored section: `bytes` is what `local_ptr` points at. */
  datatype LocalSection = LocalSection(avmaStart: u64, avmaEnd: u64, bytes: seq<u8>)

  function SlideOf(p: Parts): u64 {
    WrapSub(p.baseAvma, p.baseSvma)
  }

  predicate HasHdr(p: Parts) {
    p.hdr.Some? && p.hdrSvma.Some?
  }

  predicate HasEh(p: Parts) {
    p.eh.Some? && p.ehSvma.Some?
  }

  predicate ValidParts(p: Parts) {
    && (HasHdr(p) ==> IsSlice(p.hdr.value))
    && (HasEh(p) ==> IsSlice(p.eh.value))
  }

  function HdrAvma(p: Parts): u64 {
    if HasHdr(p) then WrapAdd(p.hdrSvma.value, SlideOf(p)) else 0
  }

  function EhAvma(p: Parts): u64 {
    if HasEh(p) then WrapAdd(p.ehSvma.value, SlideOf(p)) else 0
  }

  function TextBase(p: Parts): u64 {
    if p.textSvma.Some? then WrapAdd(p.textSvma.value, SlideOf(p)) else p.avmaStart
  }

  /** `avma` is as far from the load base as `svma` is from the link base. */
  predicate MovedAlong(avma: u64, svma: u64, p: Parts) {
    WrapSub(avma, p.baseAvma) == WrapSub(svma, p.baseSvma)
  }

  /** Loading moves the image as a whole: distances to the base stay. */
  lemma DistancesStay(p: Parts)
    ensures HasEh(p) ==> MovedAlong(EhAvma(p), p.ehSvma.value, p)
    ensures HasHdr(p) ==> MovedAlong(HdrAvma(p), p.hdrSvma.value, p)
    ensures if p.textSvma.Some? then MovedAlong(TextBase(p), p.textSvma.value, p) else TextBase(p) == p.avmaStart
  {
  }

  lemma OnePlace(a: u64, b: u64, svma: u64, p: Parts)
    requires MovedAlong(a, svma, p) && MovedAlong(b, svma, p)
    ensures a == b
  {
  }

  /** A header that does not parse leaves an empty table and an error. */
  function TableOf(p: Parts): Table
    requires ValidParts(p)
  {
    if HasHdr(p) then
      match ParseTable(p.hdr.value, HdrAvma(p))
      case Ok(t) => t
      case Err(_) => Table(0, 0, HdrAvma(p))
    else Table(0, 0, 0)
  }

  function HdrErrorOf(p: Parts): Option<HdrError>
    requires ValidParts(p)
  {
    if HasHdr(p) then
      match ParseTable(p.hdr.value, HdrAvma(p))
      case Ok(_) => None
      case Err(e) => Some(e)
    else None
  }

  function ImageOf(p: Parts): Image
    requires ValidParts(p)
  {
    Image(if HasHdr(p) then p.hdr else None, if HasEh(p) then p.eh else None,
          TableOf(p), EhAvma(p), TextBase(p), HdrAvma(p))
  }

  function SectionAt(avma: u64, bytes: seq<u8>): LocalSection {
    LocalSection(avma, SatAdd(avma, |bytes|), bytes)
  }

  function SectionsOf(p: Parts): seq<LocalSection> {
    (if HasHdr(p) then [SectionAt(HdrAvma(p), p.hdr.value)] else []) +
    (if HasEh(p) then [SectionAt(EhAvma(p), p.eh.value)] else [])
  }

  /** `ModuleData`: immutable sections and the mutable per-module function cache. */
  class ModuleData {
    const avmaStart: u64
    const avmaEnd: u64
    const image: Image
    const sections: seq<LocalSection>
    const hdrError: Option<HdrError>
    var cache: map<u64, FunctionDetails>

    constructor (p: Parts)
      requires ValidParts(p)
      ensures avmaStart == p.avmaStart && avmaEnd == p.avmaEnd
      ensures image == ImageOf(p) && sections == SectionsOf(p) && hdrError == HdrErrorOf(p)
      ensures cache == map[]
      // What is where, by distances to the base.
      ensures image.eh == (if p.eh.Some? && p.ehSvma.Some? then p.eh else None) && image.hdr == if p.hdr.Some? && p.hdrSvma.Some? then p.hdr else None
      ensures image.eh.Some? ==> MovedAlong(image.ehAvma, p.ehSvma.value, p)
      ensures image.hdr.Some? ==> MovedAlong(image.dataBase, p.hdrSvma.value, p) && image.table.avma == image.dataBase
      ensures if p.textSvma.Some? then MovedAlong(image.textBase, p.textSvma.value, p) else image.textBase == p.avmaStart
      // An absent header leaves no table, a refused one no table and its error.
      ensures image.hdr.None? ==> image.table.count == 0 && hdrError == None
      ensures image.hdr.Some? ==> match ParseTable(p.hdr.value, image.dataBase) {
                                    case Ok(t) => image.table == t && hdrError == None
                                    case Err(e) => image.table.count == 0 && hdrError == Some(e)
                                  }
      // The mirrors are the sections present, header first.
      ensures |sections| == (if image.hdr.Some? then 1 else 0) + if image.eh.Some? then 1 else 0
      ensures image.hdr.Some? ==> sections[0].avmaStart == image.dataBase && sections[0].bytes == p.hdr.value
      ensures image.eh.Some? ==> sections[|sections| - 1].avmaStart == image.ehAvma && sections[|sections| - 1].bytes == p.eh.value
      ensures forall s :: s in sections ==> s.avmaEnd == SatAdd(s.avmaStart, |s.bytes|)
    {
      hide ParseTable;
      DistancesStay(p);
      if HasHdr(p) && ParseTable(p.hdr.value, HdrAvma(p)).Ok? {
        AcceptedTableIsInside(p.hdr.value, HdrAvma(p));
      }
      var slide := WrapSub(p.baseAvma, p.baseSvma);
      var locals: seq<LocalSection> := [];
      var table, hdrAvma: u64, error := Table(0, 0, 0), 0, None;
      var hdr, eh: Option<seq<u8>> := None, None;
      if p.hdr.Some? && p.hdrSvma.Some? {
        hdr := p.hdr;
        hdrAvma := WrapAdd(p.hdrSvma.value, slide);
        locals := locals + [SectionAt(hdrAvma, p.hdr.value)];
        var parsed := ParseHeader(p.hdr.value, hdrAvma);
        match parsed {
          case Ok(t) => table := t;
          case Err(e) => table, error := Table(0, 0, hdrAvma), Some(e);
        }
      }
      var ehAvma: u64 := 0;
      if p.eh.Some? && p.ehSvma.Some? {
        eh := p.eh;
        ehAvma := WrapAdd(p.ehSvma.value, slide);
        locals := locals + [SectionAt(ehAvma, p.eh.value)];
      }
      var textBase := if p.textSvma.Some? then WrapAdd(p.textSvma.value, slide) else p.avmaStart;
      avmaStart, avmaEnd := p.avmaStart, p.avmaEnd;
      image := Image(hdr, eh, table, ehAvma, textBase, hdrAvma);
      sections, hdrError, cache := locals, error, map[];
    }
  }
}
