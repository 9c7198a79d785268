/** `parse_function_details`: from an instruction address to the unwind details of the
    function that covers it. */
module FunctionLookup {
  import opened Words
  import opened Bytes
  import opened Entries
  import opened EhFrameTable
  import opened PointerEncoding
  import Stability

  /** What `ModuleData` holds for unwinding. A missing section is a null pointer in the crate. */
  datatype Image = Image(
    hdr: Option<seq<u8>>,
    eh: Option<seq<u8>>,
    table: Table,
    ehAvma: u64,
    textBase: u64,
    dataBase: u64)

  /** `DwarfCieInfo`, the descriptor handed to libunwind. */
  datatype CieInfo = CieInfo(
    cieInstrStart: u64,
    cieInstrEnd: u64,
    fdeInstrStart: u64,
    fdeInstrEnd: u64,
    codeAlign: u64,
    dataAlign: u64,
    retColumn: u64,
    handler: u64,
    fdeEnc: u8,
    lsdaEnc: u8,
    sizedAugmentation: bool,
    signalFrame: bool)

  datatype FunctionDetails = FunctionDetails(
    startIp: u64,
    endIp: u64,
    info: CieInfo,
    lsda: u64,
    handler: u64,
    signalFrame: bool)

  /** `UnwindInfoError` without module names. */
  datatype LookupError =
    | MissingLocalUnwindSections(ip: u64)
    | EhFrameHeaderLookupMiss(ip: u64)
    | FdeOffsetBeforeEhFrame(fdeAvma: u64, ehAvma: u64)
    | FdeOffsetOutOfRange(fdeOffset: nat, len: nat)
    | FdeLengthPrefixTruncated(fdeOffset: nat, len: nat)
    | CiePointerTruncated(ptrOffset: nat, len: nat)
    | CiePointerUnderflow(ptrOffset: nat, ciePtr: u64)
    | CieParse(cieOffset: nat, source: DwarfError)
    | FdeParse(fdeOffset: nat, source: DwarfError)

  predicate Covers(d: FunctionDetails, ip: u64) {
    d.startIp <= ip < d.endIp
  }

  /** The CIE an FDE points back to: the pointer counts back from its own position. */
  function CieOffset(eh: seq<u8>, fdeOffset: nat): (r: Result<nat, LookupError>) {
    var len32 := ReadU32(eh, fdeOffset);
    if len32.Bad? then Err(FdeLengthPrefixTruncated(fdeOffset, |eh|))
    else
      var is64 := len32.value == 0xffff_ffff;
      var ptrPos := fdeOffset + if is64 then 12 else 4;
      var ptr := ReadIdWord(eh, ptrPos, is64);
      if ptr.Bad? then Err(CiePointerTruncated(ptrPos, |eh|))
      else if ptr.value > ptrPos then Err(CiePointerUnderflow(ptrPos, ptr.value))
      else Ok(ptrPos - ptr.value)
  }

  function ConfigOf(m: Image, cie: ParsedCie): FdeConfig {
    FdeConfig(cie.fdeEnc, cie.lsdaEnc, cie.hasZ, m.textBase, m.dataBase)
  }

  /** Decode the FDE at `fdeOffset` and the CIE it names. */
  function DecodePair(m: Image, eh: seq<u8>, fdeOffset: nat): (r: Result<(ParsedCie, ParsedFde), LookupError>) {
    var cieOffset :- CieOffset(eh, fdeOffset);
    var cie := ParseCie(eh, cieOffset, m.ehAvma);
    if cie.Bad? then Err(CieParse(cieOffset, cie.error))
    else
      var fde := ParseFde(eh, fdeOffset, m.ehAvma, ConfigOf(m, cie.value));
      if fde.Bad? then Err(FdeParse(fdeOffset, fde.error)) else Ok((cie.value, fde.value))
  }

  function DecodeAt(m: Image, eh: seq<u8>, fdeAvma: u64): (r: Result<(ParsedCie, ParsedFde), LookupError>) {
    if fdeAvma < m.ehAvma then Err(FdeOffsetBeforeEhFrame(fdeAvma, m.ehAvma))
    else if fdeAvma - m.ehAvma >= |eh| then Err(FdeOffsetOutOfRange(fdeAvma - m.ehAvma, |eh|))
    else DecodePair(m, eh, fdeAvma - m.ehAvma)
  }

  /** `build_dwarf_cie_info`. */
  function BuildInfo(cie: ParsedCie, fde: ParsedFde, ehAvma: u64): (r: CieInfo) {
    var cieStart := Avma(ehAvma, cie.instrOffset);
    var fdeStart := Avma(ehAvma, fde.instrOffset);
    CieInfo(cieStart, Avma(cieStart, cie.instrLen), fdeStart, Avma(fdeStart, fde.instrLen),
            cie.codeAlign, AsUnsigned(cie.dataAlign), cie.retColumn, cie.personality,
            cie.fdeEnc, cie.lsdaEnc, cie.hasZ, cie.signalFrame)
  }

  function BuildDetails(m: Image, cie: ParsedCie, fde: ParsedFde): (r: FunctionDetails)
    requires fde.initialPc + fde.addressRange < TWO64
  {
    FunctionDetails(fde.initialPc, fde.initialPc + fde.addressRange, BuildInfo(cie, fde, m.ehAvma),
                    fde.lsda, cie.personality, cie.signalFrame)
  }

  /** The last step: does the decoded function cover `ip`? */
  function CheckRange(m: Image, ip: u64, pair: (ParsedCie, ParsedFde)): Result<FunctionDetails, LookupError> {
    var fde := pair.1;
    if fde.initialPc + fde.addressRange >= TWO64 then Err(EhFrameHeaderLookupMiss(ip))
    else if ip < fde.initialPc || fde.initialPc + fde.addressRange <= ip then Err(EhFrameHeaderLookupMiss(ip))
    else Ok(BuildDetails(m, pair.0, fde))
  }

  /** `parse_function_details`. */
  function ParseFunctionDetails(m: Image, ip: u64): (r: Result<FunctionDetails, LookupError>)
    ensures r.Ok? ==> Covers(r.value, ip)
  {
    if m.hdr.None? || m.eh.None? then Err(MissingLocalUnwindSections(ip))
    else match Lookup(m.hdr.value, m.table, ip)
      case None => Err(EhFrameHeaderLookupMiss(ip))
      case Some((_, fdeAvma)) =>
        var pair :- DecodeAt(m, m.eh.value, fdeAvma);
        CheckRange(m, ip, pair)
  }

  // ---------------------------------------------------------------------------
  // Well-formed sections and the linear scan that the lookup speeds up

  /** Entry `i` of the table leads to an FDE that starts where the table says. */
  predicate EntryDecodes(m: Image, i: nat)
    requires m.hdr.Some? && m.eh.Some? && Inside(m.hdr.value, m.table) && i < m.table.count
  {
    var d := DecodeAt(m, m.eh.value, EntryFde(m.hdr.value, m.table, i));
    && d.Ok?
    && d.value.1.initialPc == EntryPc(m.hdr.value, m.table, i)
    && d.value.1.initialPc + d.value.1.addressRange < TWO64
  }

  predicate Readable(m: Image): (b: bool)
    ensures b ==> m.hdr.Some? && m.eh.Some? && Inside(m.hdr.value, m.table)
  {
    && m.hdr.Some? && m.eh.Some? && Inside(m.hdr.value, m.table)
    && forall i: nat :: i < m.table.count ==> EntryDecodes(m, i)
  }

  /** The details of the function that table entry `i` lists. */
  function Listed(m: Image, i: nat): (d: FunctionDetails)
    requires Readable(m) && i < m.table.count
    ensures d.startIp == EntryPc(m.hdr.value, m.table, i)
  {
    assert EntryDecodes(m, i);
    var pair := DecodeAt(m, m.eh.value, EntryFde(m.hdr.value, m.table, i)).value;
    BuildDetails(m, pair.0, pair.1)
  }

  /** A strictly sorted table of functions that do not overlap. */
  predicate WellFormed(m: Image) {
    && Readable(m)
    && forall i: nat, j: nat :: i < j < m.table.count ==>
         Listed(m, i).startIp < Listed(m, j).startIp && Listed(m, i).endIp <= Listed(m, j).startIp
  }

  lemma WellFormedIsReadable(m: Image)
    requires WellFormed(m)
    ensures Readable(m)
  {
  }

  /** The specification: walk every listed function in order. */
  function Scan(m: Image, ip: u64, i: nat): (r: Result<FunctionDetails, LookupError>)
    requires Readable(m) && i <= m.table.count
    decreases m.table.count - i
  {
    if i == m.table.count then Err(EhFrameHeaderLookupMiss(ip))
    else if Covers(Listed(m, i), ip) then Ok(Listed(m, i))
    else Scan(m, ip, i + 1)
  }

  lemma {:induction false} ScanFinds(m: Image, ip: u64, i: nat, j: nat)
    requires WellFormed(m) && i <= j < m.table.count && Covers(Listed(m, j), ip)
    ensures Scan(m, ip, i) == Ok(Listed(m, j))
    decreases j - i
  {
    hide Readable, Listed;
    if i < j {
      ScanFinds(m, ip, i + 1, j);
    }
  }

  lemma {:induction false} ScanMisses(m: Image, ip: u64, i: nat)
    requires Readable(m) && i <= m.table.count
    requires forall j: nat :: i <= j < m.table.count ==> !Covers(Listed(m, j), ip)
    ensures Scan(m, ip, i) == Err(EhFrameHeaderLookupMiss(ip))
    decreases m.table.count - i
  {
    hide Readable, Listed;
    if i < m.table.count {
      ScanMisses(m, ip, i + 1);
    }
  }

  /** On a well-formed section a candidate entry is the only one that can cover `ip`. */
  lemma OnlyCandidateCovers(m: Image, ip: u64, i: nat, j: nat)
    requires WellFormed(m) && j < m.table.count && j != i
    requires Candidate(m.hdr.value, m.table, ip, i)
    ensures !Covers(Listed(m, j), ip)
  {
    hide Readable, EntryPc;
    if i < j {
      assert Listed(m, i + 1).startIp > ip;
      assert i + 1 < j ==> Listed(m, i + 1).startIp < Listed(m, j).startIp;
    } else {
      assert Listed(m, j).endIp <= Listed(m, i).startIp;
    }
  }

  lemma FirstEntryAbove(m: Image, ip: u64)
    requires WellFormed(m)
    requires m.table.count == 0 || EntryPc(m.hdr.value, m.table, 0) > ip
    ensures forall j: nat :: j < m.table.count ==> !Covers(Listed(m, j), ip)
  {
    hide Readable, EntryPc;
    forall j: nat | j < m.table.count
      ensures !Covers(Listed(m, j), ip)
    {
      assert Listed(m, 0).startIp > ip;
    }
  }

  /** The step after a hit: `parse_function_details` checks the candidate's own range. */
  lemma CandidateDecides(m: Image, ip: u64)
    requires Readable(m) && m.table.count != 0
    ensures var i := Search(m.hdr.value, m.table, ip, 0, m.table.count);
      ParseFunctionDetails(m, ip) ==
        if Covers(Listed(m, i), ip) then Ok(Listed(m, i)) else Err(EhFrameHeaderLookupMiss(ip))
  {
    hide EntryPc, EntryFde, DecodeAt, Search, BuildInfo;
    var i := Search(m.hdr.value, m.table, ip, 0, m.table.count);
    assert EntryDecodes(m, i);
  }

  /** Header binary search, CIE and FDE decoding and the range check together refine the
      linear scan, for every address. */
  lemma LookupRefinesScan(m: Image, ip: u64)
    requires WellFormed(m)
    ensures ParseFunctionDetails(m, ip) == Scan(m, ip, 0)
  {
    hide Readable, Listed, Scan, EntryPc, ParseFunctionDetails;
    if m.table.count == 0 {
      ScanMisses(m, ip, 0);
      EmptyTableMisses(m, ip);
    } else {
      var i := Search(m.hdr.value, m.table, ip, 0, m.table.count);
      CandidateDecides(m, ip);
      SearchBrackets(m.hdr.value, m.table, ip, 0, m.table.count);
      if Covers(Listed(m, i), ip) {
        ScanFinds(m, ip, 0, i);
      } else {
        forall j: nat | j < m.table.count
          ensures !Covers(Listed(m, j), ip)
        {
          NoOtherCovers(m, ip, i, j);
        }
        ScanMisses(m, ip, 0);
      }
    }
  }

  lemma NoOtherCovers(m: Image, ip: u64, i: nat, j: nat)
    requires WellFormed(m) && i < m.table.count && j < m.table.count
    requires !Covers(Listed(m, i), ip)
    requires i + 1 == m.table.count || EntryPc(m.hdr.value, m.table, i + 1) > ip
    requires i == 0 || EntryPc(m.hdr.value, m.table, i) <= ip
    ensures !Covers(Listed(m, j), ip)
  {
    hide Readable, EntryPc;
    if EntryPc(m.hdr.value, m.table, i) > ip {
      FirstEntryAbove(m, ip);
    } else if j != i {
      OnlyCandidateCovers(m, ip, i, j);
    }
  }

  lemma EmptyTableMisses(m: Image, ip: u64)
    requires Readable(m) && m.table.count == 0
    ensures ParseFunctionDetails(m, ip) == Err(EhFrameHeaderLookupMiss(ip))
  {
  }

  /** The outcome in one sentence: success exactly when a listed function covers `ip`, with
      that function's details; the only failure is a miss. */
  lemma LookupSucceedsIffCovered(m: Image, ip: u64)
    requires WellFormed(m)
    ensures ParseFunctionDetails(m, ip).Ok? <==> exists i: nat :: i < m.table.count && Covers(Listed(m, i), ip)
    ensures forall i: nat :: i < m.table.count && Covers(Listed(m, i), ip) ==> ParseFunctionDetails(m, ip) == Ok(Listed(m, i))
    ensures ParseFunctionDetails(m, ip).Err? ==> ParseFunctionDetails(m, ip).error == EhFrameHeaderLookupMiss(ip)
  {
    hide Readable, Listed, Scan, ParseFunctionDetails;
    LookupRefinesScan(m, ip);
    forall i: nat | i < m.table.count && Covers(Listed(m, i), ip)
      ensures ParseFunctionDetails(m, ip) == Ok(Listed(m, i))
    {
      ScanFinds(m, ip, 0, i);
    }
    if forall i: nat :: i < m.table.count ==> !Covers(Listed(m, i), ip) {
      ScanMisses(m, ip, 0);
    }
  }

  // ---------------------------------------------------------------------------
  // Appended bytes

  lemma PairStable(m: Image, eh: seq<u8>, more: seq<u8>, fdeOffset: nat)
    requires DecodePair(m, eh, fdeOffset).Ok?
    ensures DecodePair(m, eh + more, fdeOffset) == DecodePair(m, eh, fdeOffset)
  {
    hide ParseCie, ParseFde, ReadLe;
    Stability.LeStable(eh, more, fdeOffset, 4);
    var is64 := ReadU32(eh, fdeOffset).value == 0xffff_ffff;
    Stability.IdStable(eh, more, fdeOffset + (if is64 then 12 else 4), is64);
    var cieOffset := CieOffset(eh, fdeOffset).value;
    Stability.CieStable(eh, more, cieOffset, m.ehAvma);
    var cie := ParseCie(eh, cieOffset, m.ehAvma).value;
    Stability.FdeStable(eh, more, fdeOffset, m.ehAvma, ConfigOf(m, cie));
  }

  /** A successful lookup does not change when `.eh_frame` grows. */
  lemma LookupStable(m: Image, more: seq<u8>, ip: u64)
    requires m.eh.Some? && ParseFunctionDetails(m, ip).Ok?
    ensures ParseFunctionDetails(m.(eh := Some(m.eh.value + more)), ip) == ParseFunctionDetails(m, ip)
  {
    hide DecodePair, Lookup, BuildInfo;
    var fdeAvma := Lookup(m.hdr.value, m.table, ip).value.1;
    PairStable(m, m.eh.value, more, fdeAvma - m.ehAvma);
    SamePair(m, m.(eh := Some(m.eh.value + more)), m.eh.value + more, fdeAvma - m.ehAvma);
  }

  lemma SamePair(m: Image, m': Image, eh: seq<u8>, fdeOffset: nat)
    requires m.ehAvma == m'.ehAvma && m.textBase == m'.textBase && m.dataBase == m'.dataBase
    ensures DecodePair(m', eh, fdeOffset) == DecodePair(m, eh, fdeOffset)
  {
    hide ParseCie, ParseFde, CieOffset;
  }

  /** The CIE and the FDE of a decoded pair are different entries. */
  lemma PairIsTwoEntries(m: Image, eh: seq<u8>, fdeOffset: nat)
    requires DecodePair(m, eh, fdeOffset).Ok?
    ensures CieOffset(eh, fdeOffset).Ok? && CieOffset(eh, fdeOffset).value != fdeOffset
  {
    hide ParseCie, ParseFde, CieOffset;
    var cieOffset := CieOffset(eh, fdeOffset).value;
    Stability.NeverBothKinds(eh, fdeOffset, m.ehAvma, ConfigOf(m, ParseCie(eh, cieOffset, m.ehAvma).value));
  }
}
