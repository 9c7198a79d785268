/** CIE and FDE records: section 6.4.1 of DWARF 4 and section 10.6.1 of LSB Core
    Generic 5.0, as `parse_cie` and `parse_fde` decode them. */
module Entries {
  import opened Words
  import opened Bytes
  import opened Leb128
  import opened PointerEncoding

  const CHAR_z: u8 := 0x7a
  const CHAR_R: u8 := 0x52
  const CHAR_L: u8 := 0x4c
  const CHAR_P: u8 := 0x50
  const CHAR_S: u8 := 0x53
  const CHAR_B: u8 := 0x42
  const CHAR_G: u8 := 0x47

  /** The length field: offset size and the position one past the entry. */
  datatype Head = Head(is64: bool, end: nat)

  function ReadHead(bs: seq<u8>, pos: nat): (r: Read<Head>)
    ensures r.Got? ==> r.next <= |bs| && r.next <= r.value.end < TWO64
    ensures r.Got? ==> r.next == pos + if r.value.is64 then 12 else 4
  {
    var (len32, p) :- ReadU32(bs, pos);
    if len32 == 0xffff_ffff then
      var (len64, q) :- ReadU64(bs, p);
      if q + len64 < TWO64 then Got(Head(true, q + len64), q)
      else Bad(DwarfError(q, EntryLengthOverflow), q)
    else if p + len32 < TWO64 then Got(Head(false, p + len32), p)
    else Bad(DwarfError(p, EntryLengthOverflow), p)
  }

  /** The CIE id of a CIE or the CIE pointer of an FDE. */
  function ReadIdWord(bs: seq<u8>, pos: nat, is64: bool): (r: Read<u64>)
    ensures r.Got? ==> r.next == pos + (if is64 then 8 else 4) <= |bs|
  {
    if is64 then ReadU64(bs, pos) else var (v, n) :- ReadU32(bs, pos); Got(v, n)
  }

  function FindNul(bs: seq<u8>, pos: nat): (z: nat)
    requires pos <= |bs|
    ensures pos <= z <= |bs|
    ensures z < |bs| ==> bs[z] == 0
    ensures forall i :: pos <= i < z ==> bs[i] != 0
    decreases |bs| - pos
  {
    if pos == |bs| || bs[pos] == 0 then pos else FindNul(bs, pos + 1)
  }

  function ReadAugString(bs: seq<u8>, pos: nat): (r: Read<seq<u8>>)
    requires pos <= |bs|
    ensures r.Got? ==> pos < r.next <= |bs|
  {
    var z := FindNul(bs, pos);
    if z < |bs| then Got(bs[pos..z], z + 1)
    else Bad(DwarfError(pos, UnterminatedAugmentationString), pos)
  }

  /** Version 4 adds an address size and a segment size, which must be 8 and 0. */
  function ReadAddressSize(bs: seq<u8>, pos: nat, version: u8): (r: Read<()>)
    requires pos <= |bs|
    ensures r.Got? ==> pos <= r.next <= |bs|
  {
    if version != 4 then Got((), pos)
    else
      var (addressSize, p) :- ReadByte(bs, pos);
      var (segmentSize, q) :- ReadByte(bs, p);
      if addressSize == 8 && segmentSize == 0 then Got((), q)
      else Bad(DwarfError(q - 2, UnsupportedCieAddressSize(addressSize, segmentSize)), q)
  }

  function ReadReturnColumn(bs: seq<u8>, pos: nat, version: u8): (r: Read<u64>)
    ensures r.Got? ==> pos < r.next <= |bs|
  {
    if version == 1 then var (v, n) :- ReadByte(bs, pos); Got(v, n) else ReadUleb(bs, pos)
  }

  /** The fields between the CIE id and the augmentation data. */
  datatype CieFields = CieFields(augStart: nat, aug: seq<u8>, codeAlign: u64, dataAlign: i64, retColumn: u64)

  function ReadCieFields(bs: seq<u8>, pos: nat): (r: Read<CieFields>)
    ensures r.Got? ==> pos < r.next <= |bs|
  {
    var (version, p1) :- ReadByte(bs, pos);
    if version != 1 && version != 3 && version != 4 then
      Bad(DwarfError(pos, UnsupportedCieVersion(version)), p1)
    else
      var (aug, p2) :- ReadAugString(bs, p1);
      var (_, p3) :- ReadAddressSize(bs, p2, version);
      var (code, p4) :- ReadUleb(bs, p3);
      var (data, p5) :- ReadSleb(bs, p4);
      var (ret, p6) :- ReadReturnColumn(bs, p5, version);
      Got(CieFields(p1, aug, code, data, ret), p6)
  }

  /** What the augmentation letters set. */
  datatype AugState = AugState(fdeEnc: u8, lsdaEnc: u8, personality: u64, signalFrame: bool)

  const NO_AUGMENTATION: AugState := AugState(ABSPTR, OMIT, 0, false)
  const NO_BASES: Bases := Bases(0, 0, 0)

  function ReadLetter(bs: seq<u8>, pos: nat, avmaBase: u64, ch: u8, st: AugState): (r: Read<AugState>)
    requires pos <= |bs|
    ensures r.Got? ==> pos <= r.next <= |bs|
  {
    if ch == CHAR_R then var (e, n) :- ReadByte(bs, pos); Got(st.(fdeEnc := e), n)
    else if ch == CHAR_L then var (e, n) :- ReadByte(bs, pos); Got(st.(lsdaEnc := e), n)
    else if ch == CHAR_P then
      var (e, p) :- ReadByte(bs, pos);
      var (v, n) :- ReadEncoded(bs, p, e, avmaBase, NO_BASES, true);
      Got(st.(personality := v), n)
    else if ch == CHAR_S then Got(st.(signalFrame := true), pos)
    else if ch == CHAR_B || ch == CHAR_G then Got(st, pos)
    else Bad(DwarfError(pos, UnsupportedAugmentation(ch)), pos)
  }

  function ReadLetters(bs: seq<u8>, pos: nat, avmaBase: u64, chars: seq<u8>, st: AugState): (r: Read<AugState>)
    requires pos <= |bs|
    ensures r.Got? ==> pos <= r.next <= |bs|
    decreases |chars|
  {
    if chars == [] then Got(st, pos)
    else
      var (st', n) :- ReadLetter(bs, pos, avmaBase, chars[0], st);
      ReadLetters(bs, n, avmaBase, chars[1..], st')
  }

  predicate Sized(aug: seq<u8>) {
    aug != [] && aug[0] == CHAR_z
  }

  /** The declared augmentation data length is read and ignored. */
  function ReadAugmentation(bs: seq<u8>, pos: nat, avmaBase: u64, f: CieFields): (r: Read<AugState>)
    requires pos <= |bs|
    ensures r.Got? ==> pos <= r.next <= |bs|
  {
    if Sized(f.aug) then
      var (_, p) :- ReadUleb(bs, pos);
      ReadLetters(bs, p, avmaBase, f.aug[1..], NO_AUGMENTATION)
    else if f.aug == [] then Got(NO_AUGMENTATION, pos)
    else Bad(DwarfError(f.augStart, UnsupportedNonZAugmentation), pos)
  }

  datatype ParsedCie = ParsedCie(
    codeAlign: u64,
    dataAlign: i64,
    retColumn: u64,
    fdeEnc: u8,
    lsdaEnc: u8,
    personality: u64,
    hasZ: bool,
    signalFrame: bool,
    instrOffset: nat,
    instrLen: nat)

  /** `entry_end - pos` in wrapping 64-bit arithmetic: the code does not check
      that the fields stayed inside the declared length. */
  function InstrLen(end: nat, pos: nat): (n: nat)
    ensures pos <= end < TWO64 ==> n == end - pos
  {
    (end - pos) % TWO64
  }

  function FinishCie(bs: seq<u8>, pos: nat, head: Head, f: CieFields, a: AugState): (r: Read<ParsedCie>) {
    if head.end > |bs| then Bad(DwarfError(pos, Truncated(head.end, |bs|)), pos)
    else Got(ParsedCie(f.codeAlign, f.dataAlign, f.retColumn, a.fdeEnc, a.lsdaEnc, a.personality,
                       Sized(f.aug), a.signalFrame, pos, InstrLen(head.end, pos)), pos)
  }

  /** `parse_cie`. */
  function ParseCie(bs: seq<u8>, offset: nat, avmaBase: u64): (r: Read<ParsedCie>)
    ensures r.Got? ==> r.next == r.value.instrOffset <= |bs|
  {
    var (head, p1) :- ReadHead(bs, offset);
    var (id, p2) :- ReadIdWord(bs, p1, head.is64);
    if id != 0 then Bad(DwarfError(p1, BadCieId(id)), p2)
    else
      var (f, p3) :- ReadCieFields(bs, p2);
      var (a, p4) :- ReadAugmentation(bs, p3, avmaBase, f);
      FinishCie(bs, p4, head, f, a)
  }

  datatype FdeConfig = FdeConfig(fdeEnc: u8, lsdaEnc: u8, hasZ: bool, textBase: u64, dataBase: u64)

  datatype ParsedFde = ParsedFde(
    initialPc: u64,
    addressRange: u64,
    instrOffset: nat,
    instrLen: nat,
    lsda: u64)

  /** The optional LSDA inside the sized augmentation data that ends at `augEnd`. */
  function ReadLsda(bs: seq<u8>, pos: nat, augEnd: nat, avmaBase: u64, cfg: FdeConfig, pc: u64): (r: Read<u64>)
    ensures r.Got? ==> r.next == augEnd
  {
    if cfg.lsdaEnc == OMIT then
      if pos > augEnd then Bad(DwarfError(pos, Truncated(pos, augEnd)), pos) else Got(0, augEnd)
    else
      var (v, n) :- ReadEncoded(bs, pos, cfg.lsdaEnc, avmaBase, Bases(cfg.textBase, cfg.dataBase, pc), false);
      if n > augEnd then Bad(DwarfError(pos, Truncated(n, augEnd)), n) else Got(v, augEnd)
  }

  function ReadFdeAugmentation(bs: seq<u8>, pos: nat, end: nat, avmaBase: u64, cfg: FdeConfig, pc: u64): (r: Read<u64>)
    ensures r.Got? && cfg.hasZ ==> pos < r.next <= end
    ensures r.Got? && !cfg.hasZ ==> r.next == pos
  {
    if !cfg.hasZ then Got(0, pos)
    else
      var (n, p) :- ReadUleb(bs, pos);
      if p + n >= TWO64 then Bad(DwarfError(p, EntryLengthOverflow), p)
      else if p + n > end then Bad(DwarfError(p, Truncated(p + n, end)), p)
      else ReadLsda(bs, p, p + n, avmaBase, cfg, pc)
  }

  function FinishFde(bs: seq<u8>, pos: nat, head: Head, pc: u64, range: u64, lsda: u64): (r: Read<ParsedFde>) {
    if head.end > |bs| then Bad(DwarfError(pos, Truncated(head.end, |bs|)), pos)
    else Got(ParsedFde(pc, range, pos, InstrLen(head.end, pos), lsda), pos)
  }

  /** `parse_fde`. */
  function ParseFde(bs: seq<u8>, offset: nat, avmaBase: u64, cfg: FdeConfig): (r: Read<ParsedFde>)
    ensures r.Got? ==> r.next == r.value.instrOffset <= |bs|
  {
    var (head, p1) :- ReadHead(bs, offset);
    var (ptr, p2) :- ReadIdWord(bs, p1, head.is64);
    if ptr == 0 then Bad(DwarfError(p1, FdeCiePointerIsZero), p2)
    else
      var (pc, p3) :- ReadEncoded(bs, p2, cfg.fdeEnc, avmaBase, Bases(cfg.textBase, cfg.dataBase, 0), false);
      var (range, p4) :- ReadEncoded(bs, p3, Format(cfg.fdeEnc), avmaBase, NO_BASES, false);
      var (lsda, p5) :- ReadFdeAugmentation(bs, p4, head.end, avmaBase, cfg, pc);
      FinishFde(bs, p5, head, pc, range, lsda)
  }

  /** All of a CIE between its length field and its instructions; `pos` follows the length. */
  function ReadCieBody(bs: seq<u8>, pos: nat, is64: bool, avmaBase: u64): (r: Read<(CieFields, AugState)>)
    ensures r.Got? ==> pos < r.next <= |bs|
  {
    var (_, p2) :- ReadIdWord(bs, pos, is64);
    var (f, p3) :- ReadCieFields(bs, p2);
    var (a, p4) :- ReadAugmentation(bs, p3, avmaBase, f);
    Got((f, a), p4)
  }

  /** All of an FDE between its length field and its augmentation data: start and range. */
  function ReadFdeFields(bs: seq<u8>, pos: nat, is64: bool, avmaBase: u64, cfg: FdeConfig): (r: Read<(u64, u64)>)
    ensures r.Got? ==> pos < r.next <= |bs|
  {
    var (_, p2) :- ReadIdWord(bs, pos, is64);
    var (pc, p3) :- ReadEncoded(bs, p2, cfg.fdeEnc, avmaBase, Bases(cfg.textBase, cfg.dataBase, 0), false);
    var (range, p4) :- ReadEncoded(bs, p3, Format(cfg.fdeEnc), avmaBase, NO_BASES, false);
    Got((pc, range), p4)
  }

  /** For every byte string: the instructions of a sized FDE start at the end of its
      augmentation data, which the length after the address range declares, and run to the
      end of the entry, inside the section. */
  lemma SizedFdeInstructions(bs: seq<u8>, offset: nat, avmaBase: u64, cfg: FdeConfig)
    requires cfg.hasZ
    requires ParseFde(bs, offset, avmaBase, cfg).Got?
    ensures var fde := ParseFde(bs, offset, avmaBase, cfg).value;
      var head := ReadHead(bs, offset);
      && head.Got?
      && offset < fde.instrOffset <= head.value.end <= |bs|
      && fde.instrOffset + fde.instrLen == head.value.end
      && var fields := ReadFdeFields(bs, head.next, head.value.is64, avmaBase, cfg);
      && fields.Got?
      && var len := ReadUleb(bs, fields.next);
      && len.Got? && fde.instrOffset == len.next + len.value
  {
    hide ReadHead, ReadIdWord, ReadEncoded, ReadUleb;
  }

  lemma InstrLenWraps(end: nat, pos: nat)
    requires end < pos < TWO64
    ensures InstrLen(end, pos) == end - pos + TWO64
  {
  }

  /** A CIE's instruction range is the rest of its entry exactly when the declared length
      reaches the end of the fields, which are read without looking at it; otherwise the
      subtraction wraps past the section. */
  lemma CieInstructions(bs: seq<u8>, offset: nat, avmaBase: u64)
    requires ParseCie(bs, offset, avmaBase).Got?
    requires |bs| < 0x8000_0000_0000_0000
    ensures var cie := ParseCie(bs, offset, avmaBase).value;
      var head := ReadHead(bs, offset);
      && head.Got? && head.value.end <= |bs|
      && var fields := ReadCieBody(bs, head.next, head.value.is64, avmaBase);
      && fields.Got? && offset < cie.instrOffset == fields.next <= |bs|
      && (cie.instrOffset + cie.instrLen == head.value.end <==> fields.next <= head.value.end)
      && (cie.instrOffset + cie.instrLen <= |bs| <==> fields.next <= head.value.end)
  {
    hide ReadHead, ReadIdWord, ReadCieFields, ReadAugmentation;
    var cie := ParseCie(bs, offset, avmaBase).value;
    var end := ReadHead(bs, offset).value.end;
    if end < cie.instrOffset {
      InstrLenWraps(end, cie.instrOffset);
    }
  }

  /** The same for an FDE without sized augmentation data. When its pointers have a fixed
      width, the declared length alone decides: it must hold the CIE pointer and both. */
  lemma UnsizedFdeInstructions(bs: seq<u8>, offset: nat, avmaBase: u64, cfg: FdeConfig)
    requires !cfg.hasZ && |bs| < 0x8000_0000_0000_0000
    requires ParseFde(bs, offset, avmaBase, cfg).Got?
    ensures var fde := ParseFde(bs, offset, avmaBase, cfg).value;
      var head := ReadHead(bs, offset);
      && head.Got? && head.value.end <= |bs|
      && var fields := ReadFdeFields(bs, head.next, head.value.is64, avmaBase, cfg);
      && fields.Got? && fde.instrOffset == fields.next
      && (fde.instrOffset + fde.instrLen == head.value.end <==> fields.next <= head.value.end)
      && (fde.instrOffset + fde.instrLen <= |bs| <==> fields.next <= head.value.end)
      && (FixedWidth(cfg.fdeEnc).Some? ==>
            var declared, id := head.value.end - head.next, if head.value.is64 then 8 else 4;
            fde.instrOffset + fde.instrLen == head.value.end <==> id + 2 * FixedWidth(cfg.fdeEnc).value <= declared)
  {
    hide ReadHead, ReadIdWord, ReadEncoded, FixedWidth;
    var fde := ParseFde(bs, offset, avmaBase, cfg).value;
    var head := ReadHead(bs, offset);
    if head.value.end < fde.instrOffset {
      InstrLenWraps(head.value.end, fde.instrOffset);
    }
    if FixedWidth(cfg.fdeEnc).Some? {
      var id := ReadIdWord(bs, head.next, head.value.is64);
      var bases := Bases(cfg.textBase, cfg.dataBase, 0);
      EncodedWidth(bs, id.next, cfg.fdeEnc, avmaBase, bases);
      var pc := ReadEncoded(bs, id.next, cfg.fdeEnc, avmaBase, bases, false);
      FormatWidth(cfg.fdeEnc);
      EncodedWidth(bs, pc.next, Format(cfg.fdeEnc), avmaBase, NO_BASES);
    }
  }

  /** The bytes a pointer takes when its format has a fixed width. */
  function FixedWidth(enc: u8): Option<nat> {
    var f := Format(enc);
    if f == UDATA2 || f == SDATA2 then Some(2)
    else if f == UDATA4 || f == SDATA4 then Some(4)
    else if f == ABSPTR || f == UDATA8 || f == SDATA8 then Some(8)
    else None
  }

  lemma FormatWidth(enc: u8)
    ensures FixedWidth(Format(enc)) == FixedWidth(enc)
  {
  }

  lemma EncodedWidth(bs: seq<u8>, pos: nat, enc: u8, avmaBase: u64, bases: Bases)
    requires FixedWidth(enc).Some?
    ensures var r := ReadEncoded(bs, pos, enc, avmaBase, bases, false);
      r.Got? ==> r.next == pos + FixedWidth(enc).value
  {
    hide ReadUleb, ReadSleb, ReadLe;
  }

  /** An FDE with 2-byte pointers whose declared length holds the CIE pointer and one of them. */
  const OVERRUN_FDE: seq<u8> := [6, 0, 0, 0] + [1, 0, 0, 0] + [0, 16] + [16, 0]
  const OVERRUN_CONFIG: FdeConfig := FdeConfig(UDATA2, OMIT, false, 0, 0)

  /** It parses, and its instruction length has wrapped as well. */
  lemma OverrunFdeParses()
    ensures var r := ParseFde(OVERRUN_FDE, 0, 0, OVERRUN_CONFIG);
      && r.Got? && ReadHead(OVERRUN_FDE, 0).Got?
      && r.value.instrOffset == 12 && ReadHead(OVERRUN_FDE, 0).value.end == 10
      && r.value.instrLen == TWO64 - 2
  {
    hide LeValue;
    var bs := OVERRUN_FDE;
    FourBytes(6);
    FourBytes(1);
    assert bs[0..4] == [6, 0, 0, 0] && bs[4..8] == [1, 0, 0, 0];
    assert ReadHead(bs, 0) == Got(Head(false, 10), 4);
    assert ReadIdWord(bs, 4, false) == Got(1, 8);
    assert ReadEncoded(bs, 8, UDATA2, 0, Bases(0, 0, 0), false).Got?;
    assert ReadEncoded(bs, 8, UDATA2, 0, Bases(0, 0, 0), false).next == 10;
    assert ReadEncoded(bs, 10, UDATA2, 0, NO_BASES, false).Got?;
    assert ReadEncoded(bs, 10, UDATA2, 0, NO_BASES, false).next == 12;
    InstrLenWraps(10, 12);
  }

  /** A CIE whose declared length stops after the version byte, so that the remaining fields
      overrun it. */
  const OVERRUN: seq<u8> := [5, 0, 0, 0] + [0, 0, 0, 0] + [1, 0, 1, 0x78, 16]

  lemma FourBytes(b: u8)
    ensures LeValue([b, 0, 0, 0]) == b
  {
    assert [b, 0, 0, 0][1..] == [0, 0, 0] && [0 as u8, 0, 0][1..] == [0, 0] && [0 as u8, 0][1..] == [0] && [0 as u8][1..] == [];
    assert LeValue([0]) == 0 && LeValue([0, 0]) == 0 && LeValue([0, 0, 0]) == 0;
  }

  /** It parses, and its instruction length has wrapped far past the section. */
  lemma OverrunParses()
    ensures var r := ParseCie(OVERRUN, 0, 0);
      && r.Got? && ReadHead(OVERRUN, 0).Got?
      && r.value.instrOffset == 13 && ReadHead(OVERRUN, 0).value.end == 9
      && r.value.instrLen == TWO64 - 4
  {
    var bs := OVERRUN;
    FourBytes(5);
    FourBytes(0);
    assert bs[0..4] == [5, 0, 0, 0] && bs[4..8] == [0, 0, 0, 0];
    assert ReadHead(bs, 0) == Got(Head(false, 9), 4);
    assert ReadIdWord(bs, 4, false) == Got(0, 8);
    assert FindNul(bs, 9) == 9 && bs[9..9] == [];
    assert ReadAugString(bs, 9) == Got([], 10);
    assert ReadUleb(bs, 10) == Got(1, 11);
    assert ReadSleb(bs, 11).Got? && ReadSleb(bs, 11).next == 12;
    assert ReadReturnColumn(bs, 12, 1) == Got(16, 13);
    assert ReadCieFields(bs, 8).Got? && ReadCieFields(bs, 8).next == 13 && ReadCieFields(bs, 8).value.aug == [];
    InstrLenWraps(9, 13);
  }
}
