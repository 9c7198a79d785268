/** Printers for CIE and FDE records, and the proof that `ParseCie` and `ParseFde`
    invert them wherever the printed bytes occur. Each printer takes the bytes that
    follow, so that a proof peels one field at a time. */
module Printer {
  import opened Words
  import opened Bytes
  import opened Leb128
  import opened PointerEncoding
  import opened Entries

  /** One augmentation letter with the data it carries. */
  datatype Augmentation = R(enc: u8) | L(enc: u8) | P(enc: u8, raw: u64) | S | B | G

  /** A pointer the reader accepts: see `ReadEncoded`. */
  predicate PrintablePointer(enc: u8, raw: u64, allowIndirect: bool) {
    && enc != OMIT
    && (Indirect(enc) ==> allowIndirect)
    && Representable(Format(enc), raw)
    && (Indirect(enc) || raw == 0 || Application(enc) <= FUNCREL)
  }

  /** The address a printable pointer stands for when printed at `pc`. */
  function Target(enc: u8, raw: u64, pc: u64, bases: Bases): u64 {
    if Indirect(enc) || raw == 0 || BaseFor(enc, pc, bases).None? then 0
    else WrapAdd(raw, BaseFor(enc, pc, bases).value)
  }

  lemma EncodedRoundTrip(bs: seq<u8>, pos: nat, enc: u8, raw: u64, avmaBase: u64, bases: Bases, allow: bool, rest: seq<u8>)
    requires PrintablePointer(enc, raw, allow)
    requires At(bs, pos, RawBytes(Format(enc), raw) + rest)
    ensures ReadEncoded(bs, pos, enc, avmaBase, bases, allow) ==
            Got(Target(enc, raw, Avma(avmaBase, pos), bases), pos + |RawBytes(Format(enc), raw)|)
    ensures At(bs, pos + |RawBytes(Format(enc), raw)|, rest)
  {
    hide ReadRaw, RawBytes, At;
    RawRoundTrip(bs, pos, enc, raw, rest);
  }

  predicate PrintableAug(a: Augmentation) {
    a.P? ==> PrintablePointer(a.enc, a.raw, true)
  }

  function Letter(a: Augmentation): (ch: u8)
    ensures ch != 0
  {
    match a
    case R(_) => CHAR_R
    case L(_) => CHAR_L
    case P(_, _) => CHAR_P
    case S => CHAR_S
    case B => CHAR_B
    case G => CHAR_G
  }

  function AugBytes(a: Augmentation): seq<u8> {
    match a
    case R(e) => [e]
    case L(e) => [e]
    case P(e, raw) => [e] + RawBytes(Format(e), raw)
    case _ => []
  }

  function AugEffect(a: Augmentation, st: AugState, avmaBase: u64, pos: nat): AugState {
    match a
    case R(e) => st.(fdeEnc := e)
    case L(e) => st.(lsdaEnc := e)
    case P(e, raw) => st.(personality := Target(e, raw, Avma(avmaBase, pos + 1), NO_BASES))
    case S => st.(signalFrame := true)
    case _ => st
  }

  function Letters(augs: seq<Augmentation>): (s: seq<u8>)
    ensures |s| == |augs| && forall i :: 0 <= i < |s| ==> s[i] != 0
  {
    if augs == [] then [] else [Letter(augs[0])] + Letters(augs[1..])
  }

  function AllAugBytes(augs: seq<Augmentation>): seq<u8> {
    if augs == [] then [] else AugBytes(augs[0]) + AllAugBytes(augs[1..])
  }

  /** Letters take effect left to right, so the last of several wins. */
  function AllAugEffects(augs: seq<Augmentation>, st: AugState, avmaBase: u64, pos: nat): AugState
    decreases |augs|
  {
    if augs == [] then st
    else AllAugEffects(augs[1..], AugEffect(augs[0], st, avmaBase, pos), avmaBase, pos + |AugBytes(augs[0])|)
  }

  lemma LetterRoundTrip(bs: seq<u8>, pos: nat, avmaBase: u64, a: Augmentation, st: AugState, rest: seq<u8>)
    requires PrintableAug(a)
    requires At(bs, pos, AugBytes(a) + rest)
    ensures ReadLetter(bs, pos, avmaBase, Letter(a), st) ==
            Got(AugEffect(a, st, avmaBase, pos), pos + |AugBytes(a)|)
    ensures At(bs, pos + |AugBytes(a)|, rest)
  {
    hide At, RawBytes, ReadEncoded, Target, PrintablePointer;
    match a {
      case R(e) => AtByte(bs, pos, e, rest);
      case L(e) => AtByte(bs, pos, e, rest);
      case P(e, raw) =>
        var w := RawBytes(Format(e), raw);
        assert AugBytes(a) + rest == [e] + (w + rest);
        AtByte(bs, pos, e, w + rest);
        EncodedRoundTrip(bs, pos + 1, e, raw, avmaBase, NO_BASES, true, rest);
      case _ => assert AugBytes(a) + rest == rest;
    }
  }

  lemma {:induction false} LettersRoundTrip(bs: seq<u8>, pos: nat, avmaBase: u64, augs: seq<Augmentation>, st: AugState, rest: seq<u8>)
    requires forall i :: 0 <= i < |augs| ==> PrintableAug(augs[i])
    requires At(bs, pos, AllAugBytes(augs) + rest)
    ensures ReadLetters(bs, pos, avmaBase, Letters(augs), st) ==
            Got(AllAugEffects(augs, st, avmaBase, pos), pos + |AllAugBytes(augs)|)
    ensures At(bs, pos + |AllAugBytes(augs)|, rest)
    decreases |augs|
  {
    hide At, AugBytes, AugEffect, ReadLetter;
    if augs == [] {
      AtSplit(bs, pos, [], rest);
      assert [] + rest == rest;
    } else {
      var tail := augs[1..];
      assert AllAugBytes(augs) + rest == AugBytes(augs[0]) + (AllAugBytes(tail) + rest);
      LetterRoundTrip(bs, pos, avmaBase, augs[0], st, AllAugBytes(tail) + rest);
      LettersRoundTrip(bs, pos + |AugBytes(augs[0])|, avmaBase, tail, AugEffect(augs[0], st, avmaBase, pos), rest);
      assert Letters(augs)[1..] == Letters(tail);
    }
  }

  /** The length field of an entry whose body has `n` bytes. */
  function LengthField(is64: bool, n: nat): seq<u8> {
    if is64 then LeBytes(0xffff_ffff, 4) + LeBytes(n, 8) else LeBytes(n, 4)
  }

  predicate PrintableLength(is64: bool, n: nat) {
    n < if is64 then TWO64 else 0xffff_ffff
  }

  lemma HeadRoundTrip(bs: seq<u8>, pos: nat, is64: bool, body: seq<u8>)
    requires PrintableLength(is64, |body|)
    requires pos + |LengthField(is64, |body|)| + |body| < TWO64
    requires At(bs, pos, LengthField(is64, |body|) + body)
    ensures var p := pos + |LengthField(is64, |body|)|;
      && ReadHead(bs, pos) == Got(Head(is64, p + |body|), p)
      && At(bs, p, body)
  {
    hide At, LeBytes, ReadLe;
    PowersOf256();
    if is64 {
      var n := LeBytes(|body|, 8);
      assert LengthField(is64, |body|) + body == LeBytes(0xffff_ffff, 4) + (n + body);
      AtLe(bs, pos, 0xffff_ffff, 4, n + body);
      AtLe(bs, pos + 4, |body|, 8, body);
    } else {
      AtLe(bs, pos, |body|, 4, body);
    }
  }

  function IdWord(is64: bool, v: nat): seq<u8> {
    LeBytes(v, if is64 then 8 else 4)
  }

  lemma IdRoundTrip(bs: seq<u8>, pos: nat, is64: bool, v: u64, rest: seq<u8>)
    requires !is64 ==> v < 0x1_0000_0000
    requires At(bs, pos, IdWord(is64, v) + rest)
    ensures ReadIdWord(bs, pos, is64) == Got(v, pos + |IdWord(is64, v)|)
    ensures At(bs, pos + |IdWord(is64, v)|, rest)
  {
    PowersOf256();
    AtLe(bs, pos, v, if is64 then 8 else 4, rest);
  }

  datatype Cie = Cie(
    is64: bool,
    version: u8,
    sized: bool,
    augs: seq<Augmentation>,
    padding: seq<u8>,
    codeAlign: u64,
    dataAlign: i64,
    retColumn: u64,
    instructions: seq<u8>)

  /** What follows the letters' data. `parse_cie` ignores the declared length of the augmentation
      data, so it takes padding for instructions. */
  function Rest(c: Cie): (s: seq<u8>)
    ensures |s| == |c.padding| + |c.instructions|
  {
    c.padding + c.instructions
  }

  function AugString(c: Cie): (s: seq<u8>)
    ensures forall i :: 0 <= i < |s| ==> s[i] != 0
  {
    if c.sized then [CHAR_z] + Letters(c.augs) else []
  }

  lemma SizedString(c: Cie)
    ensures Sized(AugString(c)) == c.sized
  {
  }

  function AddressSizeBytes(version: u8): seq<u8> {
    if version == 4 then [8, 0] else []
  }

  function ReturnColumnBytes(version: u8, column: u64): seq<u8> {
    if version == 1 then [column % 256] else Uleb(column)
  }

  function CieFieldBytes(c: Cie, rest: seq<u8>): (s: seq<u8>)
    ensures |rest| <= |s|
  {
    [c.version] + (AugString(c) + ([0] + AfterAugString(c, rest)))
  }

  function AfterAugString(c: Cie, rest: seq<u8>): seq<u8> {
    AddressSizeBytes(c.version) + (Uleb(c.codeAlign) + (Sleb(c.dataAlign) +
      (ReturnColumnBytes(c.version, c.retColumn) + rest)))
  }

  /** The augmentation data up to its padding, which begins `rest`. */
  function CieAugData(c: Cie, rest: seq<u8>): (s: seq<u8>)
    ensures |rest| <= |s|
    ensures c.sized || c.augs == [] ==> |rest| + |AllAugBytes(c.augs)| <= |s|
  {
    if c.sized then Uleb(|AllAugBytes(c.augs)| + |c.padding|) + (AllAugBytes(c.augs) + rest) else rest
  }

  function CieBody(c: Cie): seq<u8> {
    IdWord(c.is64, 0) + CieFieldBytes(c, CieAugData(c, Rest(c)))
  }

  function PrintCie(c: Cie): (s: seq<u8>)
    ensures c.sized || c.augs == [] ==> |Rest(c)| + |AllAugBytes(c.augs)| <= |s|
  {
    LengthField(c.is64, |CieBody(c)|) + CieBody(c)
  }

  predicate PrintableCie(c: Cie) {
    && c.version in {1, 3, 4}
    && (c.version == 1 ==> c.retColumn < 256)
    && (!c.sized ==> c.augs == [] && c.padding == [])
    && (forall i :: 0 <= i < |c.augs| ==> PrintableAug(c.augs[i]))
    && PrintableLength(c.is64, |CieBody(c)|)
  }

  /** The fields `ParseCie` must report for `c` printed at `offset`. */
  function ExpectedCie(c: Cie, offset: nat, avmaBase: u64): ParsedCie
    requires c.sized || c.augs == []
  {
    var instr := offset + |PrintCie(c)| - |Rest(c)|;
    var a := AllAugEffects(c.augs, NO_AUGMENTATION, avmaBase, instr - |AllAugBytes(c.augs)|);
    ParsedCie(c.codeAlign, c.dataAlign, c.retColumn, a.fdeEnc, a.lsdaEnc, a.personality,
              c.sized, a.signalFrame, instr, |Rest(c)|)
  }

  lemma {:induction false} NulFound(bs: seq<u8>, pos: nat, s: seq<u8>, rest: seq<u8>)
    requires forall i :: 0 <= i < |s| ==> s[i] != 0
    requires At(bs, pos, s + ([0] + rest))
    ensures ReadAugString(bs, pos) == Got(s, pos + |s| + 1)
    ensures At(bs, pos + |s| + 1, rest)
  {
    AtSplit(bs, pos, s, [0] + rest);
    AtByte(bs, pos + |s|, 0, rest);
    var z := FindNul(bs, pos);
    assert forall i :: pos <= i < pos + |s| ==> bs[i] == s[i - pos];
    assert z == pos + |s|;
    assert bs[pos..z] == s;
  }

  lemma AfterAugStringRoundTrip(bs: seq<u8>, pos: nat, c: Cie, rest: seq<u8>)
    requires PrintableCie(c)
    requires At(bs, pos, AfterAugString(c, rest))
    ensures var a := ReadAddressSize(bs, pos, c.version);
      && a.Got?
      && var code := ReadUleb(bs, a.next);
      && code.Got? && code.value == c.codeAlign
      && var data := ReadSleb(bs, code.next);
      && data.Got? && data.value == c.dataAlign
      && var ret := ReadReturnColumn(bs, data.next, c.version);
      && ret.Got? && ret.value == c.retColumn
      && ret.next + |rest| == pos + |AfterAugString(c, rest)|
      && At(bs, ret.next, rest)
  {
    hide At, Uleb, Sleb, ReadUleb, ReadSleb, AddressSizeBytes, ReturnColumnBytes, ReadAddressSize, ReadReturnColumn;
    var ret := ReturnColumnBytes(c.version, c.retColumn) + rest;
    var data := Sleb(c.dataAlign) + ret;
    var code := Uleb(c.codeAlign) + data;
    AddressSizeRoundTrip(bs, pos, c.version, code);
    var p := ReadAddressSize(bs, pos, c.version).next;
    UlebRoundTrip(bs, p, c.codeAlign, data);
    p := ReadUleb(bs, p).next;
    SlebRoundTrip(bs, p, c.dataAlign, ret);
    p := ReadSleb(bs, p).next;
    ReturnColumnRoundTrip(bs, p, c.version, c.retColumn, rest);
  }

  lemma AddressSizeRoundTrip(bs: seq<u8>, pos: nat, version: u8, rest: seq<u8>)
    requires At(bs, pos, AddressSizeBytes(version) + rest)
    ensures ReadAddressSize(bs, pos, version) == Got((), pos + |AddressSizeBytes(version)|)
    ensures At(bs, pos + |AddressSizeBytes(version)|, rest)
  {
    hide At;
    if version == 4 {
      assert AddressSizeBytes(version) + rest == [8] + ([0] + rest);
      AtByte(bs, pos, 8, [0] + rest);
      AtByte(bs, pos + 1, 0, rest);
    } else {
      assert AddressSizeBytes(version) + rest == rest;
    }
  }

  lemma ReturnColumnRoundTrip(bs: seq<u8>, pos: nat, version: u8, column: u64, rest: seq<u8>)
    requires version == 1 ==> column < 256
    requires At(bs, pos, ReturnColumnBytes(version, column) + rest)
    ensures ReadReturnColumn(bs, pos, version) == Got(column, pos + |ReturnColumnBytes(version, column)|)
    ensures At(bs, pos + |ReturnColumnBytes(version, column)|, rest)
  {
    hide At, Uleb, ReadUleb;
    if version == 1 {
      AtByte(bs, pos, column, rest);
    } else {
      UlebRoundTrip(bs, pos, column, rest);
    }
  }

  lemma CieFieldsRoundTrip(bs: seq<u8>, pos: nat, c: Cie, rest: seq<u8>)
    requires PrintableCie(c)
    requires At(bs, pos, CieFieldBytes(c, rest))
    ensures var p := pos + |CieFieldBytes(c, rest)| - |rest|;
      && ReadCieFields(bs, pos) ==
           Got(CieFields(pos + 1, AugString(c), c.codeAlign, c.dataAlign, c.retColumn), p)
      && At(bs, p, rest)
  {
    hide At, AfterAugString, AugString, ReadAugString, ReadAddressSize, ReadUleb, ReadSleb, ReadReturnColumn;
    var after := AfterAugString(c, rest);
    AtByte(bs, pos, c.version, AugString(c) + ([0] + after));
    NulFound(bs, pos + 1, AugString(c), after);
    AfterAugStringRoundTrip(bs, pos + 1 + |AugString(c)| + 1, c, rest);
  }

  lemma CieAugRoundTrip(bs: seq<u8>, pos: nat, avmaBase: u64, c: Cie, f: CieFields, rest: seq<u8>)
    requires PrintableCie(c) && f.aug == AugString(c)
    requires |AllAugBytes(c.augs)| + |c.padding| < TWO64
    requires At(bs, pos, CieAugData(c, rest))
    ensures var p := pos + |CieAugData(c, rest)| - |rest|;
      && ReadAugmentation(bs, pos, avmaBase, f) ==
           Got(AllAugEffects(c.augs, NO_AUGMENTATION, avmaBase, p - |AllAugBytes(c.augs)|), p)
      && At(bs, p, rest)
  {
    hide At, Uleb, ReadUleb, ReadLetters, Letters;
    if c.sized {
      var w := AllAugBytes(c.augs);
      var n := |w| + |c.padding|;
      UlebRoundTrip(bs, pos, n, w + rest);
      LettersRoundTrip(bs, pos + |Uleb(n)|, avmaBase, c.augs, NO_AUGMENTATION, rest);
      assert AugString(c)[1..] == Letters(c.augs);
    }
  }

  /** Parsing inverts printing at any offset, between any surrounding bytes: every field comes
      back, and the instruction range delimits everything after the letters' data, which is
      exactly the printed instructions if and only if the augmentation data has no padding. */
  lemma CieRoundTrip(bs: seq<u8>, offset: nat, avmaBase: u64, c: Cie)
    requires PrintableCie(c)
    requires At(bs, offset, PrintCie(c)) && offset + |PrintCie(c)| < TWO64
    ensures var r := ParseCie(bs, offset, avmaBase);
      && r.ToResult() == Ok(ExpectedCie(c, offset, avmaBase))
      && At(bs, r.value.instrOffset, Rest(c))
      && r.value.instrOffset + r.value.instrLen == offset + |PrintCie(c)|
      && (bs[r.value.instrOffset..r.value.instrOffset + r.value.instrLen] == c.instructions <==> c.padding == [])
  {
    hide At, CieFieldBytes, CieAugData, ReadHead, ReadIdWord, ReadCieFields, ReadAugmentation, AllAugEffects, AugString, AllAugBytes,
      Rest, LengthField, IdWord, InstrLen;
    SizedString(c);
    var body := CieBody(c);
    HeadRoundTrip(bs, offset, c.is64, body);
    var p1 := offset + |LengthField(c.is64, |body|)|;
    var tail := CieAugData(c, Rest(c));
    IdRoundTrip(bs, p1, c.is64, 0, CieFieldBytes(c, tail));
    var p2 := p1 + |IdWord(c.is64, 0)|;
    CieFieldsRoundTrip(bs, p2, c, tail);
    var p3 := p2 + |CieFieldBytes(c, tail)| - |tail|;
    var f := ReadCieFields(bs, p2).value;
    CieAugRoundTrip(bs, p3, avmaBase, c, f, Rest(c));
    RestIsAll(bs, p3 + |CieAugData(c, Rest(c))| - |Rest(c)|, c);
  }

  lemma RestIsAll(bs: seq<u8>, pos: nat, c: Cie)
    requires At(bs, pos, Rest(c))
    ensures bs[pos..pos + |Rest(c)|] == c.instructions <==> c.padding == []
  {
  }

  datatype Fde = Fde(
    is64: bool,
    ciePtr: u64,
    rawPc: u64,
    rawRange: u64,
    rawLsda: u64,
    padding: seq<u8>,
    instructions: seq<u8>)

  /** The augmentation data of a sized FDE: the LSDA pointer, if any, then padding. */
  function FdeAugData(f: Fde, cfg: FdeConfig): seq<u8> {
    if !cfg.hasZ then []
    else (if cfg.lsdaEnc == OMIT then [] else RawBytes(Format(cfg.lsdaEnc), f.rawLsda)) + f.padding
  }

  function FdeAugField(f: Fde, cfg: FdeConfig, rest: seq<u8>): (s: seq<u8>)
    ensures |rest| + |FdeAugData(f, cfg)| <= |s|
  {
    if cfg.hasZ then Uleb(|FdeAugData(f, cfg)|) + (FdeAugData(f, cfg) + rest) else rest
  }

  function FdeBody(f: Fde, cfg: FdeConfig): seq<u8> {
    var fmt := Format(cfg.fdeEnc);
    IdWord(f.is64, f.ciePtr) + (RawBytes(fmt, f.rawPc) + (RawBytes(fmt, f.rawRange) +
      FdeAugField(f, cfg, f.instructions)))
  }

  function PrintFde(f: Fde, cfg: FdeConfig): (s: seq<u8>)
    ensures |f.instructions| + |FdeAugData(f, cfg)| <= |s|
  {
    LengthField(f.is64, |FdeBody(f, cfg)|) + FdeBody(f, cfg)
  }

  predicate PrintableFde(f: Fde, cfg: FdeConfig) {
    && f.ciePtr != 0
    && (!f.is64 ==> f.ciePtr < 0x1_0000_0000)
    && PrintablePointer(cfg.fdeEnc, f.rawPc, false)
    && Representable(Format(cfg.fdeEnc), f.rawRange)
    && (cfg.hasZ && cfg.lsdaEnc != OMIT ==> PrintablePointer(cfg.lsdaEnc, f.rawLsda, false))
    && PrintableLength(f.is64, |FdeBody(f, cfg)|)
  }

  /** What `ParseFde` must report for `f` printed at `offset`. */
  function ExpectedFde(f: Fde, cfg: FdeConfig, offset: nat, avmaBase: u64): ParsedFde {
    var instr := offset + |PrintFde(f, cfg)| - |f.instructions|;
    var pcPos := offset + |LengthField(f.is64, |FdeBody(f, cfg)|)| + |IdWord(f.is64, f.ciePtr)|;
    var pc := Target(cfg.fdeEnc, f.rawPc, Avma(avmaBase, pcPos), Bases(cfg.textBase, cfg.dataBase, 0));
    var lsda :=
      if cfg.hasZ && cfg.lsdaEnc != OMIT then
        Target(cfg.lsdaEnc, f.rawLsda, Avma(avmaBase, instr - |FdeAugData(f, cfg)|), Bases(cfg.textBase, cfg.dataBase, pc))
      else 0;
    ParsedFde(pc, f.rawRange, instr, |f.instructions|, lsda)
  }

  lemma FdeAugRoundTrip(bs: seq<u8>, pos: nat, end: nat, avmaBase: u64, f: Fde, cfg: FdeConfig, pc: u64)
    requires PrintableFde(f, cfg)
    requires At(bs, pos, FdeAugField(f, cfg, f.instructions))
    requires end == pos + |FdeAugField(f, cfg, f.instructions)| < TWO64
    ensures var p := end - |f.instructions|;
      && ReadFdeAugmentation(bs, pos, end, avmaBase, cfg, pc) ==
           Got(if cfg.hasZ && cfg.lsdaEnc != OMIT then
                 Target(cfg.lsdaEnc, f.rawLsda, Avma(avmaBase, p - |FdeAugData(f, cfg)|), Bases(cfg.textBase, cfg.dataBase, pc))
               else 0, p)
      && At(bs, p, f.instructions)
  {
    hide At, Uleb, ReadUleb, RawBytes, ReadEncoded, Target;
    if cfg.hasZ {
      var w := FdeAugData(f, cfg);
      UlebRoundTrip(bs, pos, |w|, w + f.instructions);
      var q := pos + |Uleb(|w|)|;
      AtSplit(bs, q, w, f.instructions);
      if cfg.lsdaEnc != OMIT {
        EncodedRoundTrip(bs, q, cfg.lsdaEnc, f.rawLsda, avmaBase, Bases(cfg.textBase, cfg.dataBase, pc), false, f.padding);
      }
    }
  }

  lemma RangeRoundTrip(bs: seq<u8>, pos: nat, enc: u8, range: u64, avmaBase: u64, rest: seq<u8>)
    requires Representable(Format(enc), range)
    requires At(bs, pos, RawBytes(Format(enc), range) + rest)
    ensures ReadEncoded(bs, pos, Format(enc), avmaBase, NO_BASES, false) ==
            Got(range, pos + |RawBytes(Format(enc), range)|)
    ensures At(bs, pos + |RawBytes(Format(enc), range)|, rest)
  {
    hide ReadRaw, RawBytes, At, ReadEncoded;
    EncodedRoundTrip(bs, pos, Format(enc), range, avmaBase, NO_BASES, false, rest);
  }

  lemma FdeRoundTrip(bs: seq<u8>, offset: nat, avmaBase: u64, f: Fde, cfg: FdeConfig)
    requires PrintableFde(f, cfg)
    requires At(bs, offset, PrintFde(f, cfg)) && offset + |PrintFde(f, cfg)| < TWO64
    ensures var r := ParseFde(bs, offset, avmaBase, cfg);
      && r.ToResult() == Ok(ExpectedFde(f, cfg, offset, avmaBase))
      && At(bs, r.value.instrOffset, f.instructions)
      && r.value.instrOffset + r.value.instrLen == offset + |PrintFde(f, cfg)|
  {
    hide At, FdeAugField, FdeAugData, RawBytes, IdWord, LengthField, ReadHead, ReadIdWord, ReadEncoded, ReadFdeAugmentation, Target;
    var body := FdeBody(f, cfg);
    HeadRoundTrip(bs, offset, f.is64, body);
    var p1 := offset + |LengthField(f.is64, |body|)|;
    var fmt := Format(cfg.fdeEnc);
    var aug := FdeAugField(f, cfg, f.instructions);
    var range := RawBytes(fmt, f.rawRange) + aug;
    IdRoundTrip(bs, p1, f.is64, f.ciePtr, RawBytes(fmt, f.rawPc) + range);
    var p2 := p1 + |IdWord(f.is64, f.ciePtr)|;
    EncodedRoundTrip(bs, p2, cfg.fdeEnc, f.rawPc, avmaBase, Bases(cfg.textBase, cfg.dataBase, 0), false, range);
    var p3 := p2 + |RawBytes(fmt, f.rawPc)|;
    RangeRoundTrip(bs, p3, cfg.fdeEnc, f.rawRange, avmaBase, aug);
    var p4 := p3 + |RawBytes(fmt, f.rawRange)|;
    var pc := Target(cfg.fdeEnc, f.rawPc, Avma(avmaBase, p2), Bases(cfg.textBase, cfg.dataBase, 0));
    FdeAugRoundTrip(bs, p4, p1 + |body|, avmaBase, f, cfg, pc);
  }
}
