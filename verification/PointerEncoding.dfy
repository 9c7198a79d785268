/** `DW_EH_PE_*` pointers: section 10.5.1 of LSB Core Generic 5.0, as
    `Cursor::read_encoded_impl` reads them. */
module PointerEncoding {
  import opened Words
  import opened Bytes
  import opened Leb128

  const OMIT: u8 := 0xff
  const ABSPTR: u8 := 0x00
  const ULEB128: u8 := 0x01
  const UDATA2: u8 := 0x02
  const UDATA4: u8 := 0x03
  const UDATA8: u8 := 0x04
  const SLEB128: u8 := 0x09
  const SDATA2: u8 := 0x0a
  const SDATA4: u8 := 0x0b
  const SDATA8: u8 := 0x0c
  const PCREL: u8 := 0x10
  const TEXTREL: u8 := 0x20
  const DATAREL: u8 := 0x30
  const FUNCREL: u8 := 0x40

  /** `enc & 0x0f`, `enc & 0x70` and `enc & 0x80 != 0`. */
  function Format(enc: u8): u8 {
    enc % 16
  }

  function Application(enc: u8): u8 {
    enc / 16 % 8 * 16
  }

  predicate Indirect(enc: u8) {
    128 <= enc
  }

  datatype Bases = Bases(text: u64, data: u64, func: u64)

  /** The tracee address of byte `pos` of a buffer loaded at `base`. */
  function Avma(base: u64, pos: nat): u64 {
    (base + pos) % TWO64
  }

  /** The encoded word before a base is applied. */
  function ReadRaw(bs: seq<u8>, pos: nat, enc: u8): (r: Read<u64>)
    ensures r.Got? ==> pos < r.next <= |bs|
  {
    var f := Format(enc);
    if f == ABSPTR || f == UDATA8 || f == SDATA8 then ReadU64(bs, pos)
    else if f == UDATA2 then var (v, n) :- ReadU16(bs, pos); Got(v, n)
    else if f == UDATA4 then var (v, n) :- ReadU32(bs, pos); Got(v, n)
    else if f == SDATA2 then var (v, n) :- ReadU16(bs, pos); Got(SignExtend16(v), n)
    else if f == SDATA4 then var (v, n) :- ReadU32(bs, pos); Got(SignExtend32(v), n)
    else if f == ULEB128 then ReadUleb(bs, pos)
    else if f == SLEB128 then var (v, n) :- ReadSleb(bs, pos); Got(AsUnsigned(v), n)
    else Bad(DwarfError(pos, UnsupportedPointerEncoding(enc)), pos)
  }

  /** The base that the application bits select, if they are supported. */
  function BaseFor(enc: u8, pc: u64, bases: Bases): Option<u64> {
    var a := Application(enc);
    if a == 0 then Some(0)
    else if a == PCREL then Some(pc)
    else if a == TEXTREL then Some(bases.text)
    else if a == DATAREL then Some(bases.data)
    else if a == FUNCREL then Some(bases.func)
    else None
  }

  /** `read_encoded_impl`. A raw zero means "absent" and gets no base, even an
      unsupported one; an accepted indirect pointer is consumed, not followed. */
  function ReadEncoded(bs: seq<u8>, pos: nat, enc: u8, avmaBase: u64, bases: Bases, allowIndirect: bool): (r: Read<u64>)
    ensures r.Got? ==> pos < r.next <= |bs|
  {
    if enc == OMIT then Bad(DwarfError(pos, OmittedPointerEncoding), pos)
    else if Indirect(enc) && !allowIndirect then
      Bad(DwarfError(pos, IndirectPointerRequiresDereference(enc)), pos)
    else
      var (raw, n) :- ReadRaw(bs, pos, enc);
      Resolve(enc, raw, Avma(avmaBase, pos), bases, n)
  }

  function Resolve(enc: u8, raw: u64, pc: u64, bases: Bases, n: nat): Read<u64> {
    if Indirect(enc) || raw == 0 then Got(0, n)
    else match BaseFor(enc, pc, bases)
      case Some(b) => Got(WrapAdd(raw, b), n)
      case None => Bad(DwarfError(n, UnsupportedPointerApplication(enc)), n)
  }

  predicate SupportedFormat(f: u8) {
    f in {ABSPTR, ULEB128, UDATA2, UDATA4, UDATA8, SLEB128, SDATA2, SDATA4, SDATA8}
  }

  /** The 64-bit words a format can carry. */
  predicate Representable(f: u8, raw: u64) {
    && SupportedFormat(f)
    && (f == UDATA2 ==> raw < 0x1_0000)
    && (f == UDATA4 ==> raw < 0x1_0000_0000)
    && (f == SDATA2 ==> -0x8000 <= AsSigned(raw) < 0x8000)
    && (f == SDATA4 ==> -0x8000_0000 <= AsSigned(raw) < 0x8000_0000)
  }

  /** The low bits of a representable word. */
  function Narrow(raw: u64, modulus: nat): nat
    requires modulus <= TWO64
  {
    if raw < TWO64 - modulus then raw else raw - (TWO64 - modulus)
  }

  function RawBytes(f: u8, raw: u64): seq<u8> {
    if f == UDATA2 || f == SDATA2 then LeBytes(Narrow(raw, 0x1_0000), 2)
    else if f == UDATA4 || f == SDATA4 then LeBytes(Narrow(raw, 0x1_0000_0000), 4)
    else if f == ULEB128 then Uleb(raw)
    else if f == SLEB128 then Sleb(AsSigned(raw))
    else LeBytes(raw, 8)
  }

  lemma RawRoundTrip(bs: seq<u8>, pos: nat, enc: u8, raw: u64, rest: seq<u8>)
    requires Representable(Format(enc), raw)
    requires At(bs, pos, RawBytes(Format(enc), raw) + rest)
    ensures ReadRaw(bs, pos, enc) == Got(raw, pos + |RawBytes(Format(enc), raw)|)
    ensures At(bs, pos + |RawBytes(Format(enc), raw)|, rest)
  {
    hide At, LeBytes, Uleb, Sleb, ReadUleb, ReadSleb, ReadLe;
    var f := Format(enc);
    PowersOf256();
    if f == UDATA2 || f == SDATA2 {
      AtLe(bs, pos, Narrow(raw, 0x1_0000), 2, rest);
    } else if f == UDATA4 || f == SDATA4 {
      AtLe(bs, pos, Narrow(raw, 0x1_0000_0000), 4, rest);
    } else if f == ULEB128 {
      UlebRoundTrip(bs, pos, raw, rest);
    } else if f == SLEB128 {
      SlebRoundTrip(bs, pos, AsSigned(raw), rest);
    } else {
      AtLe(bs, pos, raw, 8, rest);
    }
  }

  /** What an assembler may encode an address relative to. */
  datatype Relation = Absolute | ToPc | ToText | ToData | ToFunction

  function Encoding(rel: Relation, f: u8): u8
    requires f < 16
  {
    f + match rel
        case Absolute => 0x00
        case ToPc => 0x10
        case ToText => 0x20
        case ToData => 0x30
        case ToFunction => 0x40
  }

  function Origin(rel: Relation, pc: u64, bases: Bases): u64 {
    match rel
    case Absolute => 0
    case ToPc => pc
    case ToText => bases.text
    case ToData => bases.data
    case ToFunction => bases.func
  }

  /** Encoding a target against its origin and reading it back: the cursor moves by exactly
      the encoded width, and the target comes back unless it coincides with a nonzero
      origin, which the format cannot express. */
  lemma PointerRoundTrip(bs: seq<u8>, pos: nat, rel: Relation, f: u8, avmaBase: u64, bases: Bases, target: u64, rest: seq<u8>)
    requires f < 16
    requires var raw := WrapSub(target, Origin(rel, Avma(avmaBase, pos), bases));
      Representable(f, raw) && At(bs, pos, RawBytes(f, raw) + rest)
    ensures var raw := WrapSub(target, Origin(rel, Avma(avmaBase, pos), bases));
      var r := ReadEncoded(bs, pos, Encoding(rel, f), avmaBase, bases, false);
      && r == Got(if raw == 0 then 0 else target, pos + |RawBytes(f, raw)|)
      && (r.value == target <==> raw != 0 || target == 0)
      && At(bs, r.next, rest)
  {
    hide ReadRaw, RawBytes, At, Representable;
    EncodingParts(rel, f, Avma(avmaBase, pos), bases);
    RawRoundTrip(bs, pos, Encoding(rel, f), WrapSub(target, Origin(rel, Avma(avmaBase, pos), bases)), rest);
  }

  lemma EncodingParts(rel: Relation, f: u8, pc: u64, bases: Bases)
    requires f < 16
    ensures var enc := Encoding(rel, f);
      Format(enc) == f && !Indirect(enc) && BaseFor(enc, pc, bases) == Some(Origin(rel, pc, bases))
  {
  }

  /** Omitted pointers and disallowed indirections are refused with the cursor still;
      every other refusal happens after the format was looked at. */
  lemma RefusedWithoutReading(bs: seq<u8>, pos: nat, enc: u8, avmaBase: u64, bases: Bases, allowIndirect: bool)
    ensures var r := ReadEncoded(bs, pos, enc, avmaBase, bases, allowIndirect);
      && (enc == OMIT <==> r.Bad? && r.error.kind == OmittedPointerEncoding)
      && (enc != OMIT && Indirect(enc) && !allowIndirect <==>
            r.Bad? && r.error.kind.IndirectPointerRequiresDereference?)
      && (enc == OMIT || (Indirect(enc) && !allowIndirect) ==> r.Bad? && r.next == pos == r.error.offset)
      && (allowIndirect && Indirect(enc) && r.Got? ==> r.value == 0)
  {
    hide Groups, LeValue;
    LebErrors(bs, pos, MAX_GROUPS);
  }

  lemma {:induction false} LebErrors(bs: seq<u8>, pos: nat, room: nat)
    requires room > 0
    ensures var r := Groups(bs, pos, room); r.Bad? ==> r.error.kind.Truncated? || r.error.kind.Leb128Overflow?
    decreases room
  {
    if pos < |bs| && 128 <= bs[pos] && room > 1 {
      LebErrors(bs, pos + 1, room - 1);
    }
  }
}
