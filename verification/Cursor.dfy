/** The imperative parser of src/dwarf.rs: a cursor whose position advances on every
    read, and the two entry parsers built on it. Each method is proved against the pure
    reader it implements. */
module CursorParser {
  import opened Words
  import opened Bytes
  import opened Leb128
  import opened PointerEncoding
  import opened Entries

  /** A method result together with the position the cursor was left at. */
  function Outcome<T>(r: Result<T, DwarfError>, pos: nat): Read<T> {
    match r
    case Ok(v) => Got(v, pos)
    case Err(e) => Bad(e, pos)
  }

  // ---------------------------------------------------------------------------
  // Shifting and or-ing 7-bit groups is summing them

  lemma {:induction false} ShlIsPow128(n: nat)
    ensures Shl(1, 7 * n) == Pow128(n)
  {
    if n > 0 {
      ShlIsPow128(n - 1);
      ShlShl(1, 7 * (n - 1), 7);
      ShlIsProduct(Pow128(n - 1), 7);
      assert Shl(1, 7) == 128;
    }
  }

  lemma ProductBound(b: nat, p: nat)
    requires b < 128
    ensures b * p + p <= 128 * p
  {
  }

  lemma ShlGroup(b: nat, n: nat)
    ensures Shl(b, 7 * n) == b * Pow128(n)
  {
    hide Shl;
    ShlIsProduct(b, 7 * n);
    ShlIsPow128(n);
  }

  lemma GroupFits(sum: nat, b: nat, n: nat)
    requires sum < Pow128(n) && b < 128
    ensures sum + Shl(b, 7 * n) < Pow128(n + 1)
  {
    hide Shl;
    ShlGroup(b, n);
    ProductBound(b, Pow128(n));
  }

  lemma ModSmall(x: nat)
    requires x < TWO64
    ensures x % TWO64 == x
  {
  }

  /** One loop iteration: or-ing the shifted group keeps the low 64 bits of the sum. */
  lemma OrGroup(sum: nat, b: nat, n: nat)
    requires n < MAX_GROUPS && sum < Pow128(n) && b < 128
    ensures BitOr(sum, Shl(b, 7 * n) % TWO64) == (sum + Shl(b, 7 * n)) % TWO64
    ensures n < 9 ==> (sum + Shl(b, 7 * n)) % TWO64 == sum + Shl(b, 7 * n) < Pow128(n + 1)
  {
    hide Shl, Pow128, BitOr;
    ShlIsPow128(n);
    if n < 9 {
      GroupFits(sum, b, n);
      PowersOf128(n + 1);
      ModSmall(sum + Shl(b, 7 * n));
      ModSmall(Shl(b, 7 * n));
      OrIsSum(sum, b, 7 * n);
    } else {
      LastGroup(sum, b);
      OrIsSum(sum, b % 2, 63);
    }
  }

  /** A shift by 63 keeps one bit. */
  lemma LastGroup(sum: nat, b: nat)
    requires sum < Pow128(9)
    ensures Shl(b, 63) % TWO64 == Shl(b % 2, 63)
    ensures (sum + Shl(b, 63)) % TWO64 == sum + Shl(b % 2, 63)
  {
    hide Shl, Pow128;
    ShlIsProduct(b, 63);
    ShlIsProduct(b % 2, 63);
    PowersOfTwo();
    PowersOf128(9);
    var q := b / 2;
    assert b == 2 * q + b % 2;
    assert Shl(b, 63) == q * TWO64 + Shl(b % 2, 63);
  }

  lemma MinusOneShifted(p: nat)
    requires 0 < p < TWO64
    ensures (TWO64 * p - p) % TWO64 == TWO64 - p
  {
    assert TWO64 * p - p == TWO64 * (p - 1) + (TWO64 - p);
  }

  /** Sign extension: or-ing `-1 << s` above `s` value bits. */
  lemma SignExtends(sum: nat, n: nat)
    requires n <= 9 && sum < Pow128(n)
    ensures BitOr(sum, Shl(U64_MAX, 7 * n) % TWO64) == sum + TWO64 - Pow128(n)
  {
    hide Shl, Pow128, BitOr;
    var s := 7 * n;
    var p := Shl(1, s);
    ShlIsPow128(n);
    PowersOf128(n);
    PowersOfTwo();
    ShlAdd(U64_MAX, 1, s);
    ShlIsProduct(TWO64, s);
    MinusOneShifted(p);
    var high := Shl(1, 64 - s);
    ShlShl(1, 64 - s, s);
    ShlIsProduct(high, s);
    assert high > 0;
    ShlAdd(high - 1, 1, s);
    OrIsSum(sum, high - 1, s);
  }

  /** The result of the whole read, given what was summed so far and what remains. */
  function Continued(sum: nat, n: nat, r: Read<nat>): Read<nat> {
    match r
    case Got(v, next) => Got(sum + v * Pow128(n), next)
    case Bad(e, next) => Bad(e, next)
  }

  lemma ContinueStep(bs: seq<u8>, pos: nat, sum: nat, n: nat)
    requires n < 9 && pos < |bs| && 128 <= bs[pos]
    ensures Continued(sum, n, Groups(bs, pos, 10 - n)) ==
            Continued(sum + Shl(bs[pos] % 128, 7 * n), n + 1, Groups(bs, pos + 1, 9 - n))
  {
    hide Shl, Pow128;
    ShlGroup(bs[pos] % 128, n);
    NextPower(n);
    var rest := Groups(bs, pos + 1, 9 - n);
    if rest.Got? {
      Regroup(bs[pos] % 128, rest.value, Pow128(n));
    }
  }

  lemma NextPower(n: nat)
    ensures Pow128(n + 1) == 128 * Pow128(n)
  {
  }

  lemma Regroup(b: nat, v: nat, p: nat)
    ensures (b + 128 * v) * p == b * p + v * (128 * p)
  {
  }

  lemma StartLoop(bs: seq<u8>, pos: nat)
    ensures Groups(bs, pos, MAX_GROUPS) == Continued(0, 0, Groups(bs, pos, MAX_GROUPS)) && Pow128(0) == 1
  {
  }

  /** One loop iteration at `pos` with `n` groups already summed. */
  lemma Iterate(bs: seq<u8>, pos: nat, sum: nat, n: nat)
    requires n < MAX_GROUPS && sum < Pow128(n) && pos < |bs|
    ensures var whole := Continued(sum, n, Groups(bs, pos, MAX_GROUPS - n));
      var exact := sum + Shl(bs[pos] % 128, 7 * n);
      var sum' := BitOr(sum, Shl(bs[pos] % 128, 7 * n) % TWO64);
      && sum' == exact % TWO64
      && (n < 9 ==> sum' == exact < Pow128(n + 1))
      && (bs[pos] < 128 ==> whole == Got(exact, pos + 1))
      && (128 <= bs[pos] && n < 9 ==> whole == Continued(sum', n + 1, Groups(bs, pos + 1, MAX_GROUPS - (n + 1))))
      && (128 <= bs[pos] && n == 9 ==> whole == Bad(DwarfError(pos + 1, Leb128Overflow), pos + 1))
  {
    hide Shl, Pow128, BitOr, Groups, Continued;
    OrGroup(sum, bs[pos] % 128, n);
    LastByte(bs, pos, sum, n);
    if 128 <= bs[pos] && n < 9 {
      ContinueStep(bs, pos, sum, n);
    }
  }

  lemma LastByte(bs: seq<u8>, pos: nat, sum: nat, n: nat)
    requires n < MAX_GROUPS && pos < |bs|
    ensures bs[pos] < 128 ==>
      Continued(sum, n, Groups(bs, pos, MAX_GROUPS - n)) == Got(sum + Shl(bs[pos] % 128, 7 * n), pos + 1)
    ensures 128 <= bs[pos] && n == 9 ==>
      Continued(sum, n, Groups(bs, pos, MAX_GROUPS - n)) == Bad(DwarfError(pos + 1, Leb128Overflow), pos + 1)
  {
    hide Shl, Pow128;
    ShlGroup(bs[pos] % 128, n);
  }

  class Cursor {
    const bytes: seq<u8>
    const avmaBase: u64
    var pos: nat

    constructor (bytes: seq<u8>, pos: nat, avmaBase: u64)
      ensures this.bytes == bytes && this.pos == pos && this.avmaBase == avmaBase
    {
      this.bytes := bytes;
      this.pos := pos;
      this.avmaBase := avmaBase;
    }

    function CurrentAvma(): u64
      reads this
    {
      Avma(avmaBase, pos)
    }

    method ReadU8() returns (r: Result<u8, DwarfError>)
      modifies this
      ensures Outcome(r, pos) == ReadByte(bytes, old(pos))
    {
      if pos >= |bytes| {
        return Err(DwarfError(pos, Truncated(pos + 1, |bytes|)));
      }
      r := Ok(bytes[pos]);
      pos := pos + 1;
    }

    method ReadWord(width: nat) returns (r: Result<nat, DwarfError>)
      modifies this
      ensures Outcome(r, pos) == ReadLe(bytes, old(pos), width)
    {
      var end := pos + width;
      if end > |bytes| {
        return Err(DwarfError(pos, Truncated(end, |bytes|)));
      }
      r := Ok(LeValue(bytes[pos..end]));
      pos := end;
    }

    method ReadWord64() returns (r: Result<u64, DwarfError>)
      modifies this
      ensures Outcome(r, pos) == ReadU64(bytes, old(pos))
    {
      var w := ReadWord(8);
      PowersOf256();
      r := match w case Ok(v) => Ok(v) case Err(e) => Err(e);
    }

    /** The read-byte, or-in, test-bit loop. */
    method ReadUleb128() returns (r: Result<u64, DwarfError>)
      modifies this
      ensures Outcome(r, pos) == ReadUleb(bytes, old(pos))
    {
      hide Groups, BitOr, Shl, Pow128, Continued;
      var result: u64, shift: nat := 0, 0;
      ghost var n: nat := 0;
      StartLoop(bytes, pos);
      while true
        invariant shift == 7 * n && n < MAX_GROUPS && pos == old(pos) + n
        invariant result < Pow128(n)
        invariant Groups(bytes, old(pos), MAX_GROUPS) == Continued(result, n, Groups(bytes, pos, MAX_GROUPS - n))
        decreases MAX_GROUPS - n
      {
        var byte := ReadU8();
        if byte.Err? {
          NoMoreBytes(bytes, pos, result, n);
          return Err(byte.error);
        }
        Iterate(bytes, pos - 1, result, n);
        result := BitOr(result, Shl(byte.value % 128, shift) % TWO64);
        if byte.value < 128 {
          return Ok(result);
        }
        shift := shift + 7;
        if shift >= 64 {
          return Err(DwarfError(pos, Leb128Overflow));
        }
        n := n + 1;
      }
    }

    /** The signed loop works on the same 64 bits and sign-extends before returning. */
    method ReadSleb128() returns (r: Result<i64, DwarfError>)
      modifies this
      ensures Outcome(r, pos) == ReadSleb(bytes, old(pos))
    {
      hide Groups, BitOr, Shl, Pow128, Continued;
      var result: u64, shift: nat := 0, 0;
      ghost var n: nat := 0;
      StartLoop(bytes, pos);
      while true
        invariant shift == 7 * n && n < MAX_GROUPS && pos == old(pos) + n
        invariant result < Pow128(n)
        invariant Groups(bytes, old(pos), MAX_GROUPS) == Continued(result, n, Groups(bytes, pos, MAX_GROUPS - n))
        decreases MAX_GROUPS - n
      {
        var byte := ReadU8();
        if byte.Err? {
          NoMoreBytes(bytes, pos, result, n);
          return Err(byte.error);
        }
        Iterate(bytes, pos - 1, result, n);
        result := BitOr(result, Shl(byte.value % 128, shift) % TWO64);
        shift := shift + 7;
        if byte.value < 128 {
          if shift < 64 && 64 <= byte.value % 128 {
            SignExtends(result, n + 1);
            PowersOf128(n + 1);
            result := BitOr(result, Shl(U64_MAX, shift) % TWO64);
          }
          return Ok(AsSigned(result));
        }
        if shift >= 64 {
          return Err(DwarfError(pos, Leb128Overflow));
        }
        n := n + 1;
      }
    }

    /** The encoded word, format by format. */
    method ReadRawWord(enc: u8) returns (r: Result<u64, DwarfError>)
      modifies this
      ensures Outcome(r, pos) == ReadRaw(bytes, old(pos), enc)
    {
      hide ReadUleb, ReadSleb, ReadLe;
      PowersOf256();
      var f := Format(enc);
      if f == ABSPTR || f == UDATA8 || f == SDATA8 {
        r := ReadWord64();
      } else if f == UDATA2 || f == SDATA2 {
        var w :- ReadWord(2);
        r := Ok(if f == SDATA2 then SignExtend16(w) else w);
      } else if f == UDATA4 || f == SDATA4 {
        var w :- ReadWord(4);
        r := Ok(if f == SDATA4 then SignExtend32(w) else w);
      } else if f == ULEB128 {
        r := ReadUleb128();
      } else if f == SLEB128 {
        var w :- ReadSleb128();
        r := Ok(AsUnsigned(w));
      } else {
        r := Err(DwarfError(pos, UnsupportedPointerEncoding(enc)));
      }
    }

    /** `read_encoded_impl`. */
    method ReadEncodedPointer(enc: u8, bases: Bases, allowIndirect: bool) returns (r: Result<u64, DwarfError>)
      modifies this
      ensures Outcome(r, pos) == ReadEncoded(bytes, old(pos), enc, avmaBase, bases, allowIndirect)
    {
      hide ReadRaw;
      if enc == OMIT {
        return Err(DwarfError(pos, OmittedPointerEncoding));
      }
      if Indirect(enc) && !allowIndirect {
        return Err(DwarfError(pos, IndirectPointerRequiresDereference(enc)));
      }
      var pcrelBase := CurrentAvma();
      var raw :- ReadRawWord(enc);
      if Indirect(enc) || raw == 0 {
        return Ok(0);
      }
      var base := BaseFor(enc, pcrelBase, bases);
      if base.None? {
        return Err(DwarfError(pos, UnsupportedPointerApplication(enc)));
      }
      r := Ok(WrapAdd(raw, base.value));
    }

    /** The length field shared by both entry kinds. */
    method ReadEntryHead() returns (r: Result<Head, DwarfError>)
      modifies this
      ensures Outcome(r, pos) == ReadHead(bytes, old(pos))
    {
      hide ReadLe;
      PowersOf256();
      var len32 :- ReadWord(4);
      var is64 := len32 == 0xffff_ffff;
      var entryLen := len32;
      if is64 {
        var len64 :- ReadWord64();
        entryLen := len64;
      }
      if pos + entryLen >= TWO64 {
        return Err(DwarfError(pos, EntryLengthOverflow));
      }
      r := Ok(Head(is64, pos + entryLen));
    }

    method ReadEntryId(is64: bool) returns (r: Result<u64, DwarfError>)
      modifies this
      ensures Outcome(r, pos) == ReadIdWord(bytes, old(pos), is64)
    {
      hide ReadLe;
      PowersOf256();
      if is64 {
        r := ReadWord64();
      } else {
        var w := ReadWord(4);
        r := match w case Ok(v) => Ok(v) case Err(e) => Err(e);
      }
    }

    /** The augmentation string: scan for its terminator. */
    method ReadAugmentationString() returns (r: Result<seq<u8>, DwarfError>)
      requires pos <= |bytes|
      modifies this
      ensures Outcome(r, pos) == ReadAugString(bytes, old(pos))
    {
      var end := pos;
      while end < |bytes| && bytes[end] != 0
        invariant pos == old(pos) <= end <= |bytes|
        invariant FindNul(bytes, end) == FindNul(bytes, old(pos))
      {
        end := end + 1;
      }
      if end == |bytes| {
        return Err(DwarfError(pos, UnterminatedAugmentationString));
      }
      r := Ok(bytes[pos..end]);
      pos := end + 1;
    }

    /** Version to return-address column. */
    method ReadFields() returns (r: Result<CieFields, DwarfError>)
      modifies this
      ensures Outcome(r, pos) == ReadCieFields(bytes, old(pos))
    {
      hide ReadUleb, ReadSleb, ReadAugString;
      var version :- ReadU8();
      if version != 1 && version != 3 && version != 4 {
        return Err(DwarfError(pos - 1, UnsupportedCieVersion(version)));
      }
      var augStart := pos;
      var aug :- ReadAugmentationString();
      if version == 4 {
        var addressSize :- ReadU8();
        var segmentSize :- ReadU8();
        if addressSize != 8 || segmentSize != 0 {
          return Err(DwarfError(pos - 2, UnsupportedCieAddressSize(addressSize, segmentSize)));
        }
      }
      var codeAlign :- ReadUleb128();
      var dataAlign :- ReadSleb128();
      var column: u64;
      if version == 1 {
        var b :- ReadU8();
        column := b;
      } else {
        var w :- ReadUleb128();
        column := w;
      }
      r := Ok(CieFields(augStart, aug, codeAlign, dataAlign, column));
    }

    /** The loop over the letters after `z`, updating one local per letter. */
    method ReadAugmentationData(chars: seq<u8>) returns (r: Result<AugState, DwarfError>)
      requires pos <= |bytes|
      modifies this
      ensures Outcome(r, pos) == ReadLetters(bytes, old(pos), avmaBase, chars, NO_AUGMENTATION)
    {
      hide ReadEncoded;
      var fdeEnc, lsdaEnc, personality: u64, signalFrame := ABSPTR, OMIT, 0, false;
      assert chars[0..] == chars;
      for i := 0 to |chars|
        invariant old(pos) <= pos <= |bytes|
        invariant ReadLetters(bytes, old(pos), avmaBase, chars, NO_AUGMENTATION) ==
                  ReadLetters(bytes, pos, avmaBase, chars[i..], AugState(fdeEnc, lsdaEnc, personality, signalFrame))
      {
        var ch := chars[i];
        assert chars[i..][0] == ch && chars[i..][1..] == chars[i + 1..];
        if ch == CHAR_R {
          var e :- ReadU8();
          fdeEnc := e;
        } else if ch == CHAR_L {
          var e :- ReadU8();
          lsdaEnc := e;
        } else if ch == CHAR_P {
          var e :- ReadU8();
          var p :- ReadEncodedPointer(e, NO_BASES, true);
          personality := p;
        } else if ch == CHAR_S {
          signalFrame := true;
        } else if ch != CHAR_B && ch != CHAR_G {
          return Err(DwarfError(pos, UnsupportedAugmentation(ch)));
        }
      }
      r := Ok(AugState(fdeEnc, lsdaEnc, personality, signalFrame));
    }

    method ReadAugmentationOf(f: CieFields) returns (r: Result<AugState, DwarfError>)
      requires pos <= |bytes|
      modifies this
      ensures Outcome(r, pos) == ReadAugmentation(bytes, old(pos), avmaBase, f)
    {
      hide ReadUleb, ReadLetters;
      if Sized(f.aug) {
        var len :- ReadUleb128();
        r := ReadAugmentationData(f.aug[1..]);
      } else if f.aug == [] {
        r := Ok(NO_AUGMENTATION);
      } else {
        r := Err(DwarfError(f.augStart, UnsupportedNonZAugmentation));
      }
    }

    /** The sized augmentation data of an FDE; `end` is the end of the entry. */
    method ReadFdeAugmentationData(end: nat, cfg: FdeConfig, pc: u64) returns (r: Result<u64, DwarfError>)
      modifies this
      ensures Outcome(r, pos) == ReadFdeAugmentation(bytes, old(pos), end, avmaBase, cfg, pc)
    {
      hide ReadUleb, ReadEncoded;
      var lsda: u64 := 0;
      if cfg.hasZ {
        var len :- ReadUleb128();
        var augStart := pos;
        if augStart + len >= TWO64 {
          return Err(DwarfError(augStart, EntryLengthOverflow));
        }
        var augEnd := augStart + len;
        if augEnd > end {
          return Err(DwarfError(augStart, Truncated(augEnd, end)));
        }
        if cfg.lsdaEnc != OMIT {
          var p :- ReadEncodedPointer(cfg.lsdaEnc, Bases(cfg.textBase, cfg.dataBase, pc), false);
          lsda := p;
        }
        if pos > augEnd {
          return Err(DwarfError(augStart, Truncated(pos, augEnd)));
        }
        pos := augEnd;
      }
      r := Ok(lsda);
    }
  }

  /** `parse_cie` on a fresh cursor. */
  method ParseCieEntry(bytes: seq<u8>, offset: nat, avmaBase: u64) returns (r: Result<ParsedCie, DwarfError>)
    ensures r == ParseCie(bytes, offset, avmaBase).ToResult()
  {
    hide ReadHead, ReadIdWord, ReadCieFields, ReadAugmentation;
    var c := new Cursor(bytes, offset, avmaBase);
    var head :- c.ReadEntryHead();
    var idPos := c.pos;
    var id :- c.ReadEntryId(head.is64);
    if id != 0 {
      return Err(DwarfError(idPos, BadCieId(id)));
    }
    var f :- c.ReadFields();
    var a :- c.ReadAugmentationOf(f);
    if head.end > |bytes| {
      return Err(DwarfError(c.pos, Truncated(head.end, |bytes|)));
    }
    r := Ok(ParsedCie(f.codeAlign, f.dataAlign, f.retColumn, a.fdeEnc, a.lsdaEnc, a.personality,
                      Sized(f.aug), a.signalFrame, c.pos, InstrLen(head.end, c.pos)));
  }

  /** `parse_fde` on a fresh cursor. */
  method ParseFdeEntry(bytes: seq<u8>, offset: nat, avmaBase: u64, cfg: FdeConfig) returns (r: Result<ParsedFde, DwarfError>)
    ensures r == ParseFde(bytes, offset, avmaBase, cfg).ToResult()
  {
    hide ReadHead, ReadIdWord, ReadEncoded, ReadFdeAugmentation;
    var c := new Cursor(bytes, offset, avmaBase);
    var head :- c.ReadEntryHead();
    var ptrPos := c.pos;
    var ptr :- c.ReadEntryId(head.is64);
    if ptr == 0 {
      return Err(DwarfError(ptrPos, FdeCiePointerIsZero));
    }
    var pc :- c.ReadEncodedPointer(cfg.fdeEnc, Bases(cfg.textBase, cfg.dataBase, 0), false);
    var range :- c.ReadEncodedPointer(Format(cfg.fdeEnc), NO_BASES, false);
    var lsda :- c.ReadFdeAugmentationData(head.end, cfg, pc);
    if head.end > |bytes| {
      return Err(DwarfError(c.pos, Truncated(head.end, |bytes|)));
    }
    r := Ok(ParsedFde(pc, range, c.pos, InstrLen(head.end, c.pos), lsda));
  }

  lemma NoMoreBytes(bs: seq<u8>, pos: nat, sum: nat, n: nat)
    requires n < MAX_GROUPS && pos >= |bs|
    ensures Continued(sum, n, Groups(bs, pos, MAX_GROUPS - n)) ==
            Bad(DwarfError(pos, Truncated(pos + 1, |bs|)), pos)
  {
  }
}
