/** Which byte strings `parse_cie`, `parse_fde` and `parse_function_details` accept, and which
    error each of the others gets: the first check that fails, at the position it fails at. */
module Refusals {
  import opened Words
  import opened Bytes
  import opened Leb128
  import opened PointerEncoding
  import opened Entries
  import T = EhFrameTable
  import opened FunctionLookup

  predicate Refused<A>(r: Read<A>, offset: nat, kind: ErrorKind) {
    r.Bad? && r.error == DwarfError(offset, kind)
  }

  // ---------------------------------------------------------------------------
  // Words and pointers

  /** A fixed-width word is there or it is truncated. */
  lemma WordOutcome(bs: seq<u8>, pos: nat, width: nat)
    ensures var r := ReadLe(bs, pos, width);
      && (r.Got? <==> pos + width <= |bs|)
      && (r.Got? ==> r.next == pos + width && At(bs, pos, LeBytes(r.value, width)))
      && (!r.Got? ==> r == Bad(DwarfError(pos, Truncated(pos + width, |bs|)), pos))
  {
    if pos + width <= |bs| {
      LeInverse(bs[pos..pos + width]);
    }
  }

  lemma {:induction false} LeInverse(w: seq<u8>)
    ensures LeBytes(LeValue(w), |w|) == w
  {
    if w != [] {
      LeInverse(w[1..]);
    }
  }

  /** A pointer is accepted exactly when its encoding allows it, its raw word is there, and a
      present direct word has a base to be added to. */
  lemma PointerAccepted(bs: seq<u8>, pos: nat, enc: u8, avmaBase: u64, bases: Bases, allowIndirect: bool)
    ensures var r, raw := ReadEncoded(bs, pos, enc, avmaBase, bases, allowIndirect), ReadRaw(bs, pos, enc);
      && (r.Got? <==>
            && enc != 0xff && (128 <= enc ==> allowIndirect) && raw.Got?
            && (128 <= enc || raw.value == 0 || enc % 128 < 0x50))
      && (r.Got? ==> r.next == raw.next)
  {
    hide ReadRaw;
  }

  lemma PointerRefusals(bs: seq<u8>, pos: nat, enc: u8, avmaBase: u64, bases: Bases, allowIndirect: bool)
    requires enc != 0xff && (128 <= enc ==> allowIndirect)
    ensures var r, raw := ReadEncoded(bs, pos, enc, avmaBase, bases, allowIndirect), ReadRaw(bs, pos, enc);
      && (raw.Bad? ==> r == Bad(raw.error, raw.next))
      && (raw.Got? && enc < 128 && raw.value != 0 && 0x50 <= enc ==> Refused(r, raw.next, UnsupportedPointerApplication(enc)))
  {
    hide ReadRaw;
  }

  /** The raw word by format: sign-extended or not, in 2, 4 or 8 bytes, or a LEB128 number. */
  lemma RawOutcome(bs: seq<u8>, pos: nat, enc: u8)
    ensures var r, f := ReadRaw(bs, pos, enc), enc % 16;
      && (f in {0x00, 0x04, 0x0c} ==> r.ToResult() == Widened(bs, pos, 8, TWO64))
      && (f == 0x02 ==> r.ToResult() == Widened(bs, pos, 2, TWO64))
      && (f == 0x0a ==> r.ToResult() == Widened(bs, pos, 2, 0x8000))
      && (f == 0x03 ==> r.ToResult() == Widened(bs, pos, 4, TWO64))
      && (f == 0x0b ==> r.ToResult() == Widened(bs, pos, 4, 0x8000_0000))
      && (f == 0x01 ==> r == ReadUleb(bs, pos))
      && (f == 0x09 ==> (r.Got? <==> ReadSleb(bs, pos).Got?) && (r.Got? ==> AsSigned(r.value) == ReadSleb(bs, pos).value))
      && (f !in {0x00, 0x01, 0x02, 0x03, 0x04, 0x09, 0x0a, 0x0b, 0x0c} ==> Refused(r, pos, UnsupportedPointerEncoding(enc)))
  {
    hide LeValue, ReadUleb, ReadSleb;
    PowersOf256();
  }

  /** A word of `width` bytes, extended by ones from `signFrom` up. */
  function Widened(bs: seq<u8>, pos: nat, width: nat, signFrom: nat): Result<int, DwarfError> {
    if pos + width > |bs| then Err(DwarfError(pos, Truncated(pos + width, |bs|)))
    else
      var v := LeValue(bs[pos..pos + width]);
      Ok(if v < signFrom then v else v + TWO64 - Pow256(width))
  }

  // ---------------------------------------------------------------------------
  // parse_cie

  predicate KnownLetter(ch: u8) {
    ch in {0x52, 0x4c, 0x50, 0x53, 0x42, 0x47}
  }

  /** The fields of a CIE up to its augmentation data, check by check. `z` is the first NUL. */
  lemma CieFieldsRefusals(bs: seq<u8>, pos: nat, z: nat)
    ensures var r := ReadCieFields(bs, pos);
      && (|bs| <= pos ==> Refused(r, pos, Truncated(pos + 1, |bs|)))
      && (pos < |bs| && bs[pos] !in {1, 3, 4} ==> Refused(r, pos, UnsupportedCieVersion(bs[pos])))
      && (pos < |bs| && bs[pos] in {1, 3, 4} && (forall i :: pos < i < |bs| ==> bs[i] != 0) ==>
            Refused(r, pos + 1, UnterminatedAugmentationString))
      && (pos < z < |bs| && bs[pos] == 4 && bs[z] == 0 && (forall i :: pos < i < z ==> bs[i] != 0) && z + 2 < |bs|
            && (bs[z + 1] != 8 || bs[z + 2] != 0) ==>
              Refused(r, z + 1, UnsupportedCieAddressSize(bs[z + 1], bs[z + 2])))
  {
    hide ReadUleb, ReadSleb;
    if pos < |bs| {
      var nul := FindNul(bs, pos + 1);
      assert pos < z < |bs| && bs[z] == 0 && (forall i :: pos < i < z ==> bs[i] != 0) ==> nul == z;
    }
  }

  /** The accepted fields: a known version, the string up to its NUL, in version 4 the two sizes. */
  lemma CieStringAccepted(bs: seq<u8>, pos: nat)
    requires ReadCieFields(bs, pos).Got?
    ensures pos < |bs| && bs[pos] in {1, 3, 4}
    ensures var f := ReadCieFields(bs, pos).value;
      && f.augStart == pos + 1
      && var z := pos + 1 + |f.aug|;
      && z < |bs| && bs[z] == 0 && f.aug == bs[pos + 1..z] && (forall i :: pos < i < z ==> bs[i] != 0)
      && (bs[pos] == 4 ==> z + 2 < |bs| && bs[z + 1] == 8 && bs[z + 2] == 0)
  {
    hide ReadUleb, ReadSleb, ReadAugString, ReadAddressSize, ReadReturnColumn;
    StringAccepted(bs, pos + 1);
    SizeAccepted(bs, ReadAugString(bs, pos + 1).next, bs[pos]);
  }

  /** Then the two alignments and the return column, which version 1 keeps in one byte. */
  lemma CieNumbersAccepted(bs: seq<u8>, pos: nat, at: nat)
    requires ReadCieFields(bs, pos).Got? && pos < |bs|
    requires at == pos + 2 + |ReadCieFields(bs, pos).value.aug| + if bs[pos] == 4 then 2 else 0
    ensures var r, code := ReadCieFields(bs, pos), ReadUleb(bs, at);
      && code.Got? && code.value == r.value.codeAlign
      && var data := ReadSleb(bs, code.next);
      && data.Got? && data.value == r.value.dataAlign
      && (bs[pos] == 1 ==> r.next == data.next + 1 <= |bs| && r.value.retColumn == bs[data.next])
      && (bs[pos] != 1 ==> ReadUleb(bs, data.next) == Got(r.value.retColumn, r.next))
  {
    hide ReadUleb, ReadSleb, ReadAugString, ReadAddressSize, ReadReturnColumn;
    StringAccepted(bs, pos + 1);
    SizeAccepted(bs, ReadAugString(bs, pos + 1).next, bs[pos]);
    ColumnOutcome(bs, ReadSleb(bs, ReadUleb(bs, at).next).next, bs[pos]);
  }

  lemma StringAccepted(bs: seq<u8>, pos: nat)
    requires pos <= |bs| && ReadAugString(bs, pos).Got?
    ensures var r := ReadAugString(bs, pos);
      var z := pos + |r.value|;
      && r.next == z + 1 <= |bs| && bs[z] == 0 && r.value == bs[pos..z] && (forall i :: pos <= i < z ==> bs[i] != 0)
  {
    hide FindNul;
  }

  lemma SizeAccepted(bs: seq<u8>, pos: nat, version: u8)
    requires pos <= |bs| && ReadAddressSize(bs, pos, version).Got?
    ensures var r := ReadAddressSize(bs, pos, version);
      && (version == 4 ==> pos + 2 == r.next <= |bs| && bs[pos] == 8 && bs[pos + 1] == 0)
      && (version != 4 ==> r.next == pos)
  {
  }

  lemma ColumnOutcome(bs: seq<u8>, pos: nat, version: u8)
    ensures var r := ReadReturnColumn(bs, pos, version);
      && (version == 1 ==> (r.Got? <==> pos < |bs|) && (r.Got? ==> r.value == bs[pos] && r.next == pos + 1))
      && (version != 1 ==> r == ReadUleb(bs, pos))
  {
    hide ReadUleb;
  }

  /** A letter is refused as unknown exactly when it is. */
  lemma LetterRefusal(bs: seq<u8>, pos: nat, avmaBase: u64, ch: u8, st: AugState)
    requires pos <= |bs|
    ensures var r := ReadLetter(bs, pos, avmaBase, ch, st);
      && (!KnownLetter(ch) ==> Refused(r, pos, UnsupportedAugmentation(ch)))
      && (r.Bad? && r.error.kind.UnsupportedAugmentation? ==> !KnownLetter(ch) && r.error.kind.byte == ch)
      && (ch in {0x53, 0x42, 0x47} ==> r.Got? && r.next == pos)
      && (ch in {0x52, 0x4c} ==> (r.Got? <==> pos < |bs|))
  {
    hide ReadEncoded;
    if ch == CHAR_P && pos < |bs| {
      PointerErrors(bs, pos + 1, bs[pos], avmaBase, NO_BASES, true);
    }
  }

  lemma PointerErrors(bs: seq<u8>, pos: nat, enc: u8, avmaBase: u64, bases: Bases, allow: bool)
    ensures var r := ReadEncoded(bs, pos, enc, avmaBase, bases, allow);
      r.Bad? ==> !r.error.kind.UnsupportedAugmentation? && !r.error.kind.UnsupportedNonZAugmentation?
  {
    hide Groups, LeValue;
    LebErrors(bs, pos, MAX_GROUPS);
  }

  /** The first unknown letter that is reached is reported, where its data would start. */
  lemma {:induction false} UnknownLetter(bs: seq<u8>, pos: nat, avmaBase: u64, chars: seq<u8>, st: AugState, k: nat)
    requires pos <= |bs| && k < |chars| && !KnownLetter(chars[k])
    requires ReadLetters(bs, pos, avmaBase, chars[..k], st).Got?
    ensures Refused(ReadLetters(bs, pos, avmaBase, chars, st), ReadLetters(bs, pos, avmaBase, chars[..k], st).next,
                    UnsupportedAugmentation(chars[k]))
    decreases k
  {
    hide ReadLetter, KnownLetter;
    if k == 0 {
      LetterRefusal(bs, pos, avmaBase, chars[0], st);
    } else {
      var r := ReadLetter(bs, pos, avmaBase, chars[0], st);
      assert chars[..k][0] == chars[0] && chars[..k][1..] == chars[1..][..k - 1];
      UnknownLetter(bs, r.next, avmaBase, chars[1..], r.value, k - 1);
    }
  }

  /** Accepted letters are all known. */
  lemma {:induction false} LettersAreKnown(bs: seq<u8>, pos: nat, avmaBase: u64, chars: seq<u8>, st: AugState)
    requires pos <= |bs| && ReadLetters(bs, pos, avmaBase, chars, st).Got?
    ensures forall i :: 0 <= i < |chars| ==> KnownLetter(chars[i])
    decreases |chars|
  {
    hide ReadLetter, KnownLetter;
    if chars != [] {
      LetterRefusal(bs, pos, avmaBase, chars[0], st);
      var r := ReadLetter(bs, pos, avmaBase, chars[0], st);
      LettersAreKnown(bs, r.next, avmaBase, chars[1..], r.value);
      assert forall i :: 0 < i < |chars| ==> chars[i] == chars[1..][i - 1];
    }
  }

  /** A string that does not start with z must be empty; its letters after the z are read. */
  lemma AugmentationOutcome(bs: seq<u8>, pos: nat, avmaBase: u64, f: CieFields)
    requires pos <= |bs|
    ensures var r := ReadAugmentation(bs, pos, avmaBase, f);
      && (f.aug == [] ==> r == Got(AugState(0x00, 0xff, 0, false), pos))
      && (f.aug != [] && f.aug[0] != 0x7a ==> Refused(r, f.augStart, UnsupportedNonZAugmentation))
      && (f.aug != [] && f.aug[0] == 0x7a ==>
            var n := ReadUleb(bs, pos);
            && (n.Bad? ==> r == Bad(n.error, n.next))
            && (n.Got? ==> r == ReadLetters(bs, n.next, avmaBase, f.aug[1..], AugState(0x00, 0xff, 0, false))))
  {
    hide ReadUleb, ReadLetters;
  }

  /** A CIE by its length, id and fields: the first that fails is reported, and an accepted
      entry ends inside the section. */
  lemma CieOutcome(bs: seq<u8>, offset: nat, avmaBase: u64)
    ensures var r, head := ParseCie(bs, offset, avmaBase), ReadHead(bs, offset);
      && (head.Bad? ==> Refused(r, head.error.offset, head.error.kind))
      && (head.Got? ==>
            var id := ReadIdWord(bs, head.next, head.value.is64);
            && (id.Bad? ==> Refused(r, id.error.offset, id.error.kind))
            && (id.Got? && id.value != 0 ==> Refused(r, head.next, BadCieId(id.value)))
            && (id.Got? && id.value == 0 ==>
                  var body := ReadCieBody(bs, head.next, head.value.is64, avmaBase);
                  && (body.Bad? ==> Refused(r, body.error.offset, body.error.kind))
                  && (body.Got? && |bs| < head.value.end ==> Refused(r, body.next, Truncated(head.value.end, |bs|)))
                  && (r.Got? <==> body.Got? && head.value.end <= |bs|)))
  {
    hide ReadHead, ReadIdWord, ReadCieFields, ReadAugmentation, InstrLen;
  }

  /** The length field: 4 bytes, or 12 after the escape, and an end that fits an address. */
  lemma HeadOutcome(bs: seq<u8>, pos: nat)
    ensures var r := ReadHead(bs, pos);
      && (|bs| < pos + 4 ==> Refused(r, pos, Truncated(pos + 4, |bs|)))
      && (pos + 4 <= |bs| ==>
            var len := LeValue(bs[pos..pos + 4]);
            && (len != 0xffff_ffff && pos + 4 + len < TWO64 ==> r == Got(Head(false, pos + 4 + len), pos + 4))
            && (len != 0xffff_ffff && TWO64 <= pos + 4 + len ==> Refused(r, pos + 4, EntryLengthOverflow))
            && (len == 0xffff_ffff && |bs| < pos + 12 ==> Refused(r, pos + 4, Truncated(pos + 12, |bs|)))
            && (len == 0xffff_ffff && pos + 12 <= |bs| ==>
                  var len64 := LeValue(bs[pos + 4..pos + 12]);
                  && (pos + 12 + len64 < TWO64 ==> r == Got(Head(true, pos + 12 + len64), pos + 12))
                  && (TWO64 <= pos + 12 + len64 ==> Refused(r, pos + 12, EntryLengthOverflow))))
  {
    hide LeValue;
  }

  // ---------------------------------------------------------------------------
  // parse_fde

  /** The sized augmentation data ends at `end` or before, and so does the LSDA pointer in it. */
  lemma FdeAugmentationOutcome(bs: seq<u8>, pos: nat, end: nat, avmaBase: u64, cfg: FdeConfig, pc: u64)
    requires cfg.hasZ
    ensures var r, len := ReadFdeAugmentation(bs, pos, end, avmaBase, cfg, pc), ReadUleb(bs, pos);
      && (len.Bad? ==> Refused(r, len.error.offset, len.error.kind))
      && (len.Got? ==>
            var stop := len.next + len.value;
            && (TWO64 <= stop ==> Refused(r, len.next, EntryLengthOverflow))
            && (end < stop < TWO64 ==> Refused(r, len.next, Truncated(stop, end)))
            && (stop <= end && stop < TWO64 ==>
                  if cfg.lsdaEnc == 0xff then r == Got(0, stop)
                  else
                    var p := ReadEncoded(bs, len.next, cfg.lsdaEnc, avmaBase, Bases(cfg.textBase, cfg.dataBase, pc), false);
                    && (p.Bad? ==> Refused(r, p.error.offset, p.error.kind))
                    && (p.Got? && stop < p.next ==> Refused(r, len.next, Truncated(p.next, stop)))
                    && (p.Got? && p.next <= stop ==> r == Got(p.value, stop))))
  {
    hide ReadUleb, ReadEncoded;
  }

  /** An FDE by its length, CIE pointer, start, range and augmentation data. */
  lemma FdeOutcome(bs: seq<u8>, offset: nat, avmaBase: u64, cfg: FdeConfig)
    ensures var r, head := ParseFde(bs, offset, avmaBase, cfg), ReadHead(bs, offset);
      && (head.Bad? ==> Refused(r, head.error.offset, head.error.kind))
      && (head.Got? ==>
            var id := ReadIdWord(bs, head.next, head.value.is64);
            && (id.Bad? ==> Refused(r, id.error.offset, id.error.kind))
            && (id.Got? && id.value == 0 ==> Refused(r, head.next, FdeCiePointerIsZero))
            && (id.Got? && id.value != 0 ==>
                  var fields := ReadFdeFields(bs, head.next, head.value.is64, avmaBase, cfg);
                  && (fields.Bad? ==> Refused(r, fields.error.offset, fields.error.kind))
                  && (fields.Got? ==>
                        var aug := ReadFdeAugmentation(bs, fields.next, head.value.end, avmaBase, cfg, fields.value.0);
                        && (aug.Bad? ==> Refused(r, aug.error.offset, aug.error.kind))
                        && (aug.Got? && |bs| < head.value.end ==> Refused(r, aug.next, Truncated(head.value.end, |bs|)))
                        && (aug.Got? && head.value.end <= |bs| ==>
                              && r.Got? && r.value.lsda == aug.value && r.value.instrOffset == aug.next
                              && (r.value.initialPc, r.value.addressRange) == fields.value))))
  {
    hide ReadHead, ReadIdWord, ReadEncoded, ReadFdeAugmentation, InstrLen;
  }

  // ---------------------------------------------------------------------------
  // parse_function_details

  /** The CIE of the FDE at `off`: the stored distance counts back from its own position. */
  lemma CieOffsetOutcome(eh: seq<u8>, off: nat)
    ensures var r := CieOffset(eh, off);
      && (|eh| < off + 4 ==> r == Err(FdeLengthPrefixTruncated(off, |eh|)))
      && (off + 4 <= |eh| ==>
            var wide := LeValue(eh[off..off + 4]) == 0xffff_ffff;
            var at, width := off + (if wide then 12 else 4), if wide then 8 else 4;
            && (|eh| < at + width ==> r == Err(CiePointerTruncated(at, |eh|)))
            && (at + width <= |eh| ==>
                  var ptr := LeValue(eh[at..at + width]);
                  && (at < ptr ==> r.Err? && r.error.CiePointerUnderflow? && r.error.ptrOffset == at && r.error.ciePtr == ptr)
                  && (ptr <= at ==> r.Ok? && r.value + ptr == at)))
  {
    hide LeValue;
  }

  /** Every outcome of a lookup, by what the header leads to. */
  lemma LookupOutcome(m: Image, ip: u64)
    ensures var r := ParseFunctionDetails(m, ip);
      && (m.hdr.None? || m.eh.None? ==> r == Err(MissingLocalUnwindSections(ip)))
      && (m.hdr.Some? && m.eh.Some? ==>
            match T.Lookup(m.hdr.value, m.table, ip) {
              case None => r == Err(EhFrameHeaderLookupMiss(ip))
              case Some((_, at)) =>
                && (at < m.ehAvma ==> r == Err(FdeOffsetBeforeEhFrame(at, m.ehAvma)))
                && (m.ehAvma + |m.eh.value| <= at ==> r == Err(FdeOffsetOutOfRange(at - m.ehAvma, |m.eh.value|)))
                && (m.ehAvma <= at < m.ehAvma + |m.eh.value| ==> EntryOutcome(m, ip, at - m.ehAvma, r))
            })
  {
    hide T.Lookup, CieOffset, ParseCie, ParseFde, BuildInfo;
  }

  /** The lookup of `ip` was led to the FDE at `off` of `.eh_frame`. */
  ghost predicate EntryOutcome(m: Image, ip: u64, off: nat, r: Result<FunctionDetails, LookupError>)
    requires m.eh.Some?
  {
    var back := CieOffset(m.eh.value, off);
    && (back.Err? ==> r == Err(back.error))
    && (back.Ok? ==>
          var cie := ParseCie(m.eh.value, back.value, m.ehAvma);
          && (cie.Bad? ==> r == Err(CieParse(back.value, cie.error)))
          && (cie.Got? ==>
                var cfg := FdeConfig(cie.value.fdeEnc, cie.value.lsdaEnc, cie.value.hasZ, m.textBase, m.dataBase);
                var fde := ParseFde(m.eh.value, off, m.ehAvma, cfg);
                && (fde.Bad? ==> r == Err(FdeParse(off, fde.error)))
                && (fde.Got? ==>
                      var start, stop := fde.value.initialPc, fde.value.initialPc + fde.value.addressRange;
                      && (r.Ok? <==> start <= ip < stop < TWO64)
                      && (r.Ok? ==> r.value.startIp == start && r.value.endIp == stop)
                      && (r.Err? ==> r == Err(EhFrameHeaderLookupMiss(ip))))))
  }
}
