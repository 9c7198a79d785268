/** An entry under every length it might declare. The parsers read an entry's fields without
    looking at the declared length, so the same bytes under another length yield the same
    fields, and the instruction range is right exactly for the lengths that reach them. */
module DeclaredLength {
  import opened Words
  import opened Bytes
  import opened Leb128
  import opened PointerEncoding
  import opened Entries

  /** The two strings differ only before `pos`. */
  predicate SameFrom(bs: seq<u8>, bs': seq<u8>, pos: nat) {
    |bs| == |bs'| && forall i :: pos <= i < |bs| ==> bs[i] == bs'[i]
  }

  lemma LeLocal(bs: seq<u8>, bs': seq<u8>, pos: nat, width: nat)
    requires SameFrom(bs, bs', pos)
    ensures ReadLe(bs', pos, width) == ReadLe(bs, pos, width)
  {
    if pos + width <= |bs| {
      assert bs'[pos..pos + width] == bs[pos..pos + width];
    }
  }

  lemma {:induction false} GroupsLocal(bs: seq<u8>, bs': seq<u8>, pos: nat, room: nat)
    requires room > 0 && SameFrom(bs, bs', pos)
    ensures Groups(bs', pos, room) == Groups(bs, pos, room)
    decreases room
  {
    if pos < |bs| && bs[pos] >= 128 && room > 1 {
      GroupsLocal(bs, bs', pos + 1, room - 1);
    }
  }

  lemma LebLocal(bs: seq<u8>, bs': seq<u8>, pos: nat)
    requires SameFrom(bs, bs', pos)
    ensures ReadUleb(bs', pos) == ReadUleb(bs, pos)
    ensures ReadSleb(bs', pos) == ReadSleb(bs, pos)
  {
    hide Groups;
    GroupsLocal(bs, bs', pos, MAX_GROUPS);
  }

  lemma EncodedLocal(bs: seq<u8>, bs': seq<u8>, pos: nat, enc: u8, avmaBase: u64, bases: Bases, allow: bool)
    requires SameFrom(bs, bs', pos)
    ensures ReadEncoded(bs', pos, enc, avmaBase, bases, allow) == ReadEncoded(bs, pos, enc, avmaBase, bases, allow)
  {
    hide ReadLe, ReadUleb, ReadSleb, SameFrom;
    LeLocal(bs, bs', pos, 2);
    LeLocal(bs, bs', pos, 4);
    LeLocal(bs, bs', pos, 8);
    LebLocal(bs, bs', pos);
  }

  lemma IdLocal(bs: seq<u8>, bs': seq<u8>, pos: nat, is64: bool)
    requires SameFrom(bs, bs', pos)
    ensures ReadIdWord(bs', pos, is64) == ReadIdWord(bs, pos, is64)
  {
    LeLocal(bs, bs', pos, if is64 then 8 else 4);
  }

  lemma {:induction false} NulLocal(bs: seq<u8>, bs': seq<u8>, pos: nat)
    requires SameFrom(bs, bs', pos) && pos <= |bs|
    ensures FindNul(bs', pos) == FindNul(bs, pos)
    decreases |bs| - pos
  {
    if pos < |bs| && bs[pos] != 0 {
      NulLocal(bs, bs', pos + 1);
    }
  }

  lemma AugStringLocal(bs: seq<u8>, bs': seq<u8>, pos: nat)
    requires SameFrom(bs, bs', pos) && pos <= |bs|
    ensures ReadAugString(bs', pos) == ReadAugString(bs, pos)
  {
    hide FindNul;
    NulLocal(bs, bs', pos);
    var z := FindNul(bs, pos);
    assert bs'[pos..z] == bs[pos..z];
  }

  lemma CieFieldsLocal(bs: seq<u8>, bs': seq<u8>, pos: nat)
    requires SameFrom(bs, bs', pos)
    ensures ReadCieFields(bs', pos) == ReadCieFields(bs, pos)
  {
    hide ReadUleb, ReadSleb, ReadAugString, ReadAddressSize, ReadReturnColumn;
    if pos < |bs| {
      AugStringLocal(bs, bs', pos + 1);
      var aug := ReadAugString(bs, pos + 1);
      if aug.Got? {
        AddressSizeLocal(bs, bs', aug.next, bs[pos]);
        var size := ReadAddressSize(bs, aug.next, bs[pos]);
        if size.Got? {
          NumbersLocal(bs, bs', size.next, bs[pos]);
        }
      }
    }
  }

  lemma AddressSizeLocal(bs: seq<u8>, bs': seq<u8>, pos: nat, version: u8)
    requires SameFrom(bs, bs', pos) && pos <= |bs|
    ensures ReadAddressSize(bs', pos, version) == ReadAddressSize(bs, pos, version)
  {
  }

  /** Three numbers in a row: the alignments and a return column. */
  lemma NumbersLocal(bs: seq<u8>, bs': seq<u8>, pos: nat, version: u8)
    requires SameFrom(bs, bs', pos)
    ensures var code := ReadUleb(bs, pos);
      && ReadUleb(bs', pos) == code
      && (code.Got? ==>
            var data := ReadSleb(bs, code.next);
            && ReadSleb(bs', code.next) == data
            && (data.Got? ==> ReadReturnColumn(bs', data.next, version) == ReadReturnColumn(bs, data.next, version)))
  {
    hide ReadUleb, ReadSleb;
    LebLocal(bs, bs', pos);
    var code := ReadUleb(bs, pos);
    if code.Got? {
      LebLocal(bs, bs', code.next);
      var data := ReadSleb(bs, code.next);
      if data.Got? {
        LebLocal(bs, bs', data.next);
      }
    }
  }

  lemma LetterLocal(bs: seq<u8>, bs': seq<u8>, pos: nat, avmaBase: u64, ch: u8, st: AugState)
    requires SameFrom(bs, bs', pos) && pos <= |bs|
    ensures ReadLetter(bs', pos, avmaBase, ch, st) == ReadLetter(bs, pos, avmaBase, ch, st)
  {
    hide ReadEncoded;
    if pos < |bs| {
      EncodedLocal(bs, bs', pos + 1, bs[pos], avmaBase, NO_BASES, true);
    }
  }

  lemma {:induction false} LettersLocal(bs: seq<u8>, bs': seq<u8>, pos: nat, avmaBase: u64, chars: seq<u8>, st: AugState)
    requires SameFrom(bs, bs', pos) && pos <= |bs|
    ensures ReadLetters(bs', pos, avmaBase, chars, st) == ReadLetters(bs, pos, avmaBase, chars, st)
    decreases |chars|
  {
    hide ReadLetter;
    if chars != [] {
      LetterLocal(bs, bs', pos, avmaBase, chars[0], st);
      var r := ReadLetter(bs, pos, avmaBase, chars[0], st);
      if r.Got? {
        LettersLocal(bs, bs', r.next, avmaBase, chars[1..], r.value);
      }
    }
  }

  lemma AugmentationLocal(bs: seq<u8>, bs': seq<u8>, pos: nat, avmaBase: u64, f: CieFields)
    requires SameFrom(bs, bs', pos) && pos <= |bs|
    ensures ReadAugmentation(bs', pos, avmaBase, f) == ReadAugmentation(bs, pos, avmaBase, f)
  {
    hide ReadUleb, ReadLetters;
    LebLocal(bs, bs', pos);
    var n := ReadUleb(bs, pos);
    if Sized(f.aug) && n.Got? {
      LettersLocal(bs, bs', n.next, avmaBase, f.aug[1..], NO_AUGMENTATION);
    }
  }

  /** The fields of a CIE, and where they end, do not depend on anything before them. */
  lemma CieBodyLocal(bs: seq<u8>, bs': seq<u8>, pos: nat, is64: bool, avmaBase: u64)
    requires SameFrom(bs, bs', pos)
    ensures ReadCieBody(bs', pos, is64, avmaBase) == ReadCieBody(bs, pos, is64, avmaBase)
    ensures ReadIdWord(bs', pos, is64) == ReadIdWord(bs, pos, is64)
  {
    hide ReadIdWord, ReadCieFields, ReadAugmentation;
    IdLocal(bs, bs', pos, is64);
    var id := ReadIdWord(bs, pos, is64);
    if id.Got? {
      CieFieldsLocal(bs, bs', id.next);
      var f := ReadCieFields(bs, id.next);
      if f.Got? {
        AugmentationLocal(bs, bs', f.next, avmaBase, f.value);
      }
    }
  }

  lemma FdeFieldsLocal(bs: seq<u8>, bs': seq<u8>, pos: nat, is64: bool, avmaBase: u64, cfg: FdeConfig)
    requires SameFrom(bs, bs', pos)
    ensures ReadFdeFields(bs', pos, is64, avmaBase, cfg) == ReadFdeFields(bs, pos, is64, avmaBase, cfg)
    ensures ReadIdWord(bs', pos, is64) == ReadIdWord(bs, pos, is64)
  {
    hide ReadIdWord, ReadEncoded;
    IdLocal(bs, bs', pos, is64);
    var id := ReadIdWord(bs, pos, is64);
    if id.Got? {
      var bases := Bases(cfg.textBase, cfg.dataBase, 0);
      EncodedLocal(bs, bs', id.next, cfg.fdeEnc, avmaBase, bases, false);
      var pc := ReadEncoded(bs, id.next, cfg.fdeEnc, avmaBase, bases, false);
      if pc.Got? {
        EncodedLocal(bs, bs', pc.next, Format(cfg.fdeEnc), avmaBase, NO_BASES, false);
      }
    }
  }

  /** `bs'` is `bs` with another length in the length field, of the same size, at `offset`. */
  predicate Relengthed(bs: seq<u8>, bs': seq<u8>, offset: nat) {
    var head, head' := ReadHead(bs, offset), ReadHead(bs', offset);
    head.Got? && head'.Got? && head'.value.is64 == head.value.is64 && SameFrom(bs, bs', head.next)
  }

  /** Declare any other length for a CIE that parses: it still parses exactly when the length
      stays in the section, all fields stay, and the instruction range is right, and inside
      the section, exactly when the length reaches the end of the fields. */
  lemma LengthDecidesCie(bs: seq<u8>, bs': seq<u8>, offset: nat, avmaBase: u64)
    requires ParseCie(bs, offset, avmaBase).Got? && Relengthed(bs, bs', offset)
    requires |bs| < 0x8000_0000_0000_0000
    ensures var head, head' := ReadHead(bs, offset), ReadHead(bs', offset);
      var fields := ReadCieBody(bs, head.next, head.value.is64, avmaBase);
      var r, r' := ParseCie(bs, offset, avmaBase), ParseCie(bs', offset, avmaBase);
      && fields.Got?
      && (r'.Got? <==> head'.value.end <= |bs|)
      && (r'.Got? ==>
            var cie := r'.value;
            && cie == r.value.(instrLen := cie.instrLen)
            && (cie.instrOffset + cie.instrLen == head'.value.end <==> fields.next <= head'.value.end)
            && (cie.instrOffset + cie.instrLen <= |bs| <==> fields.next <= head'.value.end))
  {
    hide ReadHead, ReadIdWord, ReadCieFields, ReadAugmentation, SameFrom, InstrLen;
    var head := ReadHead(bs, offset);
    CieBodyLocal(bs, bs', head.next, head.value.is64, avmaBase);
    ParsesByBody(bs, offset, avmaBase);
    ParsesByBody(bs', offset, avmaBase);
    SameSize(bs, bs', head.next);
    if ParseCie(bs', offset, avmaBase).Got? {
      CieInstructions(bs', offset, avmaBase);
    }
  }

  lemma SameSize(bs: seq<u8>, bs': seq<u8>, pos: nat)
    requires SameFrom(bs, bs', pos)
    ensures |bs| == |bs'|
  {
  }

  /** `parse_cie` by its length, its id and its fields. */
  lemma ParsesByBody(bs: seq<u8>, offset: nat, avmaBase: u64)
    requires ReadHead(bs, offset).Got?
    ensures var head := ReadHead(bs, offset);
      var id := ReadIdWord(bs, head.next, head.value.is64);
      var body := ReadCieBody(bs, head.next, head.value.is64, avmaBase);
      && (ParseCie(bs, offset, avmaBase).Got? <==> body.Got? && id.value == 0 && head.value.end <= |bs|)
      && (body.Got? && id.value == 0 ==>
            ParseCie(bs, offset, avmaBase) == FinishCie(bs, body.next, head.value, body.value.0, body.value.1))
  {
    hide ReadHead, ReadIdWord, ReadCieFields, ReadAugmentation, InstrLen;
  }

  /** The same for an FDE without sized augmentation data. */
  lemma LengthDecidesFde(bs: seq<u8>, bs': seq<u8>, offset: nat, avmaBase: u64, cfg: FdeConfig)
    requires !cfg.hasZ && |bs| < 0x8000_0000_0000_0000
    requires ParseFde(bs, offset, avmaBase, cfg).Got? && Relengthed(bs, bs', offset)
    ensures var head, head' := ReadHead(bs, offset), ReadHead(bs', offset);
      var fields := ReadFdeFields(bs, head.next, head.value.is64, avmaBase, cfg);
      var r, r' := ParseFde(bs, offset, avmaBase, cfg), ParseFde(bs', offset, avmaBase, cfg);
      && fields.Got?
      && (r'.Got? <==> head'.value.end <= |bs|)
      && (r'.Got? ==>
            var fde := r'.value;
            && fde == r.value.(instrLen := fde.instrLen)
            && (fde.instrOffset + fde.instrLen == head'.value.end <==> fields.next <= head'.value.end)
            && (fde.instrOffset + fde.instrLen <= |bs| <==> fields.next <= head'.value.end))
  {
    hide ReadHead, ReadIdWord, ReadEncoded, SameFrom, InstrLen;
    var head := ReadHead(bs, offset);
    FdeFieldsLocal(bs, bs', head.next, head.value.is64, avmaBase, cfg);
    ParsesByFields(bs, offset, avmaBase, cfg);
    ParsesByFields(bs', offset, avmaBase, cfg);
    SameSize(bs, bs', head.next);
    if ParseFde(bs', offset, avmaBase, cfg).Got? {
      UnsizedFdeInstructions(bs', offset, avmaBase, cfg);
    }
  }

  lemma ParsesByFields(bs: seq<u8>, offset: nat, avmaBase: u64, cfg: FdeConfig)
    requires !cfg.hasZ && ReadHead(bs, offset).Got?
    ensures var head := ReadHead(bs, offset);
      var id := ReadIdWord(bs, head.next, head.value.is64);
      var fields := ReadFdeFields(bs, head.next, head.value.is64, avmaBase, cfg);
      && (ParseFde(bs, offset, avmaBase, cfg).Got? <==> fields.Got? && id.value != 0 && head.value.end <= |bs|)
      && (fields.Got? && id.value != 0 ==>
            ParseFde(bs, offset, avmaBase, cfg) == FinishFde(bs, fields.next, head.value, fields.value.0, fields.value.1, 0))
  {
    hide ReadHead, ReadIdWord, ReadEncoded, InstrLen;
  }
}
