/** A successful parse looks at no byte past the section it was given: appending
    bytes to `.eh_frame` changes nothing. */
module Stability {
  import opened Words
  import opened Bytes
  import opened Leb128
  import opened PointerEncoding
  import opened Entries

  lemma LeStable(bs: seq<u8>, more: seq<u8>, pos: nat, width: nat)
    requires ReadLe(bs, pos, width).Got?
    ensures ReadLe(bs + more, pos, width) == ReadLe(bs, pos, width)
  {
    assert (bs + more)[pos..pos + width] == bs[pos..pos + width];
  }

  lemma {:induction false} GroupsStable(bs: seq<u8>, more: seq<u8>, pos: nat, room: nat)
    requires room > 0 && Groups(bs, pos, room).Got?
    ensures Groups(bs + more, pos, room) == Groups(bs, pos, room)
    decreases room
  {
    if bs[pos] >= 128 {
      GroupsStable(bs, more, pos + 1, room - 1);
    }
  }

  lemma UlebStable(bs: seq<u8>, more: seq<u8>, pos: nat)
    requires ReadUleb(bs, pos).Got?
    ensures ReadUleb(bs + more, pos) == ReadUleb(bs, pos)
  {
    GroupsStable(bs, more, pos, MAX_GROUPS);
  }

  lemma SlebStable(bs: seq<u8>, more: seq<u8>, pos: nat)
    requires ReadSleb(bs, pos).Got?
    ensures ReadSleb(bs + more, pos) == ReadSleb(bs, pos)
  {
    GroupsStable(bs, more, pos, MAX_GROUPS);
  }

  lemma RawStable(bs: seq<u8>, more: seq<u8>, pos: nat, enc: u8)
    requires ReadRaw(bs, pos, enc).Got?
    ensures ReadRaw(bs + more, pos, enc) == ReadRaw(bs, pos, enc)
  {
    hide ReadLe, ReadUleb, ReadSleb;
    var f := Format(enc);
    if f == UDATA2 || f == SDATA2 {
      LeStable(bs, more, pos, 2);
    } else if f == UDATA4 || f == SDATA4 {
      LeStable(bs, more, pos, 4);
    } else if f == ULEB128 {
      UlebStable(bs, more, pos);
    } else if f == SLEB128 {
      SlebStable(bs, more, pos);
    } else {
      LeStable(bs, more, pos, 8);
    }
  }

  lemma EncodedStable(bs: seq<u8>, more: seq<u8>, pos: nat, enc: u8, avmaBase: u64, bases: Bases, allow: bool)
    requires ReadEncoded(bs, pos, enc, avmaBase, bases, allow).Got?
    ensures ReadEncoded(bs + more, pos, enc, avmaBase, bases, allow) ==
            ReadEncoded(bs, pos, enc, avmaBase, bases, allow)
  {
    hide ReadRaw;
    RawStable(bs, more, pos, enc);
  }

  lemma HeadStable(bs: seq<u8>, more: seq<u8>, pos: nat)
    requires ReadHead(bs, pos).Got?
    ensures ReadHead(bs + more, pos) == ReadHead(bs, pos)
  {
    hide ReadLe;
    LeStable(bs, more, pos, 4);
    if ReadHead(bs, pos).value.is64 {
      LeStable(bs, more, pos + 4, 8);
    }
  }

  lemma IdStable(bs: seq<u8>, more: seq<u8>, pos: nat, is64: bool)
    requires ReadIdWord(bs, pos, is64).Got?
    ensures ReadIdWord(bs + more, pos, is64) == ReadIdWord(bs, pos, is64)
  {
    LeStable(bs, more, pos, if is64 then 8 else 4);
  }

  lemma {:induction false} NulStable(bs: seq<u8>, more: seq<u8>, pos: nat)
    requires pos <= |bs| && FindNul(bs, pos) < |bs|
    ensures FindNul(bs + more, pos) == FindNul(bs, pos)
    decreases |bs| - pos
  {
    if bs[pos] != 0 {
      NulStable(bs, more, pos + 1);
    }
  }

  lemma CieFieldsStable(bs: seq<u8>, more: seq<u8>, pos: nat)
    requires ReadCieFields(bs, pos).Got?
    ensures ReadCieFields(bs + more, pos) == ReadCieFields(bs, pos)
  {
    hide ReadUleb, ReadSleb, FindNul;
    var p1 := pos + 1;
    NulStable(bs, more, p1);
    var z := FindNul(bs, p1);
    assert (bs + more)[p1..z] == bs[p1..z];
    var p3 := ReadAddressSize(bs, z + 1, bs[pos]).next;
    UlebStable(bs, more, p3);
    var p4 := ReadUleb(bs, p3).next;
    SlebStable(bs, more, p4);
    if bs[pos] != 1 {
      UlebStable(bs, more, ReadSleb(bs, p4).next);
    }
  }

  lemma LetterStable(bs: seq<u8>, more: seq<u8>, pos: nat, avmaBase: u64, ch: u8, st: AugState)
    requires pos <= |bs| && ReadLetter(bs, pos, avmaBase, ch, st).Got?
    ensures ReadLetter(bs + more, pos, avmaBase, ch, st) == ReadLetter(bs, pos, avmaBase, ch, st)
  {
    hide ReadEncoded;
    if ch == CHAR_P {
      EncodedStable(bs, more, pos + 1, bs[pos], avmaBase, NO_BASES, true);
    }
  }

  lemma {:induction false} LettersStable(bs: seq<u8>, more: seq<u8>, pos: nat, avmaBase: u64, chars: seq<u8>, st: AugState)
    requires pos <= |bs| && ReadLetters(bs, pos, avmaBase, chars, st).Got?
    ensures ReadLetters(bs + more, pos, avmaBase, chars, st) == ReadLetters(bs, pos, avmaBase, chars, st)
    decreases |chars|
  {
    hide ReadLetter;
    if chars != [] {
      LetterStable(bs, more, pos, avmaBase, chars[0], st);
      var r := ReadLetter(bs, pos, avmaBase, chars[0], st);
      LettersStable(bs, more, r.next, avmaBase, chars[1..], r.value);
    }
  }

  lemma AugmentationStable(bs: seq<u8>, more: seq<u8>, pos: nat, avmaBase: u64, f: CieFields)
    requires pos <= |bs| && ReadAugmentation(bs, pos, avmaBase, f).Got?
    ensures ReadAugmentation(bs + more, pos, avmaBase, f) == ReadAugmentation(bs, pos, avmaBase, f)
  {
    hide ReadUleb, ReadLetters;
    if Sized(f.aug) {
      UlebStable(bs, more, pos);
      LettersStable(bs, more, ReadUleb(bs, pos).next, avmaBase, f.aug[1..], NO_AUGMENTATION);
    }
  }

  lemma CieStable(bs: seq<u8>, more: seq<u8>, offset: nat, avmaBase: u64)
    requires ParseCie(bs, offset, avmaBase).Got?
    ensures ParseCie(bs + more, offset, avmaBase) == ParseCie(bs, offset, avmaBase)
  {
    hide ReadHead, ReadIdWord, ReadCieFields, ReadAugmentation;
    HeadStable(bs, more, offset);
    var head := ReadHead(bs, offset);
    IdStable(bs, more, head.next, head.value.is64);
    var p2 := ReadIdWord(bs, head.next, head.value.is64).next;
    CieFieldsStable(bs, more, p2);
    var f := ReadCieFields(bs, p2);
    AugmentationStable(bs, more, f.next, avmaBase, f.value);
  }

  lemma FdeAugmentationStable(bs: seq<u8>, more: seq<u8>, pos: nat, end: nat, avmaBase: u64, cfg: FdeConfig, pc: u64)
    requires ReadFdeAugmentation(bs, pos, end, avmaBase, cfg, pc).Got?
    ensures ReadFdeAugmentation(bs + more, pos, end, avmaBase, cfg, pc) ==
            ReadFdeAugmentation(bs, pos, end, avmaBase, cfg, pc)
  {
    hide ReadUleb, ReadEncoded;
    if cfg.hasZ {
      UlebStable(bs, more, pos);
      if cfg.lsdaEnc != OMIT {
        EncodedStable(bs, more, ReadUleb(bs, pos).next, cfg.lsdaEnc, avmaBase, Bases(cfg.textBase, cfg.dataBase, pc), false);
      }
    }
  }

  lemma FdeStable(bs: seq<u8>, more: seq<u8>, offset: nat, avmaBase: u64, cfg: FdeConfig)
    requires ParseFde(bs, offset, avmaBase, cfg).Got?
    ensures ParseFde(bs + more, offset, avmaBase, cfg) == ParseFde(bs, offset, avmaBase, cfg)
  {
    hide ReadHead, ReadIdWord, ReadEncoded, ReadFdeAugmentation;
    HeadStable(bs, more, offset);
    var head := ReadHead(bs, offset);
    IdStable(bs, more, head.next, head.value.is64);
    var p2 := ReadIdWord(bs, head.next, head.value.is64).next;
    var bases := Bases(cfg.textBase, cfg.dataBase, 0);
    EncodedStable(bs, more, p2, cfg.fdeEnc, avmaBase, bases, false);
    var pc := ReadEncoded(bs, p2, cfg.fdeEnc, avmaBase, bases, false);
    EncodedStable(bs, more, pc.next, Format(cfg.fdeEnc), avmaBase, NO_BASES, false);
    var p4 := ReadEncoded(bs, pc.next, Format(cfg.fdeEnc), avmaBase, NO_BASES, false).next;
    FdeAugmentationStable(bs, more, p4, head.value.end, avmaBase, cfg, pc.value);
  }

  /** No entry is both a CIE and an FDE: the same word must be zero in one and
      nonzero in the other. */
  lemma NeverBothKinds(bs: seq<u8>, offset: nat, avmaBase: u64, cfg: FdeConfig)
    ensures !(ParseCie(bs, offset, avmaBase).Got? && ParseFde(bs, offset, avmaBase, cfg).Got?)
  {
    hide ReadCieFields, ReadAugmentation, ReadEncoded, ReadFdeAugmentation, ReadHead, ReadIdWord;
  }
}
