/** The `.eh_frame_hdr` binary search table: section 10.6.2 of LSB Core Generic 5.0. */
module EhFrameTable {
  import opened Words
  import opened Bytes

  const OMIT: u8 := 0xff
  const DATAREL_SDATA4: u8 := 0x3b

  datatype HdrError =
    | FixedHeaderTruncated(len: nat)
    | UnsupportedVersion(version: u8)
    | UnsupportedEhFramePtrEncoding(encoding: u8)
    | EhFramePtrTruncated(offset: nat, size: nat, len: nat)
    | UnsupportedFdeCountEncoding(encoding: u8)
    | FdeCountTruncated(offset: nat, size: nat, len: nat)
    | UnsupportedTableEncoding(encoding: u8)
    | TableTruncated(offset: nat, entryCount: u64, len: nat)

  datatype Table = Table(dataOffset: u64, count: u64, avma: u64)

  /** No Rust slice is longer than `isize::MAX` bytes. */
  predicate IsSlice(bs: seq<u8>) {
    |bs| < 0x8000_0000_0000_0000
  }

  function EncSize(enc: u8): Option<nat> {
    if enc == OMIT then None
    else if enc % 16 == 0x03 || enc % 16 == 0x0b then Some(4)
    else if enc % 16 == 0x04 || enc % 16 == 0x0c then Some(8)
    else if enc % 16 == 0x02 || enc % 16 == 0x0a then Some(2)
    else None
  }

  /** Only udata4, sdata4 (sign-extended) and udata8 counts are understood. */
  function ReadUnsigned(bs: seq<u8>, pos: nat, enc: u8): (r: Option<(u64, nat)>)
    ensures r.Some? ==> pos + r.value.1 <= |bs|
  {
    if enc == OMIT then None
    else if enc % 16 == 0x03 then
      var r := ReadU32(bs, pos);
      if r.Got? then Some((r.value, 4)) else None
    else if enc % 16 == 0x0b then
      var r := ReadU32(bs, pos);
      if r.Got? then Some((SignExtend32(r.value), 4)) else None
    else if enc % 16 == 0x04 then
      var r := ReadU64(bs, pos);
      if r.Got? then Some((r.value, 8)) else None
    else None
  }

  /** `8u64.saturating_mul(count)`. */
  function TableSize(count: u64): u64 {
    if 8 * count < TWO64 then 8 * count else U64_MAX
  }

  /** The last step of `EhFrameTable::parse`: encoding and extent of the table. */
  function CheckTable(hdr: seq<u8>, cursor: u64, count: u64, avma: u64): Result<Table, HdrError>
    requires 4 <= |hdr|
  {
    if hdr[3] != DATAREL_SDATA4 then Err(UnsupportedTableEncoding(hdr[3]))
    else if SatAdd(cursor, TableSize(count)) > |hdr| then Err(TableTruncated(cursor, count, |hdr|))
    else Ok(Table(cursor, count, avma))
  }

  /** `EhFrameTable::parse`. */
  function ParseTable(hdr: seq<u8>, avma: u64): Result<Table, HdrError>
    requires IsSlice(hdr)
  {
    if |hdr| < 4 then Err(FixedHeaderTruncated(|hdr|))
    else if hdr[0] != 1 then Err(UnsupportedVersion(hdr[0]))
    else match EncSize(hdr[1])
      case None => Err(UnsupportedEhFramePtrEncoding(hdr[1]))
      case Some(size) =>
        if 4 + size > |hdr| then Err(EhFramePtrTruncated(4, size, |hdr|))
        else match ReadUnsigned(hdr, 4 + size, hdr[2])
          case Some((count, width)) => CheckTable(hdr, 4 + size + width, count, avma)
          case None =>
            match EncSize(hdr[2])
            case Some(width) => Err(FdeCountTruncated(4 + size, width, |hdr|))
            case None => Err(UnsupportedFdeCountEncoding(hdr[2]))
  }

  /** The same parser with its running cursor. */
  method ParseHeader(hdr: seq<u8>, avma: u64) returns (r: Result<Table, HdrError>)
    requires IsSlice(hdr)
    ensures r == ParseTable(hdr, avma)
  {
    if |hdr| < 4 {
      return Err(FixedHeaderTruncated(|hdr|));
    }
    if hdr[0] != 1 {
      return Err(UnsupportedVersion(hdr[0]));
    }
    var cursor := 4;
    var ptrSize := EncSize(hdr[1]);
    if ptrSize.None? {
      return Err(UnsupportedEhFramePtrEncoding(hdr[1]));
    }
    if SatAdd(cursor, ptrSize.value) > |hdr| {
      return Err(EhFramePtrTruncated(cursor, ptrSize.value, |hdr|));
    }
    cursor := cursor + ptrSize.value;
    var count := ReadUnsigned(hdr, cursor, hdr[2]);
    if count.None? {
      var width := EncSize(hdr[2]);
      if width.Some? {
        return Err(FdeCountTruncated(cursor, width.value, |hdr|));
      }
      return Err(UnsupportedFdeCountEncoding(hdr[2]));
    }
    cursor := cursor + count.value.1;
    if hdr[3] != DATAREL_SDATA4 {
      return Err(UnsupportedTableEncoding(hdr[3]));
    }
    if SatAdd(cursor, TableSize(count.value.0)) > |hdr| {
      return Err(TableTruncated(cursor, count.value.0, |hdr|));
    }
    r := Ok(Table(cursor, count.value.0, avma));
  }

  // ---------------------------------------------------------------------------
  // Which headers are accepted

  /** An encoding of `n` fixed bytes. */
  predicate FixedSize(enc: u8, n: nat) {
    enc != 0xff && ((n == 2 && enc % 16 in {0x02, 0x0a}) || (n == 4 && enc % 16 in {0x03, 0x0b}) || (n == 8 && enc % 16 in {0x04, 0x0c}))
  }

  /** The bytes at `pos` hold the count `n` in `w` bytes: udata4, sdata4 or udata8. */
  predicate CountIs(hdr: seq<u8>, pos: nat, enc: u8, w: nat, n: u64) {
    && enc != 0xff && pos + w <= |hdr|
    && var v := LeValue(hdr[pos..pos + w]);
    || (enc % 16 == 0x03 && w == 4 && n == v)
    || (enc % 16 == 0x0b && w == 4 && n == if v < 0x8000_0000 then v else v + (TWO64 - 0x1_0000_0000))
    || (enc % 16 == 0x04 && w == 8 && n == v)
  }

  ghost predicate NoCount(hdr: seq<u8>, pos: nat, enc: u8) {
    forall w: nat, n: u64 :: !CountIs(hdr, pos, enc, w, n)
  }

  /** Version 1, a pointer of `p` bytes, a count `n` of `w` bytes, a datarel sdata4 table of `n`
      entries of 8 bytes, all inside the bytes. */
  predicate HeaderIs(hdr: seq<u8>, p: nat, w: nat, n: u64) {
    && 4 <= |hdr| && hdr[0] == 1 && FixedSize(hdr[1], p) && CountIs(hdr, 4 + p, hdr[2], w, n) && hdr[3] == 0x3b
    && 4 + p + w + 8 * n <= |hdr|
  }

  lemma CountIsRead(hdr: seq<u8>, pos: nat, enc: u8)
    ensures var r := ReadUnsigned(hdr, pos, enc);
      && (forall w: nat, n: u64 :: CountIs(hdr, pos, enc, w, n) <==> r == Some((n, w)))
      && (r.Some? ==> CountIs(hdr, pos, enc, r.value.1, r.value.0))
  {
    hide LeValue;
    PowersOf256();
  }

  lemma SizeIsFixed(enc: u8)
    ensures forall n: nat :: FixedSize(enc, n) <==> EncSize(enc) == Some(n)
  {
  }

  /** A header is accepted exactly when it has that shape, and then the table is at that offset
      with that count. */
  lemma AcceptedIff(hdr: seq<u8>, avma: u64)
    requires IsSlice(hdr)
    ensures ParseTable(hdr, avma).Ok? <==> exists p: nat, w: nat, n: u64 :: HeaderIs(hdr, p, w, n)
    ensures forall p: nat, w: nat, n: u64 :: HeaderIs(hdr, p, w, n) ==> ParseTable(hdr, avma) == Ok(Table(4 + p + w, n, avma))
  {
    hide CountIs, ReadUnsigned, FixedSize, EncSize;
    if 4 <= |hdr| {
      SizeIsFixed(hdr[1]);
      forall p: nat, w: nat, n: u64 | HeaderIs(hdr, p, w, n)
        ensures ParseTable(hdr, avma) == Ok(Table(4 + p + w, n, avma))
      {
        CountIsRead(hdr, 4 + p, hdr[2]);
      }
      if ParseTable(hdr, avma).Ok? {
        var p := EncSize(hdr[1]).value;
        CountIsRead(hdr, 4 + p, hdr[2]);
        var (n, w) := ReadUnsigned(hdr, 4 + p, hdr[2]).value;
        assert HeaderIs(hdr, p, w, n);
      }
    }
  }

  /** A refused header is reported by the first test it fails, up to the pointer. */
  lemma RefusedEarly(hdr: seq<u8>, avma: u64, p: nat)
    requires IsSlice(hdr)
    ensures var r := ParseTable(hdr, avma);
      && (|hdr| < 4 ==> r == Err(FixedHeaderTruncated(|hdr|)))
      && (4 <= |hdr| && hdr[0] != 1 ==> r == Err(UnsupportedVersion(hdr[0])))
      && (4 <= |hdr| && hdr[0] == 1 && (forall q: nat :: !FixedSize(hdr[1], q)) ==> r == Err(UnsupportedEhFramePtrEncoding(hdr[1])))
      && (4 <= |hdr| < 4 + p && hdr[0] == 1 && FixedSize(hdr[1], p) ==> r == Err(EhFramePtrTruncated(4, p, |hdr|)))
  {
    hide FixedSize, EncSize, ReadUnsigned;
    if 4 <= |hdr| {
      SizeIsFixed(hdr[1]);
      var size := EncSize(hdr[1]);
      assert size.Some? ==> FixedSize(hdr[1], size.value);
    }
  }

  /** After the pointer. A count of an unread fixed format is reported as truncated. */
  lemma RefusedLate(hdr: seq<u8>, avma: u64, p: nat, w: nat, n: u64)
    requires IsSlice(hdr) && 4 + p <= |hdr| && hdr[0] == 1 && FixedSize(hdr[1], p)
    ensures var r := ParseTable(hdr, avma);
      && ((forall v: nat :: !FixedSize(hdr[2], v)) ==> r == Err(UnsupportedFdeCountEncoding(hdr[2])))
      && (FixedSize(hdr[2], w) && NoCount(hdr, 4 + p, hdr[2]) ==> r == Err(FdeCountTruncated(4 + p, w, |hdr|)))
      && (CountIs(hdr, 4 + p, hdr[2], w, n) && hdr[3] != 0x3b ==> r == Err(UnsupportedTableEncoding(hdr[3])))
      && (CountIs(hdr, 4 + p, hdr[2], w, n) && hdr[3] == 0x3b && |hdr| < 4 + p + w + 8 * n ==>
            r == Err(TableTruncated(4 + p + w, n, |hdr|)))
  {
    hide CountIs, ReadUnsigned, FixedSize, EncSize;
    SizeIsFixed(hdr[1]);
    SizeIsFixed(hdr[2]);
    CountIsRead(hdr, 4 + p, hdr[2]);
    var count := ReadUnsigned(hdr, 4 + p, hdr[2]);
    assert count.Some? ==> CountIs(hdr, 4 + p, hdr[2], count.value.1, count.value.0);
    if count.Some? {
      CountIsFixed(hdr, 4 + p, hdr[2], count.value.1, count.value.0);
    }
    assert EncSize(hdr[2]).Some? ==> FixedSize(hdr[2], EncSize(hdr[2]).value);
  }

  lemma CountIsFixed(hdr: seq<u8>, pos: nat, enc: u8, w: nat, n: u64)
    requires CountIs(hdr, pos, enc, w, n)
    ensures FixedSize(enc, w)
  {
  }

  // ---------------------------------------------------------------------------
  // Looking up

  /** The whole table lies in the header bytes. */
  predicate Inside(hdr: seq<u8>, t: Table) {
    t.dataOffset + 8 * t.count <= |hdr|
  }

  /** Whatever count an accepted header declares, however large or negative, the table
      it describes is inside the bytes. */
  lemma AcceptedTableIsInside(hdr: seq<u8>, avma: u64)
    requires IsSlice(hdr) && ParseTable(hdr, avma).Ok?
    ensures Inside(hdr, ParseTable(hdr, avma).value)
    ensures ParseTable(hdr, avma).value.avma == avma
  {
  }

  /** One of the two signed words of entry `i`, relative to the header. */
  function EntryWord(hdr: seq<u8>, t: Table, i: nat, at: nat): u64
    requires Inside(hdr, t) && i < t.count && at <= 4
  {
    var off := t.dataOffset + 8 * i + at;
    PowersOf256();
    WrapAdd(t.avma, SignExtend32(LeValue(hdr[off..off + 4])))
  }

  function EntryPc(hdr: seq<u8>, t: Table, i: nat): u64
    requires Inside(hdr, t) && i < t.count
  {
    EntryWord(hdr, t, i, 0)
  }

  function EntryFde(hdr: seq<u8>, t: Table, i: nat): u64
    requires Inside(hdr, t) && i < t.count
  {
    EntryWord(hdr, t, i, 4)
  }

  /** The index the binary search stops at. */
  function Search(hdr: seq<u8>, t: Table, ip: u64, lo: nat, hi: nat): (i: nat)
    requires Inside(hdr, t) && lo < hi <= t.count
    ensures lo <= i < hi
    decreases hi - lo
  {
    if lo + 1 >= hi then lo
    else
      var mid := lo + (hi - lo) / 2;
      if EntryPc(hdr, t, mid) <= ip then Search(hdr, t, ip, mid, hi) else Search(hdr, t, ip, lo, mid)
  }

  /** `EhFrameTable::lookup`. */
  function Lookup(hdr: seq<u8>, t: Table, ip: u64): Option<(u64, u64)> {
    if t.count == 0 || !Inside(hdr, t) then None
    else
      var i := Search(hdr, t, ip, 0, t.count);
      if EntryPc(hdr, t, i) > ip then None else Some((EntryPc(hdr, t, i), EntryFde(hdr, t, i)))
  }

  /** `table_off + n * 8` in wrapping 64-bit arithmetic. */
  function WrappedEnd(t: Table): u64 {
    (t.dataOffset + 8 * t.count) % TWO64
  }

  /** The same search as a loop over `lo` and `hi`. It indexes out of bounds exactly for a table
      whose extent wraps around to an end inside the bytes; no header parse makes one. */
  method LookupLoop(hdr: seq<u8>, t: Table, ip: u64) returns (r: Option<(u64, u64)>, panics: bool)
    requires IsSlice(hdr)
    ensures panics <==> t.dataOffset + 8 * t.count >= TWO64 && t.dataOffset <= WrappedEnd(t) <= |hdr|
    ensures !panics ==> r == Lookup(hdr, t, ip)
    ensures r.Some? ==> r.value.0 <= ip
  {
    hide EntryPc, EntryFde;
    var end := WrappedEnd(t);
    if t.count == 0 || end < t.dataOffset || |hdr| < end {
      return None, false;
    }
    var entries := hdr[t.dataOffset..end];
    WrappedTable(t, |hdr|);
    var lo: nat, hi: nat := 0, t.count;
    while lo + 1 < hi
      invariant 0 <= lo < hi <= t.count
      invariant Inside(hdr, t) ==> |entries| == 8 * t.count && Search(hdr, t, ip, lo, hi) == Search(hdr, t, ip, 0, t.count)
      invariant !Inside(hdr, t) ==> lo == 0 && hi == t.count
    {
      var mid := lo + (hi - lo) / 2;
      if 8 * mid + 4 > |entries| {
        return None, true;
      }
      if EntryPc(hdr, t, mid) <= ip {
        lo := mid;
      } else {
        hi := mid;
      }
    }
    var pc := EntryPc(hdr, t, lo);
    if pc > ip {
      return None, false;
    }
    r, panics := Some((pc, EntryFde(hdr, t, lo))), false;
  }

  /** A table that wraps to an end inside the bytes has its middle entry outside them. */
  lemma WrappedTable(t: Table, len: nat)
    requires len < TWO64 && t.dataOffset <= WrappedEnd(t) <= len && t.count != 0
    ensures t.dataOffset + 8 * t.count >= TWO64 ==> t.count > 1 && 8 * (t.count / 2) + 4 > WrappedEnd(t) - t.dataOffset
    ensures t.dataOffset + 8 * t.count < TWO64 ==> t.dataOffset + 8 * t.count == WrappedEnd(t)
  {
    var total: nat := t.dataOffset + 8 * t.count;
    var q := total / TWO64;
    assert total == q * TWO64 + WrappedEnd(t);
    assert t.count / 2 * 2 >= t.count - 1;
  }

  /** For any table, sorted or not, the search stops where the entries step over `ip`. */
  lemma {:induction false} SearchBrackets(hdr: seq<u8>, t: Table, ip: u64, lo: nat, hi: nat)
    requires Inside(hdr, t) && lo < hi <= t.count
    requires hi == t.count || EntryPc(hdr, t, hi) > ip
    requires lo == 0 || EntryPc(hdr, t, lo) <= ip
    ensures var i := Search(hdr, t, ip, lo, hi);
      && (i + 1 == t.count || EntryPc(hdr, t, i + 1) > ip)
      && (i == 0 || EntryPc(hdr, t, i) <= ip)
    decreases hi - lo
  {
    hide EntryPc, Inside, Search;
    if lo + 1 >= hi {
      SearchStops(hdr, t, ip, lo, hi);
    } else {
      var mid := SearchStep(hdr, t, ip, lo, hi);
      if EntryPc(hdr, t, mid) <= ip {
        SearchBrackets(hdr, t, ip, mid, hi);
      } else {
        SearchBrackets(hdr, t, ip, lo, mid);
      }
    }
  }

  lemma SearchStops(hdr: seq<u8>, t: Table, ip: u64, lo: nat, hi: nat)
    requires Inside(hdr, t) && lo < hi <= t.count && lo + 1 >= hi
    ensures Search(hdr, t, ip, lo, hi) == lo
  {
  }

  lemma SearchStep(hdr: seq<u8>, t: Table, ip: u64, lo: nat, hi: nat) returns (mid: nat)
    requires Inside(hdr, t) && lo + 1 < hi <= t.count
    ensures lo < mid < hi
    ensures Search(hdr, t, ip, lo, hi) == if EntryPc(hdr, t, mid) <= ip then Search(hdr, t, ip, mid, hi) else Search(hdr, t, ip, lo, mid)
  {
    hide EntryPc;
    mid := lo + (hi - lo) / 2;
  }

  /** Entry `i` starts at or below `ip` and no later neighbour does. */
  predicate Candidate(hdr: seq<u8>, t: Table, ip: u64, i: nat) {
    && Inside(hdr, t) && i < t.count
    && EntryPc(hdr, t, i) <= ip
    && (i + 1 == t.count || EntryPc(hdr, t, i + 1) > ip)
  }

  /** An accepted header never fails the bounds check of `lookup`, and for any table,
      sorted or not, what `lookup` returns is a candidate; it returns nothing only for
      an empty table or one whose first entry is already above `ip`. */
  lemma LookupOfAccepted(hdr: seq<u8>, avma: u64, ip: u64)
    requires IsSlice(hdr) && ParseTable(hdr, avma).Ok?
    ensures var t := ParseTable(hdr, avma).value;
      && Inside(hdr, t)
      && match Lookup(hdr, t, ip) {
           case Some((pc, fde)) =>
             exists i: nat :: Candidate(hdr, t, ip, i) && pc == EntryPc(hdr, t, i) && fde == EntryFde(hdr, t, i)
           case None => t.count == 0 || EntryPc(hdr, t, 0) > ip
         }
  {
    hide EntryPc, EntryFde, ParseTable;
    AcceptedTableIsInside(hdr, avma);
    var t := ParseTable(hdr, avma).value;
    if t.count != 0 {
      SearchBrackets(hdr, t, ip, 0, t.count);
      assert Lookup(hdr, t, ip).Some? ==> Candidate(hdr, t, ip, Search(hdr, t, ip, 0, t.count));
    }
  }
}
