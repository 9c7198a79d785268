/** Byte-string readers and little-endian integers. */
module Bytes {
  import opened Words

  /** `DwarfParseErrorKind`. */
  datatype ErrorKind =
    | Truncated(needed: nat, len: nat)
    | Leb128Overflow
    | EntryLengthOverflow
    | OmittedPointerEncoding
    | UnsupportedPointerEncoding(encoding: u8)
    | IndirectPointerRequiresDereference(encoding: u8)
    | UnsupportedPointerApplication(encoding: u8)
    | BadCieId(cieId: u64)
    | UnsupportedCieVersion(version: u8)
    | UnsupportedCieAddressSize(addressSize: u8, segmentSize: u8)
    | UnterminatedAugmentationString
    | UnsupportedAugmentation(byte: u8)
    | UnsupportedNonZAugmentation
    | FdeCiePointerIsZero

  datatype DwarfError = DwarfError(offset: nat, kind: ErrorKind)

  /** What a cursor read produces: a value or an error, and in both cases the
      position the cursor is left at. */
  datatype Read<+T> = Got(value: T, next: nat) | Bad(error: DwarfError, next: nat) {
    predicate IsFailure() {
      Bad?
    }

    function PropagateFailure<U>(): Read<U>
      requires Bad?
    {
      Bad(error, next)
    }

    function Extract(): (T, nat)
      requires Got?
    {
      (value, next)
    }

    function ToResult(): Result<T, DwarfError> {
      match this
      case Got(v, _) => Ok(v)
      case Bad(e, _) => Err(e)
    }
  }

  function Pow256(n: nat): nat {
    if n == 0 then 1 else 256 * Pow256(n - 1)
  }

  function LeValue(bs: seq<u8>): (v: nat)
    ensures v < Pow256(|bs|)
  {
    if bs == [] then 0 else bs[0] + 256 * LeValue(bs[1..])
  }

  function LeBytes(v: nat, n: nat): (bs: seq<u8>)
    ensures |bs| == n
    decreases n
  {
    if n == 0 then [] else [v % 256] + LeBytes(v / 256, n - 1)
  }

  lemma {:induction false} LeRoundTrip(v: nat, n: nat)
    requires v < Pow256(n)
    ensures LeValue(LeBytes(v, n)) == v
    decreases n
  {
    if n > 0 {
      LeRoundTrip(v / 256, n - 1);
      assert LeBytes(v, n)[1..] == LeBytes(v / 256, n - 1);
    }
  }

  lemma PowersOf256()
    ensures Pow256(1) == 0x100
    ensures Pow256(2) == 0x1_0000
    ensures Pow256(4) == 0x1_0000_0000
    ensures Pow256(8) == TWO64
  {
    assert Pow256(4) == 256 * Pow256(3);
    assert Pow256(6) == 256 * Pow256(5);
    assert Pow256(8) == 256 * Pow256(7);
  }

  function ReadByte(bs: seq<u8>, pos: nat): (r: Read<u8>) {
    if pos < |bs| then Got(bs[pos], pos + 1)
    else Bad(DwarfError(pos, Truncated(pos + 1, |bs|)), pos)
  }

  /** A fixed-width little-endian word. */
  function ReadLe(bs: seq<u8>, pos: nat, width: nat): (r: Read<nat>)
    ensures r.Got? ==> r.value < Pow256(width) && r.next == pos + width <= |bs|
  {
    if pos + width <= |bs| then Got(LeValue(bs[pos..pos + width]), pos + width)
    else Bad(DwarfError(pos, Truncated(pos + width, |bs|)), pos)
  }

  function ReadU16(bs: seq<u8>, pos: nat): (r: Read<nat>)
    ensures r.Got? ==> r.value < 0x1_0000 && r.next == pos + 2 <= |bs|
  {
    PowersOf256();
    ReadLe(bs, pos, 2)
  }

  function ReadU32(bs: seq<u8>, pos: nat): (r: Read<nat>)
    ensures r.Got? ==> r.value < 0x1_0000_0000 && r.next == pos + 4 <= |bs|
  {
    PowersOf256();
    ReadLe(bs, pos, 4)
  }

  function ReadU64(bs: seq<u8>, pos: nat): (r: Read<u64>)
    ensures r.Got? ==> r.next == pos + 8 <= |bs|
  {
    PowersOf256();
    var r := ReadLe(bs, pos, 8);
    match r
    case Got(v, n) => Got(v, n)
    case Bad(e, n) => Bad(e, n)
  }

  /** `w` occurs in `bs` at offset `pos`. */
  predicate At(bs: seq<u8>, pos: nat, w: seq<u8>): (found: bool)
    ensures found ==> pos + |w| <= |bs|
  {
    pos + |w| <= |bs| && bs[pos..pos + |w|] == w
  }

  lemma AtSplit(bs: seq<u8>, pos: nat, a: seq<u8>, b: seq<u8>)
    ensures At(bs, pos, a + b) <==> At(bs, pos, a) && At(bs, pos + |a|, b)
  {
    if At(bs, pos, a + b) {
      assert a == (a + b)[..|a|] && b == (a + b)[|a|..];
    }
    if At(bs, pos, a) && At(bs, pos + |a|, b) {
      assert bs[pos..pos + |a + b|] == bs[pos..pos + |a|] + bs[pos + |a|..pos + |a| + |b|];
    }
  }

  lemma AtByte(bs: seq<u8>, pos: nat, b: u8, rest: seq<u8>)
    requires At(bs, pos, [b] + rest)
    ensures ReadByte(bs, pos) == Got(b, pos + 1)
    ensures At(bs, pos + 1, rest)
  {
    AtSplit(bs, pos, [b], rest);
    assert bs[pos] == bs[pos..pos + 1][0];
  }

  lemma AtLe(bs: seq<u8>, pos: nat, v: nat, width: nat, rest: seq<u8>)
    requires At(bs, pos, LeBytes(v, width) + rest)
    requires v < Pow256(width)
    ensures ReadLe(bs, pos, width) == Got(v, pos + width)
    ensures At(bs, pos + width, rest)
  {
    AtSplit(bs, pos, LeBytes(v, width), rest);
    LeRoundTrip(v, width);
  }
}
