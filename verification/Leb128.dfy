/** LEB128 integers: section 7.6 of DWARF 4, as `Cursor::read_uleb128` and
    `Cursor::read_sleb128` read them. */
module Leb128 {
  import opened Words
  import opened Bytes

  /** Both readers give up when the tenth byte still has its continuation bit. */
  const MAX_GROUPS: nat := 10

  function Pow128(n: nat): nat {
    if n == 0 then 1 else 128 * Pow128(n - 1)
  }

  /** The unbounded sum of the 7-bit groups starting at `pos`, at most `room` of them. */
  function Groups(bs: seq<u8>, pos: nat, room: nat): (r: Read<nat>)
    requires room > 0
    ensures r.Got? ==> pos < r.next <= pos + room && r.next <= |bs|
    ensures r.Got? ==> r.value < Pow128(r.next - pos)
    decreases |bs| - pos
  {
    if pos >= |bs| then Bad(DwarfError(pos, Truncated(pos + 1, |bs|)), pos)
    else if bs[pos] < 128 then Got(bs[pos], pos + 1)
    else if room == 1 then Bad(DwarfError(pos + 1, Leb128Overflow), pos + 1)
    else
      var (v, n) :- Groups(bs, pos + 1, room - 1);
      Got(bs[pos] % 128 + 128 * v, n)
  }

  function ReadUleb(bs: seq<u8>, pos: nat): (r: Read<u64>)
    ensures r.Got? ==> pos < r.next <= |bs| && r.next <= pos + 10
  {
    var (v, n) :- Groups(bs, pos, MAX_GROUPS);
    Got(v % TWO64, n)
  }

  /** The signed meaning of `count` groups: two's complement in 7 * count bits,
      except that ten groups overfill the word and are taken modulo 2^64. */
  function SlebValue(sum: nat, count: nat, last: u8): (v: i64)
    requires sum < Pow128(count)
  {
    if count < MAX_GROUPS && 64 <= last % 128 then
      PowersOf128(count);
      sum - Pow128(count)
    else AsSigned(sum % TWO64)
  }

  function ReadSleb(bs: seq<u8>, pos: nat): (r: Read<i64>)
    ensures r.Got? ==> pos < r.next <= |bs| && r.next <= pos + 10
  {
    var (v, n) :- Groups(bs, pos, MAX_GROUPS);
    Got(SlebValue(v, n - pos, bs[n - 1]), n)
  }

  lemma {:induction false} PowersOf128(n: nat)
    ensures Pow128(9) == 0x8000_0000_0000_0000
    ensures Pow128(10) == 64 * TWO64
    ensures n <= 9 ==> Pow128(n) <= Pow128(9)
    decreases if n <= 9 then 9 - n else 0
  {
    assert Pow128(2) == 128 * Pow128(1);
    assert Pow128(4) == 128 * Pow128(3);
    assert Pow128(6) == 128 * Pow128(5);
    assert Pow128(8) == 128 * Pow128(7);
    assert Pow128(10) == 128 * Pow128(9);
    if n < 9 {
      PowersOf128(n + 1);
    }
  }

  /** The plain meaning of a group string, least significant group first. */
  function GroupSum(s: seq<u8>): nat {
    if s == [] then 0 else s[0] % 128 + 128 * GroupSum(s[1..])
  }

  /** The first byte without a continuation bit decides acceptance. */
  lemma {:induction false} GroupsAccept(bs: seq<u8>, pos: nat, room: nat)
    requires room > 0
    ensures var r := Groups(bs, pos, room);
      && (r.Got? <==> exists i :: pos <= i < pos + room && i < |bs| && bs[i] < 128)
      && (r.Got? ==> bs[r.next - 1] < 128 && forall i :: pos <= i < r.next - 1 ==> 128 <= bs[i])
    decreases room
  {
    if pos < |bs| && 128 <= bs[pos] && room > 1 {
      GroupsAccept(bs, pos + 1, room - 1);
    }
  }

  lemma {:induction false} GroupsSum(bs: seq<u8>, pos: nat, room: nat)
    requires room > 0 && Groups(bs, pos, room).Got?
    ensures var r := Groups(bs, pos, room); r.value == GroupSum(bs[pos..r.next])
    decreases room
  {
    var s := bs[pos..Groups(bs, pos, room).next];
    if bs[pos] < 128 {
      assert s == [bs[pos]] && s[1..] == [];
    } else {
      GroupsSum(bs, pos + 1, room - 1);
      assert s[0] == bs[pos] && s[1..] == bs[pos + 1..Groups(bs, pos, room).next];
    }
  }

  /** Acceptance and value of an unsigned number, for every byte string: at most ten bytes
      are consumed and a continuation bit on the tenth is refused. */
  lemma UlebMeaning(bs: seq<u8>, pos: nat)
    ensures var r := ReadUleb(bs, pos);
      && (r.Got? <==> exists i :: pos <= i < pos + 10 && i < |bs| && bs[i] < 128)
      && (r.Got? ==> r.value == GroupSum(bs[pos..r.next]) % TWO64 && r.next <= pos + 10
                     && bs[r.next - 1] < 128 && forall i :: pos <= i < r.next - 1 ==> 128 <= bs[i])
      && (pos + 10 <= |bs| && (forall i :: pos <= i < pos + 10 ==> 128 <= bs[i]) ==>
            r == Bad(DwarfError(pos + 10, Leb128Overflow), pos + 10))
      && (|bs| < pos + 10 && (forall i :: pos <= i < |bs| ==> 128 <= bs[i]) ==>
            var end := if pos < |bs| then |bs| else pos; r == Bad(DwarfError(end, Truncated(end + 1, |bs|)), end))
  {
    hide Groups, GroupSum;
    GroupsAccept(bs, pos, MAX_GROUPS);
    if ReadUleb(bs, pos).Got? {
      GroupsSum(bs, pos, MAX_GROUPS);
    }
    if pos + 10 <= |bs| && forall i :: pos <= i < pos + 10 ==> 128 <= bs[i] {
      OverflowPosition(bs, pos, MAX_GROUPS);
    }
    if |bs| < pos + 10 && forall i :: pos <= i < |bs| ==> 128 <= bs[i] {
      TruncatedPosition(bs, pos, MAX_GROUPS);
    }
  }

  lemma {:induction false} TruncatedPosition(bs: seq<u8>, pos: nat, room: nat)
    requires room > 0 && |bs| < pos + room
    requires forall i :: pos <= i < |bs| ==> 128 <= bs[i]
    ensures var end := if pos < |bs| then |bs| else pos;
      Groups(bs, pos, room) == Bad(DwarfError(end, Truncated(end + 1, |bs|)), end)
    decreases room
  {
    if pos < |bs| {
      TruncatedPosition(bs, pos + 1, room - 1);
    }
  }

  /** The signed reader accepts the same byte strings and moves the cursor alike. */
  lemma SlebMeaning(bs: seq<u8>, pos: nat)
    ensures var r := ReadSleb(bs, pos);
      && (r.Got? <==> ReadUleb(bs, pos).Got?)
      && r.next == ReadUleb(bs, pos).next
      && (r.Bad? ==> r.error == ReadUleb(bs, pos).error)
      && (r.Got? && r.next < pos + 10 ==>
            var n := r.next - pos;
            var sum := GroupSum(bs[pos..r.next]);
            r.value == if 64 <= bs[r.next - 1] then sum - Pow128(n) else sum)
      && (r.Got? && r.next == pos + 10 ==> AsUnsigned(r.value) == GroupSum(bs[pos..r.next]) % TWO64)
  {
    hide Groups, GroupSum, Pow128;
    GroupsAccept(bs, pos, MAX_GROUPS);
    if ReadSleb(bs, pos).Got? {
      GroupsSum(bs, pos, MAX_GROUPS);
      PowersOf128(ReadSleb(bs, pos).next - pos);
    }
  }

  lemma {:induction false} OverflowPosition(bs: seq<u8>, pos: nat, room: nat)
    requires room > 0 && pos + room <= |bs|
    requires forall i :: pos <= i < pos + room ==> 128 <= bs[i]
    ensures Groups(bs, pos, room) == Bad(DwarfError(pos + room, Leb128Overflow), pos + room)
    decreases room
  {
    if room > 1 {
      OverflowPosition(bs, pos + 1, room - 1);
    }
  }

  /** Minimal encodings, as an assembler emits them. */
  function Uleb(v: nat): (s: seq<u8>)
    ensures |s| > 0
  {
    if v < 128 then [v] else [v % 128 + 128] + Uleb(v / 128)
  }

  function Sleb(v: int): (s: seq<u8>)
    ensures |s| > 0
    decreases if v < 0 then -v else v
  {
    if -64 <= v < 64 then [v % 128] else [v % 128 + 128] + Sleb(v / 128)
  }

  lemma UlebSplit(v: nat, room: nat)
    requires 128 <= v < Pow128(room)
    ensures room > 1 && v / 128 < Pow128(room - 1)
    ensures v == v % 128 + 128 * (v / 128)
  {
    assert Pow128(room) == 128 * Pow128(room - 1);
  }

  lemma {:induction false} GroupsOfUleb(bs: seq<u8>, pos: nat, v: nat, room: nat, rest: seq<u8>)
    requires room > 0 && v < Pow128(room)
    requires At(bs, pos, Uleb(v) + rest)
    ensures Groups(bs, pos, room) == Got(v, pos + |Uleb(v)|)
    ensures At(bs, pos + |Uleb(v)|, rest)
    decreases room
  {
    hide At, Pow128;
    if v < 128 {
      AtByte(bs, pos, v, rest);
    } else {
      UlebSplit(v, room);
      var s := Uleb(v / 128);
      assert Uleb(v) + rest == [v % 128 + 128] + (s + rest);
      AtByte(bs, pos, v % 128 + 128, s + rest);
      GroupsOfUleb(bs, pos + 1, v / 128, room - 1, rest);
    }
  }

  /** Every u64 survives encode then read, whatever follows it. */
  lemma UlebRoundTrip(bs: seq<u8>, pos: nat, v: u64, rest: seq<u8>)
    requires At(bs, pos, Uleb(v) + rest)
    ensures ReadUleb(bs, pos) == Got(v, pos + |Uleb(v)|)
    ensures At(bs, pos + |Uleb(v)|, rest)
  {
    PowersOf128(10);
    GroupsOfUleb(bs, pos, v, 10, rest);
  }

  /** What `Groups` must return for `Sleb(v)`: `v` modulo 128^count. */
  function SlebSum(v: int): (sum: int) {
    if v < 0 then v + Pow128(|Sleb(v)|) else v
  }

  lemma QuotientInRange(v: int, p: nat)
    requires 0 - 16384 * p <= 2 * v < 16384 * p
    ensures 0 - 128 * p <= 2 * (v / 128) < 128 * p
  {
    var q, m := v / 128, v % 128;
    assert v == 128 * q + m && 0 <= m < 128;
    assert q >= 64 * p ==> v >= 8192 * p;
    assert q <= -64 * p - 1 ==> v <= -8192 * p - 1;
  }

  lemma RoomShrinks(v: int, room: nat)
    requires room > 0 && 0 - Pow128(room) <= 2 * v < Pow128(room)
    requires !(-64 <= v < 64)
    ensures room > 1 && 0 - Pow128(room - 1) <= 2 * (v / 128) < Pow128(room - 1)
  {
    if room > 1 {
      assert Pow128(room) == 128 * Pow128(room - 1) && Pow128(room - 1) == 128 * Pow128(room - 2);
      QuotientInRange(v, Pow128(room - 2));
    }
  }

  lemma SlebSumStep(v: int)
    requires !(-64 <= v < 64)
    ensures SlebSum(v) == v % 128 + 128 * SlebSum(v / 128)
    ensures v < 0 <==> v / 128 < 0
  {
    var q := v / 128;
    var m := v % 128;
    assert v == 128 * q + m;
    var n := |Sleb(q)|;
    assert |Sleb(v)| == n + 1;
    assert Pow128(n + 1) == 128 * Pow128(n);
  }

  /** What reading `Sleb(v)` at `pos` must give, and what follows it. */
  predicate SlebRead(bs: seq<u8>, pos: nat, v: int, room: nat, rest: seq<u8>)
    requires room > 0
  {
    && |Sleb(v)| <= room
    && pos + |Sleb(v)| <= |bs|
    && 0 <= SlebSum(v) && Groups(bs, pos, room) == Got(SlebSum(v), pos + |Sleb(v)|)
    && (64 <= bs[pos + |Sleb(v)| - 1] % 128 <==> v < 0)
    && At(bs, pos + |Sleb(v)|, rest)
  }

  /** One more group in front. */
  lemma SlebReadStep(bs: seq<u8>, pos: nat, v: int, room: nat, rest: seq<u8>)
    requires room > 1 && !(-64 <= v < 64)
    requires pos < |bs| && bs[pos] == v % 128 + 128
    requires SlebRead(bs, pos + 1, v / 128, room - 1, rest)
    ensures SlebRead(bs, pos, v, room, rest)
  {
    hide At, SlebSum, Pow128;
    SlebSumStep(v);
    assert Sleb(v) == [v % 128 + 128] + Sleb(v / 128);
  }

  lemma {:induction false} GroupsOfSleb(bs: seq<u8>, pos: nat, v: int, room: nat, rest: seq<u8>)
    requires room > 0 && 0 - Pow128(room) <= 2 * v < Pow128(room)
    requires At(bs, pos, Sleb(v) + rest)
    ensures SlebRead(bs, pos, v, room, rest)
    decreases room
  {
    hide At, SlebSum, Pow128, SlebRead;
    if -64 <= v < 64 {
      SmallSleb(v);
      AtByte(bs, pos, v % 128, rest);
      SmallSlebRead(bs, pos, v, room, rest);
    } else {
      RoomShrinks(v, room);
      var s := Sleb(v / 128);
      assert Sleb(v) + rest == [v % 128 + 128] + (s + rest);
      AtByte(bs, pos, v % 128 + 128, s + rest);
      GroupsOfSleb(bs, pos + 1, v / 128, room - 1, rest);
      SlebReadStep(bs, pos, v, room, rest);
    }
  }

  lemma SmallSlebRead(bs: seq<u8>, pos: nat, v: int, room: nat, rest: seq<u8>)
    requires room > 0 && -64 <= v < 64
    requires pos < |bs| && bs[pos] == v % 128 && At(bs, pos + 1, rest)
    ensures SlebRead(bs, pos, v, room, rest)
  {
    hide At, SlebSum, Pow128;
    SmallSleb(v);
  }

  lemma SmallSleb(v: int)
    requires -64 <= v < 64
    ensures Sleb(v) == [v % 128] && SlebSum(v) == v % 128 && (64 <= v % 128 <==> v < 0)
  {
    assert Pow128(1) == 128;
  }

  /** Every i64 survives encode then read, whatever follows it. */
  lemma SlebRoundTrip(bs: seq<u8>, pos: nat, v: i64, rest: seq<u8>)
    requires At(bs, pos, Sleb(v) + rest)
    ensures ReadSleb(bs, pos) == Got(v, pos + |Sleb(v)|)
    ensures At(bs, pos + |Sleb(v)|, rest)
  {
    var room := MAX_GROUPS;
    PowersOf128(room);
    GroupsOfSleb(bs, pos, v, room, rest);
    SignedMeaning(v, |Sleb(v)|, bs[pos + |Sleb(v)| - 1]);
  }

  lemma SignedMeaning(v: i64, count: nat, last: u8)
    requires count <= MAX_GROUPS && (64 <= last % 128 <==> v < 0)
    requires 0 <= (if v < 0 then v + Pow128(count) else v) < Pow128(count)
    ensures SlebValue(if v < 0 then v + Pow128(count) else v, count, last) == v
  {
    PowersOf128(count);
    if count == MAX_GROUPS && v < 0 {
      assert (v + 64 * TWO64) % TWO64 == v + TWO64;
    }
  }
}
