/** Machine words as bounded integers, and the bitwise operators the crate uses on them. */
module Words {
  const TWO64: nat := 0x1_0000_0000_0000_0000
  const U64_MAX: nat := 0xffff_ffff_ffff_ffff

  type u8 = x: int | 0 <= x < 0x100
  type u64 = x: int | 0 <= x < 0x1_0000_0000_0000_0000
  type i64 = x: int | -0x8000_0000_0000_0000 <= x < 0x8000_0000_0000_0000

  datatype Option<+T> = None | Some(value: T)

  datatype Result<+T, +E> = Ok(value: T) | Err(error: E) {
    predicate IsFailure() {
      Err?
    }

    function PropagateFailure<U>(): Result<U, E>
      requires Err?
    {
      Err(error)
    }

    function Extract(): T
      requires Ok?
    {
      value
    }
  }

  /** `wrapping_add`, `wrapping_sub` and `saturating_add` on 64-bit words. */
  function WrapAdd(a: u64, b: u64): u64 {
    if a + b < TWO64 then a + b else a + b - TWO64
  }

  function WrapSub(a: u64, b: u64): u64 {
    if b <= a then a - b else a - b + TWO64
  }

  function SatAdd(a: u64, b: nat): u64 {
    if a + b < TWO64 then a + b else U64_MAX
  }

  /** `as u64` and `as i64`: reinterpret the same 64 bits. */
  function AsUnsigned(x: i64): u64 {
    if x < 0 then x + TWO64 else x
  }

  function AsSigned(x: u64): i64 {
    if x < 0x8000_0000_0000_0000 then x else x - TWO64
  }

  /** `v as i16 as i64 as u64` and `v as i32 as i64 as u64`. */
  function SignExtend16(v: nat): u64
    requires v < 0x1_0000
  {
    if v < 0x8000 then v else v + (TWO64 - 0x1_0000)
  }

  function SignExtend32(v: nat): u64
    requires v < 0x1_0000_0000
  {
    if v < 0x8000_0000 then v else v + (TWO64 - 0x1_0000_0000)
  }

  /** `x << k` without a width; a 64-bit shift keeps this modulo 2^64. */
  function Shl(x: nat, k: nat): nat {
    if k == 0 then x else 2 * Shl(x, k - 1)
  }

  function BitOr(a: nat, b: nat): nat
    decreases a + b
  {
    if a == 0 && b == 0 then 0
    else (if a % 2 == 1 || b % 2 == 1 then 1 else 0) + 2 * BitOr(a / 2, b / 2)
  }

  function BitAnd(a: nat, b: nat): (r: nat)
    ensures r <= a && r <= b
    decreases a
  {
    if a == 0 || b == 0 then 0
    else (if a % 2 == 1 && b % 2 == 1 then 1 else 0) + 2 * BitAnd(a / 2, b / 2)
  }

  lemma {:induction false} ShlAdd(x: nat, y: nat, k: nat)
    ensures Shl(x + y, k) == Shl(x, k) + Shl(y, k)
  {
    if k > 0 {
      ShlAdd(x, y, k - 1);
    }
  }

  lemma {:induction false} ShlShl(x: nat, j: nat, k: nat)
    ensures Shl(Shl(x, j), k) == Shl(x, j + k)
  {
    if k > 0 {
      ShlShl(x, j, k - 1);
    }
  }

  lemma {:induction false} ShlMonotone(x: nat, y: nat, k: nat)
    requires x <= y
    ensures Shl(x, k) <= Shl(y, k)
    ensures x < y ==> Shl(x, k) < Shl(y, k)
  {
    if k > 0 {
      ShlMonotone(x, y, k - 1);
    }
  }

  lemma {:induction false} ShlIsProduct(x: nat, k: nat)
    ensures Shl(x, k) == x * Shl(1, k)
  {
    if k > 0 {
      ShlIsProduct(x, k - 1);
    }
  }

  lemma PowersOfTwo()
    ensures Shl(1, 63) == 0x8000_0000_0000_0000
    ensures Shl(1, 64) == TWO64
  {
    assert Shl(1, 7) == 128;
    ShlShl(1, 7, 7); ShlIsProduct(128, 7);
    ShlShl(1, 14, 14); ShlIsProduct(0x4000, 14);
    ShlShl(1, 28, 28); ShlIsProduct(0x1000_0000, 28);
    ShlShl(1, 56, 7); ShlIsProduct(0x100_0000_0000_0000, 7);
    ShlShl(1, 63, 1);
  }

  lemma {:induction false} OrZero(b: nat)
    ensures BitOr(0, b) == b
  {
    if b > 0 {
      OrZero(b / 2);
    }
  }

  /** Or-ing a value shifted above all the bits already present is addition. */
  lemma {:induction false} OrIsSum(a: nat, b: nat, k: nat)
    requires a < Shl(1, k)
    ensures BitOr(a, Shl(b, k)) == a + Shl(b, k)
  {
    if k == 0 {
      OrZero(b);
    } else {
      OrIsSum(a / 2, b, k - 1);
      assert Shl(b, k) % 2 == 0 && Shl(b, k) / 2 == Shl(b, k - 1);
      if a == 0 && Shl(b, k) == 0 {
      } else {
        assert BitOr(a, Shl(b, k)) == (if a % 2 == 1 then 1 else 0) + 2 * BitOr(a / 2, Shl(b, k - 1));
      }
    }
  }

  lemma {:induction false} AndIdempotent(a: nat, m: nat)
    ensures BitAnd(BitAnd(a, m), m) == BitAnd(a, m)
  {
    if a != 0 && m != 0 {
      AndIdempotent(a / 2, m / 2);
    }
  }

  /** A mask of `k` ones keeps exactly the words below 2^k. */
  lemma {:induction false} AndLowMask(a: nat, k: nat)
    requires a < Shl(1, k)
    ensures Shl(1, k) >= 1
    ensures BitAnd(a, Shl(1, k) - 1) == a
  {
    if k > 0 {
      AndLowMask(a / 2, k - 1);
      assert (Shl(1, k) - 1) / 2 == Shl(1, k - 1) - 1;
    }
  }

  lemma SmallMultiple(k: int, d: nat)
    requires 0 - d < k * d < d
    ensures k == 0
  {
    assert k >= 1 ==> k * d >= d;
    assert k <= -1 ==> k * d <= 0 - d;
  }

  lemma RemainderIs(a: nat, d: nat, q: nat, r: nat)
    requires a == q * d + r && r < d
    ensures a % d == r
  {
    var k := a / d - q;
    assert k * d == a / d * d - q * d;
    SmallMultiple(k, d);
  }

  lemma RemainderOfHalf(a: nat, p: nat)
    requires p > 0
    ensures a % (2 * p) == 2 * (a / 2 % p) + a % 2
  {
    var q, r := a / 2 / p, a / 2 % p;
    assert a / 2 == q * p + r;
    assert a == q * (2 * p) + (2 * r + a % 2);
    RemainderIs(a, 2 * p, q, 2 * r + a % 2);
  }

  lemma AndWithOdd(a: nat, m: nat)
    requires m % 2 == 1
    ensures BitAnd(a, m) == 2 * BitAnd(a / 2, m / 2) + a % 2
  {
  }

  lemma MaskStep(a: nat, p: nat, half: nat)
    requires p >= 1 && BitAnd(a / 2, p - 1) == half == a / 2 % p
    ensures BitAnd(a, 2 * p - 1) == a % (2 * p)
  {
    hide BitAnd;
    assert (2 * p - 1) % 2 == 1 && (2 * p - 1) / 2 == p - 1;
    AndWithOdd(a, 2 * p - 1);
    RemainderOfHalf(a, p);
  }

  /** A mask of `k` ones leaves the remainder by 2^k of any word. */
  lemma {:induction false} LowMaskIsRemainder(a: nat, k: nat)
    ensures Shl(1, k) >= 1
    ensures BitAnd(a, Shl(1, k) - 1) == a % Shl(1, k)
  {
    hide BitAnd, Shl;
    if k == 0 {
      NothingAnded(a);
      ShlNothing();
    } else {
      LowMaskIsRemainder(a / 2, k - 1);
      MaskStep(a, Shl(1, k - 1), BitAnd(a / 2, Shl(1, k - 1) - 1));
      ShlStep(k);
    }
  }

  lemma ShlStep(k: nat)
    requires k > 0
    ensures Shl(1, k) == 2 * Shl(1, k - 1)
  {
  }

  lemma ShlNothing()
    ensures Shl(1, 0) == 1
  {
  }

  lemma NothingAnded(a: nat)
    ensures BitAnd(a, 0) == 0
  {
  }

  /** Bit `j` of `v`. */
  predicate HasBit(v: nat, j: nat) {
    if j == 0 then v % 2 == 1 else HasBit(v / 2, j - 1)
  }

  lemma OrUnfolds(v: nat, w: nat)
    ensures BitOr(v, w) / 2 == BitOr(v / 2, w / 2)
    ensures BitOr(v, w) % 2 == 1 <==> v % 2 == 1 || w % 2 == 1
  {
    var h := BitOr(v / 2, w / 2);
    assert BitOr(v, w) == 2 * h || BitOr(v, w) == 2 * h + 1;
  }

  lemma {:induction false} OrHasBit(v: nat, w: nat, j: nat)
    ensures HasBit(BitOr(v, w), j) <==> HasBit(v, j) || HasBit(w, j)
  {
    OrUnfolds(v, w);
    if j > 0 {
      OrHasBit(v / 2, w / 2, j - 1);
    }
  }

  lemma {:induction false} ShlHasBit(i: nat, j: nat)
    ensures HasBit(Shl(1, i), j) <==> i == j
  {
    if i > 0 && j > 0 {
      ShlHasBit(i - 1, j - 1);
    } else if j > 0 {
      ZeroHasNoBit(j - 1);
    }
  }

  lemma {:induction false} ZeroHasNoBit(j: nat)
    ensures !HasBit(0, j)
  {
    if j > 0 {
      ZeroHasNoBit(j - 1);
    }
  }

  /** The test `v & (1 << j) != 0`. */
  lemma {:induction false} AndTestsBit(v: nat, j: nat)
    ensures BitAnd(v, Shl(1, j)) != 0 <==> HasBit(v, j)
  {
    if v == 0 {
      ZeroHasNoBit(j);
    } else if j > 0 {
      AndTestsBit(v / 2, j - 1);
      ShlMonotone(0, 1, j);
    } else {
      assert BitAnd(v / 2, 0) == 0;
    }
  }
}
