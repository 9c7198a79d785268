/** The aarch64 backend: pointer-authentication masks, registers and the fallback step. */
module Aarch64 {
  import opened Words
  import opened FramePointer
  import opened Callbacks
  import opened ModuleSets
  import R = ModuleRegistry

  function Shr(x: nat, k: nat): nat {
    if k == 0 then x else Shr(x, k - 1) / 2
  }

  /** The number of significant bits. */
  function BitLength(a: nat): nat {
    if a == 0 then 0 else 1 + BitLength(a / 2)
  }

  lemma {:induction false} BitLengthBounds(a: nat)
    ensures a < Shl(1, BitLength(a))
    ensures a > 0 ==> Shl(1, BitLength(a) - 1) <= a
  {
    if a > 0 {
      BitLengthBounds(a / 2);
    }
  }

  lemma {:induction false} ShlOneMonotone(j: nat, k: nat)
    requires j <= k
    ensures 1 <= Shl(1, j) <= Shl(1, k)
    decreases k
  {
    if j < k {
      ShlOneMonotone(j, k - 1);
    } else if k > 0 {
      ShlOneMonotone(k - 1, k - 1);
    }
  }

  lemma WordLength(a: u64)
    ensures BitLength(a) <= 64
  {
    hide Shl;
    BitLengthBounds(a);
    PowersOfTwo();
    if BitLength(a) > 64 {
      ShlOneMonotone(64, BitLength(a) - 1);
    }
  }

  /** `leading_zeros`. */
  function LeadingZeros(a: u64): (n: nat)
    ensures n == 64 - BitLength(a)
  {
    WordLength(a);
    64 - BitLength(a)
  }

  lemma {:induction false} AllOnes(k: nat)
    requires k <= 64
    ensures Shl(1, k) >= 1 && Shr(U64_MAX, 64 - k) == Shl(1, k) - 1
    decreases 64 - k
  {
    if k == 64 {
      PowersOfTwo();
    } else {
      AllOnes(k + 1);
      assert Shr(U64_MAX, 64 - k) == Shr(U64_MAX, 64 - (k + 1)) / 2;
      assert Shl(1, k + 1) == 2 * Shl(1, k);
    }
  }

  // ---------------------------------------------------------------------------
  // Masks

  /** `PtrAuthMask::from_max_known_address`. */
  function MaskFor(max: u64): (mask: u64)
    ensures max != 0 ==> mask == Shl(1, BitLength(max)) - 1
  {
    if max == 0 then NO_STRIP
    else
      WordLength(max);
      AllOnes(BitLength(max));
      ShlOneMonotone(BitLength(max), 64);
      PowersOfTwo();
      Shr(U64_MAX, LeadingZeros(max))
  }

  /** `strip_ptr_auth`. */
  function Strip(mask: u64, addr: u64): (r: u64)
    ensures r <= addr
  {
    BitAnd(addr, mask)
  }

  /** Without a known address nothing is stripped; otherwise every bit above the highest bit of
      the greatest known address is. */
  lemma MaskMeaning(max: u64, addr: u64)
    ensures max == 0 ==> Strip(MaskFor(max), addr) == addr
    ensures max != 0 ==>
      && BitLength(max) > 0 && Shl(1, BitLength(max) - 1) <= max < Shl(1, BitLength(max))
      && Strip(MaskFor(max), addr) == addr % Shl(1, BitLength(max))
  {
    hide BitAnd, BitLength, Shr;
    if max == 0 {
      NoStripIsIdentity(addr);
    } else {
      BitLengthBounds(max);
      LowMaskIsRemainder(addr, BitLength(max));
    }
  }

  /** A mask built from an address keeps every address up to it. */
  lemma MaskKeepsKnown(max: u64, addr: u64)
    requires addr <= max
    ensures Strip(MaskFor(max), addr) == addr
  {
    hide Shl, BitAnd, BitLength, Shr;
    if max == 0 {
      NoStripIsIdentity(addr);
    } else {
      BitLengthBounds(max);
      AndLowMask(addr, BitLength(max));
    }
  }

  /** The mask built from a registry's greatest range end leaves every address inside every
      registered module unchanged. */
  lemma MaskKeepsModuleAddresses(g: R.Registry, max: u64, k: u64, addr: u64)
    requires forall j :: j in g.modules ==> g.modules[j].avmaEnd <= max
    requires k in g.modules && R.InRange(g.modules[k], addr)
    ensures Strip(MaskFor(max), addr) == addr
  {
    hide Strip, MaskFor;
    MaskKeepsKnown(max, addr);
  }

  /** The mask a profiler builds from the unwinder's greatest known code address. */
  method MaskForModules(modules: ModuleSet) returns (mask: u64)
    ensures forall k, addr: u64 :: k in modules.modules && R.InRange(modules.modules[k], addr) ==> Strip(mask, addr) == addr
  {
    hide Strip, MaskFor;
    var max := modules.MaxKnownCodeAddress();
    mask := MaskFor(max);
    forall k, addr: u64 | k in modules.modules && R.InRange(modules.modules[k], addr)
      ensures Strip(mask, addr) == addr
    {
      MaskKeepsModuleAddresses(modules.Value(), max, k, addr);
    }
  }

  lemma StripIsIdempotent(mask: u64, addr: u64)
    ensures Strip(mask, Strip(mask, addr)) == Strip(mask, addr)
  {
    AndIdempotent(addr, mask);
  }

  // ---------------------------------------------------------------------------
  // Registers

  /** `UnwindRegsAarch64`. The link register is stored stripped. */
  class Regs {
    const lrMask: u64
    var lr: u64
    var sp: u64
    var fp: u64

    ghost predicate Valid()
      reads this
    {
      Strip(lrMask, lr) == lr
    }

    constructor (mask: u64, lr: u64, sp: u64, fp: u64)
      ensures Valid() && lrMask == mask && this.lr == Strip(mask, lr) && this.sp == sp && this.fp == fp
    {
      StripIsIdempotent(mask, lr);
      this.lrMask, this.lr, this.sp, this.fp := mask, Strip(mask, lr), sp, fp;
    }

    method SetLr(lr: u64)
      modifies this`lr
      ensures Valid() && this.lr == Strip(lrMask, lr)
    {
      StripIsIdempotent(lrMask, lr);
      this.lr := Strip(lrMask, lr);
    }

    method SetSp(sp: u64)
      requires Valid()
      modifies this`sp
      ensures Valid() && this.sp == sp
    {
      this.sp := sp;
    }

    method SetFp(fp: u64)
      requires Valid()
      modifies this`fp
      ensures Valid() && this.fp == fp
    {
      this.fp := fp;
    }

    /** `fallback_unwind_frame`: registers move only when a caller was found. */
    method FallbackUnwindFrame(currentIp: u64, reader: StackReader) returns (r: Result<Option<u64>, WalkError>)
      requires Valid()
      modifies this, reader
      ensures Valid()
      ensures var step := Fallback(currentIp, old(sp), old(fp), lrMask, reader.answer, old(reader.log));
        && reader.log == step.log
        && match step.outcome {
             case Ok(Some(c)) => r == Ok(Some(c.returnAddress)) && lr == c.returnAddress && sp == c.sp && fp == c.fp
             case Ok(None) => r == Ok(None) && unchanged(this)
             case Err(e) => r == Err(e) && unchanged(this)
           }
    {
      hide BitAnd;
      if fp == 0 {
        return Ok(None);
      }
      if fp + 8 >= TWO64 {
        return Err(IntegerOverflow);
      }
      var location := fp + 8;
      if fp + 16 >= TWO64 {
        return Err(IntegerOverflow);
      }
      var newSp := fp + 16;
      if newSp <= sp {
        return Err(FramepointerUnwindingMovedBackwards);
      }
      var newFp := reader.Read(fp);
      if newFp.None? {
        return Err(CouldNotReadStack(fp));
      }
      if newFp.value != 0 && newFp.value <= fp {
        return Err(FramepointerUnwindingMovedBackwards);
      }
      var newLr := reader.Read(location);
      if newLr.None? {
        return Err(CouldNotReadStack(location));
      }
      var returnAddress := Strip(lrMask, newLr.value);
      if returnAddress == 0 {
        return Ok(None);
      }
      if returnAddress == currentIp && newSp == sp {
        return Err(DidNotAdvance);
      }
      SetLr(newLr.value);
      SetSp(newSp);
      SetFp(newFp.value);
      r := Ok(Some(returnAddress));
    }
  }
}
