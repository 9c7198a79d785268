/** The x86_64 backend: the register file with its validity mask, and the fallback step. */
module X86_64 {
  import opened Words
  import opened FramePointer
  import opened Callbacks

  /** libunwind's register numbers: 0 to 15 as in `Reg`, and the instruction pointer. */
  const RBP: nat := 6
  const RSP: nat := 7
  const RIP: int := 16
  const REG_COUNT: nat := 16

  /** `1u16 << reg`. */
  function Bit(reg: nat): nat {
    Shl(1, reg)
  }

  predicate IsSet(valid: nat, reg: nat) {
    BitAnd(valid, Bit(reg)) != 0
  }

  lemma SetBit(valid: nat, reg: nat, j: nat)
    ensures IsSet(BitOr(valid, Bit(reg)), j) <==> j == reg || IsSet(valid, j)
  {
    AndTestsBit(BitOr(valid, Bit(reg)), j);
    OrHasBit(valid, Bit(reg), j);
    ShlHasBit(reg, j);
    AndTestsBit(valid, j);
  }

  lemma NothingSet(j: nat)
    ensures !IsSet(0, j)
  {
  }

  lemma OneBit(reg: nat, j: nat)
    ensures IsSet(Bit(reg), j) <==> j == reg
  {
    AndTestsBit(Bit(reg), j);
    ShlHasBit(reg, j);
  }

  /** The registers a frame knows, with their values; a clear bit hides a stale value. */
  type Known = map<nat, u64>

  function KnownIn(regs: seq<u64>, valid: nat): Known
    requires |regs| == REG_COUNT
  {
    map r: nat | r < REG_COUNT && IsSet(valid, r) :: regs[r]
  }

  lemma SetKnown(regs: seq<u64>, valid: nat, reg: nat, value: u64)
    requires |regs| == REG_COUNT && reg < REG_COUNT
    ensures KnownIn(regs[reg := value], BitOr(valid, Bit(reg))) == KnownIn(regs, valid)[reg := value]
  {
    hide IsSet;
    forall j: nat
      ensures IsSet(BitOr(valid, Bit(reg)), j) <==> j == reg || IsSet(valid, j)
    {
      SetBit(valid, reg, j);
    }
  }

  lemma ClearedKnown(regs: seq<u64>)
    requires |regs| == REG_COUNT
    ensures KnownIn(regs, BitOr(Bit(RSP), Bit(RBP))) == map[RSP := regs[RSP], RBP := regs[RBP]]
  {
    hide IsSet, Bit;
    forall j: nat
      ensures IsSet(BitOr(Bit(RSP), Bit(RBP)), j) <==> j == RSP || j == RBP
    {
      SetBit(Bit(RSP), RBP, j);
      OneBit(RSP, j);
    }
  }

  /** `UnwindRegsX86_64`, and `RawRegsX86_64`, which has the same fields. */
  class Regs {
    var ip: u64
    const regs: array<u64>
    var valid: nat

    ghost predicate Valid() {
      regs.Length == REG_COUNT
    }

    ghost function Contents(): Known
      requires Valid()
      reads this, regs
    {
      KnownIn(regs[..], valid)
    }

    /** `sp()` and `bp()` read the slots whether or not they are marked valid. */
    function Slot(reg: nat): u64
      requires Valid() && reg < REG_COUNT
      reads regs
    {
      regs[reg]
    }

    constructor (ip: u64, sp: u64, bp: u64)
      ensures Valid() && fresh(regs)
      ensures this.ip == ip && Contents() == map[RSP := sp, RBP := bp]
    {
      this.ip := ip;
      this.regs := new u64[REG_COUNT](i => 0);
      this.valid := 0;
      new;
      hide IsSet;
      forall j: nat ensures !IsSet(0, j) { NothingSet(j); }
      Set(RSP, sp);
      Set(RBP, bp);
    }

    method Set(reg: nat, value: u64)
      requires Valid() && reg < REG_COUNT
      modifies this`valid, regs
      ensures Contents() == old(Contents())[reg := value]
      ensures regs[..] == old(regs[..])[reg := value]
    {
      hide KnownIn;
      SetKnown(regs[..], valid, reg, value);
      regs[reg] := value;
      assert regs[..] == old(regs[..])[reg := value];
      valid := BitOr(valid, Bit(reg));
    }

    method GetIfSet(reg: nat) returns (r: Option<u64>)
      requires Valid() && reg < REG_COUNT
      ensures r == if reg in Contents() then Some(Contents()[reg]) else None
    {
      r := if BitAnd(valid, Bit(reg)) != 0 then Some(regs[reg]) else None;
    }

    /** Keep only the stack and frame pointers: nothing else was restored for the caller. */
    method ClearUnrestoredCallerRegisters()
      requires Valid()
      modifies this`valid
      ensures Contents() == map[RSP := Slot(RSP), RBP := Slot(RBP)]
    {
      ClearedKnown(regs[..]);
      valid := BitOr(Bit(RSP), Bit(RBP));
    }

    /** The update both unwind paths end with. */
    method EnterCaller(newIp: u64, sp: u64, bp: u64)
      requires Valid()
      modifies this, regs
      ensures ip == newIp && Contents() == map[RSP := sp, RBP := bp]
      ensures Slot(RSP) == sp && Slot(RBP) == bp
    {
      hide KnownIn;
      ClearUnrestoredCallerRegisters();
      ip := newIp;
      Set(RSP, sp);
      Set(RBP, bp);
    }

    /** `RawRegsX86_64::access_reg`. A register can be read only after it was written or
        supplied; the result is `None` for `-UNW_EBADREG`. */
    method AccessReg(reg: int, val: u64, write: bool) returns (r: Option<u64>)
      requires Valid()
      modifies this, regs
      ensures reg == RIP ==>
                Contents() == old(Contents()) && ip == (if write then val else old(ip)) && r == Some(ip)
      ensures 0 <= reg < REG_COUNT && write ==>
                ip == old(ip) && r == Some(val) && Contents() == old(Contents())[reg := val]
      ensures 0 <= reg < REG_COUNT && !write ==>
                ip == old(ip) && Contents() == old(Contents())
                && r == if reg in Contents() then Some(Contents()[reg]) else None
      ensures reg != RIP && !(0 <= reg < REG_COUNT) ==>
                r == None && ip == old(ip) && Contents() == old(Contents())
    {
      if reg == RIP {
        if write {
          ip := val;
        }
        return Some(ip);
      }
      if !(0 <= reg < REG_COUNT) {
        return None;
      }
      if write {
        Set(reg, val);
        return Some(val);
      }
      r := GetIfSet(reg);
    }

    /** `fallback_unwind_frame`: on success the caller's file knows exactly its new stack and
        frame pointers; otherwise nothing moved. */
    method FallbackUnwindFrame(currentIp: u64, reader: StackReader) returns (r: Result<Option<u64>, WalkError>)
      requires Valid()
      modifies this, regs, reader
      ensures var step := Fallback(currentIp, old(Slot(RSP)), old(Slot(RBP)), NO_STRIP, reader.answer, old(reader.log));
        && reader.log == step.log
        && match step.outcome {
             case Ok(Some(c)) =>
               && r == Ok(Some(c.returnAddress)) && ip == c.returnAddress == c.rawLink
               && Contents() == map[RSP := c.sp, RBP := c.fp]
               && Slot(RSP) == c.sp && Slot(RBP) == c.fp
             case Ok(None) => r == Ok(None) && unchanged(this) && regs[..] == old(regs[..])
             case Err(e) => r == Err(e) && unchanged(this) && regs[..] == old(regs[..])
           }
    {
      hide BitAnd, KnownIn;
      var sp, bp := regs[RSP], regs[RBP];
      if bp == 0 {
        return Ok(None);
      }
      if bp + 8 >= TWO64 {
        return Err(IntegerOverflow);
      }
      var location := bp + 8;
      if bp + 16 >= TWO64 {
        return Err(IntegerOverflow);
      }
      var newSp := bp + 16;
      if newSp <= sp {
        return Err(FramepointerUnwindingMovedBackwards);
      }
      var newBp := reader.Read(bp);
      if newBp.None? {
        return Err(CouldNotReadStack(bp));
      }
      if newBp.value != 0 && newBp.value <= bp {
        return Err(FramepointerUnwindingMovedBackwards);
      }
      var returnAddress := reader.Read(location);
      if returnAddress.None? {
        return Err(CouldNotReadStack(location));
      }
      var ra := returnAddress.value;
      NoStripIsIdentity(ra);
      if ra == 0 {
        return Ok(None);
      }
      if newSp == sp && ra == currentIp {
        return Err(DidNotAdvance);
      }
      EnterCaller(ra, newSp, newBp.value);
      r := Ok(Some(ra));
    }
  }
}
