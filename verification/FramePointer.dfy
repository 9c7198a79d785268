/** The frame-pointer fallback shared by both architectures, and the frame iterator over it. */
module FramePointer {
  import opened Words

  /** A stack reader's answer to a request, given all requests before it. */
  type Reader = (seq<u64>, u64) -> Option<u64>

  /** The mask that strips nothing: `PtrAuthMask::new_no_strip`. */
  const NO_STRIP: u64 := U64_MAX

  lemma NoStripIsIdentity(addr: u64)
    ensures BitAnd(addr, NO_STRIP) == addr
  {
    PowersOfTwo();
    AndLowMask(addr, 64);
  }

  datatype WalkError =
    | CouldNotReadStack(addr: u64)
    | FramepointerUnwindingMovedBackwards
    | DidNotAdvance
    | IntegerOverflow

  /** The caller's registers: where it returns to, the raw link word, and its sp and fp. */
  datatype Caller = Caller(returnAddress: u64, rawLink: u64, sp: u64, fp: u64)

  type Outcome = Result<Option<Caller>, WalkError>

  datatype Step = Step(outcome: Outcome, log: seq<u64>)

  /** `fallback_unwind_frame`. On x86_64 nothing is stripped and `mask` is all ones. */
  function Fallback(ip: u64, sp: u64, fp: u64, mask: u64, answer: Reader, log: seq<u64>): Step {
    if fp == 0 then Step(Ok(None), log)
    else if fp + 16 >= TWO64 then Step(Err(IntegerOverflow), log)
    else if fp + 16 <= sp then Step(Err(FramepointerUnwindingMovedBackwards), log)
    else match answer(log, fp)
      case None => Step(Err(CouldNotReadStack(fp)), log + [fp])
      case Some(newFp) =>
        if newFp != 0 && newFp <= fp then Step(Err(FramepointerUnwindingMovedBackwards), log + [fp])
        else LinkStep(ip, sp, fp, newFp, mask, answer, log + [fp])
  }

  /** The second half: the return address above the saved frame pointer. */
  function LinkStep(ip: u64, sp: u64, fp: u64, newFp: u64, mask: u64, answer: Reader, log: seq<u64>): Step
    requires fp + 16 < TWO64
  {
    match answer(log, fp + 8)
    case None => Step(Err(CouldNotReadStack(fp + 8)), log + [fp + 8])
    case Some(link) =>
      var ra := BitAnd(link, mask);
      if ra == 0 then Step(Ok(None), log + [fp + 8])
      else if ra == ip && fp + 16 == sp then Step(Err(DidNotAdvance), log + [fp + 8])
      else Step(Ok(Some(Caller(ra, link, fp + 16, newFp))), log + [fp + 8])
  }

  datatype FrameAddress = InstructionPointer(addr: u64) | ReturnAddress(addr: u64)

  datatype IterState = Initial(pc: u64) | Unwinding(frame: FrameAddress) | Done

  /** The iterator with the registers the fallback uses and the reader's request log. */
  datatype Walk = Walk(state: IterState, sp: u64, fp: u64, mask: u64, log: seq<u64>)

  type Reply = Result<Option<FrameAddress>, WalkError>

  /** `UnwindIterator::next` when no frame has unwind info. */
  function Next(w: Walk, answer: Reader): (Reply, Walk) {
    match w.state
    case Initial(pc) =>
      (Ok(Some(InstructionPointer(pc))), w.(state := Unwinding(InstructionPointer(pc))))
    case Unwinding(frame) =>
      var step := Fallback(BitAnd(frame.addr, w.mask), w.sp, w.fp, w.mask, answer, w.log);
      (match step.outcome
       case Err(e) => (Err(e), w.(log := step.log))
       case Ok(None) => (Ok(None), w.(state := Done, log := step.log))
       case Ok(Some(c)) =>
         var frame' := ReturnAddress(c.returnAddress);
         (Ok(Some(frame')), Walk(Unwinding(frame'), c.sp, c.fp, w.mask, step.log)))
    case Done => (Ok(None), w)
  }

  // ---------------------------------------------------------------------------
  // One step

  /** A frame was recovered only after both of its words were read; the stack pointer rose,
      and the frame pointer rose or became zero. */
  lemma StepClimbs(ip: u64, sp: u64, fp: u64, mask: u64, answer: Reader, log: seq<u64>)
    requires Fallback(ip, sp, fp, mask, answer, log).outcome.Ok?
    requires Fallback(ip, sp, fp, mask, answer, log).outcome.value.Some?
    ensures var step := Fallback(ip, sp, fp, mask, answer, log);
      var c := step.outcome.value.value;
      && step.log == log + [fp, fp + 8]
      && answer(log, fp) == Some(c.fp) && answer(log + [fp], fp + 8) == Some(c.rawLink)
      && fp != 0 && sp < c.sp == fp + 16
      && (c.fp == 0 || fp < c.fp)
      && c.returnAddress == BitAnd(c.rawLink, mask) != 0
  {
    assert log + [fp] + [fp + 8] == log + [fp, fp + 8];
  }

  /** The frame record at `fp` lies above the stack pointer and below the end of memory. */
  predicate RecordFits(sp: u64, fp: u64) {
    fp != 0 && fp + 16 < TWO64 && sp < fp + 16
  }

  /** Every outcome of a step, by the two words of the frame record: the saved frame pointer
      must rise or be zero, and the link must not strip to zero. */
  lemma FallbackMeaning(ip: u64, sp: u64, fp: u64, mask: u64, answer: Reader, log: seq<u64>)
    ensures var out := Fallback(ip, sp, fp, mask, answer, log).outcome;
      var saved := answer(log, fp);
      var rises := saved.Some? && (saved.value == 0 || fp < saved.value);
      && (out == Err(IntegerOverflow) <==> fp != 0 && TWO64 <= fp + 16)
      && (out == Err(FramepointerUnwindingMovedBackwards) <==>
            fp != 0 && fp + 16 < TWO64 && (fp + 16 <= sp || (saved.Some? && !rises)))
      && (forall a: u64 :: out == Err(CouldNotReadStack(a)) <==>
            RecordFits(sp, fp) && ((saved.None? && a == fp) || (rises && a == fp + 8 && answer(log + [fp], a).None?)))
      && (out == Ok(None) <==>
            fp == 0 || (RecordFits(sp, fp) && rises
                        && var link := answer(log + [fp], fp + 8); link.Some? && BitAnd(link.value, mask) == 0))
      && (forall c: Caller :: out == Ok(Some(c)) <==>
            && RecordFits(sp, fp) && saved == Some(c.fp) && rises && answer(log + [fp], fp + 8) == Some(c.rawLink)
            && c.returnAddress == BitAnd(c.rawLink, mask) != 0 && c.sp == fp + 16)
  {
    hide BitAnd;
  }

  /** The requests of a step: none, the saved frame pointer, or also the link above it. */
  lemma FallbackReads(ip: u64, sp: u64, fp: u64, mask: u64, answer: Reader, log: seq<u64>)
    ensures var saved := answer(log, fp);
      Fallback(ip, sp, fp, mask, answer, log).log ==
        if !RecordFits(sp, fp) then log
        else if saved.None? || 0 < saved.value <= fp then log + [fp]
        else log + [fp, fp + 8]
  {
    hide BitAnd;
    if fp + 16 < TWO64 {
      assert log + [fp] + [fp + 8] == log + [fp, fp + 8];
    }
  }

  /** The fallback never reports `DidNotAdvance`: a frame that passed the order check rose. */
  lemma FallbackAlwaysAdvances(ip: u64, sp: u64, fp: u64, mask: u64, answer: Reader, log: seq<u64>)
    ensures Fallback(ip, sp, fp, mask, answer, log).outcome != Err(DidNotAdvance)
  {
  }

  // ---------------------------------------------------------------------------
  // Runs

  /** The addresses at which some request so far got an answer. */
  function Answered(answer: Reader, log: seq<u64>): set<u64> {
    if log == [] then {}
    else
      var most, last := log[..|log| - 1], log[|log| - 1];
      Answered(answer, most) + (if answer(most, last).Some? then {last} else {})
  }

  lemma {:induction false} AnsweredAppend(answer: Reader, log: seq<u64>, a: u64)
    ensures Answered(answer, log + [a]) == Answered(answer, log) + if answer(log, a).Some? then {a} else {}
  {
    assert (log + [a])[..|log|] == log;
  }

  /** A run of calls to `next`: the replies, and for every return address yielded the frame
      pointer it was recovered from and the stack pointer it led to. */
  datatype Trace = Trace(walk: Walk, replies: seq<Reply>, fps: seq<u64>, sps: seq<u64>)

  function Extend(t: Trace, answer: Reader): Trace {
    var (reply, w') := Next(t.walk, answer);
    if t.walk.state.Unwinding? && reply.Ok? && reply.value.Some?
    then Trace(w', t.replies + [reply], t.fps + [t.walk.fp], t.sps + [w'.sp])
    else Trace(w', t.replies + [reply], t.fps, t.sps)
  }

  function Calls(pc: u64, sp: u64, fp: u64, mask: u64, answer: Reader, n: nat): Trace {
    if n == 0 then Trace(Walk(Initial(pc), sp, fp, mask, []), [], [], [])
    else Extend(Calls(pc, sp, fp, mask, answer, n - 1), answer)
  }

  predicate StrictlyIncreasing(s: seq<u64>) {
    forall i, j :: 0 <= i < j < |s| ==> s[i] < s[j]
  }

  /** What every call keeps, whatever the reader does and however often errors are retried. */
  ghost predicate Climbing(t: Trace, sp: u64, answer: Reader) {
    && |t.fps| == |t.sps|
    && StrictlyIncreasing(t.fps) && StrictlyIncreasing(t.sps)
    && (forall i :: 0 <= i < |t.fps| ==> t.fps[i] != 0 && t.fps[i] < TWO64 - 16 && t.sps[i] == t.fps[i] + 16 && sp < t.sps[i] <= t.walk.sp)
    && (t.walk.fp == 0 || forall i :: 0 <= i < |t.fps| ==> t.fps[i] < t.walk.fp)
    && (t.fps == [] ==> t.walk.sp == sp)
    && (forall i :: 0 <= i < |t.fps| ==> t.fps[i] in Answered(answer, t.walk.log))
    && sp <= t.walk.sp
  }

  lemma ExtendKeepsClimbing(t: Trace, sp: u64, answer: Reader)
    requires Climbing(t, sp, answer)
    ensures Climbing(Extend(t, answer), sp, answer)
  {
    hide Fallback, Answered;
    if t.walk.state.Unwinding? {
      var w := t.walk;
      var ip := BitAnd(w.state.frame.addr, w.mask);
      LogGrows(ip, w.sp, w.fp, w.mask, answer, w.log);
      var step := Fallback(ip, w.sp, w.fp, w.mask, answer, w.log);
      if step.outcome.Ok? && step.outcome.value.Some? {
        StepClimbs(ip, w.sp, w.fp, w.mask, answer, w.log);
      }
    }
  }

  /** Requests are only appended, and a recovered frame's pointer was answered. */
  lemma LogGrows(ip: u64, sp: u64, fp: u64, mask: u64, answer: Reader, log: seq<u64>)
    ensures var step := Fallback(ip, sp, fp, mask, answer, log);
      && Answered(answer, log) <= Answered(answer, step.log)
      && (step.outcome.Ok? && step.outcome.value.Some? ==> fp in Answered(answer, step.log))
  {
    hide Answered;
    AnsweredAppend(answer, log, fp);
    if fp + 16 < TWO64 {
      AnsweredAppend(answer, log + [fp], fp + 8);
    }
  }

  lemma {:induction false} CallsClimb(pc: u64, sp: u64, fp: u64, mask: u64, answer: Reader, n: nat)
    ensures Climbing(Calls(pc, sp, fp, mask, answer, n), sp, answer)
  {
    hide Extend;
    if n > 0 {
      CallsClimb(pc, sp, fp, mask, answer, n - 1);
      ExtendKeepsClimbing(Calls(pc, sp, fp, mask, answer, n - 1), sp, answer);
    }
  }

  lemma {:induction false} DistinctCount(s: seq<u64>, within: set<u64>)
    requires StrictlyIncreasing(s) && forall i :: 0 <= i < |s| ==> s[i] in within
    ensures |s| <= |within|
    decreases |s|
  {
    if s != [] {
      var last := s[|s| - 1];
      DistinctCount(s[..|s| - 1], within - {last});
    }
  }

  lemma {:induction false} IncreasingBound(s: seq<u64>)
    requires StrictlyIncreasing(s) && s != []
    ensures s[0] + |s| - 1 <= s[|s| - 1]
  {
    if |s| > 1 {
      IncreasingBound(s[..|s| - 1]);
    }
  }

  /** For any reader, stateful or not, and any number of calls, errors retried or not: frame
      pointers strictly increase, stack pointers strictly increase from the initial one, and
      no more return addresses are yielded than addresses were ever read successfully. */
  lemma WalkIsBounded(pc: u64, sp: u64, fp: u64, mask: u64, answer: Reader, n: nat)
    ensures var t := Calls(pc, sp, fp, mask, answer, n);
      && StrictlyIncreasing(t.fps) && StrictlyIncreasing([sp] + t.sps)
      && ReturnAddresses(t.replies) == |t.fps| <= |Answered(answer, t.walk.log)|
      && (forall i :: 0 <= i < |t.fps| ==> t.fps[i] in Answered(answer, t.walk.log))
  {
    hide Calls, Answered;
    CallsClimb(pc, sp, fp, mask, answer, n);
    ReturnAddressesAreCounted(pc, sp, fp, mask, answer, n);
    var t := Calls(pc, sp, fp, mask, answer, n);
    DistinctCount(t.fps, Answered(answer, t.walk.log));
  }

  /** How many replies yielded a return address. */
  function ReturnAddresses(replies: seq<Reply>): nat {
    if replies == [] then 0
    else
      var last := replies[|replies| - 1];
      ReturnAddresses(replies[..|replies| - 1]) + if Yielded(last) && last.value.value.ReturnAddress? then 1 else 0
  }

  lemma CountAppend(replies: seq<Reply>, r: Reply)
    ensures ReturnAddresses(replies + [r]) ==
      ReturnAddresses(replies) + if Yielded(r) && r.value.value.ReturnAddress? then 1 else 0
  {
    assert (replies + [r])[..|replies|] == replies;
  }

  lemma ExtendCounts(t: Trace, answer: Reader)
    requires ReturnAddresses(t.replies) == |t.fps| == |t.sps|
    ensures var t' := Extend(t, answer); ReturnAddresses(t'.replies) == |t'.fps| == |t'.sps|
  {
    hide Fallback, ReturnAddresses;
    CountAppend(t.replies, Next(t.walk, answer).0);
  }

  /** The record of frame pointers has one entry for each of them. */
  lemma {:induction false} ReturnAddressesAreCounted(pc: u64, sp: u64, fp: u64, mask: u64, answer: Reader, n: nat)
    ensures var t := Calls(pc, sp, fp, mask, answer, n); ReturnAddresses(t.replies) == |t.fps| == |t.sps|
  {
    hide Extend;
    if n > 0 {
      ReturnAddressesAreCounted(pc, sp, fp, mask, answer, n - 1);
      ExtendCounts(Calls(pc, sp, fp, mask, answer, n - 1), answer);
    }
  }

  predicate Yielded(r: Reply) {
    r.Ok? && r.value.Some?
  }

  lemma {:induction false} YieldsAreCounted(pc: u64, sp: u64, fp: u64, mask: u64, answer: Reader, n: nat)
    requires forall i :: 0 <= i < |Calls(pc, sp, fp, mask, answer, n).replies| ==>
               Yielded(Calls(pc, sp, fp, mask, answer, n).replies[i])
    ensures var t := Calls(pc, sp, fp, mask, answer, n);
      && |t.replies| == n && (n == 0 ==> t.walk.state.Initial?)
      && (n > 0 ==> t.walk.state.Unwinding? && |t.fps| == n - 1)
  {
    hide Fallback;
    if n > 0 {
      var t := Calls(pc, sp, fp, mask, answer, n - 1);
      var t' := Calls(pc, sp, fp, mask, answer, n);
      assert t'.replies == t.replies + [Next(t.walk, answer).0];
      forall i | 0 <= i < |t.replies|
        ensures Yielded(t.replies[i])
      {
        assert t'.replies[i] == t.replies[i];
      }
      assert Yielded(t'.replies[|t.replies|]);
      YieldsAreCounted(pc, sp, fp, mask, answer, n - 1);
    }
  }

  /** Termination: a run in which every call yields a frame has at most one call more than
      there are addresses at which a read ever succeeded. */
  lemma WalkTerminates(pc: u64, sp: u64, fp: u64, mask: u64, answer: Reader, n: nat)
    requires forall i :: 0 <= i < |Calls(pc, sp, fp, mask, answer, n).replies| ==>
               Yielded(Calls(pc, sp, fp, mask, answer, n).replies[i])
    ensures n <= 1 + |Answered(answer, Calls(pc, sp, fp, mask, answer, n).walk.log)|
    ensures n <= TWO64
  {
    hide Calls, Answered;
    WalkIsBounded(pc, sp, fp, mask, answer, n);
    YieldsAreCounted(pc, sp, fp, mask, answer, n);
    CallsClimb(pc, sp, fp, mask, answer, n);
    var t := Calls(pc, sp, fp, mask, answer, n);
    if t.fps != [] {
      IncreasingBound(t.fps);
    }
  }

  // ---------------------------------------------------------------------------
  // Completeness

  /** One record of a frame-pointer chain: where it is and the link it holds. */
  datatype Frame = Frame(fp: u64, link: u64)

  function FpAt(frames: seq<Frame>, i: nat): u64
    requires i <= |frames|
  {
    if i < |frames| then frames[i].fp else 0
  }

  /** Every read of `a` gives `v`. */
  ghost predicate Holds(answer: Reader, a: u64, v: u64) {
    forall log :: answer(log, a) == Some(v)
  }

  /** Memory holds the chain: record `i` saves the address of the next one, the last saves zero,
      addresses rise, and no link strips to zero. */
  ghost predicate OnStack(answer: Reader, mask: u64, frames: seq<Frame>) {
    forall i: nat :: i < |frames| ==>
      && frames[i].fp != 0 && frames[i].fp + 16 < TWO64
      && (i + 1 < |frames| ==> frames[i].fp < frames[i + 1].fp)
      && Holds(answer, frames[i].fp, FpAt(frames, i + 1)) && Holds(answer, frames[i].fp + 8, frames[i].link)
      && BitAnd(frames[i].link, mask) != 0
  }

  /** The pc, then the stripped link of each of the first `k` records. */
  function Expected(pc: u64, mask: u64, frames: seq<Frame>, k: nat): seq<Reply>
    requires k <= |frames|
  {
    if k == 0 then [Ok(Some(InstructionPointer(pc)))]
    else Expected(pc, mask, frames, k - 1) + [Ok(Some(ReturnAddress(BitAnd(frames[k - 1].link, mask))))]
  }

  lemma {:induction false} PrefixIsWalked(pc: u64, sp: u64, mask: u64, answer: Reader, frames: seq<Frame>, k: nat)
    requires OnStack(answer, mask, frames) && (frames != [] ==> sp < frames[0].fp + 16) && k <= |frames|
    ensures var t := Calls(pc, sp, FpAt(frames, 0), mask, answer, k + 1);
      && t.replies == Expected(pc, mask, frames, k)
      && t.walk.state.Unwinding? && t.walk.fp == FpAt(frames, k) && t.walk.mask == mask
      && t.walk.sp == if k == 0 then sp else frames[k - 1].fp + 16
    decreases k
  {
    hide Fallback, BitAnd;
    if k == 0 {
      assert Calls(pc, sp, FpAt(frames, 0), mask, answer, 0).walk == Walk(Initial(pc), sp, FpAt(frames, 0), mask, []);
    } else {
      PrefixIsWalked(pc, sp, mask, answer, frames, k - 1);
      var w := Calls(pc, sp, FpAt(frames, 0), mask, answer, k).walk;
      RecordIsTaken(w, answer, frames, k - 1);
    }
  }

  lemma RecordIsTaken(w: Walk, answer: Reader, frames: seq<Frame>, i: nat)
    requires OnStack(answer, w.mask, frames) && i < |frames|
    requires w.state.Unwinding? && w.fp == frames[i].fp && w.sp < frames[i].fp + 16
    ensures var ra, (reply, w') := ReturnAddress(BitAnd(frames[i].link, w.mask)), Next(w, answer);
      && reply == Ok(Some(ra)) && w'.state == Unwinding(ra)
      && w'.fp == FpAt(frames, i + 1) && w'.sp == frames[i].fp + 16 && w'.mask == w.mask
  {
    hide Fallback, BitAnd;
    var ip := BitAnd(w.state.frame.addr, w.mask);
    FallbackMeaning(ip, w.sp, w.fp, w.mask, answer, w.log);
    var c := Caller(BitAnd(frames[i].link, w.mask), frames[i].link, frames[i].fp + 16, FpAt(frames, i + 1));
    assert Fallback(ip, w.sp, w.fp, w.mask, answer, w.log).outcome == Ok(Some(c));
  }

  /** The walk is complete: over any chain that memory holds it yields the pc, then the return
      address of every record in order, then the end. */
  lemma ChainIsWalked(pc: u64, sp: u64, mask: u64, answer: Reader, frames: seq<Frame>)
    requires OnStack(answer, mask, frames) && (frames != [] ==> sp < frames[0].fp + 16)
    ensures Calls(pc, sp, FpAt(frames, 0), mask, answer, |frames| + 2).replies == Expected(pc, mask, frames, |frames|) + [Ok(None)]
  {
    hide Fallback, BitAnd, OnStack;
    PrefixIsWalked(pc, sp, mask, answer, frames, |frames|);
    var w := Calls(pc, sp, FpAt(frames, 0), mask, answer, |frames| + 1).walk;
    FallbackMeaning(BitAnd(w.state.frame.addr, w.mask), w.sp, w.fp, w.mask, answer, w.log);
  }

  // ---------------------------------------------------------------------------
  // Errors, ends and retries

  /** An error or the end of the stack leaves the registers as they were; an error also leaves
      the state, so the next call retries the same frame. */
  lemma FailureKeepsRegisters(w: Walk, answer: Reader)
    ensures var (reply, w') := Next(w, answer);
      && (!Yielded(reply) ==> w'.sp == w.sp && w'.fp == w.fp && w'.mask == w.mask)
      && (reply.Err? ==> w'.state == w.state)
      && (reply == Ok(None) <==> w'.state.Done?)
  {
    hide Fallback;
  }

  /** A reader that answers each address always alike. */
  ghost predicate Deterministic(answer: Reader) {
    forall log, log', a :: answer(log, a) == answer(log', a)
  }

  lemma RetryRepeatsTheError(w: Walk, answer: Reader)
    requires Deterministic(answer) && Next(w, answer).0.Err?
    ensures Next(Next(w, answer).1, answer).0 == Next(w, answer).0
  {
    var w' := Next(w, answer).1;
    assert w'.state == w.state && w.state.Unwinding?;
    SameOutcome(BitAnd(w.state.frame.addr, w.mask), w.sp, w.fp, w.mask, answer, w.log, w'.log);
  }

  lemma SameOutcome(ip: u64, sp: u64, fp: u64, mask: u64, answer: Reader, log: seq<u64>, log': seq<u64>)
    requires Deterministic(answer)
    ensures Fallback(ip, sp, fp, mask, answer, log).outcome == Fallback(ip, sp, fp, mask, answer, log').outcome
  {
    assert answer(log, fp) == answer(log', fp);
    if fp + 16 < TWO64 {
      assert answer(log + [fp], fp + 8) == answer(log' + [fp], fp + 8);
    }
  }

  /** Once `next` has returned the end of the stack, any number of further calls return it
      again without a read. */
  lemma {:induction false} EndIsFinal(pc: u64, sp: u64, fp: u64, mask: u64, answer: Reader, n: nat, more: nat)
    requires Calls(pc, sp, fp, mask, answer, n).walk.state.Done?
    ensures Calls(pc, sp, fp, mask, answer, n + more).walk == Calls(pc, sp, fp, mask, answer, n).walk
    ensures more > 0 ==>
      var t := Calls(pc, sp, fp, mask, answer, n + more); t.replies != [] && t.replies[|t.replies| - 1] == Ok(None)
    decreases more
  {
    hide Fallback;
    if more > 0 {
      EndIsFinal(pc, sp, fp, mask, answer, n, more - 1);
    }
  }
}
