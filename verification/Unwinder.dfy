/** `unwind_frame` on both architectures and `UnwindIterator::next`. A libunwind step is an
    oracle, and so is what other threads do to the shared caches: whatever they do, the code
    around them decides what happens to the registers and what is yielded. */
module Unwinder {
  import opened Words
  import opened EhFrameTable
  import opened FunctionLookup
  import opened FunctionCache
  import opened FramePointer
  import opened Callbacks
  import opened Modules
  import opened ModuleSets
  import R = ModuleRegistry
  import X86_64
  import Aarch64

  /** What `init_and_step` returned. */
  datatype LibunwindStep = EndOfStack | Stepped(newIp: u64, newSp: u64, newFp: u64, newLr: u64) | Failed

  /** Another thread stores its parse of `ip` in the cache of a module it shares. */
  datatype Insert = Insert(data: ModuleData, ip: u64)

  /** What happens around one frame. During the libunwind step: its result, whether it asks for
      proc info, and the memory it asks for. From other threads: what they insert before the
      signal query of `unwind_frame` and before that of `next`. */
  datatype Environment = Environment(
    step: LibunwindStep,
    asks: bool,
    accesses: seq<Request>,
    during: seq<Insert>,
    after: seq<Insert>)

  datatype UnwindError =
    | WalkFailed(error: WalkError)
    | InvalidEhFrameHdr(source: HdrError)
    | UnwindInfo(info: InfoError)
    | LibunwindFailed

  /** How a frame is unwound: its module's header is broken, its module has tables, or there is
      only the frame pointer. */
  datatype Route = Broken(error: HdrError) | Tables | FramePointers

  function RouteOf(g: R.Registry, lookupIp: u64): Route {
    match R.FindModule(g, lookupIp)
    case None => FramePointers
    case Some(d) =>
      if d.hdrError.Some? then Broken(d.hdrError.value) else if HasTables(d) then Tables else FramePointers
  }

  predicate HasTables(d: ModuleData) {
    d.image.table.count != 0 && d.image.hdr.Some? && d.image.eh.Some?
  }

  /** A request for proc info about the frame at `a` is answered from module `d`. */
  predicate Consulted(g: R.Registry, a: u64, d: ModuleData) {
    RouteOf(g, a).Tables? && R.FindModule(g, a) == Some(d)
  }

  /** The cache of every registered module. */
  type Caches = map<ModuleData, Cache>

  ghost function CachesOf(modules: ModuleSet): Caches
    reads modules, modules.modules.Values
  {
    map d | d in modules.modules.Values :: d.cache
  }

  /** The caches after a request for proc info: no module but the one asked has another. */
  function Ask(g: R.Registry, c: Caches, a: u64): Caches {
    map d | d in c :: if Consulted(g, a, d) then CallCache(d.image, c[d], a) else c[d]
  }

  lemma UnwoundCaches(g: R.Registry, c: Caches, a: u64, env: Environment)
    ensures RouteOf(g, a).Tables? ==>
      var d := R.FindModule(g, a).value;
      d in c ==> AfterUnwind(g, c, a, env) == Disturbed(if env.asks then c[d := CallCache(d.image, c[d], a)] else c, env.during)
    ensures !RouteOf(g, a).Tables? ==> AfterUnwind(g, c, a, env) == c
  {
    hide Ask, Disturbed, CallCache, R.FindModule;
    AskUpdates(g, c, a);
  }

  lemma AskUpdates(g: R.Registry, c: Caches, a: u64)
    ensures RouteOf(g, a).Tables? ==>
      var d := R.FindModule(g, a).value;
      d in c ==> Ask(g, c, a) == c[d := CallCache(d.image, c[d], a)]
    ensures !RouteOf(g, a).Tables? ==> Ask(g, c, a) == c
  {
    hide CallCache, R.FindModule;
  }

  /** One module's cache after other threads' inserts. */
  function Settled(d: ModuleData, cache: Cache, ins: seq<Insert>): Cache {
    if ins == [] then cache
    else
      var c, last := Settled(d, cache, ins[..|ins| - 1]), ins[|ins| - 1];
      if last.data == d then Inserted(d.image, c, last.ip) else c
  }

  function Disturbed(c: Caches, ins: seq<Insert>): Caches {
    map d | d in c :: Settled(d, c[d], ins)
  }

  /** The caches after `unwind_frame`. */
  function AfterUnwind(g: R.Registry, c: Caches, a: u64, env: Environment): Caches {
    if RouteOf(g, a).Tables? then Disturbed(if env.asks then Ask(g, c, a) else c, env.during) else c
  }

  /** The caches that the signal query of `next` reads. */
  function AfterFrame(g: R.Registry, c: Caches, a: u64, env: Environment): Caches {
    Disturbed(AfterUnwind(g, c, a, env), env.after)
  }

  lemma NothingInserted(c: Caches)
    ensures Disturbed(c, []) == c
  {
  }

  /** Other threads storing what they parsed, as far as it reaches this registry's modules. */
  method OtherThreads(modules: ModuleSet, ins: seq<Insert>)
    modifies modules.modules.Values`cache
    ensures CachesOf(modules) == Disturbed(old(CachesOf(modules)), ins)
  {
    hide Inserted;
    for i := 0 to |ins|
      invariant CachesOf(modules) == Disturbed(old(CachesOf(modules)), ins[..i])
    {
      assert ins[..i + 1][..i] == ins[..i];
      var d := ins[i].data;
      if d in modules.modules.Values {
        d.cache := Inserted(d.image, d.cache, ins[i].ip);
      }
    }
    assert ins[..|ins|] == ins;
  }

  function LookupAddress(f: FrameAddress): u64
    requires f.ReturnAddress? ==> f.addr != 0
  {
    match f
    case InstructionPointer(a) => a
    case ReturnAddress(a) => a - 1
  }

  /** A return address is looked up at the call before it: it belongs to the function whose
      range its predecessor is in, so one just past the end still belongs to its caller. */
  lemma ReturnsIntoTheCall(ra: u64, start: u64, end: u64)
    requires ra != 0
    ensures start <= LookupAddress(ReturnAddress(ra)) < end <==> start < ra <= end
    ensures LookupAddress(InstructionPointer(ra)) == ra
  {
  }

  /** The route of an address on a consistent registry, by the module whose range contains it. */
  lemma RouteMeaning(g: R.Registry, a: u64)
    requires R.Consistent(g)
    ensures (forall k :: k in g.modules ==> !R.InRange(g.modules[k], a)) ==> RouteOf(g, a) == FramePointers
    ensures forall k :: k in g.modules && R.InRange(g.modules[k], a) ==>
      var d := g.modules[k];
      && (forall e :: RouteOf(g, a) == Broken(e) <==> d.hdrError == Some(e))
      && (RouteOf(g, a) == Tables <==> d.hdrError == None && d.image.table.count != 0 && d.image.hdr.Some? && d.image.eh.Some?)
  {
    hide R.Consistent, R.FindModule;
    R.FindModuleIsRight(g, a);
  }

  /** What the code after a libunwind step decides: an error, the end, or the caller. The
      address of a non-signal return frame inside a module is moved up by one. */
  function AfterStep(ip: u64, sp: u64, mask: u64, adjust: bool, known: bool, step: LibunwindStep, failedRead: Option<u64>, info: Option<InfoError>)
    : Result<Option<Caller>, UnwindError>
  {
    match step
    case EndOfStack => Ok(None)
    case Failed =>
      if failedRead.Some? then Err(WalkFailed(CouldNotReadStack(failedRead.value)))
      else if info.Some? then Err(UnwindInfo(info.value))
      else Err(LibunwindFailed)
    case Stepped(newIp, newSp, newFp, newLr) =>
      var ra := BitAnd(newIp, mask);
      if ra == 0 then Ok(None)
      else if adjust && known && ra + 1 >= TWO64 then Err(WalkFailed(IntegerOverflow))
      else
        var target := if adjust && known then ra + 1 else ra;
        if target == ip && newSp == sp then Err(WalkFailed(DidNotAdvance))
        else Ok(Some(Caller(target, newLr, newSp, newFp)))
  }

  /** Every register word, for saying that nothing moved. */
  datatype RegFile = XFile(ip: u64, slots: seq<u64>, valid: nat) | AFile(lr: u64, sp: u64, fp: u64)

  /** The register file of either architecture. */
  datatype Machine = X86(x: X86_64.Regs) | Arm(a: Aarch64.Regs) {
    ghost predicate Valid()
      reads if Arm? then {a} else {}
    {
      match this
      case X86(x) => x.Valid()
      case Arm(a) => a.Valid()
    }

    function Footprint(): set<object> {
      match this
      case X86(x) => {x, x.regs}
      case Arm(a) => {a}
    }

    ghost function Snapshot(): RegFile
      reads Footprint()
    {
      match this
      case X86(x) => XFile(x.ip, x.regs[..], x.valid)
      case Arm(a) => AFile(a.lr, a.sp, a.fp)
    }

    /** The stack pointer, frame pointer and mask that the fallback uses. */
    function Sp(): u64
      requires X86? ==> x.Valid()
      reads Footprint()
    {
      match this
      case X86(x) => x.Slot(X86_64.RSP)
      case Arm(a) => a.sp
    }

    function Fp(): u64
      requires X86? ==> x.Valid()
      reads Footprint()
    {
      match this
      case X86(x) => x.Slot(X86_64.RBP)
      case Arm(a) => a.fp
    }

    function Mask(): u64 {
      match this
      case X86(_) => NO_STRIP
      case Arm(a) => a.lrMask
    }
  }

  lemma StripFits(m: Machine, addr: u64)
    ensures BitAnd(addr, m.Mask()) <= addr
    ensures m.X86? ==> BitAnd(addr, m.Mask()) == addr
  {
    if m.X86? {
      NoStripIsIdentity(addr);
    }
  }

  /** The registers after a caller was found: its stack and frame pointers, its address in the
      instruction pointer (x86_64) or its stripped link word in the link register (aarch64). */
  ghost predicate Entered(m: Machine, c: Caller)
    requires m.X86? ==> m.x.Valid()
    reads m.Footprint()
  {
    && m.Sp() == c.sp && m.Fp() == c.fp
    && match m {
         case X86(x) => x.ip == c.returnAddress && x.Contents() == map[X86_64.RSP := c.sp, X86_64.RBP := c.fp]
         case Arm(a) => a.lr == BitAnd(c.rawLink, a.lrMask)
       }
  }

  method EnterCaller(m: Machine, c: Caller)
    requires m.Valid()
    modifies m.Footprint()
    ensures m.Valid() && Entered(m, c)
  {
    match m {
      case X86(x) => x.EnterCaller(c.returnAddress, c.sp, c.fp);
      case Arm(a) =>
        a.SetLr(c.rawLink);
        a.SetSp(c.sp);
        a.SetFp(c.fp);
    }
  }

  method FallbackUnwind(m: Machine, ip: u64, reader: StackReader) returns (r: Result<Option<u64>, UnwindError>)
    requires m.Valid() && (reader as object) !in m.Footprint()
    modifies m.Footprint(), reader
    ensures m.Valid()
    ensures r.Ok? && r.value.Some? ==> r.value.value != 0
    ensures var step := Fallback(ip, old(m.Sp()), old(m.Fp()), m.Mask(), reader.answer, old(reader.log));
      && reader.log == step.log
      && match step.outcome {
           case Ok(Some(c)) => r == Ok(Some(c.returnAddress)) && Entered(m, c) && m.Sp() == c.sp && m.Fp() == c.fp
           case Ok(None) => r == Ok(None) && m.Snapshot() == old(m.Snapshot())
           case Err(e) => r == Err(WalkFailed(e)) && m.Snapshot() == old(m.Snapshot())
         }
  {
    hide Fallback, BitAnd;
    var w: Result<Option<u64>, WalkError>;
    LinkIsReturnAddress(ip, m.Sp(), m.Fp(), m.Mask(), reader.answer, reader.log);
    match m {
      case X86(x) => w := x.FallbackUnwindFrame(ip, reader);
      case Arm(a) => w := a.FallbackUnwindFrame(ip, reader);
    }
    r := match w case Ok(o) => Ok(o) case Err(e) => Err(WalkFailed(e));
  }

  lemma LinkIsReturnAddress(ip: u64, sp: u64, fp: u64, mask: u64, answer: Reader, log: seq<u64>)
    ensures var step := Fallback(ip, sp, fp, mask, answer, log);
      step.outcome.Ok? && step.outcome.value.Some? ==>
        step.outcome.value.value.returnAddress == BitAnd(step.outcome.value.value.rawLink, mask) != 0
  {
    hide BitAnd;
  }

  /** The address libunwind is asked about. */
  function StrippedLookup(m: Machine, f: FrameAddress): u64
    requires f.ReturnAddress? ==> f.addr != 0
  {
    BitAnd(LookupAddress(f), m.Mask())
  }

  /** The address that unwinding from state `s` asks about, if there is a frame to unwind. */
  function LookupOf(s: IterState, m: Machine): Option<u64> {
    if s.Unwinding? && (s.frame.ReturnAddress? ==> s.frame.addr != 0) then Some(StrippedLookup(m, s.frame)) else None
  }

  /** Whether the address a step led to is in a registered module. */
  predicate KnownTarget(g: R.Registry, mask: u64, step: LibunwindStep) {
    step.Stepped? && R.FindModule(g, BitAnd(step.newIp, mask)).Some?
  }

  /** The module's cache that the signal query of the table route reads. */
  function TableCache(d: ModuleData, cache: Cache, lookupIp: u64, env: Environment): Cache {
    Settled(d, if env.asks then CallCache(d.image, cache, lookupIp) else cache, env.during)
  }

  /** The outcome of the table route, from the module's cache before the step and the stack
      address the step last failed to read. */
  function TableOutcome(g: R.Registry, d: ModuleData, cache: Cache, isReturn: bool, ip: u64, lookupIp: u64, sp: u64, mask: u64,
                        env: Environment, failedRead: Option<u64>)
    : Result<Option<Caller>, UnwindError>
  {
    var signal := SignalQuery(TableCache(d, cache, lookupIp, env), lookupIp);
    AfterStep(ip, sp, mask, isReturn && !signal, KnownTarget(g, mask, env.step), env.step, failedRead,
              InfoErrorOf(d, cache, lookupIp, env))
  }

  /** The error a request for proc info leaves behind. */
  function InfoErrorOf(d: ModuleData, cache: Cache, lookupIp: u64, env: Environment): Option<InfoError> {
    if !env.asks then None
    else match CallResult(d.image, cache, lookupIp)
      case Ok(_) => None
      case Err(e) => Some(NoDetails(e))
  }

  /** The stack requests of a libunwind step. */
  function StepMemory(g: R.Registry, answer: Reader, log: seq<u64>, env: Environment): Memory {
    AfterRequests(g, answer, Memory(log, None), env.accesses)
  }

  /** The table route from the caches and the request log before it. */
  function ByTables(g: R.Registry, c: Caches, isReturn: bool, ip: u64, lookupIp: u64, sp: u64, mask: u64,
                    answer: Reader, log: seq<u64>, env: Environment)
    : Result<Option<Caller>, UnwindError>
  {
    match R.FindModule(g, lookupIp)
    case None => Ok(None)
    case Some(d) =>
      var cache := if d in c then c[d] else map[];
      TableOutcome(g, d, cache, isReturn, ip, lookupIp, sp, mask, env, StepMemory(g, answer, log, env).failed)
  }

  /** The step asked for proc info about `a`, it was not cached, and the parse failed with `e`. */
  predicate ParseFailed(d: ModuleData, cache: Cache, a: u64, env: Environment, e: LookupError) {
    env.asks && CacheHit(cache, a).None? && ParseFunctionDetails(d.image, a) == Err(e)
  }

  /** What the table route must reply after each kind of step. `c` are the caches before the step
      and `c'` those the signal query reads; the step's stack requests are `log` from `start` on. */
  ghost predicate TableReply(g: R.Registry, c: Caches, c': Caches, isReturn: bool, ip: u64, a: u64, sp: u64, mask: u64,
                             answer: Reader, log: seq<u64>, start: nat, env: Environment, r: Result<Option<u64>, UnwindError>)
    requires R.FindModule(g, a).Some? && R.FindModule(g, a).value in c
  {
    var d := R.FindModule(g, a).value;
    match env.step
    case EndOfStack => r == Ok(None)
    case Failed =>
      // A failed read explains the failure first, then missing proc info.
      && (forall x: u64 :: r == Err(WalkFailed(CouldNotReadStack(x))) <==> LastRefused(answer, log, start, x))
      && (NoneRefused(answer, log, start) ==>
            && (forall e :: r == Err(UnwindInfo(NoDetails(e))) <==> ParseFailed(d, c[d], a, env, e))
            && (r == Err(LibunwindFailed) <==> forall e :: !ParseFailed(d, c[d], a, env, e)))
    case Stepped(newIp, newSp, _, _) =>
      // A return address inside a module moves up by one, unless the frame was interrupted.
      var ra := BitAnd(newIp, mask);
      var up := isReturn && R.FindModule(g, ra).Some? && !SignalIn(g, c', a);
      var stuck := newSp == sp && ip == if up then ra + 1 else ra;
      && (r == Ok(None) <==> ra == 0)
      && (r == Err(WalkFailed(IntegerOverflow)) <==> up && ra == U64_MAX)
      && (r == Err(WalkFailed(DidNotAdvance)) <==> ra != 0 && stuck)
      && (forall t: u64 :: r == Ok(Some(t)) <==> ra != 0 && !stuck && t == if up then ra + 1 else ra)
  }

  lemma FailedReply(g: R.Registry, c: Caches, c': Caches, isReturn: bool, ip: u64, a: u64, sp: u64, mask: u64,
                    answer: Reader, log: seq<u64>, env: Environment)
    requires R.FindModule(g, a).Some? && R.FindModule(g, a).value in c && env.step == Failed
    ensures var r := Address(ByTables(g, c, isReturn, ip, a, sp, mask, answer, log, env));
      TableReply(g, c, c', isReturn, ip, a, sp, mask, answer, log + Unmirrored(g, env.accesses), |log|, env, r)
  {
    hide R.FindModule, BitAnd, SignalQuery, TableCache, LastRefused, NoneRefused, CacheHit, ParseFunctionDetails, AfterRequests, Unmirrored, KnownTarget;
    var mem := StepMemory(g, answer, log, env);
    RequestsMeaning(g, answer, Memory(log, None), env.accesses);
    if mem.failed.Some? {
      forall x: u64
        ensures LastRefused(answer, mem.log, |log|, x) <==> x == mem.failed.value
        ensures !NoneRefused(answer, mem.log, |log|)
      {
        LastRefusedIsOne(answer, mem.log, |log|, mem.failed.value, x);
      }
    } else {
      assert NoneRefused(answer, mem.log, |log|);
      forall x: u64
        ensures !LastRefused(answer, mem.log, |log|, x)
      {
        NoneIsNotLast(answer, mem.log, |log|, x);
      }
      var d := R.FindModule(g, a).value;
      var parse := ParseFunctionDetails(d.image, a);
      assert env.asks && CacheHit(c[d], a).None? && parse.Err? ==> ParseFailed(d, c[d], a, env, parse.error);
    }
  }

  lemma NoneIsNotLast(answer: Reader, log: seq<u64>, start: nat, x: u64)
    requires NoneRefused(answer, log, start)
    ensures !LastRefused(answer, log, start, x)
  {
    hide RefusedAt;
  }

  lemma SteppedReply(g: R.Registry, c: Caches, isReturn: bool, ip: u64, a: u64, sp: u64, mask: u64,
                     answer: Reader, log: seq<u64>, env: Environment)
    requires RouteOf(g, a).Tables? && R.FindModule(g, a).value in c && env.step.Stepped?
    ensures var r := Address(ByTables(g, c, isReturn, ip, a, sp, mask, answer, log, env));
      TableReply(g, c, AfterUnwind(g, c, a, env), isReturn, ip, a, sp, mask, answer, log + Unmirrored(g, env.accesses), |log|, env, r)
  {
    hide R.FindModule, BitAnd, SignalQuery, InfoErrorOf, StepMemory, AfterUnwind, TableCache, LastRefused, NoneRefused, Unmirrored;
    QueriedCache(g, c, a, env);
  }

  /** The query of the table route reads the caches as the unwinding leaves them. */
  lemma QueriedCache(g: R.Registry, c: Caches, a: u64, env: Environment)
    requires RouteOf(g, a).Tables? && R.FindModule(g, a).value in c
    ensures var d := R.FindModule(g, a).value;
      d in AfterUnwind(g, c, a, env) && AfterUnwind(g, c, a, env)[d] == TableCache(d, c[d], a, env)
  {
    hide R.FindModule, CallCache, Settled;
  }

  /** The table route, for every step. */
  lemma TablesMeaning(g: R.Registry, c: Caches, isReturn: bool, ip: u64, a: u64, sp: u64, mask: u64,
                      answer: Reader, log: seq<u64>, env: Environment)
    requires RouteOf(g, a).Tables? && R.FindModule(g, a).value in c
    ensures var out := ByTables(g, c, isReturn, ip, a, sp, mask, answer, log, env);
      && TableReply(g, c, AfterUnwind(g, c, a, env), isReturn, ip, a, sp, mask, answer, log + Unmirrored(g, env.accesses), |log|, env, Address(out))
      && (out.Ok? && out.value.Some? ==>
            && env.step.Stepped? && out.value.value.sp == env.step.newSp && out.value.value.fp == env.step.newFp
            && out.value.value.rawLink == env.step.newLr)
    ensures StepMemory(g, answer, log, env).log == log + Unmirrored(g, env.accesses)
  {
    hide R.FindModule, BitAnd, SignalQuery, TableCache, InfoErrorOf, StepMemory, AfterUnwind, TableReply, Unmirrored, KnownTarget;
    match env.step {
      case EndOfStack => EndReply(g, c, isReturn, ip, a, sp, mask, answer, log, env);
      case Failed => FailedReply(g, c, AfterUnwind(g, c, a, env), isReturn, ip, a, sp, mask, answer, log, env);
      case Stepped(_, _, _, _) => SteppedReply(g, c, isReturn, ip, a, sp, mask, answer, log, env);
    }
    StepLog(g, answer, log, env);
  }

  lemma EndReply(g: R.Registry, c: Caches, isReturn: bool, ip: u64, a: u64, sp: u64, mask: u64,
                 answer: Reader, log: seq<u64>, env: Environment)
    requires RouteOf(g, a).Tables? && R.FindModule(g, a).value in c && env.step == EndOfStack
    ensures var r := Address(ByTables(g, c, isReturn, ip, a, sp, mask, answer, log, env));
      TableReply(g, c, AfterUnwind(g, c, a, env), isReturn, ip, a, sp, mask, answer, log + Unmirrored(g, env.accesses), |log|, env, r)
  {
    hide R.FindModule, BitAnd, SignalQuery, TableCache, InfoErrorOf, StepMemory, AfterUnwind, Unmirrored;
  }

  lemma StepLog(g: R.Registry, answer: Reader, log: seq<u64>, env: Environment)
    ensures StepMemory(g, answer, log, env).log == log + Unmirrored(g, env.accesses)
  {
    hide AfterRequests, Unmirrored, FailureIs;
    RequestsMeaning(g, answer, Memory(log, None), env.accesses);
  }

  function Address(r: Result<Option<Caller>, UnwindError>): Result<Option<u64>, UnwindError> {
    match r
    case Ok(Some(c)) => Ok(Some(c.returnAddress))
    case Ok(None) => Ok(None)
    case Err(e) => Err(e)
  }

  /** The callbacks libunwind makes during a step, and the two errors they leave behind. */
  method StepCallbacks(modules: ModuleSet, reader: StackReader, lookupIp: u64, env: Environment)
    returns (failedRead: Option<u64>, info: Option<InfoError>)
    requires R.FindModule(modules.Value(), lookupIp).Some?
    modifies reader, modules.modules.Values`cache
    ensures var d := R.FindModule(modules.Value(), lookupIp).value;
      && d in modules.modules.Values
      && CachesOf(modules) == (if env.asks then old(CachesOf(modules))[d := CallCache(d.image, old(d.cache), lookupIp)] else old(CachesOf(modules)))
      && info == InfoErrorOf(d, old(d.cache), lookupIp, env)
    ensures Memory(reader.log, failedRead) ==
      StepMemory(modules.Value(), reader.answer, old(reader.log), env)
  {
    hide CallCache, CallResult, R.FindModule, R.Consistent, AfterRequests;
    R.FoundIsRegistered(modules.Value(), lookupIp);
    var ctx := new UnwindCtx(modules, reader, lookupIp);
    ctx.AccessAll(env.accesses);
    if env.asks {
      var details := ctx.FindProcInfo();
    }
    failedRead, info := ctx.lastFailedRead, ctx.infoError;
  }

  lemma CacheHeld(modules: ModuleSet, d: ModuleData)
    requires d in modules.modules.Values
    ensures d in CachesOf(modules) && CachesOf(modules)[d] == d.cache
  {
  }

  /** The libunwind step, what other threads do meanwhile, and the signal query after it. */
  method StepAndQuery(modules: ModuleSet, reader: StackReader, lookupIp: u64, env: Environment)
    returns (failedRead: Option<u64>, info: Option<InfoError>, signal: bool)
    requires R.FindModule(modules.Value(), lookupIp).Some?
    modifies reader, modules.modules.Values`cache
    ensures var d := R.FindModule(modules.Value(), lookupIp).value;
      && d in modules.modules.Values
      && CachesOf(modules) ==
           Disturbed(if env.asks then old(CachesOf(modules))[d := CallCache(d.image, old(d.cache), lookupIp)] else old(CachesOf(modules)),
                     env.during)
      && info == InfoErrorOf(d, old(d.cache), lookupIp, env)
      && (signal <==> SignalQuery(TableCache(d, old(d.cache), lookupIp, env), lookupIp))
    ensures Memory(reader.log, failedRead) ==
      StepMemory(modules.Value(), reader.answer, old(reader.log), env)
  {
    hide CallCache, R.FindModule, SignalQuery, R.Consistent, CachesOf, StepMemory, Disturbed, Settled, InfoErrorOf;
    ghost var d := R.FindModule(modules.Value(), lookupIp).value;
    R.FoundIsRegistered(modules.Value(), lookupIp);
    CacheHeld(modules, d);
    failedRead, info := StepCallbacks(modules, reader, lookupIp, env);
    DisturbedAt(CachesOf(modules), env.during, d);
    OtherThreads(modules, env.during);
    CacheHeld(modules, d);
    signal := modules.IsSignalFrame(lookupIp);
  }

  /** The table route around a libunwind step. */
  method TableUnwind(modules: ModuleSet, m: Machine, isReturn: bool, ip: u64, lookupIp: u64, reader: StackReader, env: Environment)
    returns (r: Result<Option<u64>, UnwindError>)
    requires m.Valid() && R.FindModule(modules.Value(), lookupIp).Some? && (reader as object) !in m.Footprint()
    modifies m.Footprint(), reader, modules.modules.Values`cache
    ensures m.Valid()
    ensures r.Ok? && r.value.Some? ==> r.value.value != 0
    ensures var d := R.FindModule(modules.Value(), lookupIp).value;
      var out := ByTables(modules.Value(), old(CachesOf(modules)), isReturn, ip, lookupIp, old(m.Sp()), m.Mask(), reader.answer, old(reader.log), env);
      && reader.log == StepMemory(modules.Value(), reader.answer, old(reader.log), env).log
      && CachesOf(modules) ==
           Disturbed(if env.asks then old(CachesOf(modules))[d := CallCache(d.image, old(d.cache), lookupIp)] else old(CachesOf(modules)),
                     env.during)
      && r == Address(out)
      && if out.Ok? && out.value.Some?
         then Entered(m, out.value.value) && m.Sp() == out.value.value.sp && m.Fp() == out.value.value.fp
         else m.Snapshot() == old(m.Snapshot())
  {
    hide BitAnd, CallCache, R.FindModule, SignalQuery, R.Consistent, AfterStep, CachesOf, Entered, StepMemory, Disturbed,
      TableCache, InfoErrorOf;
    ghost var d := R.FindModule(modules.Value(), lookupIp).value;
    R.FoundIsRegistered(modules.Value(), lookupIp);
    CacheHeld(modules, d);
    ghost var cache := d.cache;
    var failedRead, info, signal := StepAndQuery(modules, reader, lookupIp, env);
    OutcomeAdvances(modules.Value(), d, cache, isReturn, ip, lookupIp, m.Sp(), m.Mask(), env, failedRead);
    var known := IsKnownTarget(modules, m, env.step);
    var adjust := isReturn && !signal;
    var out := AfterStep(ip, m.Sp(), m.Mask(), adjust, known, env.step, failedRead, info);
    match out {
      case Err(e) => r := Err(e);
      case Ok(None) => r := Ok(None);
      case Ok(Some(c)) =>
        EnterCaller(m, c);
        r := Ok(Some(c.returnAddress));
    }
  }

  lemma DisturbedAt(c: Caches, ins: seq<Insert>, d: ModuleData)
    requires d in c
    ensures d in Disturbed(c, ins) && Disturbed(c, ins)[d] == Settled(d, c[d], ins)
  {
  }

  method IsKnownTarget(modules: ModuleSet, m: Machine, step: LibunwindStep) returns (known: bool)
    ensures known <==> KnownTarget(modules.Value(), m.Mask(), step)
  {
    known := false;
    if step.Stepped? {
      var target := modules.FindModule(BitAnd(step.newIp, m.Mask()));
      known := target.Some?;
    }
  }

  /** A frame recovered through tables has a nonzero address and differs from the frame it was
      recovered from in its address or its stack pointer; otherwise the step is an error. */
  lemma OutcomeAdvances(g: R.Registry, d: ModuleData, cache: Cache, isReturn: bool, ip: u64, lookupIp: u64, sp: u64, mask: u64,
                        env: Environment, failedRead: Option<u64>)
    ensures var out := TableOutcome(g, d, cache, isReturn, ip, lookupIp, sp, mask, env, failedRead);
      out.Ok? && out.value.Some? ==>
        var c, step := out.value.value, env.step;
        && step.Stepped? && c.sp == step.newSp && c.fp == step.newFp && c.rawLink == step.newLr
        && (c.returnAddress != ip || c.sp != sp) && c.returnAddress != 0
  {
    hide BitAnd, SignalQuery, TableCache, InfoErrorOf, R.FindModule;
  }

  /** What unwinding a frame finds out, and the stack requests made by then. */
  datatype Unwound = Unwound(outcome: Result<Option<Caller>, UnwindError>, log: seq<u64>)

  /** `unwind_frame` by route. */
  function UnwindsTo(g: R.Registry, c: Caches, isReturn: bool, ip: u64, a: u64, sp: u64, fp: u64, mask: u64,
                     answer: Reader, log: seq<u64>, env: Environment): Unwound
  {
    match RouteOf(g, a)
    case Broken(e) => Unwound(Err(InvalidEhFrameHdr(e)), log)
    case Tables =>
      Unwound(ByTables(g, c, isReturn, ip, a, sp, mask, answer, log, env), StepMemory(g, answer, log, env).log)
    case FramePointers =>
      var step := Fallback(ip, sp, fp, mask, answer, log);
      Unwound(match step.outcome case Ok(o) => Ok(o) case Err(e) => Err(WalkFailed(e)), step.log)
  }

  method ChooseRoute(modules: ModuleSet, lookupIp: u64) returns (route: Route)
    ensures route == RouteOf(modules.Value(), lookupIp)
    ensures route.Tables? ==> R.FindModule(modules.Value(), lookupIp).Some?
  {
    hide R.FindModule, R.Consistent;
    var found := modules.FindModule(lookupIp);
    if found.Some? && found.value.hdrError.Some? {
      return Broken(found.value.hdrError.value);
    }
    var tables := modules.HasUnwindInfo(lookupIp);
    route := if tables then Tables else FramePointers;
  }

  /** `unwind_frame`: whatever the route, an error or the end of the stack leaves every
      register as it was. */
  method UnwindFrame(modules: ModuleSet, m: Machine, frame: FrameAddress, reader: StackReader, env: Environment)
    returns (r: Result<Option<u64>, UnwindError>)
    requires m.Valid() && (reader as object) !in m.Footprint()
    requires frame.ReturnAddress? ==> frame.addr != 0
    modifies m.Footprint(), reader, modules.modules.Values`cache
    ensures m.Valid()
    ensures !(r.Ok? && r.value.Some?) ==> m.Snapshot() == old(m.Snapshot())
    ensures r.Ok? && r.value.Some? ==> r.value.value != 0
    ensures CachesOf(modules) == AfterUnwind(modules.Value(), old(CachesOf(modules)), StrippedLookup(m, frame), env)
    ensures var u := UnwindsTo(modules.Value(), old(CachesOf(modules)), frame.ReturnAddress?, BitAnd(frame.addr, m.Mask()), StrippedLookup(m, frame),
                               old(m.Sp()), old(m.Fp()), m.Mask(), reader.answer, old(reader.log), env);
      && reader.log == u.log && r == Address(u.outcome)
      && (u.outcome.Ok? && u.outcome.value.Some? ==>
            Entered(m, u.outcome.value.value) && m.Sp() == u.outcome.value.value.sp && m.Fp() == u.outcome.value.value.fp)
    // The table route by what the step did and what the reader answered.
    ensures var a := StrippedLookup(m, frame);
      RouteOf(modules.Value(), a) == Tables ==>
        && R.FindModule(modules.Value(), a).value in old(CachesOf(modules))
        && reader.log == old(reader.log) + Unmirrored(modules.Value(), env.accesses)
        && TableReply(modules.Value(), old(CachesOf(modules)), CachesOf(modules), frame.ReturnAddress?, BitAnd(frame.addr, m.Mask()), a,
                      old(m.Sp()), m.Mask(), reader.answer, reader.log, |old(reader.log)|, env, r)
        && (r.Ok? && r.value.Some? ==>
              env.step.Stepped? && Entered(m, Caller(r.value.value, env.step.newLr, env.step.newSp, env.step.newFp)))
  {
    hide Fallback, BitAnd, CallCache, R.FindModule, Entered, R.Consistent, ByTables, AfterUnwind, Disturbed, CachesOf,
      StepMemory, RouteOf, TableReply, Unmirrored;
    UnwoundCaches(modules.Value(), CachesOf(modules), StrippedLookup(m, frame), env);
    StripFits(m, frame.addr);
    StripFits(m, LookupAddress(frame));
    var ip, lookupIp := BitAnd(frame.addr, m.Mask()), BitAnd(LookupAddress(frame), m.Mask());
    var route := ChooseRoute(modules, lookupIp);
    match route {
      case Broken(e) => r := Err(InvalidEhFrameHdr(e));
      case Tables =>
        R.FoundIsRegistered(modules.Value(), lookupIp);
        CacheHeld(modules, R.FindModule(modules.Value(), lookupIp).value);
        TablesMeaning(modules.Value(), CachesOf(modules), frame.ReturnAddress?, ip, lookupIp, m.Sp(), m.Mask(), reader.answer, reader.log, env);
        r := TableUnwind(modules, m, frame.ReturnAddress?, ip, lookupIp, reader, env);
      case FramePointers => r := FallbackUnwind(m, ip, reader);
    }
  }

  /** The two calls `next` makes for a frame: unwind it, then ask whether it was a signal frame. */
  method UnwindAndQuery(modules: ModuleSet, m: Machine, frame: FrameAddress, reader: StackReader, env: Environment)
    returns (r: Result<Option<u64>, UnwindError>, interrupted: bool)
    requires m.Valid() && (reader as object) !in m.Footprint()
    requires frame.ReturnAddress? ==> frame.addr != 0
    modifies m.Footprint(), reader, modules.modules.Values`cache
    ensures m.Valid()
    ensures !(r.Ok? && r.value.Some?) ==> m.Snapshot() == old(m.Snapshot())
    ensures r.Ok? && r.value.Some? ==> r.value.value != 0
    ensures CachesOf(modules) == AfterFrame(modules.Value(), old(CachesOf(modules)), StrippedLookup(m, frame), env)
    ensures interrupted <==> SignalIn(modules.Value(), CachesOf(modules), StrippedLookup(m, frame))
    ensures var u := UnwindsTo(modules.Value(), old(CachesOf(modules)), frame.ReturnAddress?, BitAnd(frame.addr, m.Mask()), StrippedLookup(m, frame),
                               old(m.Sp()), old(m.Fp()), m.Mask(), reader.answer, old(reader.log), env);
      && reader.log == u.log && r == Address(u.outcome)
      && (u.outcome.Ok? && u.outcome.value.Some? ==> m.Sp() == u.outcome.value.value.sp && m.Fp() == u.outcome.value.value.fp)
  {
    hide R.Consistent, BitAnd, R.FindModule, Entered, SignalQuery, AfterUnwind, Disturbed, CachesOf, UnwindsTo, RouteOf, TableReply, Unmirrored;
    StripFits(m, LookupAddress(frame));
    ghost var a := StrippedLookup(m, frame);
    R.FoundIsRegistered(modules.Value(), a);
    r := UnwindFrame(modules, m, frame, reader, env);
    OtherThreads(modules, env.after);
    ghost var found := R.FindModule(modules.Value(), a);
    if found.Some? {
      CacheHeld(modules, found.value);
    }
    interrupted := modules.IsSignalFrame(BitAnd(LookupAddress(frame), m.Mask()));
  }

  function AddressOf(r: Result<Option<FrameAddress>, UnwindError>): Result<Option<u64>, UnwindError> {
    match r
    case Ok(Some(f)) => Ok(Some(f.addr))
    case Ok(None) => Ok(None)
    case Err(e) => Err(e)
  }

  /** What the frame an iterator is at unwinds to, by route. */
  lemma FrameMeaning(modules: ModuleSet, m: Machine, frame: FrameAddress, answer: Reader, log: seq<u64>, env: Environment)
    requires m.Valid() && (frame.ReturnAddress? ==> frame.addr != 0)
    ensures var g, c, a, ip := modules.Value(), CachesOf(modules), StrippedLookup(m, frame), BitAnd(frame.addr, m.Mask());
      var u := UnwindsTo(g, c, frame.ReturnAddress?, ip, a, m.Sp(), m.Fp(), m.Mask(), answer, log, env);
      match RouteOf(g, a) {
        case Broken(e) => u == Unwound(Err(InvalidEhFrameHdr(e)), log)
        case Tables =>
          && R.FindModule(g, a).value in c
          && u.log == log + Unmirrored(g, env.accesses)
          && TableReply(g, c, AfterUnwind(g, c, a, env), frame.ReturnAddress?, ip, a, m.Sp(), m.Mask(), answer, u.log, |log|, env, Address(u.outcome))
        case FramePointers =>
          var step := Fallback(ip, m.Sp(), m.Fp(), m.Mask(), answer, log);
          && u.log == step.log
          && match step.outcome {
               case Ok(o) => u.outcome == Ok(o)
               case Err(e) => u.outcome == Err(WalkFailed(e))
             }
      }
  {
    hide BitAnd, R.FindModule, CachesOf, StepMemory, ByTables, TableReply, Unmirrored, AfterUnwind, Fallback;
    var a := StrippedLookup(m, frame);
    if RouteOf(modules.Value(), a) == Tables {
      R.FoundIsRegistered(modules.Value(), a);
      CacheHeld(modules, R.FindModule(modules.Value(), a).value);
      TablesMeaning(modules.Value(), CachesOf(modules), frame.ReturnAddress?, BitAnd(frame.addr, m.Mask()), a, m.Sp(), m.Mask(), answer, log, env);
    }
  }

  class UnwindIterator {
    const modules: ModuleSet
    const machine: Machine
    const reader: StackReader
    var state: IterState

    ghost predicate Valid()
      reads this, machine.Footprint()
    {
      && machine.Valid()
      && (this as object) !in machine.Footprint() && (reader as object) !in machine.Footprint()
      && (state.Unwinding? && state.frame.ReturnAddress? ==> state.frame.addr != 0)
    }

    /** The iterator as the state machine of the fallback walk. */
    ghost function View(): Walk
      requires Valid()
      reads this, machine.Footprint(), reader
    {
      Walk(state, machine.Sp(), machine.Fp(), machine.Mask(), reader.log)
    }

    constructor (modules: ModuleSet, machine: Machine, reader: StackReader, pc: u64)
      requires machine.Valid() && (reader as object) !in machine.Footprint()
      ensures Valid() && this.modules == modules && this.machine == machine && this.reader == reader
      ensures state == Initial(pc)
    {
      this.modules, this.machine, this.reader := modules, machine, reader;
      state := Initial(pc);
    }

    /** `next`, with `env` for what libunwind and other threads do meanwhile. */
    method Next(env: Environment) returns (r: Result<Option<FrameAddress>, UnwindError>)
      requires Valid()
      modifies this, machine.Footprint(), reader, modules.modules.Values`cache
      ensures Valid()
      // An error or the end of the stack moves no register; an error also keeps the state.
      ensures !Yields(r) ==> machine.Snapshot() == old(machine.Snapshot())
      ensures r.Err? ==> state == old(state)
      ensures r == Ok(None) <==> state == Done
      ensures old(state.Done?) ==> r == Ok(None) && reader.log == old(reader.log)
      ensures Yields(r) ==> state == Unwinding(r.value.value)
      ensures old(state).Initial? ==> r == Ok(Some(InstructionPointer(old(state).pc)))
      ensures match old(LookupOf(state, machine)) {
          case Some(a) => RouteOf(modules.Value(), a).Broken? ==> r == Err(InvalidEhFrameHdr(RouteOf(modules.Value(), a).error))
          case None => true
        }
      // Caches change through a request for proc info and through other threads alone.
      ensures CachesOf(modules) == match old(LookupOf(state, machine)) {
          case Some(a) => AfterFrame(modules.Value(), old(CachesOf(modules)), a, env)
          case None => old(CachesOf(modules))
        }
      // Without tables, and with no cached function over the frame, this is the fallback walk.
      ensures (match old(LookupOf(state, machine)) {
                 case Some(a) => RouteOf(modules.Value(), a) == FramePointers && !SignalIn(modules.Value(), CachesOf(modules), a)
                 case None => true
               }) ==>
              (LiftReply(FramePointer.Next(old(View()), reader.answer).0), FramePointer.Next(old(View()), reader.answer).1)
                == (r, View())
      // The reply, the registers and the requests are those of the frame's route.
      ensures match old(LookupOf(state, machine)) {
          case Some(a) =>
            var frame := old(state).frame;
            var u := UnwindsTo(modules.Value(), old(CachesOf(modules)), frame.ReturnAddress?, BitAnd(frame.addr, machine.Mask()), a,
                               old(machine.Sp()), old(machine.Fp()), machine.Mask(), reader.answer, old(reader.log), env);
            && reader.log == u.log && AddressOf(r) == Address(u.outcome)
            && (Yields(r) ==> machine.Sp() == u.outcome.value.value.sp && machine.Fp() == u.outcome.value.value.fp)
          case None => true
        }
      // The table route by what the step did and what the reader answered.
      ensures match old(LookupOf(state, machine)) {
          case Some(a) =>
            RouteOf(modules.Value(), a) == Tables ==>
              && R.FindModule(modules.Value(), a).value in old(CachesOf(modules))
              && reader.log == old(reader.log) + Unmirrored(modules.Value(), env.accesses)
              && TableReply(modules.Value(), old(CachesOf(modules)), AfterUnwind(modules.Value(), old(CachesOf(modules)), a, env),
                            old(state).frame.ReturnAddress?, BitAnd(old(state).frame.addr, machine.Mask()), a, old(machine.Sp()), machine.Mask(),
                            reader.answer, reader.log, |old(reader.log)|, env, AddressOf(r))
          case None => true
        }
      // A yielded address counts as an instruction pointer exactly when the caches say that the
      // frame's function is a signal frame.
      ensures match old(LookupOf(state, machine)) {
          case Some(a) => Yields(r) ==> (r.value.value.InstructionPointer? <==> SignalIn(modules.Value(), CachesOf(modules), a))
          case None => true
        }
    {
      hide Fallback, BitAnd, R.FindModule, SignalIn, AfterFrame, CachesOf, UnwindsTo, RouteOf, TableReply, Unmirrored, AfterUnwind;
      match state {
        case Initial(pc) =>
          state := Unwinding(InstructionPointer(pc));
          return Ok(Some(InstructionPointer(pc)));
        case Done => return Ok(None);
        case Unwinding(frame) =>
          FrameMeaning(modules, machine, frame, reader.answer, reader.log, env);
          r := NextFrame(frame, env);
      }
    }

    /** `next` at a frame: unwind it, and tell what kind of address was found. */
    method NextFrame(frame: FrameAddress, env: Environment) returns (r: Result<Option<FrameAddress>, UnwindError>)
      requires Valid() && state == Unwinding(frame)
      modifies this, machine.Footprint(), reader, modules.modules.Values`cache
      ensures Valid()
      ensures !Yields(r) ==> machine.Snapshot() == old(machine.Snapshot()) && machine.Sp() == old(machine.Sp()) && machine.Fp() == old(machine.Fp())
      ensures state == match r { case Ok(Some(f)) => Unwinding(f) case Ok(None) => Done case Err(_) => old(state) }
      ensures CachesOf(modules) == AfterFrame(modules.Value(), old(CachesOf(modules)), StrippedLookup(machine, frame), env)
      ensures var u := UnwindsTo(modules.Value(), old(CachesOf(modules)), frame.ReturnAddress?, BitAnd(frame.addr, machine.Mask()),
                                 StrippedLookup(machine, frame), old(machine.Sp()), old(machine.Fp()), machine.Mask(), reader.answer, old(reader.log), env);
        && reader.log == u.log && AddressOf(r) == Address(u.outcome)
        && (Yields(r) ==> machine.Sp() == u.outcome.value.value.sp && machine.Fp() == u.outcome.value.value.fp)
      ensures Yields(r) ==>
                (r.value.value.InstructionPointer? <==> SignalIn(modules.Value(), CachesOf(modules), StrippedLookup(machine, frame)))
    {
      hide R.Consistent, BitAnd, R.FindModule, Entered, AfterFrame, CachesOf, UnwindsTo, SignalIn;
      ghost var before := View();
      var unwound, interrupted := UnwindAndQuery(modules, machine, frame, reader, env);
      if unwound.Err? {
        assert machine.Sp() == before.sp && machine.Fp() == before.fp;
        return Err(unwound.error);
      }
      var ra := unwound.value;
      if ra.None? {
        assert machine.Sp() == before.sp && machine.Fp() == before.fp;
        state := Done;
        return Ok(None);
      }
      var next := if interrupted then InstructionPointer(ra.value) else ReturnAddress(ra.value);
      state := Unwinding(next);
      r := Ok(Some(next));
    }

    /** One call of `next` as a step of a run. */
    method Turn(env: Environment) returns (r: Result<Option<FrameAddress>, UnwindError>)
      requires Valid()
      modifies this, machine.Footprint(), reader, modules.modules.Values`cache
      ensures Valid() && Follows(old(state), r, state)
      ensures CachesOf(modules) == NextCaches(modules.Value(), old(CachesOf(modules)), LookupOf(old(state), machine), env)
      ensures old(AllSourced(CachesOf(modules))) ==> AllSourced(CachesOf(modules))
      ensures old(AllRight(CachesOf(modules))) ==>
                AllRight(CachesOf(modules)) && Told(modules.Value(), CachesOf(modules), LookupOf(old(state), machine), env, r)
    {
      hide AfterFrame, CachesOf, AllRight, AllSourced, LookupOf, RouteOf, SignalIn, InterruptedAt, StartCached, FramePointer.Next,
        UnwindsTo, TableReply, Unmirrored;
      ghost var asked := LookupOf(state, machine);
      CachesAreRegistered(modules);
      if asked.Some? {
        FrameIsTold(modules.Value(), CachesOf(modules), asked.value, env);
      }
      r := Next(env);
    }

    /** Any number of calls of `next`, from any state, whatever libunwind and other threads do.
        `states` and `caches` are the states and the caches between the calls. Caches that are
        right stay right, and then a yielded address is an instruction pointer exactly when a
        signal trampoline covers the frame it was unwound from and is cached by then. A step
        that asks for proc info sees to that. */
    method Run(envs: seq<Environment>)
      returns (replies: seq<Result<Option<FrameAddress>, UnwindError>>, states: seq<IterState>, ghost caches: seq<Caches>)
      requires Valid()
      modifies this, machine.Footprint(), reader, modules.modules.Values`cache
      ensures Valid()
      ensures |replies| == |envs| && |states| == |envs| + 1 && states[0] == old(state) && states[|envs|] == state
      ensures |caches| == |envs| + 1 && caches[0] == old(CachesOf(modules)) && caches[|envs|] == CachesOf(modules)
      ensures forall i :: 0 <= i < |envs| ==> Follows(states[i], replies[i], states[i + 1])
      ensures forall i :: 0 <= i < |envs| ==>
                caches[i + 1] == NextCaches(modules.Value(), caches[i], LookupOf(states[i], machine), envs[i])
      ensures old(AllSourced(CachesOf(modules))) ==> AllSourced(CachesOf(modules))
      ensures old(AllRight(CachesOf(modules))) ==>
                && (forall i :: 0 <= i <= |envs| ==> AllRight(caches[i]))
                && forall i :: 0 <= i < |envs| ==>
                     Told(modules.Value(), caches[i + 1], LookupOf(states[i], machine), envs[i], replies[i])
    {
      hide Follows, NextCaches, Told, CachesOf, AllRight, AllSourced, LookupOf;
      replies, states, caches := [], [state], [CachesOf(modules)];
      while |replies| < |envs|
        invariant Valid()
        invariant |replies| <= |envs| && |states| == |replies| + 1 == |caches|
        invariant states[0] == old(state) && states[|replies|] == state
        invariant caches[0] == old(CachesOf(modules)) && caches[|replies|] == CachesOf(modules)
        invariant forall i :: 0 <= i < |replies| ==> Follows(states[i], replies[i], states[i + 1])
        invariant forall i :: 0 <= i < |replies| ==>
                    caches[i + 1] == NextCaches(modules.Value(), caches[i], LookupOf(states[i], machine), envs[i])
        invariant old(AllSourced(CachesOf(modules))) ==> AllSourced(CachesOf(modules))
        invariant old(AllRight(CachesOf(modules))) ==>
                    && (forall i :: 0 <= i <= |replies| ==> AllRight(caches[i]))
                    && forall i :: 0 <= i < |replies| ==>
                         Told(modules.Value(), caches[i + 1], LookupOf(states[i], machine), envs[i], replies[i])
      {
        var r := Turn(envs[|replies|]);
        replies, states, caches := replies + [r], states + [state], caches + [CachesOf(modules)];
      }
    }

    /** One call at a frame without tables is one call of the fallback walk. */
    method FallbackTurn(env: Environment) returns (r: Result<Option<FrameAddress>, UnwindError>)
      requires Valid() && AllSourced(CachesOf(modules)) && OffTables(modules.Value(), machine, View())
      modifies this, machine.Footprint(), reader, modules.modules.Values`cache
      ensures Valid() && AllSourced(CachesOf(modules))
      ensures env.after == [] ==> CachesOf(modules) == old(CachesOf(modules))
      ensures r == LiftReply(FramePointer.Next(old(View()), reader.answer).0)
      ensures View() == FramePointer.Next(old(View()), reader.answer).1
    {
      hide AfterFrame, CachesOf, AllSourced, SignalIn, FramePointer.Next, LiftReply, UnwindsTo, TableReply, Unmirrored, RouteOf;
      ghost var asked := LookupOf(state, machine);
      if asked.Some? {
        OffTablesFrame(modules.Value(), CachesOf(modules), asked.value, env);
      }
      r := Next(env);
    }

    /** As long as the walk meets no frame with tables, the calls of a new iterator are the
        fallback walk, step by step: the same replies, registers and requests. Its bound then
        holds for the object: an all-yielding run is no longer than the answered addresses. */
    method FallbackRun(envs: seq<Environment>) returns (replies: seq<Result<Option<FrameAddress>, UnwindError>>)
      requires Valid() && state.Initial? && reader.log == [] && AllSourced(CachesOf(modules))
      requires forall i: nat :: i < |envs| ==> OffTables(modules.Value(), machine, WalkFrom(View(), reader.answer, i).walk)
      modifies this, machine.Footprint(), reader, modules.modules.Values`cache
      ensures Valid() && AllSourced(CachesOf(modules))
      ensures (forall i :: 0 <= i < |envs| ==> envs[i].after == []) ==> CachesOf(modules) == old(CachesOf(modules))
      ensures View() == WalkFrom(old(View()), reader.answer, |envs|).walk
      ensures replies == Lift(WalkFrom(old(View()), reader.answer, |envs|).replies)
      ensures (forall i :: 0 <= i < |replies| ==> Yields(replies[i])) ==> |envs| <= 1 + |Answered(reader.answer, reader.log)|
    {
      hide CachesOf, AllSourced, FramePointer.Next, LiftReply, Answered, OffTables;
      ghost var start := View();
      replies := [];
      for n := 0 to |envs|
        invariant Valid() && AllSourced(CachesOf(modules))
        invariant (forall i :: 0 <= i < n ==> envs[i].after == []) ==> CachesOf(modules) == old(CachesOf(modules))
        invariant View() == WalkFrom(start, reader.answer, n).walk
        invariant replies == Lift(WalkFrom(start, reader.answer, n).replies)
      {
        assert OffTables(modules.Value(), machine, WalkFrom(start, reader.answer, n).walk);
        var r := FallbackTurn(envs[n]);
        replies := replies + [r];
      }
      YieldsBound(start, reader.answer, |envs|);
    }
  }

  /** A run over modules nothing was asked of yet, with well-formed tables where there are any. */
  method FreshRun(it: UnwindIterator, envs: seq<Environment>)
    returns (replies: seq<Result<Option<FrameAddress>, UnwindError>>, states: seq<IterState>, ghost caches: seq<Caches>)
    requires it.Valid()
    requires forall d :: d in it.modules.modules.Values ==> d.cache == map[] && (HasTables(d) ==> WellFormed(d.image))
    modifies it, it.machine.Footprint(), it.reader, it.modules.modules.Values`cache
    ensures it.Valid() && |replies| == |envs| && |states| == |envs| + 1 == |caches|
    ensures forall i :: 0 <= i < |envs| ==> Follows(states[i], replies[i], states[i + 1])
    ensures forall i :: 0 <= i < |envs| ==>
              Told(it.modules.Value(), caches[i + 1], LookupOf(states[i], it.machine), envs[i], replies[i])
  {
    hide WellFormed, Follows, NextCaches, Told, AllRight, AllSourced, LookupOf;
    EmptyCachesAreRight(CachesOf(it.modules));
    replies, states, caches := it.Run(envs);
  }

  /** A new iterator over modules none of which has tables. */
  method FreshFallbackRun(it: UnwindIterator, envs: seq<Environment>) returns (replies: seq<Result<Option<FrameAddress>, UnwindError>>)
    requires it.Valid() && it.state.Initial? && it.reader.log == []
    requires forall d :: d in it.modules.modules.Values ==> d.cache == map[] && d.hdrError.None? && !HasTables(d)
    modifies it, it.machine.Footprint(), it.reader, it.modules.modules.Values`cache
    ensures it.Valid() && it.View() == WalkFrom(old(it.View()), it.reader.answer, |envs|).walk
    ensures replies == Lift(WalkFrom(old(it.View()), it.reader.answer, |envs|).replies)
    ensures (forall i :: 0 <= i < |replies| ==> Yields(replies[i])) ==> |envs| <= 1 + |Answered(it.reader.answer, it.reader.log)|
  {
    hide WalkFrom, Answered, OffTables, Lift;
    EmptyCachesAreRight(CachesOf(it.modules));
    forall i: nat | i < |envs|
      ensures OffTables(it.modules.Value(), it.machine, WalkFrom(it.View(), it.reader.answer, i).walk)
    {
      NoTablesAnywhere(it.modules.Value(), it.machine, WalkFrom(it.View(), it.reader.answer, i).walk);
    }
    replies := it.FallbackRun(envs);
  }

  /** `n` calls of the fallback walk from a new iterator. */
  function WalkFrom(w: Walk, answer: Reader, n: nat): Trace
    requires w.state.Initial?
  {
    FramePointer.Calls(w.state.pc, w.sp, w.fp, w.mask, answer, n)
  }

  function Lift(replies: seq<Reply>): seq<Result<Option<FrameAddress>, UnwindError>> {
    seq(|replies|, i requires 0 <= i < |replies| => LiftReply(replies[i]))
  }

  lemma YieldsBound(w: Walk, answer: Reader, n: nat)
    requires w.state.Initial?
    ensures var t := WalkFrom(w, answer, n);
      (forall i :: 0 <= i < |Lift(t.replies)| ==> Yields(Lift(t.replies)[i])) ==> n <= 1 + |Answered(answer, t.walk.log)|
  {
    hide FramePointer.Calls, Answered;
    var t := WalkFrom(w, answer, n);
    if forall i :: 0 <= i < |Lift(t.replies)| ==> Yields(Lift(t.replies)[i]) {
      forall i | 0 <= i < |t.replies|
        ensures Yielded(t.replies[i])
      {
        assert Yields(Lift(t.replies)[i]);
      }
      WalkTerminates(w.state.pc, w.sp, w.fp, w.mask, answer, n);
    }
  }

  /** The frame to unwind next, if any, has no tables. */
  predicate OffTables(g: R.Registry, m: Machine, w: Walk) {
    var asked := LookupOf(w.state, m);
    asked.Some? ==> RouteOf(g, asked.value) == FramePointers
  }

  /** In particular when no registered module has tables. */
  lemma NoTablesAnywhere(g: R.Registry, m: Machine, w: Walk)
    requires forall d :: d in g.modules.Values ==> d.hdrError.None? && !HasTables(d)
    ensures OffTables(g, m, w)
  {
    hide R.FindModule, StrippedLookup;
    var asked := LookupOf(w.state, m);
    if asked.Some? {
      R.FoundIsRegistered(g, asked.value);
    }
  }

  /** The reply to one call and the states around it. */
  predicate Follows(s: IterState, r: Result<Option<FrameAddress>, UnwindError>, s': IterState) {
    && (r.Err? ==> s' == s)
    && (r == Ok(None) <==> s' == Done)
    && (Yields(r) ==> s' == Unwinding(r.value.value))
    && (s.Done? ==> r == Ok(None))
    && (s.Initial? ==> r == Ok(Some(InstructionPointer(s.pc))))
  }

  /** In any run, with tables or without, nothing follows the end of the stack. */
  lemma {:induction false} EndStays(replies: seq<Result<Option<FrameAddress>, UnwindError>>, states: seq<IterState>, i: nat, j: nat)
    requires |states| == |replies| + 1 && forall k :: 0 <= k < |replies| ==> Follows(states[k], replies[k], states[k + 1])
    requires i <= j <= |replies| && states[i].Done?
    ensures states[j].Done? && (j < |replies| ==> replies[j] == Ok(None))
    decreases j - i
  {
    assert i < |replies| ==> Follows(states[i], replies[i], states[i + 1]);
    if i < j {
      EndStays(replies, states, i + 1, j);
    }
  }

  function NextCaches(g: R.Registry, c: Caches, asked: Option<u64>, env: Environment): Caches {
    match asked
    case Some(a) => AfterFrame(g, c, a, env)
    case None => c
  }

  /** A yielded frame is told from a return address when the trampoline that covers the frame
      before it is cached, and right in any case after a request for proc info. */
  predicate Told(g: R.Registry, c: Caches, asked: Option<u64>, env: Environment, r: Result<Option<FrameAddress>, UnwindError>) {
    asked.Some? && Yields(r) ==>
      && (r.value.value.InstructionPointer? <==> InterruptedAt(g, asked.value) && StartCached(g, c, asked.value))
      && (env.asks ==> (r.value.value.InstructionPointer? <==> InterruptedAt(g, asked.value)))
  }

  predicate Yields(r: Result<Option<FrameAddress>, UnwindError>) {
    r.Ok? && r.value.Some?
  }

  function LiftReply(r: Reply): Result<Option<FrameAddress>, UnwindError> {
    match r
    case Ok(o) => Ok(o)
    case Err(e) => Err(WalkFailed(e))
  }

  /** The function covering `ip` is a signal trampoline. */
  predicate CoveredBySignalFrame(m: Image, ip: u64) {
    var r := ParseFunctionDetails(m, ip);
    r.Ok? && r.value.signalFrame
  }

  /** A well-formed section whose cache holds listed functions only. */
  ghost predicate RightCache(m: Image, cache: Cache) {
    WellFormed(m) && Genuine(m, cache)
  }

  lemma SignalAfterCall(m: Image, cache: Cache, ip: u64)
    ensures RightCache(m, cache) ==>
      && RightCache(m, CallCache(m, cache, ip))
      && (SignalQuery(CallCache(m, cache, ip), ip) <==> CoveredBySignalFrame(m, ip))
  {
    hide WellFormed, Genuine, ParseFunctionDetails, SignalQuery, CallCache;
    CallIsTransparent(m, cache, ip);
  }

  /** What `ModuleSet::is_signal_frame` answers from these caches. */
  predicate SignalIn(g: R.Registry, c: Caches, a: u64) {
    var found := R.FindModule(g, a);
    found.Some? && found.value in c && SignalQuery(c[found.value], a)
  }

  // ---------------------------------------------------------------------------
  // Every run

  /** Whatever was loaded: each cache holds results of its own module's parser. */
  ghost predicate AllSourced(c: Caches) {
    forall d :: d in c ==> Sourced(d.image, c[d])
  }

  /** Where there are tables they are well formed, and the caches hold listed functions only. */
  ghost predicate AllRight(c: Caches) {
    && AllSourced(c)
    && forall d :: d in c && HasTables(d) ==> RightCache(d.image, c[d])
  }

  lemma AskKeepsRight(g: R.Registry, c: Caches, a: u64)
    ensures AllSourced(c) ==> AllSourced(Ask(g, c, a))
    ensures AllRight(c) ==> AllRight(Ask(g, c, a))
    ensures Ask(g, c, a).Keys == c.Keys
  {
    hide CallCache, Sourced, RightCache, R.FindModule;
    forall d | d in c
      ensures Sourced(d.image, c[d]) ==> Sourced(d.image, CallCache(d.image, c[d], a))
      ensures RightCache(d.image, c[d]) ==> RightCache(d.image, CallCache(d.image, c[d], a))
    {
      CallKeepsSourced(d.image, c[d], a);
      SignalAfterCall(d.image, c[d], a);
    }
  }

  /** The frame at `a` was interrupted: its tables say a signal trampoline covers it. */
  predicate InterruptedAt(g: R.Registry, a: u64) {
    RouteOf(g, a) == Tables && CoveredBySignalFrame(R.FindModule(g, a).value.image, a)
  }

  predicate Registered(g: R.Registry, c: Caches) {
    c.Keys == g.modules.Values
  }

  /** Before anything was asked, all is right as soon as the tables are well formed. */
  lemma EmptyCachesAreRight(c: Caches)
    requires forall d :: d in c ==> c[d] == map[] && (HasTables(d) ==> WellFormed(d.image))
    ensures AllRight(c)
  {
    hide WellFormed;
    forall d | d in c && HasTables(d)
      ensures RightCache(d.image, c[d])
    {
      WellFormedIsReadable(d.image);
      EmptyIsGenuine(d.image);
    }
  }

  lemma CachesAreRegistered(modules: ModuleSet)
    ensures Registered(modules.Value(), CachesOf(modules))
  {
  }

  /** A module without tables has nothing cached, so it never claims a signal frame. */
  lemma NoSignalWithoutTables(g: R.Registry, c: Caches, a: u64)
    requires AllSourced(c) && RouteOf(g, a) == FramePointers
    ensures Ask(g, c, a) == c && !SignalIn(g, c, a)
  {
    hide R.FindModule;
    AskUpdates(g, c, a);
    var found := R.FindModule(g, a);
    if found.Some? && found.value in c {
      NothingToCache(found.value.image, c[found.value]);
    }
  }

  /** The function covering `a` is in the cache of its module. */
  predicate StartCached(g: R.Registry, c: Caches, a: u64) {
    var found := R.FindModule(g, a);
    && found.Some? && found.value in c
    && var r := ParseFunctionDetails(found.value.image, a);
    && r.Ok? && r.value.startIp in c[found.value]
  }

  /** A right cache answers for exactly the functions it holds. */
  lemma QueryOfCache(m: Image, cache: Cache, ip: u64)
    requires RightCache(m, cache)
    ensures SignalQuery(cache, ip) <==>
      CoveredBySignalFrame(m, ip) && ParseFunctionDetails(m, ip).value.startIp in cache
  {
    hide WellFormed, Genuine, ParseFunctionDetails, CacheHit;
    var r := ParseFunctionDetails(m, ip);
    if CacheHit(cache, ip).Some? {
      HitIsGenuine(m, cache, ip);
    } else if r.Ok? && r.value.startIp in cache {
      CachedIsHit(m, cache, ip, r.value);
    }
  }

  /** The query made from the caches alone sees a signal frame exactly when its trampoline is
      cached, so it is right exactly when the frame is none or the trampoline is cached. */
  lemma QueryIsRightIff(g: R.Registry, c: Caches, a: u64)
    requires AllRight(c) && Registered(g, c) && !RouteOf(g, a).Broken?
    ensures SignalIn(g, c, a) <==> InterruptedAt(g, a) && StartCached(g, c, a)
    ensures (SignalIn(g, c, a) <==> InterruptedAt(g, a)) <==> (InterruptedAt(g, a) ==> StartCached(g, c, a))
  {
    hide R.FindModule, SignalQuery, ParseFunctionDetails, RightCache;
    if RouteOf(g, a) == Tables {
      var d := R.FindModule(g, a).value;
      R.FoundIsRegistered(g, a);
      QueryOfCache(d.image, c[d], a);
    } else {
      NoSignalWithoutTables(g, c, a);
    }
  }

  /** A request for proc info caches the function that covers the frame. */
  lemma RequestCaches(g: R.Registry, c: Caches, a: u64)
    requires AllRight(c) && Registered(g, c) && InterruptedAt(g, a)
    ensures StartCached(g, Ask(g, c, a), a)
  {
    hide R.FindModule, CallCache, SignalQuery, ParseFunctionDetails, RightCache;
    AskUpdates(g, c, a);
    var d := R.FindModule(g, a).value;
    R.FoundIsRegistered(g, a);
    CoveringIsCached(d.image, c[d], a);
  }

  lemma CoveringIsCached(m: Image, cache: Cache, ip: u64)
    requires RightCache(m, cache) && ParseFunctionDetails(m, ip).Ok?
    ensures ParseFunctionDetails(m, ip).value.startIp in CallCache(m, cache, ip)
  {
    hide WellFormed, Genuine, ParseFunctionDetails, SignalQuery, CallCache;
    CallIsTransparent(m, cache, ip);
  }

  /** After a request for proc info the query is right, whatever other threads do before it:
      any caches that are right and have kept the keys give the same answer. */
  lemma QueryIsRight(g: R.Registry, c: Caches, later: Caches, a: u64)
    requires AllRight(c) && Registered(g, c) && !RouteOf(g, a).Broken?
    requires AllRight(later) && Registered(g, later) && KeysKept(Ask(g, c, a), later)
    ensures SignalIn(g, later, a) <==> InterruptedAt(g, a)
  {
    hide R.FindModule, Ask, SignalIn, AllRight, ParseFunctionDetails;
    if InterruptedAt(g, a) {
      RequestCaches(g, c, a);
    }
    QueryIsRightIff(g, later, a);
  }

  ghost predicate KeysKept(c: Caches, later: Caches) {
    forall d, k :: d in c && k in c[d] ==> d in later && k in later[d]
  }

  // ---------------------------------------------------------------------------
  // Other threads

  lemma InsertKeepsRight(m: Image, cache: Cache, ip: u64)
    ensures RightCache(m, cache) ==> RightCache(m, Inserted(m, cache, ip))
    ensures forall k :: k in cache ==> k in Inserted(m, cache, ip)
  {
    hide WellFormed, Genuine, ParseFunctionDetails;
    var r := ParseFunctionDetails(m, ip);
    if RightCache(m, cache) && r.Ok? {
      InsertKeepsEntries(m, cache, ip, r.value);
    }
  }

  lemma {:induction false} SettledKeepsRight(d: ModuleData, cache: Cache, ins: seq<Insert>)
    ensures Sourced(d.image, cache) ==> Sourced(d.image, Settled(d, cache, ins))
    ensures RightCache(d.image, cache) ==> RightCache(d.image, Settled(d, cache, ins))
    ensures forall k :: k in cache ==> k in Settled(d, cache, ins)
    decreases |ins|
  {
    hide Sourced, RightCache, Inserted;
    if ins != [] {
      var most, last := ins[..|ins| - 1], ins[|ins| - 1];
      SettledKeepsRight(d, cache, most);
      CallKeepsSourced(d.image, Settled(d, cache, most), last.ip);
      InsertKeepsRight(d.image, Settled(d, cache, most), last.ip);
    }
  }

  /** Whatever other threads store, right caches stay right and lose no function. */
  lemma OthersKeepRight(c: Caches, ins: seq<Insert>)
    ensures AllSourced(c) ==> AllSourced(Disturbed(c, ins))
    ensures AllRight(c) ==> AllRight(Disturbed(c, ins))
    ensures KeysKept(c, Disturbed(c, ins)) && Disturbed(c, ins).Keys == c.Keys
  {
    hide Sourced, RightCache, Settled;
    forall d | d in c
      ensures Sourced(d.image, c[d]) ==> Sourced(d.image, Settled(d, c[d], ins))
      ensures RightCache(d.image, c[d]) ==> RightCache(d.image, Settled(d, c[d], ins))
      ensures forall k :: k in c[d] ==> k in Settled(d, c[d], ins)
    {
      SettledKeepsRight(d, c[d], ins);
    }
  }

  /** One frame: what was right stays right, and the query of `next` is decided by what is
      cached when it is made. */
  lemma FrameIsTold(g: R.Registry, c: Caches, a: u64, env: Environment)
    requires Registered(g, c)
    ensures var c' := AfterFrame(g, c, a, env);
      && (AllSourced(c) ==> AllSourced(c'))
      && (AllRight(c) ==> AllRight(c'))
      && (AllRight(c) && !RouteOf(g, a).Broken? ==>
            && (SignalIn(g, c', a) <==> InterruptedAt(g, a) && StartCached(g, c', a))
            && (env.asks ==> (SignalIn(g, c', a) <==> InterruptedAt(g, a))))
  {
    hide R.FindModule, Ask, SignalIn, AllRight, AllSourced, StartCached, Disturbed, CoveredBySignalFrame, KeysKept;
    var asked := if env.asks then Ask(g, c, a) else c;
    var unwound := AfterUnwind(g, c, a, env);
    AskKeepsRight(g, c, a);
    OthersKeepRight(asked, env.during);
    OthersKeepRight(unwound, env.after);
    var c' := AfterFrame(g, c, a, env);
    if AllRight(c) && !RouteOf(g, a).Broken? {
      QueryIsRightIff(g, c', a);
      if env.asks && RouteOf(g, a).Tables? {
        KeysKeptTwice(asked, unwound, c');
        QueryIsRight(g, c, c', a);
      }
    }
  }

  /** What a frame's function is cached as stays cached, so one request for a function is
      enough for all later frames in it. */
  lemma {:induction false} CachedStays(g: R.Registry, caches: seq<Caches>, asked: seq<Option<u64>>, envs: seq<Environment>, a: u64, i: nat, j: nat)
    requires |caches| == |envs| + 1 == |asked| + 1
    requires forall k :: 0 <= k < |envs| ==> caches[k + 1] == NextCaches(g, caches[k], asked[k], envs[k])
    requires i <= j < |caches| && StartCached(g, caches[i], a)
    ensures StartCached(g, caches[j], a)
    decreases j - i
  {
    hide StartCached, NextCaches;
    if i < j {
      assert caches[i + 1] == NextCaches(g, caches[i], asked[i], envs[i]);
      NextKeepsCached(g, caches[i], asked[i], envs[i], a);
      CachedStays(g, caches, asked, envs, a, i + 1, j);
    }
  }

  lemma NextKeepsCached(g: R.Registry, c: Caches, asked: Option<u64>, env: Environment, a: u64)
    requires StartCached(g, c, a)
    ensures StartCached(g, NextCaches(g, c, asked, env), a)
  {
    hide R.FindModule, ParseFunctionDetails, Ask, Disturbed, RouteOf;
    if asked.Some? {
      AskKeepsKeys(g, c, asked.value);
      var c1 := if env.asks then Ask(g, c, asked.value) else c;
      OthersKeepRight(c1, env.during);
      OthersKeepRight(AfterUnwind(g, c, asked.value, env), env.after);
    }
  }

  lemma AskKeepsKeys(g: R.Registry, c: Caches, a: u64)
    ensures KeysKept(c, Ask(g, c, a))
  {
    hide R.FindModule, ParseFunctionDetails, CacheHit, RouteOf;
  }

  lemma KeysKeptTwice(c: Caches, c': Caches, c'': Caches)
    requires KeysKept(c, c') && KeysKept(c', c'')
    ensures KeysKept(c, c'')
  {
  }

  lemma OffTablesFrame(g: R.Registry, c: Caches, a: u64, env: Environment)
    requires AllSourced(c) && RouteOf(g, a) == FramePointers
    ensures var c' := AfterFrame(g, c, a, env);
      AllSourced(c') && !SignalIn(g, c', a) && (env.after == [] ==> c' == c)
  {
    hide R.FindModule, AllSourced, Disturbed, SignalIn;
    OthersKeepRight(c, env.after);
    NoSignalWithoutTables(g, AfterFrame(g, c, a, env), a);
    NothingInserted(c);
  }
}
