/** A libunwind step that recognises the sigreturn stub by itself, as on aarch64, need not ask
    for proc info. Then nothing is cached, and the interrupted frame is taken for a caller. */
module SignalStub {
  import opened Words
  import opened OrderedMap
  import opened FunctionLookup
  import opened FunctionCache
  import opened FramePointer
  import opened Callbacks
  import opened Modules
  import opened ModuleSets
  import opened Unwinder
  import R = ModuleRegistry
  import P = ImagePrinter
  import Aarch64

  /** In general: nobody asks and nobody else inserts, and the trampoline was not cached. */
  lemma MissedWithoutRequest(g: R.Registry, c: Caches, a: u64, env: Environment)
    requires AllRight(c) && Registered(g, c) && InterruptedAt(g, a) && !StartCached(g, c, a)
    requires !env.asks && env.during == [] && env.after == []
    ensures !SignalIn(g, AfterFrame(g, c, a, env), a)
  {
    hide AllRight, StartCached, SignalIn, Disturbed, CoveredBySignalFrame;
    NothingInserted(c);
    QueryIsRightIff(g, c, a);
  }

  const STUB: u64 := 0x1000
  const INTERRUPTED: u64 := 0x7000

  /** A module of two signal trampolines, the first at `STUB`. */
  function StubParts(): Parts
    requires P.Shaped(P.TestLayout(0x10)) && P.ValidFormat(P.TEST_HDR, 2)
  {
    var s := P.TestLayout(0x10);
    Parts(0x1000, 0x2000, 0, 0, Some(0x1000), Some(0x3000), Some(P.EhBytes(s)), Some(0x4000), Some(P.HdrBytes(s, P.TEST_PLACE, P.TEST_HDR)))
  }

  lemma StubImage()
    ensures P.Shaped(P.TestLayout(0x10)) && P.ValidFormat(P.TEST_HDR, 2)
    ensures ValidParts(StubParts()) && HdrErrorOf(StubParts()) == None
    ensures var m := ImageOf(StubParts());
      WellFormed(m) && m.table.count == 2 && m.hdr.Some? && m.eh.Some? && CoveredBySignalFrame(m, STUB)
  {
    hide P.Shaped, P.EhBytes, P.HdrBytes, P.PrintableImage, ParseFunctionDetails, WellFormed, P.TestLayout, HdrErrorOf, P.ValidFormat;
    var s, pl, h := P.TestLayout(0x10), P.TEST_PLACE, P.TEST_HDR;
    P.TrampolineImage();
    P.TestOffsets(0x10);
    var p := StubParts();
    P.LoadedImage(p, pl, s, h);
    P.PrintedImageIsWellFormed(s, pl, h);
  }

  /** A libunwind step that finds the interrupted registers and asks for nothing. */
  const SILENT: Environment := Environment(Stepped(INTERRUPTED, 0x180, 0x200, 0), false, [], [], [])

  /** A registry of just the stub's module, with nothing cached. */
  predicate OnlyStub(g: R.Registry, c: Caches, d: ModuleData) {
    && g.modules == map[STUB := d] && c == map[d := map[]]
    && d.avmaStart == STUB && d.avmaEnd == 0x2000 && d.hdrError == None
    && HasTables(d) && WellFormed(d.image) && CoveredBySignalFrame(d.image, STUB)
  }

  lemma StubRoute(g: R.Registry, c: Caches, d: ModuleData)
    requires OnlyStub(g, c, d)
    ensures R.FindModule(g, STUB) == Some(d) && R.FindModule(g, INTERRUPTED) == None
    ensures RouteOf(g, STUB) == Tables && InterruptedAt(g, STUB)
  {
    hide WellFormed, CoveredBySignalFrame, Floor;
    assert IsFloor(g.modules, STUB, STUB) && IsFloor(g.modules, INTERRUPTED, STUB);
    FloorIs(g.modules, STUB, STUB);
    FloorIs(g.modules, INTERRUPTED, STUB);
  }

  lemma StubOutcome(g: R.Registry, c: Caches, d: ModuleData, fp: u64, answer: Reader, log: seq<u64>)
    requires OnlyStub(g, c, d)
    ensures UnwindsTo(g, c, false, STUB, STUB, 0x100, fp, NO_STRIP, answer, log, SILENT).outcome ==
              Ok(Some(Caller(INTERRUPTED, 0, 0x180, 0x200)))
  {
    hide WellFormed, CoveredBySignalFrame, R.FindModule, BitAnd, SignalQuery, TableCache, InfoErrorOf, StepMemory, RouteOf;
    StubRoute(g, c, d);
    NoStripIsIdentity(INTERRUPTED);
  }

  lemma StubIsNotSeen(g: R.Registry, c: Caches, d: ModuleData)
    requires OnlyStub(g, c, d)
    ensures !SignalIn(g, AfterFrame(g, c, STUB, SILENT), STUB)
  {
    hide WellFormed, CoveredBySignalFrame, R.FindModule, AfterFrame, SignalIn, AllRight, ParseFunctionDetails;
    StubRoute(g, c, d);
    OneValue(g.modules, STUB, d);
    EmptyCachesAreRight(c);
    MissedWithoutRequest(g, c, STUB, SILENT);
  }

  lemma OneValue<V>(m: map<u64, V>, k: u64, v: V)
    requires m == map[k := v]
    ensures m.Values == {v}
  {
    assert k in m && m[k] == v;
  }

  /** From the stub, `next` with a silent step yields the interrupted instruction as a return
      address. */
  method SilentNext(it: UnwindIterator, ghost d: ModuleData) returns (r: Result<Option<FrameAddress>, UnwindError>)
    requires it.Valid() && it.state == Unwinding(InstructionPointer(STUB))
    requires it.machine.Arm? && it.machine.a.lrMask == NO_STRIP && it.machine.a.sp == 0x100
    requires OnlyStub(it.modules.Value(), CachesOf(it.modules), d)
    modifies it, it.machine.Footprint(), it.reader, it.modules.modules.Values`cache
    ensures r == Ok(Some(ReturnAddress(INTERRUPTED)))
    ensures InterruptedAt(it.modules.Value(), STUB)
  {
    hide OnlyStub, R.FindModule, RouteOf, InterruptedAt, UnwindsTo, TableReply, Unmirrored, AfterFrame, SignalIn, BitAnd, CachesOf, FramePointer.Next;
    ghost var g, c := it.modules.Value(), CachesOf(it.modules);
    NoStripIsIdentity(STUB);
    StubRoute(g, c, d);
    StubOutcome(g, c, d, it.machine.Fp(), it.reader.answer, it.reader.log);
    StubIsNotSeen(g, c, d);
    r := it.Next(SILENT);
  }

  /** The whole story: a fresh module, a fresh iterator at the stub, two calls. */
  method StubIsMissed(answer: Reader) returns (it: UnwindIterator, r: Result<Option<FrameAddress>, UnwindError>)
    ensures r == Ok(Some(ReturnAddress(INTERRUPTED)))
    ensures InterruptedAt(it.modules.Value(), STUB)
  {
    hide OnlyStub, R.FindModule, RouteOf, InterruptedAt, UnwindsTo, TableReply, Unmirrored, AfterFrame, SignalIn, BitAnd, CachesOf, FramePointer.Next;
    ghost var d;
    it, d := IteratorAtStub(answer);
    ghost var before := it.View();
    var first := it.Next(SILENT);
    assert it.View() == FramePointer.Next(before, answer).1;
    InitialKeepsRegisters(before, answer);
    r := SilentNext(it, d);
  }

  method IteratorAtStub(answer: Reader) returns (it: UnwindIterator, ghost d: ModuleData)
    ensures fresh(it) && fresh(it.machine.Footprint()) && fresh(it.reader) && fresh(it.modules) && fresh(d)
    ensures it.modules.modules == map[STUB := d]
    ensures it.Valid() && it.state == Initial(STUB) && it.reader.answer == answer
    ensures it.machine.Arm? && it.machine.a.lrMask == NO_STRIP && it.machine.a.sp == 0x100
    ensures OnlyStub(it.modules.Value(), CachesOf(it.modules), d)
  {
    hide OnlyStub, WellFormed, CoveredBySignalFrame, HasTables, R.Consistent, R.Addable, CachesOf, R.Insert, R.StartsAt, R.LastIn;
    var stub := NewStub();
    d := stub;
    var modules := new ModuleSet();
    modules.Add(stub);
    OneModule(modules, stub);
    var regs := new Aarch64.Regs(NO_STRIP, 0, 0x100, 0x200);
    var reader := new StackReader(answer);
    it := new UnwindIterator(modules, Arm(regs), reader, STUB);
  }

  lemma InitialKeepsRegisters(w: Walk, answer: Reader)
    requires w.state.Initial?
    ensures FramePointer.Next(w, answer).1.sp == w.sp
  {
  }

  method NewStub() returns (d: ModuleData)
    ensures fresh(d) && d.avmaStart == STUB && d.avmaEnd == 0x2000 && d.hdrError == None && d.cache == map[]
    ensures HasTables(d) && WellFormed(d.image) && CoveredBySignalFrame(d.image, STUB)
  {
    hide WellFormed, CoveredBySignalFrame, HdrErrorOf, ImageOf, SectionsOf;
    StubImage();
    d := new ModuleData(StubParts());
  }

  lemma OneModule(modules: ModuleSet, d: ModuleData)
    requires modules.modules == map[STUB := d]
    requires d.avmaStart == STUB && d.avmaEnd == 0x2000 && d.hdrError == None && d.cache == map[]
    requires HasTables(d) && WellFormed(d.image) && CoveredBySignalFrame(d.image, STUB)
    ensures OnlyStub(modules.Value(), CachesOf(modules), d)
  {
    hide WellFormed, CoveredBySignalFrame;
    OneValue(modules.modules, STUB, d);
  }
}
