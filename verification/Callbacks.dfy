/** The callbacks libunwind makes during one step: `find_proc_info` and `access_mem`. */
module Callbacks {
  import opened Words
  import opened Bytes
  import opened PointerEncoding
  import opened Entries
  import EhFrameTable
  import opened FunctionLookup
  import opened FunctionCache
  import opened Modules
  import opened ModuleSets
  import R = ModuleRegistry

  /** The caller's `read_stack` closure. It may keep state and need not be consistent: its
      answer is an arbitrary function of all earlier requests and the address. */
  class StackReader {
    const answer: (seq<u64>, u64) -> Option<u64>
    var log: seq<u64>

    constructor (answer: (seq<u64>, u64) -> Option<u64>)
      ensures this.answer == answer && log == []
    {
      this.answer := answer;
      log := [];
    }

    method Read(addr: u64) returns (r: Option<u64>)
      modifies this
      ensures r == answer(old(log), addr) && log == old(log) + [addr]
    {
      r := answer(log, addr);
      log := log + [addr];
    }
  }

  /** Why no unwind info was produced. */
  datatype InfoError = ModuleNotFound(ip: u64) | NoDetails(error: LookupError)

  /** The little-endian word behind a local pointer. */
  function WordAt(p: R.LocalPtr): u64
    requires p.offset + 8 <= |p.section.bytes|
  {
    PowersOf256();
    LeValue(p.section.bytes[p.offset..p.offset + 8])
  }

  /** What `access_mem` does: refuse (`-UNW_EINVAL`), hand out a word, or read past the end of a
      mirror, which is undefined. */
  datatype Access = Refused | Word(value: u64) | PastMirror

  /** One call of `access_mem`. */
  datatype Request = Request(addr: u64, write: bool)

  /** The addresses the stack reader was asked for, and the last one it refused. */
  datatype Memory = Memory(log: seq<u64>, failed: Option<u64>)

  /** Only reads outside every mirror reach the stack reader. */
  function AfterRequest(g: R.Registry, answer: (seq<u64>, u64) -> Option<u64>, m: Memory, q: Request): Memory {
    if q.write || R.LookupLocal(g, q.addr).Some? then m
    else Memory(m.log + [q.addr], if answer(m.log, q.addr).None? then Some(q.addr) else m.failed)
  }

  function AfterRequests(g: R.Registry, answer: (seq<u64>, u64) -> Option<u64>, m: Memory, qs: seq<Request>): Memory {
    if qs == [] then m
    else AfterRequest(g, answer, AfterRequests(g, answer, m, qs[..|qs| - 1]), qs[|qs| - 1])
  }

  /** The requests that no mirror answers, in order. */
  function Unmirrored(g: R.Registry, qs: seq<Request>): seq<u64> {
    if qs == [] then []
    else
      var q := qs[|qs| - 1];
      Unmirrored(g, qs[..|qs| - 1]) + if !q.write && R.LookupLocal(g, q.addr).None? then [q.addr] else []
  }

  /** The reader refused its `j`th request. */
  predicate RefusedAt(answer: (seq<u64>, u64) -> Option<u64>, log: seq<u64>, j: nat)
    requires j < |log|
  {
    answer(log[..j], log[j]).None?
  }

  /** `a` was the last address refused among the requests from `start` on. */
  ghost predicate LastRefused(answer: (seq<u64>, u64) -> Option<u64>, log: seq<u64>, start: nat, a: u64) {
    exists j: nat :: start <= j < |log| && log[j] == a && RefusedAt(answer, log, j)
                     && forall k: nat :: j < k < |log| ==> !RefusedAt(answer, log, k)
  }

  ghost predicate NoneRefused(answer: (seq<u64>, u64) -> Option<u64>, log: seq<u64>, start: nat) {
    forall j: nat :: start <= j < |log| ==> !RefusedAt(answer, log, j)
  }

  lemma RefusedAppend(answer: (seq<u64>, u64) -> Option<u64>, log: seq<u64>, a: u64, j: nat)
    requires j <= |log|
    ensures RefusedAt(answer, log + [a], j) <==> if j < |log| then RefusedAt(answer, log, j) else answer(log, a).None?
  {
    assert (log + [a])[..j] == log[..j];
    assert log[..|log|] == log;
  }

  /** The failure left behind by the requests of `log` from `start` on is the last refusal, or
      the earlier one if there is none. */
  ghost predicate FailureIs(answer: (seq<u64>, u64) -> Option<u64>, log: seq<u64>, start: nat, before: Option<u64>, failed: Option<u64>) {
    || (NoneRefused(answer, log, start) && failed == before)
    || (failed.Some? && LastRefused(answer, log, start, failed.value))
  }

  lemma FailureAppend(answer: (seq<u64>, u64) -> Option<u64>, log: seq<u64>, a: u64, start: nat, before: Option<u64>, failed: Option<u64>)
    requires start <= |log| && FailureIs(answer, log, start, before, failed)
    ensures FailureIs(answer, log + [a], start, before, if answer(log, a).None? then Some(a) else failed)
  {
    hide RefusedAt;
    var log' := log + [a];
    forall j: nat | j <= |log|
      ensures RefusedAt(answer, log', j) <==> if j < |log| then RefusedAt(answer, log, j) else answer(log, a).None?
    {
      RefusedAppend(answer, log, a, j);
    }
    if answer(log, a).None? {
      assert log'[|log|] == a;
      assert LastRefused(answer, log', start, a);
    } else if !NoneRefused(answer, log, start) {
      var j: nat :| start <= j < |log| && log[j] == failed.value && RefusedAt(answer, log, j)
                    && forall k: nat :: j < k < |log| ==> !RefusedAt(answer, log, k);
      assert log'[j] == failed.value;
      assert LastRefused(answer, log', start, failed.value);
    }
  }

  /** The log gains exactly the unmirrored reads, and the failure is the last refusal. */
  lemma {:induction false} RequestsMeaning(g: R.Registry, answer: (seq<u64>, u64) -> Option<u64>, m: Memory, qs: seq<Request>)
    ensures var r := AfterRequests(g, answer, m, qs);
      r.log == m.log + Unmirrored(g, qs) && FailureIs(answer, r.log, |m.log|, m.failed, r.failed)
    decreases |qs|
  {
    hide FailureIs, R.LookupLocal;
    if qs == [] {
      NothingRefused(answer, m);
    } else {
      var most, q := qs[..|qs| - 1], qs[|qs| - 1];
      RequestsMeaning(g, answer, m, most);
      var r := AfterRequests(g, answer, m, most);
      FailureAppend(answer, r.log, q.addr, |m.log|, m.failed, r.failed);
    }
  }

  lemma NothingRefused(answer: (seq<u64>, u64) -> Option<u64>, m: Memory)
    ensures FailureIs(answer, m.log, |m.log|, m.failed, m.failed)
  {
  }

  lemma LastRefusedIsOne(answer: (seq<u64>, u64) -> Option<u64>, log: seq<u64>, start: nat, a: u64, b: u64)
    requires LastRefused(answer, log, start, a)
    ensures !NoneRefused(answer, log, start)
    ensures LastRefused(answer, log, start, b) ==> a == b
  {
    hide RefusedAt;
  }

  /** `UnwindCtx`, alive for one step. */
  class UnwindCtx {
    const modules: ModuleSet
    const reader: StackReader
    const lookupIp: u64
    var lastFailedRead: Option<u64>
    var infoError: Option<InfoError>

    constructor (modules: ModuleSet, reader: StackReader, lookupIp: u64)
      ensures this.modules == modules && this.reader == reader && this.lookupIp == lookupIp
      ensures lastFailedRead == None && infoError == None
    {
      this.modules, this.reader, this.lookupIp := modules, reader, lookupIp;
      lastFailedRead, infoError := None, None;
    }

    /** `access_mem`. A mirrored word is answered without calling the reader. */
    method AccessMem(addr: u64, write: bool) returns (val: Access)
      modifies this`lastFailedRead, reader
      ensures Memory(reader.log, lastFailedRead) ==
                AfterRequest(modules.Value(), reader.answer, Memory(old(reader.log), old(lastFailedRead)), Request(addr, write))
      // A write or a mirrored read leaves no trace; any other read is one request, and the
      // address is recorded exactly when the reader refuses it.
      ensures write || R.LookupLocal(modules.Value(), addr).Some? ==>
                reader.log == old(reader.log) && lastFailedRead == old(lastFailedRead)
      ensures !write && R.LookupLocal(modules.Value(), addr).None? ==>
                && reader.log == old(reader.log) + [addr]
                && lastFailedRead == if reader.answer(old(reader.log), addr).None? then Some(addr) else old(lastFailedRead)
      ensures val ==
                if write then Refused
                else match R.LookupLocal(modules.Value(), addr) {
                  case Some(p) => if p.offset + 8 <= |p.section.bytes| then Word(WordAt(p)) else PastMirror
                  case None =>
                    match reader.answer(old(reader.log), addr)
                    case Some(v) => Word(v)
                    case None => Refused
                }
    {
      hide R.LookupLocal;
      if write {
        return Refused;
      }
      var local := modules.LookupLocal(addr);
      if local.Some? {
        var p := local.value;
        val := if p.offset + 8 <= |p.section.bytes| then Word(WordAt(p)) else PastMirror;
        return;
      }
      var word := reader.Read(addr);
      match word {
        case Some(v) => val := Word(v);
        case None =>
          lastFailedRead := Some(addr);
          val := Refused;
      }
    }

    /** All the memory one libunwind step asks for. */
    method AccessAll(qs: seq<Request>)
      modifies this`lastFailedRead, reader
      ensures Memory(reader.log, lastFailedRead) ==
                AfterRequests(modules.Value(), reader.answer, Memory(old(reader.log), old(lastFailedRead)), qs)
      ensures reader.log == old(reader.log) + Unmirrored(modules.Value(), qs)
      ensures FailureIs(reader.answer, reader.log, |old(reader.log)|, old(lastFailedRead), lastFailedRead)
    {
      hide AfterRequest, FailureIs, Unmirrored;
      RequestsMeaning(modules.Value(), reader.answer, Memory(reader.log, lastFailedRead), qs);
      for i := 0 to |qs|
        invariant Memory(reader.log, lastFailedRead) ==
                    AfterRequests(modules.Value(), reader.answer, Memory(old(reader.log), old(lastFailedRead)), qs[..i])
      {
        assert qs[..i + 1][..i] == qs[..i];
        var val := AccessMem(qs[i].addr, qs[i].write);
      }
      assert qs[..|qs|] == qs;
    }

    /** `find_proc_info`: fills the cache of the one module that holds `lookupIp`. */
    method FindProcInfo() returns (r: Option<FunctionDetails>)
      modifies this`infoError, modules.modules.Values`cache
      ensures match R.FindModule(modules.Value(), lookupIp) {
          case None =>
            && r == None && infoError == Some(ModuleNotFound(lookupIp))
            && forall d :: d in modules.modules.Values ==> d.cache == old(d.cache)
          case Some(m) =>
            && m in modules.modules.Values
            && m.cache == CallCache(m.image, old(m.cache), lookupIp)
            && (forall d :: d in modules.modules.Values && d != m ==> d.cache == old(d.cache))
            && match CallResult(m.image, old(m.cache), lookupIp) {
                 case Ok(d) => r == Some(d) && infoError == old(infoError)
                 case Err(e) => r == None && infoError == Some(NoDetails(e))
               }
        }
    {
      hide CallCache, CallResult, Genuine, Readable, R.Consistent;
      var found := modules.FindModule(lookupIp);
      if found.None? {
        infoError := Some(ModuleNotFound(lookupIp));
        return None;
      }
      var details := GetOrParse(found.value, lookupIp);
      match details {
        case Ok(d) => r := Some(d);
        case Err(e) =>
          infoError := Some(NoDetails(e));
          r := None;
      }
    }
  }

  lemma EndOfInstructions(base: u64, len: nat, end: nat, pos: nat)
    requires pos <= len && end <= len && base + len < TWO64
    ensures Avma(base, pos) == base + pos
    ensures Avma(Avma(base, pos), InstrLen(end, pos)) == base + end
  {
    if end < pos {
      InstrLenWraps(end, pos);
    }
  }

  /** A decoded pair: offsets inside the section, lengths measured to the ends of the entries. */
  lemma PairShape(m: Image, eh: seq<u8>, off: nat) returns (cieEnd: nat, fdeEnd: nat)
    requires DecodePair(m, eh, off).Ok?
    ensures var (cie, fde) := DecodePair(m, eh, off).value;
      && cie.instrOffset <= |eh| && fde.instrOffset <= |eh| && cieEnd <= |eh| && fdeEnd <= |eh|
      && cie.instrLen == InstrLen(cieEnd, cie.instrOffset)
      && fde.instrLen == InstrLen(fdeEnd, fde.instrOffset)
  {
    hide InstrLen, ReadHead, ReadIdWord, ReadCieFields, ReadAugmentation, ReadEncoded, ReadFdeAugmentation;
    cieEnd := ReadHead(eh, CieOffset(eh, off).value).value.end;
    fdeEnd := ReadHead(eh, off).value.end;
  }

  lemma ParsedFromPair(m: Image, ip: u64) returns (off: nat)
    requires ParseFunctionDetails(m, ip).Ok?
    ensures m.eh.Some? && DecodePair(m, m.eh.value, off).Ok?
    ensures var (cie, fde) := DecodePair(m, m.eh.value, off).value;
      ParseFunctionDetails(m, ip).value.info == BuildInfo(cie, fde, m.ehAvma)
  {
    hide DecodePair, BuildInfo;
    off := EhFrameTable.Lookup(m.hdr.value, m.table, ip).value.1 - m.ehAvma;
  }

  /** Both instruction ranges of a parsed function start and end inside the `.eh_frame`
      mirror, also when the length subtraction wrapped: the range is then empty. */
  lemma InstructionBounds(m: Image, ip: u64)
    requires ParseFunctionDetails(m, ip).Ok? && m.eh.Some?
    requires m.ehAvma + |m.eh.value| < TWO64
    ensures var info := ParseFunctionDetails(m, ip).value.info;
      var lo, hi := m.ehAvma, m.ehAvma + |m.eh.value|;
      && lo <= info.cieInstrStart <= hi && lo <= info.cieInstrEnd <= hi
      && lo <= info.fdeInstrStart <= hi && lo <= info.fdeInstrEnd <= hi
  {
    hide Avma, InstrLen, DecodePair, ParseFunctionDetails;
    var eh := m.eh.value;
    var off := ParsedFromPair(m, ip);
    var cieEnd, fdeEnd := PairShape(m, eh, off);
    var (cie, fde) := DecodePair(m, eh, off).value;
    EndOfInstructions(m.ehAvma, |eh|, cieEnd, cie.instrOffset);
    EndOfInstructions(m.ehAvma, |eh|, fdeEnd, fde.instrOffset);
  }

  predicate InInstructions(info: CieInfo, addr: u64) {
    info.cieInstrStart <= addr < info.cieInstrEnd || info.fdeInstrStart <= addr < info.fdeInstrEnd
  }

  /** For every parsed function of a registered module and every address in its instructions
      whose word ends within `.eh_frame`, the redirect finds that word in the mirror, so
      `AccessMem` answers with it and the stack reader is not called. */
  lemma InstructionsAreLocal(g: R.Registry, key: u64, p: Parts, ip: u64, addr: u64)
    requires R.Consistent(g) && key in g.modules && ValidParts(p) && HasEh(p)
    requires g.modules[key].image == ImageOf(p) && g.modules[key].sections == SectionsOf(p)
    requires ParseFunctionDetails(ImageOf(p), ip).Ok?
    requires InInstructions(ParseFunctionDetails(ImageOf(p), ip).value.info, addr)
    requires addr + 8 <= EhAvma(p) + |p.eh.value|
    ensures EhAvma(p) <= addr
    ensures R.LookupLocal(g, addr) == Some(R.LocalPtr(SectionAt(EhAvma(p), p.eh.value), addr - EhAvma(p)))
  {
    hide ParseFunctionDetails, R.RangesApart, R.Indexed;
    var s := SectionAt(EhAvma(p), p.eh.value);
    assert R.Owns(g.modules, key, s) by {
      var secs := SectionsOf(p);
      assert secs[|secs| - 1] == s;
    }
    assert R.Placed(s);
    InstructionBounds(ImageOf(p), ip);
    R.LookupLocalIsRight(g, addr);
  }

  /** On a consistent registry every word `access_mem` reads through a local pointer is inside
      its mirror, whatever the address. */
  lemma LocalReadsAreInside(g: R.Registry, addr: u64)
    requires R.Consistent(g)
    ensures R.LookupLocal(g, addr).Some? ==>
      var p := R.LookupLocal(g, addr).value; p.offset + 8 <= |p.section.bytes|
  {
    hide R.Consistent, R.LookupLocal, R.Owns;
    R.LookupLocalIsRight(g, addr);
  }

  /** `access_mem` on a consistent registry: an instruction word of a parsed function is read
      from the mirror, little-endian, without a request to the stack reader. */
  method ReadInstructions(ctx: UnwindCtx, key: u64, p: Parts, ip: u64, addr: u64) returns (val: Access)
    requires var g := ctx.modules.Value();
      && R.Consistent(g) && key in g.modules && ValidParts(p) && HasEh(p)
      && g.modules[key].image == ImageOf(p) && g.modules[key].sections == SectionsOf(p)
    requires ParseFunctionDetails(ImageOf(p), ip).Ok?
    requires InInstructions(ParseFunctionDetails(ImageOf(p), ip).value.info, addr)
    requires addr + 8 <= EhAvma(p) + |p.eh.value|
    modifies ctx`lastFailedRead, ctx.reader
    ensures EhAvma(p) <= addr
    ensures var off := addr - EhAvma(p); val.Word? && val.value == LeValue(p.eh.value[off..off + 8])
    ensures ctx.reader.log == old(ctx.reader.log) && ctx.lastFailedRead == old(ctx.lastFailedRead)
  {
    hide R.Consistent, ParseFunctionDetails, R.LookupLocal, LeValue, InInstructions;
    InstructionsAreLocal(ctx.modules.Value(), key, p, ip, addr);
    val := ctx.AccessMem(addr, false);
  }
}
