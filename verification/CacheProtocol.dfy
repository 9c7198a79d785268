/** `get_or_parse_function_details` called by any number of threads. The lock is held for
    the lookup and for the insert but not in between, so a run is any interleaving of those
    atomic steps and of the pure parse. */
module CacheProtocol {
  import opened Words
  import opened FunctionLookup
  import opened FunctionCache

  datatype Thread =
    | Idle
    | Looking(ip: u64)
    | Parsing(ip: u64)
    | Inserting(ip: u64, details: FunctionDetails)

  /** A finished call. */
  datatype Reply = Reply(ip: u64, answer: Answer)

  datatype State = State(cache: Cache, threads: map<nat, Thread>, replies: seq<Reply>)

  /** Either a thread starts a call or a thread takes its next step. */
  datatype Action = Begin(t: nat, ip: u64) | Advance(t: nat)

  const START: State := State(map[], map[], [])

  function ThreadOf(s: State, t: nat): Thread {
    if t in s.threads then s.threads[t] else Idle
  }

  function Move(s: State, t: nat, th: Thread): State {
    s.(threads := s.threads[t := th])
  }

  function Finish(s: State, t: nat, ip: u64, a: Answer): State {
    s.(threads := s.threads[t := Idle], replies := s.replies + [Reply(ip, a)])
  }

  /** One atomic step; an action that is not enabled changes nothing. */
  function Step(m: Image, s: State, a: Action): State {
    match (a, ThreadOf(s, a.t))
    case (Begin(t, ip), Idle) => Move(s, t, Looking(ip))
    case (Advance(t), Looking(ip)) =>
      (match CacheHit(s.cache, ip)
       case Some(d) => Finish(s, t, ip, Ok(d))
       case None => Move(s, t, Parsing(ip)))
    case (Advance(t), Parsing(ip)) =>
      (match ParseFunctionDetails(m, ip)
       case Ok(d) => Move(s, t, Inserting(ip, d))
       case Err(e) => Finish(s, t, ip, Err(e)))
    case (Advance(t), Inserting(ip, d)) =>
      Finish(s.(cache := s.cache[d.startIp := d]), t, ip, Ok(d))
    case _ => s
  }

  function Run(m: Image, actions: seq<Action>): State {
    if actions == [] then START
    else Step(m, Run(m, actions[..|actions| - 1]), actions[|actions| - 1])
  }

  /** A reply is right when it is the uncached parse and, if it succeeded, its function
      is in the cache. */
  predicate RightReply(m: Image, cache: Cache, r: Reply) {
    && r.answer == ParseFunctionDetails(m, r.ip)
    && (r.answer.Ok? ==> r.answer.value.startIp in cache)
  }

  predicate RightThread(m: Image, th: Thread) {
    th.Inserting? ==> ParseFunctionDetails(m, th.ip) == Ok(th.details)
  }

  ghost predicate Inv(m: Image, s: State)
    requires Readable(m)
  {
    && Genuine(m, s.cache)
    && (forall t :: t in s.threads ==> RightThread(m, s.threads[t]))
    && (forall i :: 0 <= i < |s.replies| ==> RightReply(m, s.cache, s.replies[i]))
  }

  /** Entries only accumulate, and none ever changes its value. */
  predicate Extends(before: Cache, after: Cache) {
    forall k :: k in before ==> k in after && after[k] == before[k]
  }

  /** Every atomic step, of any thread, keeps the invariant and every cached value. */
  lemma StepKeepsInv(m: Image, s: State, a: Action)
    requires WellFormed(m) && Inv(m, s)
    ensures Inv(m, Step(m, s, a))
    ensures Extends(s.cache, Step(m, s, a).cache)
  {
    hide Readable, WellFormed, ParseFunctionDetails, CacheHit, Genuine;
    WellFormedIsReadable(m);
    if a.Advance? {
      var th := ThreadOf(s, a.t);
      if th.Looking? && CacheHit(s.cache, th.ip).Some? {
        HitIsGenuine(m, s.cache, th.ip);
      } else if th.Inserting? {
        InsertKeepsEntries(m, s.cache, th.ip, th.details);
      }
    }
  }

  /** Whatever a thread does, the cache stays or gains the parse of some address. */
  lemma StepInserts(m: Image, s: State, a: Action)
    requires Readable(m) && Inv(m, s)
    ensures var cache' := Step(m, s, a).cache;
      cache' == s.cache || exists ip: u64 :: cache' == Inserted(m, s.cache, ip)
  {
    hide Readable, ParseFunctionDetails, CacheHit, Genuine;
    var th := ThreadOf(s, a.t);
    if a.Advance? && th.Inserting? {
      assert Step(m, s, a).cache == Inserted(m, s.cache, th.ip);
    }
  }

  lemma {:induction false} RunKeepsInv(m: Image, actions: seq<Action>)
    requires WellFormed(m)
    ensures Inv(m, Run(m, actions))
  {
    hide Inv, Step;
    if actions == [] {
      StartIsGood(m);
    } else {
      RunKeepsInv(m, actions[..|actions| - 1]);
      StepKeepsInv(m, Run(m, actions[..|actions| - 1]), actions[|actions| - 1]);
    }
  }

  lemma StartIsGood(m: Image)
    requires Readable(m)
    ensures Inv(m, START)
  {
  }

  /** How many of its own steps a thread is from finishing its call. */
  function Remaining(th: Thread): nat {
    match th
    case Idle => 0
    case Looking(_) => 3
    case Parsing(_) => 2
    case Inserting(_, _) => 1
  }

  /** Progress: a thread's own step brings its call nearer the end, or finishes it with one reply
      for its address; a step of another thread does not touch it. */
  lemma StepProgresses(m: Image, s: State, t: nat, a: Action)
    ensures var s', th := Step(m, s, a), ThreadOf(s, t);
      && (a.t != t ==> ThreadOf(s', t) == th)
      && (a == Advance(t) && th != Idle ==>
            || (ThreadOf(s', t) != Idle && ThreadOf(s', t).ip == th.ip && Remaining(ThreadOf(s', t)) < Remaining(th) && s'.replies == s.replies)
            || (ThreadOf(s', t) == Idle && |s'.replies| == |s.replies| + 1
                && s'.replies[..|s.replies|] == s.replies && s'.replies[|s.replies|].ip == th.ip))
      && (a.Begin? && a.t == t && th == Idle ==> ThreadOf(s', t) == Looking(a.ip) && s'.replies == s.replies)
  {
    hide ParseFunctionDetails, CacheHit;
  }

  /** For every interleaving: each finished call returned exactly what the uncached parser
      returns for its address, every cache entry is a genuine parse under its own start, and
      the cache never outgrows the table. */
  lemma EveryReplyIsUncached(m: Image, actions: seq<Action>)
    requires WellFormed(m)
    ensures var s := Run(m, actions);
      && (forall i :: 0 <= i < |s.replies| ==> s.replies[i].answer == ParseFunctionDetails(m, s.replies[i].ip))
      && Genuine(m, s.cache)
      && |s.cache| <= m.table.count
  {
    hide Readable, ParseFunctionDetails, Genuine, Run;
    RunKeepsInv(m, actions);
    CacheIsBounded(m, Run(m, actions).cache);
  }

  /** However the cache was filled, once some call for `ip` has succeeded the cache-only
      signal query answers with the flag of the CIE of the function covering `ip`. */
  lemma SignalQueryIsRight(m: Image, actions: seq<Action>, i: nat)
    requires WellFormed(m)
    requires i < |Run(m, actions).replies| && Run(m, actions).replies[i].answer.Ok?
    ensures var s := Run(m, actions);
      var ip := s.replies[i].ip;
      exists j: nat :: j < m.table.count && Covers(Listed(m, j), ip)
        && SignalQuery(s.cache, ip) == Listed(m, j).signalFrame
  {
    hide Readable, ParseFunctionDetails, Genuine, Run, CacheHit, Listed;
    RunKeepsInv(m, actions);
    var s := Run(m, actions);
    var r := s.replies[i];
    assert RightReply(m, s.cache, r);
    CachedIsHit(m, s.cache, r.ip, r.answer.value);
    LookupSucceedsIffCovered(m, r.ip);
    var j: nat :| j < m.table.count && Covers(Listed(m, j), r.ip);
    assert Listed(m, j) == r.answer.value;
  }

  /** Later steps never take a cached function away, so the answer above is final. */
  lemma {:induction false} CacheOnlyGrows(m: Image, before: seq<Action>, after: seq<Action>)
    requires WellFormed(m)
    ensures Extends(Run(m, before).cache, Run(m, before + after).cache)
    decreases |after|
  {
    hide Step, Inv, WellFormed;
    if after == [] {
      assert before + after == before;
    } else {
      var most := after[..|after| - 1];
      CacheOnlyGrows(m, before, most);
      assert (before + after)[..|before + after| - 1] == before + most;
      RunKeepsInv(m, before + most);
      StepKeepsInv(m, Run(m, before + most), after[|after| - 1]);
    }
  }

  lemma RunAppend(m: Image, actions: seq<Action>, a: Action)
    ensures Run(m, actions + [a]) == Step(m, Run(m, actions), a)
  {
    hide Step;
    assert (actions + [a])[..|actions|] == actions;
  }

  /** Unlike in a sequential run, two threads can both parse the same function and both come to
      insert it. */
  lemma BothMayInsert(m: Image, ip: u64, d: FunctionDetails) returns (actions: seq<Action>)
    requires ParseFunctionDetails(m, ip) == Ok(d)
    ensures var s := Run(m, actions);
      ThreadOf(s, 0) == Inserting(ip, d) && ThreadOf(s, 1) == Inserting(ip, d) && s.cache == map[]
  {
    hide ParseFunctionDetails;
    var steps := [Begin(0, ip), Begin(1, ip), Advance(0), Advance(1), Advance(0), Advance(1)];
    assert CacheHit(map[], ip) == None;
    actions := [];
    for i := 0 to 6
      invariant var s := Run(m, actions);
        && s.cache == map[]
        && ThreadOf(s, 0) == (if i < 1 then Idle else if i < 3 then Looking(ip) else if i < 5 then Parsing(ip) else Inserting(ip, d))
        && ThreadOf(s, 1) == (if i < 2 then Idle else if i < 4 then Looking(ip) else if i < 6 then Parsing(ip) else Inserting(ip, d))
    {
      RunAppend(m, actions, steps[i]);
      actions := actions + [steps[i]];
    }
  }
}
