/** The per-module function cache: `get_or_parse_function_details` as one call and as runs of
    calls from one thread. */
module FunctionCache {
  import opened Words
  import opened EhFrameTable
  import opened FunctionLookup
  import opened OrderedMap
  import opened Modules

  type Cache = map<u64, FunctionDetails>
  type Answer = Result<FunctionDetails, LookupError>

  /** The lookup under the lock: the nearest cached start at or below `ip`, if it reaches. */
  function CacheHit(cache: Cache, ip: u64): Option<FunctionDetails> {
    match Floor(cache, ip)
    case Some(k) => if ip < cache[k].endIp then Some(cache[k]) else None
    case None => None
  }

  /** The query of `ModuleSet::is_signal_frame`, which reads the cache only. */
  predicate SignalQuery(cache: Cache, ip: u64) {
    var hit := CacheHit(cache, ip);
    hit.Some? && hit.value.signalFrame
  }

  /** Table entry `i` is the function cached under `k`. */
  predicate CachedAs(m: Image, cache: Cache, k: u64, i: nat)
    requires Readable(m)
  {
    k in cache && i < m.table.count && cache[k] == Listed(m, i) && k == cache[k].startIp
  }

  /** Every entry is a listed function under its own start. */
  ghost predicate Genuine(m: Image, cache: Cache)
    requires Readable(m)
  {
    forall k :: k in cache ==> exists i: nat :: CachedAs(m, cache, k, i)
  }

  /** Under a genuine cache the function covering `ip` shadows no other start up to `ip`. */
  lemma CoveringIsFloor(m: Image, cache: Cache, ip: u64, i: nat)
    requires WellFormed(m) && Genuine(m, cache) && i < m.table.count
    requires Covers(Listed(m, i), ip) && Listed(m, i).startIp in cache
    ensures IsFloor(cache, ip, Listed(m, i).startIp)
    ensures cache[Listed(m, i).startIp] == Listed(m, i)
  {
    hide Readable, Listed;
    var s := Listed(m, i).startIp;
    var own: nat :| CachedAs(m, cache, s, own);
    assert own == i by { SameStart(m, own, i); }
    forall k | k in cache && s < k
      ensures ip < k
    {
      var j: nat :| CachedAs(m, cache, k, j);
      LaterStart(m, i, j);
    }
  }

  lemma LaterStart(m: Image, i: nat, j: nat)
    requires WellFormed(m) && i < m.table.count && j < m.table.count
    requires Listed(m, i).startIp < Listed(m, j).startIp
    ensures Listed(m, i).endIp <= Listed(m, j).startIp
  {
    hide Readable, Listed;
  }

  lemma SameStart(m: Image, i: nat, j: nat)
    requires WellFormed(m) && i < m.table.count && j < m.table.count
    requires Listed(m, i).startIp == Listed(m, j).startIp
    ensures i == j
  {
    hide Readable, Listed;
  }

  /** A hit is what the uncached parser returns. */
  lemma HitIsGenuine(m: Image, cache: Cache, ip: u64)
    requires WellFormed(m) && Genuine(m, cache) && CacheHit(cache, ip).Some?
    ensures ParseFunctionDetails(m, ip) == Ok(CacheHit(cache, ip).value)
    ensures CacheHit(cache, ip).value.startIp in cache
  {
    hide Readable, Listed, ParseFunctionDetails;
    var k := Floor(cache, ip).value;
    var i: nat :| CachedAs(m, cache, k, i);
    LookupSucceedsIffCovered(m, ip);
  }

  /** Once the function covering `ip` is cached, every later lookup of `ip` hits it. */
  lemma CachedIsHit(m: Image, cache: Cache, ip: u64, d: FunctionDetails)
    requires WellFormed(m) && Genuine(m, cache)
    requires ParseFunctionDetails(m, ip) == Ok(d) && d.startIp in cache
    ensures CacheHit(cache, ip) == Some(d)
  {
    hide Readable, Listed, ParseFunctionDetails;
    LookupSucceedsIffCovered(m, ip);
    var i: nat :| i < m.table.count && Covers(Listed(m, i), ip);
    CoveringIsFloor(m, cache, ip, i);
    FloorIs(cache, ip, Listed(m, i).startIp);
  }

  /** Inserting a genuine parse keeps the cache genuine and disturbs no entry: a second
      insert for the same key puts back an equal value. */
  lemma InsertKeepsEntries(m: Image, cache: Cache, ip: u64, d: FunctionDetails)
    requires WellFormed(m) && Genuine(m, cache)
    requires ParseFunctionDetails(m, ip) == Ok(d)
    ensures Genuine(m, cache[d.startIp := d])
    ensures d.startIp in cache ==> cache[d.startIp] == d
  {
    hide Readable, Listed, ParseFunctionDetails;
    LookupSucceedsIffCovered(m, ip);
    var i: nat :| i < m.table.count && Covers(Listed(m, i), ip);
    assert d == Listed(m, i);
    var cache' := cache[d.startIp := d];
    forall k | k in cache'
      ensures exists j: nat :: CachedAs(m, cache', k, j)
    {
      if k == d.startIp {
        assert CachedAs(m, cache', k, i);
      } else {
        var j: nat :| CachedAs(m, cache, k, j);
        assert CachedAs(m, cache', k, j);
      }
    }
    if d.startIp in cache {
      CoveringIsFloor(m, cache, ip, i);
    }
  }

  /** The start addresses of the first `n` listed functions. */
  function Starts(m: Image, n: nat): (s: set<u64>)
    requires Readable(m) && n <= m.table.count
    ensures |s| <= n
    ensures forall i: nat :: i < n ==> Listed(m, i).startIp in s
  {
    if n == 0 then {} else Starts(m, n - 1) + {Listed(m, n - 1).startIp}
  }

  /** A genuine cache never holds more entries than the table lists functions. */
  lemma CacheIsBounded(m: Image, cache: Cache)
    requires Readable(m) && Genuine(m, cache)
    ensures |cache| <= m.table.count
  {
    hide Readable, Listed;
    var s := Starts(m, m.table.count);
    forall k | k in cache.Keys
      ensures k in s
    {
      var i: nat :| CachedAs(m, cache, k, i);
    }
    SubsetSize(cache.Keys, s);
    assert |cache| == |cache.Keys|;
  }

  // ---------------------------------------------------------------------------
  // One call

  function CallResult(m: Image, cache: Cache, ip: u64): Answer {
    match CacheHit(cache, ip)
    case Some(d) => Ok(d)
    case None => ParseFunctionDetails(m, ip)
  }

  function CallCache(m: Image, cache: Cache, ip: u64): Cache {
    if CacheHit(cache, ip).Some? then cache else Inserted(m, cache, ip)
  }

  /** The cache after the parse of `ip`, if it succeeds, was stored. */
  function Inserted(m: Image, cache: Cache, ip: u64): Cache {
    match ParseFunctionDetails(m, ip)
    case Ok(d) => cache[d.startIp := d]
    case Err(_) => cache
  }

  /** `get_or_parse_function_details` when no other thread runs. */
  method GetOrParse(data: ModuleData, ip: u64) returns (r: Answer)
    modifies data`cache
    ensures r == CallResult(data.image, old(data.cache), ip)
    ensures data.cache == CallCache(data.image, old(data.cache), ip)
    ensures WellFormed(data.image) && Genuine(data.image, old(data.cache)) ==>
              && r == ParseFunctionDetails(data.image, ip)
              && Genuine(data.image, data.cache)
              && (r.Ok? ==> SignalQuery(data.cache, ip) == r.value.signalFrame)
  {
    hide ParseFunctionDetails, Readable, Listed, Floor;
    CallIsTransparent(data.image, data.cache, ip);
    var floor := Floor(data.cache, ip);
    if floor.Some? && ip < data.cache[floor.value].endIp {
      return Ok(data.cache[floor.value]);
    }
    var details :- ParseFunctionDetails(data.image, ip);
    data.cache := data.cache[details.startIp := details];
    r := Ok(details);
  }

  /** Every entry is what some parse of this image returned, whatever the image. */
  ghost predicate Sourced(m: Image, cache: Cache) {
    forall k :: k in cache ==> FromParse(m, cache[k])
  }

  ghost predicate FromParse(m: Image, d: FunctionDetails) {
    exists ip: u64 :: ParseFunctionDetails(m, ip) == Ok(d)
  }

  lemma CallKeepsSourced(m: Image, cache: Cache, ip: u64)
    ensures Sourced(m, cache) ==> Sourced(m, CallCache(m, cache, ip)) && Sourced(m, Inserted(m, cache, ip))
  {
    hide ParseFunctionDetails, CacheHit;
    var r := ParseFunctionDetails(m, ip);
    assert r.Ok? ==> FromParse(m, r.value);
  }

  /** An image without tables never gets anything cached. */
  lemma NothingToCache(m: Image, cache: Cache)
    requires Sourced(m, cache) && (m.table.count == 0 || m.hdr.None? || m.eh.None?)
    ensures cache == map[]
  {
    assert forall ip: u64 :: ParseFunctionDetails(m, ip).Err?;
    assert forall d :: !FromParse(m, d);
  }

  /** The cache is invisible: a call returns what the parser returns, keeps the cache
      genuine, never overwrites a key, and leaves the signal query right for `ip`. */
  lemma CallIsTransparent(m: Image, cache: Cache, ip: u64)
    ensures WellFormed(m) && Genuine(m, cache) ==>
      var cache' := CallCache(m, cache, ip);
      && CallResult(m, cache, ip) == ParseFunctionDetails(m, ip)
      && Genuine(m, cache')
      && (cache' == cache || exists d :: ParseFunctionDetails(m, ip) == Ok(d) && d.startIp !in cache && cache' == cache[d.startIp := d])
      && match ParseFunctionDetails(m, ip) {
           case Ok(d) => d.startIp in cache' && SignalQuery(cache', ip) == d.signalFrame
           case Err(_) => !SignalQuery(cache', ip)
         }
  {
    hide Readable, Listed, ParseFunctionDetails, Floor;
    if WellFormed(m) && Genuine(m, cache) {
      var p := ParseFunctionDetails(m, ip);
      if CacheHit(cache, ip).Some? {
        HitIsGenuine(m, cache, ip);
      } else if p.Ok? {
        InsertKeepsEntries(m, cache, ip, p.value);
        if p.value.startIp in cache {
          CachedIsHit(m, cache, ip, p.value);
        }
        CachedIsHit(m, CallCache(m, cache, ip), ip, p.value);
      }
    }
  }

  // ---------------------------------------------------------------------------
  // Runs of calls from one thread

  /** The cache after the calls, and the starts of the functions parsed, in order. */
  datatype Session = Session(cache: Cache, parsed: seq<u64>, answers: seq<Answer>)

  function Call(m: Image, s: Session, ip: u64): Session {
    var parsed :=
      if CacheHit(s.cache, ip).None? && ParseFunctionDetails(m, ip).Ok?
      then s.parsed + [ParseFunctionDetails(m, ip).value.startIp] else s.parsed;
    Session(CallCache(m, s.cache, ip), parsed, s.answers + [CallResult(m, s.cache, ip)])
  }

  function Calls(m: Image, ips: seq<u64>): Session {
    if ips == [] then Session(map[], [], [])
    else Call(m, Calls(m, ips[..|ips| - 1]), ips[|ips| - 1])
  }

  /** The parsed starts are distinct and are exactly the keys. */
  ghost predicate Tidy(m: Image, s: Session)
    requires Readable(m)
  {
    && Genuine(m, s.cache)
    && (forall k :: k in s.parsed <==> k in s.cache)
    && (forall i, j :: 0 <= i < j < |s.parsed| ==> s.parsed[i] != s.parsed[j])
    && |s.parsed| == |s.cache|
  }

  lemma CallKeepsTidy(m: Image, s: Session, ip: u64)
    requires WellFormed(m) && Tidy(m, s)
    ensures Tidy(m, Call(m, s, ip))
    ensures Call(m, s, ip).answers == s.answers + [ParseFunctionDetails(m, ip)]
  {
    hide Readable, Listed, ParseFunctionDetails, Genuine, CacheHit, SignalQuery;
    CallIsTransparent(m, s.cache, ip);
    if CacheHit(s.cache, ip).None? && ParseFunctionDetails(m, ip).Ok? {
      FreshInsert(m, s.cache, ip);
      var d := ParseFunctionDetails(m, ip).value;
      NewKey(s.cache, d.startIp, d);
    }
  }

  lemma NewKey(cache: Cache, k: u64, d: FunctionDetails)
    requires k !in cache
    ensures |cache[k := d]| == |cache| + 1
  {
    assert cache[k := d].Keys == cache.Keys + {k};
  }

  /** In a sequential run each function is parsed successfully at most once, no insert
      overwrites a key, every answer is the parser's, and the cache stays within the number
      of listed functions. */
  lemma {:induction false} EachFunctionParsedOnce(m: Image, ips: seq<u64>)
    requires WellFormed(m)
    ensures var s := Calls(m, ips);
      && Tidy(m, s)
      && |s.parsed| == |s.cache| <= m.table.count
      && |s.answers| == |ips|
      && (forall i :: 0 <= i < |ips| ==> s.answers[i] == ParseFunctionDetails(m, ips[i]))
  {
    hide Readable, ParseFunctionDetails, Genuine, Call;
    if ips == [] {
      EmptyIsGenuine(m);
    } else {
      var most, ip := ips[..|ips| - 1], ips[|ips| - 1];
      EachFunctionParsedOnce(m, most);
      CallKeepsTidy(m, Calls(m, most), ip);
    }
    CacheIsBounded(m, Calls(m, ips).cache);
  }

  lemma EmptyIsGenuine(m: Image)
    requires Readable(m)
    ensures Genuine(m, map[])
  {
  }

  lemma FreshInsert(m: Image, cache: Cache, ip: u64)
    requires WellFormed(m) && Genuine(m, cache)
    requires CacheHit(cache, ip).None?
    ensures ParseFunctionDetails(m, ip).Ok? ==> ParseFunctionDetails(m, ip).value.startIp !in cache
  {
    hide Readable, Listed, ParseFunctionDetails, Floor;
    var p := ParseFunctionDetails(m, ip);
    if p.Ok? && p.value.startIp in cache {
      CachedIsHit(m, cache, ip, p.value);
    }
  }

  // ---------------------------------------------------------------------------
  // Exactly when the cache is invisible

  predicate Uncached(m: Image, ips: seq<u64>) {
    var answers := Calls(m, ips).answers;
    |answers| == |ips| && forall i :: 0 <= i < |ips| ==> answers[i] == ParseFunctionDetails(m, ips[i])
  }

  /** In every sequential run the cache goes unnoticed. */
  ghost predicate Transparent(m: Image) {
    forall ips: seq<u64> :: Uncached(m, ips)
  }

  predicate Sorted(m: Image) {
    && Readable(m)
    && forall i: nat, j: nat :: i < j < m.table.count ==> Listed(m, i).startIp < Listed(m, j).startIp
  }

  /** In a sorted table a lookup of a function's own start leads to that function. */
  lemma StartLeadsHome(m: Image, i: nat)
    requires Sorted(m) && i < m.table.count
    ensures var d := Listed(m, i);
      ParseFunctionDetails(m, d.startIp) == if d.startIp < d.endIp then Ok(d) else Err(EhFrameHeaderLookupMiss(d.startIp))
  {
    hide Readable, ParseFunctionDetails, EntryPc, Search;
    var ip := Listed(m, i).startIp;
    SearchBrackets(m.hdr.value, m.table, ip, 0, m.table.count);
    var j := Search(m.hdr.value, m.table, ip, 0, m.table.count);
    assert j + 1 < m.table.count ==> Listed(m, j + 1).startIp > ip;
    assert j != 0 ==> Listed(m, j).startIp <= ip;
    assert j == i;
    CandidateDecides(m, ip);
  }

  /** Two neighbours overlap: caching the first hides the second. */
  lemma OverlapIsVisible(m: Image, i: nat)
    requires Sorted(m) && i + 1 < m.table.count
    requires Listed(m, i).endIp > Listed(m, i + 1).startIp
    ensures !Uncached(m, [Listed(m, i).startIp, Listed(m, i + 1).startIp])
  {
    hide Readable, ParseFunctionDetails, Listed;
    var d, e := Listed(m, i), Listed(m, i + 1);
    StartLeadsHome(m, i);
    StartLeadsHome(m, i + 1);
    var ips := [d.startIp, e.startIp];
    assert ips[..1] == [d.startIp] && [d.startIp][..0] == [];
    assert Calls(m, []).cache == map[];
    assert CacheHit(map[], d.startIp) == None;
    var cache: Cache := map[d.startIp := d];
    assert Calls(m, [d.startIp]).cache == cache;
    assert IsFloor(cache, e.startIp, d.startIp);
    FloorIs(cache, e.startIp, d.startIp);
    assert CallResult(m, cache, e.startIp) == Ok(d);
    assert Calls(m, ips).answers[1] == Ok(d);
  }

  /** For a readable, strictly sorted table the cache is invisible in every run if and only if
      no two listed functions overlap. */
  lemma TransparentIffDisjoint(m: Image)
    requires Sorted(m)
    ensures Transparent(m) <==> forall i: nat :: i + 1 < m.table.count ==> Listed(m, i).endIp <= Listed(m, i + 1).startIp
  {
    hide Readable, Listed, Uncached;
    if forall i: nat :: i + 1 < m.table.count ==> Listed(m, i).endIp <= Listed(m, i + 1).startIp {
      NeighboursSuffice(m);
      forall ips: seq<u64>
        ensures Uncached(m, ips)
      {
        RunsAreUncached(m, ips);
      }
    } else {
      var i: nat :| i + 1 < m.table.count && Listed(m, i).endIp > Listed(m, i + 1).startIp;
      OverlapIsVisible(m, i);
    }
  }

  lemma NeighboursSuffice(m: Image)
    requires Sorted(m)
    requires forall i: nat :: i + 1 < m.table.count ==> Listed(m, i).endIp <= Listed(m, i + 1).startIp
    ensures WellFormed(m)
  {
    hide Readable, Listed;
    forall i: nat, j: nat | i < j < m.table.count
      ensures Listed(m, i).endIp <= Listed(m, j).startIp
    {
      assert i + 1 < j ==> Listed(m, i + 1).startIp < Listed(m, j).startIp;
    }
  }

  lemma RunsAreUncached(m: Image, ips: seq<u64>)
    requires WellFormed(m)
    ensures Uncached(m, ips)
  {
    hide Readable, Listed, ParseFunctionDetails, Calls;
    EachFunctionParsedOnce(m, ips);
  }
}
