/** The registry of loaded modules: one index by code range, one by mirrored section. */
module ModuleRegistry {
  import opened Words
  import opened OrderedMap
  import opened Modules

  type ModuleMap = map<u64, ModuleData>
  type Redirects = map<u64, LocalSection>

  /** Where `lookup_local` points: an offset into a section's local bytes. */
  datatype LocalPtr = LocalPtr(section: LocalSection, offset: nat)

  datatype Registry = Registry(modules: ModuleMap, redirects: Redirects)

  const EMPTY: Registry := Registry(map[], map[])

  // ---------------------------------------------------------------------------
  // Updates

  function Insert(r: Redirects, secs: seq<LocalSection>): Redirects {
    if secs == [] then r
    else Insert(r, secs[..|secs| - 1])[secs[|secs| - 1].avmaStart := secs[|secs| - 1]]
  }

  function Delete(r: Redirects, secs: seq<LocalSection>): Redirects {
    if secs == [] then r
    else Delete(r, secs[..|secs| - 1]) - {secs[|secs| - 1].avmaStart}
  }

  function Add(g: Registry, d: ModuleData): Registry {
    Registry(g.modules[d.avmaStart := d], Insert(g.redirects, d.sections))
  }

  function Remove(g: Registry, key: u64): Registry {
    if key in g.modules then Registry(g.modules - {key}, Delete(g.redirects, g.modules[key].sections)) else g
  }

  // ---------------------------------------------------------------------------
  // Queries

  function FindModule(g: Registry, addr: u64): Option<ModuleData> {
    match Floor(g.modules, addr)
    case Some(k) => if g.modules[k].avmaStart <= addr < g.modules[k].avmaEnd then Some(g.modules[k]) else None
    case None => None
  }

  lemma FoundIsRegistered(g: Registry, addr: u64)
    ensures FindModule(g, addr).Some? ==> FindModule(g, addr).value in g.modules.Values
  {
  }

  function LookupLocal(g: Registry, addr: u64): Option<LocalPtr> {
    match Floor(g.redirects, addr)
    case Some(k) =>
      var sec := g.redirects[k];
      if sec.avmaStart <= addr && SatAdd(addr, 8) <= sec.avmaEnd
      then Some(LocalPtr(sec, addr - sec.avmaStart)) else None
    case None => None
  }

  // ---------------------------------------------------------------------------
  // Consistency

  /** A section that stops short of the last address, so its end did not saturate. */
  predicate Placed(s: LocalSection) {
    s.avmaEnd == s.avmaStart + |s.bytes| && s.avmaEnd < U64_MAX
  }

  predicate Apart(s: LocalSection, t: LocalSection) {
    s.avmaStart != t.avmaStart && (s.avmaEnd <= t.avmaStart || t.avmaEnd <= s.avmaStart)
  }

  predicate RangesApart(d: ModuleData, e: ModuleData) {
    d.avmaEnd <= e.avmaStart || e.avmaEnd <= d.avmaStart
  }

  /** `s` is a section of the module registered under `k`. */
  predicate Owns(modules: ModuleMap, k: u64, s: LocalSection) {
    k in modules && s in modules[k].sections
  }

  /** The redirect map is exactly the union of the registered modules' sections. */
  ghost predicate Indexed(g: Registry) {
    && (forall k, s :: Owns(g.modules, k, s) ==> s.avmaStart in g.redirects && g.redirects[s.avmaStart] == s)
    && (forall a :: a in g.redirects ==> g.redirects[a].avmaStart == a && exists k :: Owns(g.modules, k, g.redirects[a]))
  }

  /** Keys are range starts, ranges are ordered and disjoint, sections are placed and disjoint. */
  ghost predicate WellPlaced(modules: ModuleMap) {
    && (forall k :: k in modules ==> modules[k].avmaStart == k <= modules[k].avmaEnd)
    && (forall j, k :: j in modules && k in modules && j != k ==> RangesApart(modules[j], modules[k]))
    && (forall k, s :: Owns(modules, k, s) ==> Placed(s))
    && (forall j, s, k, t :: Owns(modules, j, s) && Owns(modules, k, t) && s != t ==> Apart(s, t))
    && (forall j, k, s :: Owns(modules, j, s) && Owns(modules, k, s) ==> j == k)
  }

  ghost predicate Consistent(g: Registry) {
    Indexed(g) && WellPlaced(g.modules)
  }

  /** What a caller must respect to add `d`: a fresh key, an ordered range apart from the
      others, placed sections apart from the others and from each other. */
  ghost predicate Addable(modules: ModuleMap, d: ModuleData) {
    && d.avmaStart !in modules
    && d.avmaStart <= d.avmaEnd
    && (forall k :: k in modules ==> RangesApart(modules[k], d))
    && (forall s :: s in d.sections ==> Placed(s))
    && (forall s, t :: s in d.sections && t in d.sections && s != t ==> Apart(s, t))
    && (forall k, s, t :: Owns(modules, k, s) && t in d.sections ==> s != t && Apart(s, t))
  }

  lemma {:induction false} InsertMeaning(r: Redirects, secs: seq<LocalSection>)
    requires forall s, t :: s in secs && t in secs && s != t ==> s.avmaStart != t.avmaStart
    ensures var r' := Insert(r, secs);
      && (forall s :: s in secs ==> s.avmaStart in r' && r'[s.avmaStart] == s)
      && (forall a :: a in r' ==> (exists s :: s in secs && s.avmaStart == a) || (a in r && r'[a] == r[a]))
      && (forall a :: a in r ==> a in r')
    decreases |secs|
  {
    if secs != [] {
      var most, last := secs[..|secs| - 1], secs[|secs| - 1];
      assert secs == most + [last];
      InsertMeaning(r, most);
    }
  }

  lemma {:induction false} DeleteMeaning(r: Redirects, secs: seq<LocalSection>)
    ensures var r' := Delete(r, secs);
      && (forall a :: a in r' <==> a in r && forall s :: s in secs ==> s.avmaStart != a)
      && (forall a :: a in r' ==> r'[a] == r[a])
    decreases |secs|
  {
    if secs != [] {
      var most, last := secs[..|secs| - 1], secs[|secs| - 1];
      assert secs == most + [last];
      DeleteMeaning(r, most);
    }
  }

  lemma AddKeepsWellPlaced(modules: ModuleMap, d: ModuleData)
    requires WellPlaced(modules) && Addable(modules, d)
    ensures WellPlaced(modules[d.avmaStart := d])
  {
    hide Placed;
    var m' := modules[d.avmaStart := d];
    assert forall k, s :: Owns(m', k, s) <==> if k == d.avmaStart then s in d.sections else Owns(modules, k, s);
  }

  lemma AddKeepsIndexed(g: Registry, d: ModuleData)
    requires Consistent(g) && Addable(g.modules, d)
    ensures Indexed(Add(g, d))
  {
    hide Placed, Insert, WellPlaced;
    var g' := Add(g, d);
    assert forall k, s :: Owns(g'.modules, k, s) <==> if k == d.avmaStart then s in d.sections else Owns(g.modules, k, s);
    InsertMeaning(g.redirects, d.sections);
    forall k, s | Owns(g'.modules, k, s)
      ensures s.avmaStart in g'.redirects && g'.redirects[s.avmaStart] == s
    {
      if k != d.avmaStart {
        assert Owns(g.modules, k, s);
        assert forall t :: t in d.sections ==> Apart(s, t);
      }
    }
    forall a | a in g'.redirects
      ensures g'.redirects[a].avmaStart == a && exists k :: Owns(g'.modules, k, g'.redirects[a])
    {
      if s :| s in d.sections && s.avmaStart == a {
        assert Owns(g'.modules, d.avmaStart, s);
      } else {
        var k :| Owns(g.modules, k, g.redirects[a]);
        assert Owns(g'.modules, k, g'.redirects[a]);
      }
    }
  }

  lemma RemoveKeepsConsistent(g: Registry, key: u64)
    requires Consistent(g)
    ensures Consistent(Remove(g, key))
  {
    if key in g.modules {
      RemoveKeepsWellPlaced(g.modules, key);
      RemoveKeepsIndexed(g, key);
    }
  }

  lemma RemoveKeepsWellPlaced(modules: ModuleMap, key: u64)
    requires WellPlaced(modules)
    ensures WellPlaced(modules - {key})
  {
    hide Placed;
    assert forall k, s :: Owns(modules - {key}, k, s) <==> k != key && Owns(modules, k, s);
  }

  lemma RemoveKeepsIndexed(g: Registry, key: u64)
    requires Consistent(g) && key in g.modules
    ensures Indexed(Remove(g, key))
  {
    hide Placed, Delete;
    var g' := Remove(g, key);
    var gone := g.modules[key].sections;
    DeleteMeaning(g.redirects, gone);
    forall k, s | Owns(g'.modules, k, s)
      ensures s.avmaStart in g'.redirects && g'.redirects[s.avmaStart] == s
    {
      assert Owns(g.modules, k, s);
      forall t | t in gone
        ensures t.avmaStart != s.avmaStart
      {
        assert Owns(g.modules, key, t);
      }
    }
    forall a | a in g'.redirects
      ensures g'.redirects[a].avmaStart == a && exists k :: Owns(g'.modules, k, g'.redirects[a])
    {
      var s := g.redirects[a];
      var k :| Owns(g.modules, k, s);
      assert s !in gone;
      assert Owns(g'.modules, k, s);
    }
  }

  // ---------------------------------------------------------------------------
  // Runs

  datatype Op = AddOp(data: ModuleData) | RemoveOp(key: u64)

  function Apply(g: Registry, op: Op): Registry {
    match op
    case AddOp(d) => Add(g, d)
    case RemoveOp(key) => Remove(g, key)
  }

  function Replay(ops: seq<Op>): Registry {
    if ops == [] then EMPTY else Apply(Replay(ops[..|ops| - 1]), ops[|ops| - 1])
  }

  /** Every addition respects what was registered at that point; removals are free. */
  ghost predicate Admissible(ops: seq<Op>) {
    ops == [] ||
      var g := Replay(ops[..|ops| - 1]);
      && Admissible(ops[..|ops| - 1])
      && (ops[|ops| - 1].AddOp? ==> Addable(g.modules, ops[|ops| - 1].data))
  }

  /** Both indices stay consistent over every admissible run of add and remove. */
  lemma {:induction false} RunsStayConsistent(ops: seq<Op>)
    requires Admissible(ops)
    ensures Consistent(Replay(ops))
  {
    hide Add, Remove, Addable, Indexed, WellPlaced;
    if ops == [] {
      EmptyIsConsistent();
    } else {
      var g, op := Replay(ops[..|ops| - 1]), ops[|ops| - 1];
      RunsStayConsistent(ops[..|ops| - 1]);
      match op {
        case AddOp(d) => AddKeepsConsistent(g, d);
        case RemoveOp(key) => RemoveKeepsConsistent(g, key);
      }
    }
  }

  lemma EmptyIsConsistent()
    ensures Consistent(EMPTY)
  {
  }

  lemma AddKeepsConsistent(g: Registry, d: ModuleData)
    requires Consistent(g) && Addable(g.modules, d)
    ensures Consistent(Add(g, d))
  {
    AddKeepsIndexed(g, d);
    AddKeepsWellPlaced(g.modules, d);
  }

  /** Removing a module just added restores the registry. */
  lemma RemoveUndoesAdd(g: Registry, d: ModuleData)
    requires Consistent(g) && Addable(g.modules, d)
    ensures Remove(Add(g, d), d.avmaStart) == g
  {
    hide Placed, Insert, Delete;
    assert Add(g, d).modules - {d.avmaStart} == g.modules;
    NewSectionsAreElsewhere(g, d);
    DeleteUndoesInsert(g.redirects, d.sections);
  }

  lemma NewSectionsAreElsewhere(g: Registry, d: ModuleData)
    requires Consistent(g) && Addable(g.modules, d)
    ensures forall t :: t in d.sections ==> t.avmaStart !in g.redirects
    ensures forall s, t :: s in d.sections && t in d.sections && s != t ==> s.avmaStart != t.avmaStart
  {
    hide Placed, RangesApart, WellPlaced;
    forall a | a in g.redirects
      ensures forall t :: t in d.sections ==> t.avmaStart != a
    {
      var k :| Owns(g.modules, k, g.redirects[a]);
      assert forall t :: t in d.sections ==> Apart(g.redirects[a], t);
    }
  }

  lemma DeleteUndoesInsert(r: Redirects, secs: seq<LocalSection>)
    requires forall t :: t in secs ==> t.avmaStart !in r
    requires forall s, t :: s in secs && t in secs && s != t ==> s.avmaStart != t.avmaStart
    ensures Delete(Insert(r, secs), secs) == r
  {
    hide Insert, Delete;
    InsertMeaning(r, secs);
    DeleteMeaning(Insert(r, secs), secs);
  }

  // ---------------------------------------------------------------------------
  // Query correctness

  predicate InRange(d: ModuleData, addr: u64) {
    d.avmaStart <= addr < d.avmaEnd
  }

  /** The 8-byte word at `addr` lies wholly inside the section. */
  predicate HoldsWord(s: LocalSection, addr: u64) {
    s.avmaStart <= addr && addr + 8 <= s.avmaStart + |s.bytes|
  }

  /** `find_module` finds a module exactly when a registered range contains the address,
      and then it is that module. */
  lemma FindModuleIsRight(g: Registry, addr: u64)
    requires Consistent(g)
    ensures FindModule(g, addr).Some? <==> exists k :: k in g.modules && InRange(g.modules[k], addr)
    ensures forall k :: k in g.modules && InRange(g.modules[k], addr) ==> FindModule(g, addr) == Some(g.modules[k])
  {
    hide Indexed, Placed, Owns, Floor;
    forall k | k in g.modules && InRange(g.modules[k], addr)
      ensures FindModule(g, addr) == Some(g.modules[k])
    {
      RangeIsFloor(g.modules, addr, k);
      FloorIs(g.modules, addr, k);
    }
  }

  lemma RangeIsFloor(modules: ModuleMap, addr: u64, k: u64)
    requires WellPlaced(modules) && k in modules && InRange(modules[k], addr)
    ensures IsFloor(modules, addr, k)
  {
    hide Placed, Owns;
    forall j | j in modules && k < j
      ensures addr < j
    {
      assert RangesApart(modules[j], modules[k]);
    }
  }

  /** `lookup_local` succeeds exactly when some registered section holds the full word, and
      then points at that word. */
  lemma LookupLocalIsRight(g: Registry, addr: u64)
    requires Consistent(g)
    ensures LookupLocal(g, addr).Some? <==> exists k, s :: Owns(g.modules, k, s) && HoldsWord(s, addr)
    ensures forall k, s :: Owns(g.modules, k, s) && HoldsWord(s, addr) ==>
              LookupLocal(g, addr) == Some(LocalPtr(s, addr - s.avmaStart))
  {
    hide Floor, RangesApart;
    forall k, s | Owns(g.modules, k, s) && HoldsWord(s, addr)
      ensures LookupLocal(g, addr) == Some(LocalPtr(s, addr - s.avmaStart))
    {
      SectionIsFloor(g, addr, k, s);
      FloorIs(g.redirects, addr, s.avmaStart);
    }
    if LookupLocal(g, addr).Some? {
      var s := LookupLocal(g, addr).value.section;
      var k :| Owns(g.modules, k, s);
      assert Placed(s);
    }
  }

  lemma SectionIsFloor(g: Registry, addr: u64, k: u64, s: LocalSection)
    requires Consistent(g) && Owns(g.modules, k, s) && HoldsWord(s, addr)
    ensures IsFloor(g.redirects, addr, s.avmaStart) && g.redirects[s.avmaStart] == s
    ensures Placed(s)
  {
    hide RangesApart;
    forall a | a in g.redirects && s.avmaStart < a
      ensures addr < a
    {
      var t := g.redirects[a];
      var j :| Owns(g.modules, j, t);
      assert Apart(s, t);
    }
  }

  /** The test of `lookup_local` on one section. */
  predicate Hit(s: LocalSection, addr: u64) {
    s.avmaStart <= addr && SatAdd(addr, 8) <= s.avmaEnd
  }

  /** Saturating ends are harmless exactly for sections that stop short of the last address:
      only then does the test accept precisely the words the section holds. */
  lemma HitIsExactIffPlaced(start: u64, bytes: seq<u8>)
    requires start + |bytes| <= TWO64
    ensures var s := SectionAt(start, bytes);
      (forall addr: u64 :: Hit(s, addr) <==> HoldsWord(s, addr)) <==> start + |bytes| < U64_MAX
  {
    var s := SectionAt(start, bytes);
    if start + |bytes| >= U64_MAX {
      assert Hit(s, U64_MAX) && !HoldsWord(s, U64_MAX);
    }
  }

  // ---------------------------------------------------------------------------
  // Adding over an existing key

  /** Over an existing key `add` replaces the module but deletes none of its redirects. On an
      otherwise respectful addition, the redirect map stays exact if and only if every section
      of the replaced module starts where a section of the new one does. */
  lemma ReplacingIsExactIffStartsCovered(g: Registry, d: ModuleData)
    requires Consistent(g) && d.avmaStart in g.modules
    requires forall s, t :: s in d.sections && t in d.sections && s != t ==> Apart(s, t)
    requires forall k, s, t :: k != d.avmaStart && Owns(g.modules, k, s) && t in d.sections ==> s != t && Apart(s, t)
    ensures Indexed(Add(g, d)) <==>
      forall s :: s in g.modules[d.avmaStart].sections ==> exists t :: t in d.sections && t.avmaStart == s.avmaStart
  {
    hide Placed, Insert, RangesApart;
    var key, g' := d.avmaStart, Add(g, d);
    var stale := g.modules[key].sections;
    InsertMeaning(g.redirects, d.sections);
    assert forall k, s :: Owns(g'.modules, k, s) <==> if k == key then s in d.sections else Owns(g.modules, k, s);
    if forall s :: s in stale ==> exists t :: t in d.sections && t.avmaStart == s.avmaStart {
      CoveredReplacementIsExact(g, d);
    } else {
      var s :| s in stale && !exists t :: t in d.sections && t.avmaStart == s.avmaStart;
      assert Owns(g.modules, key, s);
      assert g'.redirects[s.avmaStart] == s;
      assert s !in d.sections;
      assert !exists k :: Owns(g'.modules, k, s);
    }
  }

  lemma CoveredReplacementIsExact(g: Registry, d: ModuleData)
    requires Consistent(g) && d.avmaStart in g.modules
    requires forall s, t :: s in d.sections && t in d.sections && s != t ==> Apart(s, t)
    requires forall k, s, t :: k != d.avmaStart && Owns(g.modules, k, s) && t in d.sections ==> s != t && Apart(s, t)
    requires forall s :: s in g.modules[d.avmaStart].sections ==> exists t :: t in d.sections && t.avmaStart == s.avmaStart
    ensures Indexed(Add(g, d))
  {
    hide Placed, Insert, RangesApart, WellPlaced;
    var key, g' := d.avmaStart, Add(g, d);
    InsertMeaning(g.redirects, d.sections);
    forall k, s | Owns(g'.modules, k, s)
      ensures s.avmaStart in g'.redirects && g'.redirects[s.avmaStart] == s
    {
      if k != key {
        assert Owns(g.modules, k, s);
        assert forall t :: t in d.sections ==> Apart(s, t);
      }
    }
    forall a | a in g'.redirects
      ensures g'.redirects[a].avmaStart == a && exists k :: Owns(g'.modules, k, g'.redirects[a])
    {
      if s :| s in d.sections && s.avmaStart == a {
        assert Owns(g'.modules, key, s);
      } else {
        var k :| Owns(g.modules, k, g.redirects[a]);
        assert k != key;
        assert Owns(g'.modules, k, g'.redirects[a]);
      }
    }
  }

  // ---------------------------------------------------------------------------
  // Rebuilding

  /** The modules already copied when `todo` are left. */
  function Without(modules: ModuleMap, todo: set<u64>): ModuleMap {
    map k | k in modules && k !in todo :: modules[k]
  }

  lemma RebuildStep(g: Registry, copy: Registry, todo: set<u64>, k: u64)
    requires Consistent(g) && k in todo && todo <= g.modules.Keys
    requires copy.modules == Without(g.modules, todo)
    ensures Addable(copy.modules, g.modules[k])
    ensures Add(copy, g.modules[k]).modules == Without(g.modules, todo - {k})
  {
    hide Placed, RangesApart;
    var d := g.modules[k];
    assert forall j, s :: Owns(copy.modules, j, s) ==> j != k && Owns(g.modules, j, s);
    assert forall s :: s in d.sections <==> Owns(g.modules, k, s);
  }

  /** The modules determine the redirects. */
  lemma SameModulesSameRedirects(g: Registry, h: Registry)
    requires Consistent(g) && Consistent(h) && g.modules == h.modules
    ensures g == h
  {
    forall a | a in g.redirects
      ensures a in h.redirects && h.redirects[a] == g.redirects[a]
    {
      var k :| Owns(g.modules, k, g.redirects[a]);
    }
    forall a | a in h.redirects
      ensures a in g.redirects
    {
      var k :| Owns(h.modules, k, h.redirects[a]);
    }
  }

  /** `clone`: add the modules one by one, in key order. */
  function RebuildFrom(copy: Registry, modules: ModuleMap, todo: set<u64>): Registry
    requires todo <= modules.Keys
    decreases |todo|
  {
    if todo == {} then copy
    else
      var k := Least(todo);
      RebuildFrom(Add(copy, modules[k]), modules, todo - {k})
  }

  function Rebuild(modules: ModuleMap): Registry {
    RebuildFrom(EMPTY, modules, modules.Keys)
  }

  /** The last of the sections that start at `a`. */
  function LastIn(secs: seq<LocalSection>, a: u64): (r: Option<LocalSection>)
    ensures r.Some? <==> exists s :: s in secs && s.avmaStart == a
    ensures r.Some? ==> r.value.avmaStart == a
  {
    if secs == [] then None
    else
      var last := secs[|secs| - 1];
      assert forall s :: s in secs <==> s == last || s in secs[..|secs| - 1];
      if last.avmaStart == a then Some(last) else LastIn(secs[..|secs| - 1], a)
  }

  /** Some section of `d` starts at `a`. */
  predicate StartsAt(d: ModuleData, a: u64) {
    LastIn(d.sections, a).Some?
  }

  /** `k` is the last module of `keys`, in key order, with a section that starts at `a`. */
  predicate LastAt(modules: ModuleMap, keys: set<u64>, k: u64, a: u64) {
    && k in keys && k in modules && StartsAt(modules[k], a)
    && forall j :: j in keys && j in modules && StartsAt(modules[j], a) ==> j <= k
  }

  lemma {:induction false} LastInsertWins(r: Redirects, secs: seq<LocalSection>, a: u64)
    ensures var r' := Insert(r, secs);
      match LastIn(secs, a) {
        case Some(s) => a in r' && r'[a] == s
        case None => (a in r' <==> a in r) && (a in r ==> r'[a] == r[a])
      }
    decreases |secs|
  {
    if secs != [] {
      LastInsertWins(r, secs[..|secs| - 1], a);
    }
  }

  /** What is redirected at `a` once the modules `keys` were added over `base`: of several
      sections with that start the last one of the last module survives. */
  ghost predicate Survives(modules: ModuleMap, keys: set<u64>, base: Redirects, r: Redirects, a: u64) {
    if exists j :: j in keys && j in modules && StartsAt(modules[j], a)
    then a in r && exists k :: LastAt(modules, keys, k, a) && LastIn(modules[k].sections, a) == Some(r[a])
    else (a in r <==> a in base) && (a in base ==> r[a] == base[a])
  }

  lemma SurvivesStep(modules: ModuleMap, keys: set<u64>, k: u64, base: Redirects, r: Redirects, a: u64)
    requires k in keys && keys <= modules.Keys && forall j :: j in keys ==> k <= j
    requires Survives(modules, keys - {k}, Insert(base, modules[k].sections), r, a)
    ensures Survives(modules, keys, base, r, a)
  {
    hide Insert, LastIn;
    var rest := keys - {k};
    LastInsertWins(base, modules[k].sections, a);
    if j :| j in rest && j in modules && StartsAt(modules[j], a) {
      var l :| LastAt(modules, rest, l, a) && LastIn(modules[l].sections, a) == Some(r[a]);
      assert LastAt(modules, keys, l, a);
    } else if StartsAt(modules[k], a) {
      assert LastAt(modules, keys, k, a);
    }
  }

  lemma {:induction false} RebuildRedirects(copy: Registry, modules: ModuleMap, todo: set<u64>, a: u64)
    requires todo <= modules.Keys
    ensures Survives(modules, todo, copy.redirects, RebuildFrom(copy, modules, todo).redirects, a)
    decreases |todo|
  {
    hide Insert;
    if todo != {} {
      var k := Least(todo);
      RebuildRedirects(Add(copy, modules[k]), modules, todo - {k}, a);
      hide Survives;
      SurvivesStep(modules, todo, k, copy.redirects, RebuildFrom(copy, modules, todo).redirects, a);
    }
  }

  lemma {:induction false} RebuildModules(copy: Registry, modules: ModuleMap, todo: set<u64>)
    requires todo <= modules.Keys && forall k :: k in todo ==> modules[k].avmaStart == k
    ensures RebuildFrom(copy, modules, todo).modules == copy.modules + (map k | k in todo :: modules[k])
    decreases |todo|
  {
    hide Insert;
    if todo != {} {
      RebuildModules(Add(copy, modules[Least(todo)]), modules, todo - {Least(todo)});
    }
  }

  /** Every mirrored section is indexed by its start, and every redirect is the last section
      there of the last module, in key order, that has one. */
  ghost predicate LastIndexed(g: Registry) {
    && (forall k, s :: Owns(g.modules, k, s) ==> s.avmaStart in g.redirects)
    && (forall a :: a in g.redirects ==>
          exists k :: LastAt(g.modules, g.modules.Keys, k, a) && LastIn(g.modules[k].sections, a) == Some(g.redirects[a]))
  }

  /** For any registry that keeps each module under its start, consistent or not: a clone is
      equal to it exactly when it is indexed by last sections. */
  lemma CloneIsEqualIff(g: Registry)
    requires forall k :: k in g.modules ==> g.modules[k].avmaStart == k
    ensures Rebuild(g.modules) == g <==> LastIndexed(g)
  {
    hide RebuildFrom, LastAt, StartsAt, Survives, LastIn;
    var copy := Rebuild(g.modules);
    RebuildModules(EMPTY, g.modules, g.modules.Keys);
    assert copy.modules == g.modules;
    forall a: u64
      ensures Survives(g.modules, g.modules.Keys, map[], copy.redirects, a)
    {
      RebuildRedirects(EMPTY, g.modules, g.modules.Keys, a);
    }
    CopyIsLastIndexed(copy);
    if LastIndexed(g) {
      LastIndexedIsUnique(g, copy);
    }
  }

  lemma CopyIsLastIndexed(copy: Registry)
    requires forall a: u64 :: Survives(copy.modules, copy.modules.Keys, map[], copy.redirects, a)
    ensures LastIndexed(copy)
  {
    forall k, s | Owns(copy.modules, k, s)
      ensures s.avmaStart in copy.redirects
    {
      assert StartsAt(copy.modules[k], s.avmaStart);
      assert Survives(copy.modules, copy.modules.Keys, map[], copy.redirects, s.avmaStart);
    }
    forall a | a in copy.redirects
      ensures exists k :: LastAt(copy.modules, copy.modules.Keys, k, a) && LastIn(copy.modules[k].sections, a) == Some(copy.redirects[a])
    {
      assert Survives(copy.modules, copy.modules.Keys, map[], copy.redirects, a);
    }
  }

  lemma LastIndexedIsUnique(g: Registry, h: Registry)
    requires g.modules == h.modules && LastIndexed(g) && LastIndexed(h)
    ensures g == h
  {
    forall a | a in g.redirects
      ensures a in h.redirects && h.redirects[a] == g.redirects[a]
    {
      StartsAreIndexed(g, h, a);
    }
    forall a | a in h.redirects
      ensures a in g.redirects
    {
      StartsAreIndexed(h, g, a);
    }
  }

  lemma StartsAreIndexed(g: Registry, h: Registry, a: u64)
    requires g.modules == h.modules && LastIndexed(g) && LastIndexed(h) && a in g.redirects
    ensures a in h.redirects && h.redirects[a] == g.redirects[a]
  {
    var k :| LastAt(g.modules, g.modules.Keys, k, a) && LastIn(g.modules[k].sections, a) == Some(g.redirects[a]);
    var s :| s in g.modules[k].sections && s.avmaStart == a;
    assert Owns(h.modules, k, s);
    var l :| LastAt(h.modules, h.modules.Keys, l, a) && LastIn(h.modules[l].sections, a) == Some(h.redirects[a]);
    assert k == l;
  }
}
