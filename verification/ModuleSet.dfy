/** `ModuleSet`: the registry as the object the unwinders own. */
module ModuleSets {
  import opened Words
  import opened OrderedMap
  import opened FunctionCache
  import opened Modules
  import R = ModuleRegistry

  class ModuleSet {
    var modules: R.ModuleMap
    var redirects: R.Redirects

    ghost function Value(): R.Registry
      reads this
    {
      R.Registry(modules, redirects)
    }

    constructor ()
      ensures Value() == R.EMPTY
    {
      modules, redirects := map[], map[];
    }

    method Add(data: ModuleData)
      modifies this
      ensures Value() == R.Add(old(Value()), data)
      ensures R.Consistent(old(Value())) && R.Addable(old(modules), data) ==> R.Consistent(Value())
      // The module is under its start, and its sections are redirected, the last one first.
      ensures modules == old(modules)[data.avmaStart := data]
      ensures forall a :: a in redirects <==> R.StartsAt(data, a) || a in old(redirects)
      ensures forall a :: a in redirects ==>
                redirects[a] == if R.StartsAt(data, a) then R.LastIn(data.sections, a).value else old(redirects)[a]
    {
      hide R.Consistent, R.Addable, R.LastIn;
      ghost var before := Value();
      forall a: u64
        ensures var r' := R.Insert(before.redirects, data.sections);
          && (a in r' <==> R.StartsAt(data, a) || a in before.redirects)
          && (a in r' ==> r'[a] == if R.StartsAt(data, a) then R.LastIn(data.sections, a).value else before.redirects[a])
      {
        R.LastInsertWins(before.redirects, data.sections, a);
      }
      for i := 0 to |data.sections|
        invariant modules == before.modules
        invariant redirects == R.Insert(before.redirects, data.sections[..i])
      {
        var sec := data.sections[i];
        assert data.sections[..i + 1][..i] == data.sections[..i];
        redirects := redirects[sec.avmaStart := sec];
      }
      assert data.sections[..|data.sections|] == data.sections;
      modules := modules[data.avmaStart := data];
      if R.Consistent(before) && R.Addable(before.modules, data) {
        R.AddKeepsConsistent(before, data);
      }
    }

    method Remove(avmaStart: u64)
      modifies this
      ensures Value() == R.Remove(old(Value()), avmaStart)
      ensures R.Consistent(old(Value())) ==> R.Consistent(Value())
      // An absent key changes nothing; otherwise the module goes, and every redirect that starts
      // where one of its sections does.
      ensures avmaStart !in old(modules) ==> Value() == old(Value())
      ensures modules == old(modules) - {avmaStart}
      ensures avmaStart in old(modules) ==>
                && (forall a :: a in redirects <==> a in old(redirects) && forall s :: s in old(modules)[avmaStart].sections ==> s.avmaStart != a)
                && forall a :: a in redirects ==> redirects[a] == old(redirects)[a]
    {
      hide R.Consistent;
      ghost var before := Value();
      if avmaStart in modules {
        R.DeleteMeaning(redirects, modules[avmaStart].sections);
      }
      if avmaStart in modules {
        var data := modules[avmaStart];
        modules := modules - {avmaStart};
        for i := 0 to |data.sections|
          invariant modules == before.modules - {avmaStart}
          invariant redirects == R.Delete(before.redirects, data.sections[..i])
        {
          assert data.sections[..i + 1][..i] == data.sections[..i];
          redirects := redirects - {data.sections[i].avmaStart};
        }
        assert data.sections[..|data.sections|] == data.sections;
      }
      if R.Consistent(before) {
        R.RemoveKeepsConsistent(before, avmaStart);
      }
    }

    /** 0 when nothing is registered, otherwise the greatest range end. */
    method MaxKnownCodeAddress() returns (max: u64)
      ensures forall k :: k in modules ==> modules[k].avmaEnd <= max
      ensures max == 0 || exists k :: k in modules && modules[k].avmaEnd == max
    {
      max := 0;
      var todo := modules.Keys;
      while todo != {}
        invariant todo <= modules.Keys
        invariant forall k :: k in modules && k !in todo ==> modules[k].avmaEnd <= max
        invariant max == 0 || exists k :: k in modules && modules[k].avmaEnd == max
        decreases |todo|
      {
        var k :| k in todo;
        if max < modules[k].avmaEnd {
          max := modules[k].avmaEnd;
        }
        todo := todo - {k};
      }
    }

    method FindModule(addr: u64) returns (r: Option<ModuleData>)
      ensures r == R.FindModule(Value(), addr)
      ensures R.Consistent(Value()) ==>
                (r.Some? <==> exists k :: k in modules && R.InRange(modules[k], addr))
    {
      hide R.Consistent, Floor;
      var floor := Floor(modules, addr);
      if floor.None? {
        r := None;
      } else {
        var data := modules[floor.value];
        r := if data.avmaStart <= addr < data.avmaEnd then Some(data) else None;
      }
      if R.Consistent(Value()) {
        R.FindModuleIsRight(Value(), addr);
      }
    }

    /** Whether unwind tables, rather than the frame-pointer fallback, serve `addr`. */
    method HasUnwindInfo(addr: u64) returns (b: bool)
      ensures b <==> match R.FindModule(Value(), addr) {
                       case Some(d) => d.image.table.count != 0 && d.image.hdr.Some? && d.image.eh.Some?
                       case None => false
                     }
    {
      var r := FindModule(addr);
      b := r.Some? && r.value.image.table.count != 0 && r.value.image.hdr.Some? && r.value.image.eh.Some?;
    }

    /** Reads the cache of the module at `addr`; it never parses. */
    method IsSignalFrame(addr: u64) returns (b: bool)
      ensures b <==> match R.FindModule(Value(), addr) {
                       case Some(d) => SignalQuery(d.cache, addr)
                       case None => false
                     }
    {
      hide Floor, R.FindModule;
      var r := FindModule(addr);
      if r.None? {
        return false;
      }
      var cache := r.value.cache;
      var floor := Floor(cache, addr);
      b := floor.Some? && addr < cache[floor.value].endIp && cache[floor.value].signalFrame;
    }

    method LookupLocal(addr: u64) returns (r: Option<R.LocalPtr>)
      ensures r == R.LookupLocal(Value(), addr)
    {
      hide Floor;
      var floor := Floor(redirects, addr);
      if floor.None? {
        return None;
      }
      var sec := redirects[floor.value];
      r := if sec.avmaStart <= addr && SatAdd(addr, 8) <= sec.avmaEnd
           then Some(R.LocalPtr(sec, addr - sec.avmaStart)) else None;
    }

    /** Rebuild by adding the modules one by one, in key order. */
    method Clone() returns (copy: ModuleSet)
      ensures fresh(copy)
      ensures copy.Value() == R.Rebuild(modules)
      ensures R.Consistent(Value()) ==> copy.Value() == Value()
    {
      hide R.Consistent, R.Addable, R.Add;
      copy := new ModuleSet();
      ghost var source := Value();
      var todo := modules.Keys;
      if R.Consistent(source) {
        R.EmptyIsConsistent();
      }
      while todo != {}
        invariant fresh(copy) && todo <= modules.Keys
        invariant R.RebuildFrom(copy.Value(), modules, todo) == R.Rebuild(modules)
        invariant R.Consistent(source) ==>
                    copy.modules == R.Without(modules, todo) && R.Consistent(copy.Value())
        decreases |todo|
      {
        var k := Least(todo);
        if R.Consistent(source) {
          R.RebuildStep(source, copy.Value(), todo, k);
        }
        copy.Add(modules[k]);
        todo := todo - {k};
      }
      if R.Consistent(source) {
        R.SameModulesSameRedirects(source, copy.Value());
      }
    }
  }

  /** Adding a module without sections over one that had a mirror: the old mirror stays. */
  method ReplacementLeavesStaleRedirect() returns (registry: ModuleSet)
    ensures fresh(registry) && !R.Indexed(registry.Value())
  {
    registry := new ModuleSet();
    var bare := Parts(0x1000, 0x2000, 0, 0, None, None, None, None, None);
    var first := new ModuleData(bare.(ehSvma := Some(0x3000), eh := Some([0])));
    var second := new ModuleData(bare);
    registry.Add(first);
    registry.Add(second);
    assert second.sections == [];
    var stale := SectionAt(0x3000, [0]);
    assert first.sections == [stale];
    assert registry.redirects == R.Insert(R.Insert(map[], [stale]), []);
    assert R.Insert(map[], [stale][..0]) == map[];
    assert registry.redirects[0x3000] == stale;
    assert registry.modules == map[0x1000 := second];
  }
}
