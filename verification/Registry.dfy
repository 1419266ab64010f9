/** Interposition on the registered tools: src/harness/mediation/boundary.py, the recorder installer of
    src/harness/effect_ledger.py, and the order src/harness/runner.py installs the two in. */
module Registry {
  import opened Wrappers
  import opened Closures

  class Tool {
    const name: string
    var fn: Fn

    constructor (name: string, fn: Fn)
      ensures this.name == name && this.fn == fn
    {
      this.name := name;
      this.fn := fn;
    }
  }

  /** Idempotent: a tool whose function carries the marker is left alone. */
  method WrapTool(tool: Tool)
    modifies tool`fn
    ensures tool.fn == MediateOnce(tool.name, old(tool.fn))
  {
    var original := tool.fn;
    if original.Mediated? {
      return;
    }
    tool.fn := Mediated(tool.name, original);
  }

  method WrapWithRecorder(tool: Tool)
    modifies tool`fn
    ensures tool.fn == RecordOnce(tool.name, old(tool.fn))
  {
    var original := tool.fn;
    if original.Recorded? {
      return;
    }
    tool.fn := Recorded(tool.name, original);
  }

  datatype RegistryError = NotATool

  /** The dict that wraps every tool on insertion. */
  class MediatingToolRegistry {
    var tools: map<string, Tool>

    constructor ()
      ensures tools == map[]
    {
      tools := map[];
    }

    /** No stored tool can be called around the boundary. */
    ghost predicate AllMediated()
      reads this, tools.Values
    {
      forall k :: k in tools ==> tools[k].fn.Mediated?
    }

    /** Every call of a stored tool passes the boundary once and only once. */
    ghost predicate AllMediatedOnce()
      reads this, tools.Values
    {
      forall k :: k in tools ==> tools[k].fn.Mediated? && MediationDepth(tools[k].fn) == 1
    }

    method SetItem(name: string, tool: Tool)
      modifies this, tool`fn
      ensures tools == old(tools)[name := tool]
      ensures tool.fn == MediateOnce(tool.name, old(tool.fn))
      ensures old(AllMediated()) ==> AllMediated()
      ensures old(AllMediatedOnce()) && WrapsToDepthOne(old(tool.fn)) ==> AllMediatedOnce()
    {
      MediateOnceDepth(tool.name, tool.fn);
      Store(name, tool);
    }

    method Store(name: string, tool: Tool)
      modifies this, tool`fn
      ensures tools == old(tools)[name := tool]
      ensures tool.fn == MediateOnce(tool.name, old(tool.fn))
    {
      WrapTool(tool);
      tools := tools[name := tool];
    }

    /** `items` are the pairs of the dict that Python builds from the arguments. */
    method Update(items: seq<(string, Tool)>)
      modifies this, ToolsOf(items)`fn
      ensures tools == old(tools) + Entries(items)
      ensures forall t :: t in ToolsOf(items) ==> t.fn == MediateOnce(t.name, old(t.fn))
      ensures old(AllMediated()) ==> AllMediated()
      ensures old(AllMediatedOnce()) && (forall t :: t in ToolsOf(items) ==> WrapsToDepthOne(old(t.fn))) ==>
        AllMediatedOnce()
    {
      InsertEach(items);
      ghost var was := map t | t in old(tools.Values) + ToolsOf(items) :: old(t.fn);
      WrappedEntries(old(tools), items, was);
    }

    method InsertEach(items: seq<(string, Tool)>)
      modifies this, ToolsOf(items)`fn
      ensures tools == old(tools) + Entries(items)
      ensures forall t :: t in ToolsOf(items) ==> t.fn == MediateOnce(t.name, old(t.fn))
    {
      var n := 0;
      while n < |items|
        invariant 0 <= n <= |items|
        invariant tools == old(tools) + Entries(items[..n])
        invariant forall t :: t in ToolsOf(items) ==>
          t.fn == if t in ToolsOf(items[..n]) then MediateOnce(t.name, old(t.fn)) else old(t.fn)
      {
        var item := items[n];
        assert item in items && item.1 in ToolsOf(items);
        assert items[..n + 1] == items[..n] + [item];
        MergeAppend(old(tools), items[..n], item);
        Store(item.0, item.1);
        assert ToolsOf(items[..n + 1]) == ToolsOf(items[..n]) + {item.1};
        n := n + 1;
      }
      assert items[..n] == items;
    }

    /** Wrapping every inserted tool is enough, whichever names they were inserted under; `was` holds
        the functions from before the insertion. */
    lemma WrappedEntries(before: map<string, Tool>, items: seq<(string, Tool)>, was: map<Tool, Fn>)
      requires tools == before + Entries(items)
      requires before.Values + ToolsOf(items) <= was.Keys
      requires forall t :: t in ToolsOf(items) ==> t.fn == MediateOnce(t.name, was[t])
      requires forall t :: t in before.Values && t !in ToolsOf(items) ==> t.fn == was[t]
      ensures (forall t :: t in before.Values ==> was[t].Mediated?) ==> AllMediated()
      ensures
        (forall t :: t in before.Values ==> was[t].Mediated?) && (forall t :: t in was ==> WrapsToDepthOne(was[t]))
        ==> AllMediatedOnce()
    {
      forall k | k in tools
        ensures tools[k] in ToolsOf(items) || tools[k] in before.Values
        ensures MediationDepth(MediateOnce(tools[k].name, was[tools[k]])) == 1 <==> WrapsToDepthOne(was[tools[k]])
      {
        if k in Entries(items) {
          EntriesValue(items, k);
        } else {
          assert tools[k] == before[k];
        }
        MediateOnceDepth(tools[k].name, was[tools[k]]);
      }
    }

    /** `None` as default for an absent name reaches the wrapper, which fails on it. */
    method SetDefault(name: string, default: Tool?) returns (r: Result<Tool, RegistryError>)
      modifies this, (if default == null then {} else {default})`fn
      ensures r.Success? <==> name in old(tools) || default != null
      ensures r.Failure? || name in old(tools) ==>
        tools == old(tools) && (default == null || default.fn == old(default.fn))
      ensures name in old(tools) ==> r == Success(old(tools)[name])
      ensures name !in old(tools) && default != null ==>
        r == Success(default) && tools == old(tools)[name := default]
        && default.fn == MediateOnce(default.name, old(default.fn))
      ensures old(AllMediated()) ==> AllMediated()
      ensures old(AllMediatedOnce()) && (default == null || WrapsToDepthOne(old(default.fn))) ==> AllMediatedOnce()
    {
      if name !in tools {
        if default == null {
          return Failure(NotATool);
        }
        SetItem(name, default);
      }
      return Success(tools[name]);
    }
  }

  /** The dict holding the given pairs, later pairs winning. */
  function Entries(items: seq<(string, Tool)>): map<string, Tool> {
    if items == [] then map[]
    else map[items[0].0 := items[0].1] + Entries(items[1..])
  }

  lemma {:induction false} EntriesAppend(items: seq<(string, Tool)>, last: (string, Tool))
    ensures Entries(items + [last]) == Entries(items)[last.0 := last.1]
  {
    if items == [] {
      assert (items + [last])[1..] == [];
    } else {
      assert (items + [last])[1..] == items[1..] + [last];
      EntriesAppend(items[1..], last);
    }
  }

  lemma MergeAppend(before: map<string, Tool>, items: seq<(string, Tool)>, last: (string, Tool))
    ensures before + Entries(items + [last]) == (before + Entries(items))[last.0 := last.1]
  {
    EntriesAppend(items, last);
  }

  function ToolsOf(items: seq<(string, Tool)>): set<Tool> {
    set item | item in items :: item.1
  }

  lemma {:induction false} EntriesValue(items: seq<(string, Tool)>, k: string)
    requires k in Entries(items)
    ensures Entries(items)[k] in ToolsOf(items)
  {
    if k in Entries(items[1..]) {
      EntriesValue(items[1..], k);
      assert forall item :: item in items[1..] ==> item in items;
    } else {
      assert items[0] in items;
    }
  }

  /** Wrap every tool registered so far; the visiting order of the dict does not matter. */
  method InstallIngressRecorder(tools: map<string, Tool>)
    modifies tools.Values`fn
    ensures forall t :: t in tools.Values ==> t.fn == RecordOnce(t.name, old(t.fn))
  {
    var rest := tools.Keys;
    while rest != {}
      invariant rest <= tools.Keys
      invariant forall k :: k in tools && k !in rest ==> tools[k].fn == RecordOnce(tools[k].name, old(tools[k].fn))
      invariant forall t :: t in tools.Values ==> t.fn == old(t.fn) || t.fn == RecordOnce(t.name, old(t.fn))
      modifies tools.Values`fn
    {
      var k :| k in rest;
      assert tools[k] in tools.Values;
      WrapWithRecorder(tools[k]);
      rest := rest - {k};
    }
  }

  /** Wrap every tool registered so far, and hand back the registry that wraps the later ones. */
  method InstallBoundary(tools: map<string, Tool>) returns (registry: MediatingToolRegistry)
    modifies tools.Values`fn
    ensures fresh(registry) && registry.tools == tools
    ensures forall t :: t in tools.Values ==> t.fn == MediateOnce(t.name, old(t.fn))
    ensures registry.AllMediated()
    ensures (forall t :: t in tools.Values ==> WrapsToDepthOne(old(t.fn))) ==> registry.AllMediatedOnce()
  {
    registry := new MediatingToolRegistry();
    var rest := tools.Keys;
    while rest != {}
      invariant rest <= tools.Keys
      invariant registry.tools == map k | k in tools && k !in rest :: tools[k]
      invariant forall k :: k in tools && k !in rest ==> tools[k].fn == MediateOnce(tools[k].name, old(tools[k].fn))
      invariant forall t :: t in tools.Values ==> t.fn == old(t.fn) || t.fn == MediateOnce(t.name, old(t.fn))
      modifies registry, tools.Values`fn
    {
      var k :| k in rest;
      assert tools[k] in tools.Values;
      registry.Store(k, tools[k]);
      rest := rest - {k};
    }
    assert registry.tools == tools;
    forall t | t in tools.Values
      ensures t.fn == MediateOnce(t.name, old(t.fn))
    {
      MediateOnceDepth(t.name, old(t.fn));
    }
    forall k | k in tools
      ensures tools[k].fn.Mediated?
      ensures WrapsToDepthOne(old(tools[k].fn)) ==> MediationDepth(tools[k].fn) == 1
    {
      MediateOnceDepth(tools[k].name, old(tools[k].fn));
    }
  }

  /** The wiring part of `run_scenario`: the recorder only on a ledger-backed run, the boundary last. */
  method WireRun(tools: map<string, Tool>, ledgerBacked: bool) returns (registry: MediatingToolRegistry)
    modifies tools.Values`fn
    ensures fresh(registry) && registry.tools == tools && registry.AllMediated()
    ensures forall t :: t in tools.Values && old(t.fn).Body? ==>
      t.fn == Mediated(t.name, if ledgerBacked then Recorded(t.name, old(t.fn)) else old(t.fn))
    ensures (forall t :: t in tools.Values ==> old(t.fn).Body?) ==> registry.AllMediatedOnce()
    ensures ledgerBacked && (forall t :: t in tools.Values ==> old(t.fn).Body?) ==>
      forall k :: k in registry.tools ==> WellWired(registry.tools[k].fn)
  {
    if ledgerBacked {
      InstallIngressRecorder(tools);
    }
    assert (forall t :: t in tools.Values ==> old(t.fn).Body?) ==>
      forall t :: t in tools.Values ==> MediationDepth(t.fn) == 0;
    registry := InstallBoundary(tools);
  }
}
