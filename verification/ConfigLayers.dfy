/** Layers of configuration overrides in which the adapter name and its PnP id count as
    one value. */
module ConfigLayers {

  import opened AdapterKeys
  import opened Ascii

  type Vars = map<string, string>

  datatype Pair = Pair(name: string, pnpId: string)

  /** The adapter a configuration selects; without a name there is no PnP id either. */
  function AdapterOf(vars: Vars): Pair {
    var name := if NAME in vars then vars[NAME] else "";
    Pair(name, if name != "" && PNP in vars then vars[PNP] else "")
  }

  /** Overriding replaces every key but the PnP id, which follows the adapter name. */
  function Merge(base: Vars, overrides: Vars): Vars {
    var merged := base + (overrides - {PNP});
    if NAME !in overrides then merged
    else if overrides[NAME] == "" || PNP !in overrides || overrides[PNP] == "" then merged - {PNP}
    else merged[PNP := overrides[PNP]]
  }

  /** A configuration that overrides are merged into in place. */
  class ConfigVars {
    var vars: Vars

    constructor (vars: Vars)
      ensures this.vars == vars
    {
      this.vars := vars;
    }

    method MergeConfigOverrides(overrides: Vars)
      modifies this
      ensures vars == Merge(old(vars), overrides)
    {
      var todo := overrides.Keys;
      while todo != {}
        invariant todo <= overrides.Keys
        invariant vars == old(vars) + (overrides - {PNP} - todo)
        decreases todo
      {
        var k :| k in todo;
        assert overrides - {PNP} - (todo - {k})
            == if k == PNP then overrides - {PNP} - todo else (overrides - {PNP} - todo)[k := overrides[k]];
        if k != PNP {
          vars := vars[k := overrides[k]];
        }
        todo := todo - {k};
      }
      assert overrides - {PNP} - todo == overrides - {PNP};
      if NAME !in overrides {
        return;
      }
      if overrides[NAME] == "" {
        vars := vars - {PNP};
        return;
      }
      if PNP !in overrides || overrides[PNP] == "" {
        vars := vars - {PNP};
        return;
      }
      vars := vars[PNP := overrides[PNP]];
    }
  }

  /** Layers may be combined in any grouping. */
  lemma MergeIsAssociative(a: Vars, b: Vars, c: Vars)
    ensures Merge(Merge(a, b), c) == Merge(a, Merge(b, c))
  {
    forall k
      ensures k in Merge(Merge(a, b), c) <==> k in Merge(a, Merge(b, c))
      ensures k in Merge(Merge(a, b), c) ==> Merge(Merge(a, b), c)[k] == Merge(a, Merge(b, c))[k]
    {
      if k != PNP { assert k in Merge(b, c) <==> k in b || k in c; }
    }
  }

  /** All layers merged onto a base, lowest first. */
  function MergeAll(base: Vars, layers: seq<Vars>): Vars {
    if layers == [] then base else Merge(MergeAll(base, layers[..|layers| - 1]), layers[|layers| - 1])
  }

  /** The topmost layer that names an adapter decides; if none does, the base. */
  function Topmost(base: Vars, layers: seq<Vars>): Vars {
    if layers == [] then base
    else if NAME in layers[|layers| - 1] then layers[|layers| - 1]
    else Topmost(base, layers[..|layers| - 1])
  }

  /** Over any stack of layers the effective adapter comes whole from one place, never the
      name from one layer and the PnP id from another. */
  lemma {:induction false} AdapterComesWhole(base: Vars, layers: seq<Vars>)
    ensures AdapterOf(MergeAll(base, layers)) == AdapterOf(Topmost(base, layers))
  {
    if layers != [] {
      AdapterComesWhole(base, layers[..|layers| - 1]);
    }
  }

  /** Any other key has the value of the topmost layer that sets it. */
  function TopmostValue(base: Vars, layers: seq<Vars>, k: string): Vars {
    if layers == [] then base
    else if k in layers[|layers| - 1] then layers[|layers| - 1]
    else TopmostValue(base, layers[..|layers| - 1], k)
  }

  lemma {:induction false} OtherKeysComeFromTopmost(base: Vars, layers: seq<Vars>, k: string)
    requires k != PNP
    ensures var from := TopmostValue(base, layers, k);
            && (k in MergeAll(base, layers) <==> k in from)
            && (k in from ==> MergeAll(base, layers)[k] == from[k])
  {
    if layers != [] { OtherKeysComeFromTopmost(base, layers[..|layers| - 1], k); }
  }

  /** The pairs remembered for compatibility decisions. */
  class AdapterSnapshot {
    var base: Pair
    var active: Pair
    var baseValid: bool
    var activeValid: bool
    ghost var baseVars: Vars

    ghost predicate Valid()
      reads this
    {
      baseValid ==> base == AdapterOf(baseVars)
    }

    constructor ()
      ensures Valid() && !baseValid && !activeValid
    {
      base, active, baseValid, activeValid, baseVars := Pair("", ""), Pair("", ""), false, false, map[];
    }

    method UpdateBase(vars: Vars)
      requires Valid()
      modifies this`base, this`baseValid, this`baseVars
      ensures Valid() && baseValid && baseVars == vars
    {
      base, baseValid, baseVars := AdapterOf(vars), true, vars;
    }

    method RecordActive(name: string, pnpId: string)
      requires Valid()
      modifies this`active, this`activeValid
      ensures Valid() && activeValid && active == Pair(name, pnpId)
    {
      active, activeValid := Pair(name, pnpId), true;
    }

    /** Decides without merging what merging the request onto the base would select. */
    method CompatibleWithActive(requested: Vars) returns (ok: bool)
      requires Valid()
      ensures ok <==>
              && activeValid && baseValid
              && AdapterOf(Merge(baseVars, requested)).name == active.name
              && IEquals(AdapterOf(Merge(baseVars, requested)).pnpId, active.pnpId)
    {
      if !activeValid || !baseValid {
        return false;
      }
      var adapter := Pair("", "");
      if NAME in requested {
        adapter := adapter.(name := requested[NAME]);
        if adapter.name != "" && PNP in requested {
          adapter := adapter.(pnpId := requested[PNP]);
        }
      } else {
        adapter := base;
      }
      assert adapter == AdapterOf(Merge(baseVars, requested));
      return adapter.name == active.name && IEquals(adapter.pnpId, active.pnpId);
    }
  }

  /** The adapter of a configuration, key by key. */
  lemma AdapterMeans(vars: Vars)
    ensures var a := AdapterOf(vars);
            && a.name == (if "adapter_name" in vars then vars["adapter_name"] else "")
            && (a.name == "" || "adapter_pnp_id" !in vars ==> a.pnpId == "")
            && (a.name != "" && "adapter_pnp_id" in vars ==> a.pnpId == vars["adapter_pnp_id"])
  {
  }

  /** The PnP id after one layer: untouched where the layer names no adapter, else the layer's own
      if it has one and its name is not empty. */
  lemma MergedPnpId(base: Vars, overrides: Vars)
    ensures var merged := Merge(base, overrides);
            if "adapter_name" !in overrides then
              && ("adapter_pnp_id" in merged <==> "adapter_pnp_id" in base)
              && ("adapter_pnp_id" in base ==> merged["adapter_pnp_id"] == base["adapter_pnp_id"])
            else
              && ("adapter_pnp_id" in merged <==>
                  overrides["adapter_name"] != "" && "adapter_pnp_id" in overrides && overrides["adapter_pnp_id"] != "")
              && ("adapter_pnp_id" in merged ==> merged["adapter_pnp_id"] == overrides["adapter_pnp_id"])
  {
  }
}
