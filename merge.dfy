/** Merging a global and a local configuration (`deepMergeConfig` in
    packages/core/src/config.ts, over the utility library's `deepMerge`). */
module Merge {
  import opened Values

  /** One property of the library merge: plain objects on both sides merge
      recursively, otherwise a defined local value replaces the global one. */
  function MergeValue(g: Value, l: Value): (r: Value)
    decreases g, 1
    ensures l.Obj? && !g.Obj? ==> r == l
    ensures !l.Obj? && l != Undefined ==> r == l
    ensures l == Undefined ==> r == g
    // two plain objects merge recursively
    ensures g.Obj? && l.Obj? ==> r == Obj(DeepMerge(g.fields, l.fields))
  {
    if g.Obj? && l.Obj? then Obj(DeepMerge(g.fields, l.fields))
    else if l != Undefined then l
    else g
  }

  /** The utility library's `deepMerge`, whose source is not part of this model,
      specified as a recursive merge of plain objects in which a defined local
      value wins. */
  function DeepMerge(g: Record, l: Record): (r: Record)
    decreases Obj(g), 0
    ensures r.Keys == g.Keys + l.Keys
    ensures forall k :: k in l && l[k] != Undefined && !(k in g && g[k].Obj? && l[k].Obj?) ==> r[k] == l[k]
    ensures forall k :: k in l && k !in g ==> r[k] == l[k]
    ensures forall k :: k in g && (k !in l || l[k] == Undefined) ==> r[k] == g[k]
    ensures forall k :: k in g && k in l && g[k].Obj? && l[k].Obj? ==>
      r[k].Obj? && r[k].fields.Keys == g[k].fields.Keys + l[k].fields.Keys
    ensures forall k :: k in g && k in l && g[k].Obj? && l[k].Obj? ==>
      r[k] == Obj(DeepMerge(g[k].fields, l[k].fields))
  {
    map k | k in g.Keys + l.Keys :: if k in g then MergeValue(g[k], Get(l, k)) else l[k]
  }

  /** What a truthy `props` contributes to the shallow overlay; a falsy one
      contributes nothing. */
  function PropsPart(p: Value): (part: Record)
  {
    if Truthy(p) then Spread(p) else map[]
  }

  /** `deepMergeConfig(globalConfig, localConfig)`: every field except `props`
      goes through the library merge; when either side has a truthy `props`,
      the result's `props` is a shallow overlay of the global one by the local
      one, whose values are carried over as they are. */
  function DeepMergeConfig(g: Record, l: Record): (r: Record)
    // every field but `props` is exactly what the library merge gives
    ensures forall k :: k != "props" ==> (k in r <==> k in g || k in l)
    ensures forall k :: k != "props" && k in r ==> r[k] == DeepMerge(g, l)[k]
  {
    var gp := Get(g, "props");
    var lp := Get(l, "props");
    var split := Truthy(gp) || Truthy(lp);
    var g' := if split then g - {"props"} else g;
    var l' := if split then l - {"props"} else l;
    var merged := DeepMerge(g', l');
    var withGlobal := if Truthy(gp) then merged["props" := Obj(Spread(gp))] else merged;
    if Truthy(lp) then
      var prior := Get(withGlobal, "props");
      withGlobal["props" := Obj(Spread(if Truthy(prior) then prior else Obj(map[])) + Spread(lp))]
    else
      withGlobal
  }

  /** When either side has a truthy `props`, the result's `props` holds the
      keys of both, the local value winning, each value carried over as it
      is (no deeper merge). */
  lemma {:induction false} PropsShallowOverlay(g: Record, l: Record)
    requires Truthy(Get(g, "props")) || Truthy(Get(l, "props"))
    ensures var r := DeepMergeConfig(g, l);
            var gp := PropsPart(Get(g, "props"));
            var lp := PropsPart(Get(l, "props"));
            && "props" in r && r["props"].Obj?
            && (forall key :: key in r["props"].fields <==> key in gp || key in lp)
            && (forall key :: key in lp ==> r["props"].fields[key] == lp[key])
            && (forall key :: key in gp && key !in lp ==> r["props"].fields[key] == gp[key])
  {
  }

  /** With no truthy `props` on either side, `props` is an ordinary field: in
      particular, when neither side has one, the result has none. */
  lemma {:induction false} PropsOrdinaryWhenFalsy(g: Record, l: Record)
    requires !Truthy(Get(g, "props")) && !Truthy(Get(l, "props"))
    ensures var r := DeepMergeConfig(g, l);
            && ("props" in r <==> "props" in g || "props" in l)
            && ("props" in r ==> r["props"] == DeepMerge(g, l)["props"])
  {
  }

  /** `deepMergeConfig` on two live objects, step by step. What this method
      adds to `DeepMergeConfig` is its frame: it has no `modifies` clause, so
      deleting `props` from the shallow copies provably leaves the caller's
      objects as they were. */
  method MergeConfigObjects(global: ConfigObject, local: ConfigObject) returns (r: Record)
    ensures r == DeepMergeConfig(global.fields, local.fields)
  {
    var globalProps := Get(global.fields, "props");
    var localProps := Get(local.fields, "props");
    var globalCopy := global.fields;
    var localCopy := local.fields;
    if Truthy(globalProps) || Truthy(localProps) {
      globalCopy := globalCopy - {"props"};
      localCopy := localCopy - {"props"};
    }
    r := DeepMerge(globalCopy, localCopy);
    if Truthy(globalProps) {
      r := r["props" := Obj(Spread(globalProps))];
    }
    if Truthy(localProps) {
      var prior := Get(r, "props");
      r := r["props" := Obj(Spread(if Truthy(prior) then prior else Obj(map[])) + Spread(localProps))];
    }
  }
}
