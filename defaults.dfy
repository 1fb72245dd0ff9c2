/** `createDefaultOptions` (packages/core/src/config.ts): the baseline global
    configuration of a host, with a variant for nested hosts. */
module Defaults {
  import opened Values
  import opened AppConfig

  /** Tokens for the closures the defaults hold; their bodies (creating a
      `div`, doing nothing, forwarding to the error logger) are not modelled. */
  const DomGetterToken: nat := 0
  const NoopToken: nat := 1
  const LogErrorToken: nat := 2

  /** The hooks the defaults install. */
  const DefaultHooks: seq<string> := [
    "beforeLoad", "afterLoad", "errorLoadApp", "onNotMatchRouter",
    "beforeEval", "afterEval", "beforeMount", "afterMount",
    "beforeUnmount", "afterUnmount", "errorMountApp", "errorUnmountApp"
  ]

  /** The three error hooks, which forward the error to the logger. */
  const ErrorHooks: seq<string> := ["errorLoadApp", "errorMountApp", "errorUnmountApp"]

  /** The attributes of the literal `createDefaultOptions` builds. */
  function DefaultAttributes(): (r: Record)
    // every host-only attribute, `basename` and `props`, and no hook
    ensures forall k :: k in InvalidNestedAttrs ==> k in r
    ensures "basename" in r && "props" in r
    ensures forall k :: k in r ==> k !in DefaultHooks
  {
    map[
      "appID" := Str(""),
      "apps" := Arr([]),
      "autoRefreshApp" := Bool(true),
      "disableStatistics" := Bool(false),
      "disablePreloadApp" := Bool(false),
      "basename" := Str("/"),
      "props" := Obj(map[]),
      "domGetter" := Fn(Closure(DomGetterToken)),
      "sandbox" := Obj(map[
        "snapshot" := Bool(false),
        "disableWith" := Bool(false),
        "strictIsolation" := Bool(false)]),
      "customLoader" := Null
    ]
  }

  /** The hooks of the literal: no-ops, except the error hooks. */
  function DefaultHookValues(): (r: Record)
    // exactly the default hooks, each a no-op or the error logger
    ensures forall h :: h in DefaultHooks ==> h in r && r[h] == Fn(Closure(if h in ErrorHooks then LogErrorToken else NoopToken))
    ensures forall k :: k in r ==> k in DefaultHooks
  {
    map[
      "beforeLoad" := Fn(Closure(NoopToken)),
      "afterLoad" := Fn(Closure(NoopToken)),
      "errorLoadApp" := Fn(Closure(LogErrorToken)),
      "onNotMatchRouter" := Fn(Closure(NoopToken)),
      "beforeEval" := Fn(Closure(NoopToken)),
      "afterEval" := Fn(Closure(NoopToken)),
      "beforeMount" := Fn(Closure(NoopToken)),
      "afterMount" := Fn(Closure(NoopToken)),
      "beforeUnmount" := Fn(Closure(NoopToken)),
      "afterUnmount" := Fn(Closure(NoopToken)),
      "errorMountApp" := Fn(Closure(LogErrorToken)),
      "errorUnmountApp" := Fn(Closure(LogErrorToken))
    ]
  }

  /** The whole object literal. */
  function DefaultLiteral(): (r: Record)
    // no hook shadows an attribute: both parts appear unchanged
    ensures forall k :: k in DefaultAttributes() ==> k in r && r[k] == DefaultAttributes()[k]
    ensures forall k :: k in DefaultHookValues() ==> k in r && r[k] == DefaultHookValues()[k]
    ensures r.Keys == DefaultAttributes().Keys + DefaultHookValues().Keys
  {
    DefaultAttributes() + DefaultHookValues()
  }

  /** A nested host keeps its hooks, `basename` and `props`. */
  lemma {:induction false} KeptWhenNested()
    ensures forall h :: h in DefaultHooks ==> h !in InvalidNestedAttrs
    ensures "basename" !in InvalidNestedAttrs && "props" !in InvalidNestedAttrs
  {
  }

  /** The hooks the literal installs. */
  lemma {:induction false} LiteralHooks()
    ensures forall h :: h in DefaultHooks ==>
      h in DefaultLiteral() && DefaultLiteral()[h] == Fn(Closure(if h in ErrorHooks then LogErrorToken else NoopToken))
  {
  }

  /** The values the literal gives the attributes every host keeps. */
  lemma {:induction false} LiteralCommonValues()
    ensures "basename" in DefaultLiteral() && DefaultLiteral()["basename"] == Str("/")
    ensures "props" in DefaultLiteral() && DefaultLiteral()["props"] == Obj(map[])
  {
    var attrs := DefaultAttributes();
    assert attrs["basename"] == Str("/") && attrs["props"] == Obj(map[]);
  }

  /** The values the literal gives the four host-only attributes. */
  lemma {:induction false} LiteralHostOnlyValues()
    ensures forall k :: k in InvalidNestedAttrs ==> k in DefaultLiteral()
    ensures DefaultLiteral()["autoRefreshApp"] == Bool(true)
    ensures DefaultLiteral()["disableStatistics"] == Bool(false)
    ensures DefaultLiteral()["disablePreloadApp"] == Bool(false)
    ensures DefaultLiteral()["sandbox"] == Obj(map["snapshot" := Bool(false), "disableWith" := Bool(false), "strictIsolation" := Bool(false)])
  {
    var attrs := DefaultAttributes();
    assert attrs["autoRefreshApp"] == Bool(true) && attrs["disableStatistics"] == Bool(false);
    assert attrs["disablePreloadApp"] == Bool(false);
    assert attrs["sandbox"] == Obj(map["snapshot" := Bool(false), "disableWith" := Bool(false), "strictIsolation" := Bool(false)]);
  }

  /** `createDefaultOptions(nested)`: the literal, with the four attributes a
      nested host inherits from its parent deleted when `nested` holds. */
  method CreateDefaultOptions(nested: bool) returns (config: Record)
    // nested: none of the host-only attributes
    ensures nested ==> forall k :: k in InvalidNestedAttrs ==> k !in config
    // not nested: all four, with their default values
    ensures !nested ==>
      && (forall k :: k in InvalidNestedAttrs ==> k in config)
      && config["autoRefreshApp"] == Bool(true)
      && config["disableStatistics"] == Bool(false)
      && config["disablePreloadApp"] == Bool(false)
      && config["sandbox"] == Obj(map["snapshot" := Bool(false), "disableWith" := Bool(false), "strictIsolation" := Bool(false)])
    // either way
    ensures "basename" in config && config["basename"] == Str("/")
    ensures "props" in config && config["props"] == Obj(map[])
    ensures forall h :: h in DefaultHooks ==>
      h in config && config[h] == Fn(Closure(if h in ErrorHooks then LogErrorToken else NoopToken))
    // and nothing else is removed or changed
    ensures forall k :: k in DefaultLiteral() && k !in InvalidNestedAttrs ==> k in config
    ensures forall k :: k in config ==> k in DefaultLiteral() && config[k] == DefaultLiteral()[k]
  {
    config := DefaultLiteral();
    if nested {
      config := DeleteHostOnly(config);
    }
    KeptWhenNested();
    LiteralHooks();
    LiteralCommonValues();
    LiteralHostOnlyValues();
  }

  /** The loop that deletes each host-only attribute in turn. */
  method DeleteHostOnly(m: Record) returns (r: Record)
    ensures forall k :: k in InvalidNestedAttrs ==> k !in r
    ensures forall k :: k in m && k !in InvalidNestedAttrs ==> k in r
    ensures forall k :: k in r ==> k in m && r[k] == m[k]
  {
    r := m;
    for i := 0 to |InvalidNestedAttrs|
      invariant forall j :: 0 <= j < i ==> InvalidNestedAttrs[j] !in r
      invariant forall k :: k in m && k !in InvalidNestedAttrs[..i] ==> k in r
      invariant forall k :: k in r ==> k in m && r[k] == m[k]
    {
      r := r - {InvalidNestedAttrs[i]};
    }
  }
}
