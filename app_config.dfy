/** The attribute allow-list and `getAppConfig` (packages/core/src/config.ts). */
module AppConfig {
  import opened Values
  import opened Merge

  /** The fixed domain attributes of `appConfigList`. */
  const FixedAttrs: seq<string> := [
    "name", "entry", "activeWhen", "basename", "domGetter", "props",
    "sandbox", "cache", "nested", "noCheckProvider", "customLoader"
  ]

  /** Attributes a nested host may not configure for itself. */
  const InvalidNestedAttrs: seq<string> := [
    "sandbox", "autoRefreshApp", "disableStatistics", "disablePreloadApp"
  ]

  /** `appConfigList`: the fixed attributes followed by the lifecycle keys
      that `appLifecycle()` reports, given here as a parameter. */
  function AppConfigList(appKeys: seq<string>): (list: seq<string>)
    ensures forall k :: k in list <==> k in FixedAttrs || k in appKeys
  {
    FixedAttrs + appKeys
  }

  /** Whether `getAppConfig` keeps key `k` of the merged configuration `m`. */
  predicate Kept(m: Record, k: string, appKeys: seq<string>)
    requires k in m
  {
    k in AppConfigList(appKeys) && m[k] != Undefined
  }

  /** The result of `getAppConfig(g, l)`: the merged configuration without
      the keys off the allow-list and without the keys whose value is
      `undefined`. */
  function AppConfig(g: Record, l: Record, appKeys: seq<string>): (r: Record)
    // allow-list closure
    ensures forall k :: k in r ==> k in AppConfigList(appKeys) && r[k] != Undefined
    // every kept key holds its merged value
    ensures forall k :: k in r ==> k in DeepMergeConfig(g, l) && r[k] == DeepMergeConfig(g, l)[k]
    // nothing else is dropped
    ensures forall k :: k in DeepMergeConfig(g, l) && Kept(DeepMergeConfig(g, l), k, appKeys) ==> k in r
    // precedence: a defined local value that is not a plain object merged with
    // a plain object wins
    ensures forall k ::
      (k != "props" && k in AppConfigList(appKeys) && k in l && l[k] != Undefined
       && !(k in g && g[k].Obj? && l[k].Obj?)) ==> k in r && r[k] == l[k]
    // keys only the global side defines pass through when allowed
    ensures forall k ::
      (k != "props" && k in AppConfigList(appKeys) && k in g && g[k] != Undefined
       && (k !in l || l[k] == Undefined)) ==> k in r && r[k] == g[k]
  {
    KeepAllowed(DeepMergeConfig(g, l), appKeys)
  }

  /** The keys of `m` that `getAppConfig` keeps. */
  function KeepAllowed(m: Record, appKeys: seq<string>): (kept: Record)
  {
    map k | k in m && Kept(m, k, appKeys) :: m[k]
  }

  /** `getAppConfig`: merge, then delete every key of the merged object that is
      not allowed or holds `undefined`, one key at a time. */
  method GetAppConfig(g: Record, l: Record, appKeys: seq<string>) returns (r: Record)
    ensures r == AppConfig(g, l, appKeys)
    ensures forall k :: k in r ==> k in AppConfigList(appKeys) && r[k] != Undefined
  {
    r := DeepMergeConfig(g, l);
    ghost var merged := r;
    var keys := r.Keys;
    while keys != {}
      invariant keys <= merged.Keys
      invariant forall k :: k in r <==> k in merged && (k in keys || Kept(merged, k, appKeys))
      invariant forall k :: k in r ==> r[k] == merged[k]
      decreases keys
    {
      var k :| k in keys;
      if k !in AppConfigList(appKeys) || r[k] == Undefined {
        r := r - {k};
      }
      keys := keys - {k};
    }
    assert r == KeepAllowed(merged, appKeys);
  }
}
