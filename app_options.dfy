/** `generateAppOptions` (packages/core/src/config.ts): the options of one
    application, resolved from the load-time override, the registered record
    and the host's global options, in that order of precedence. */
module AppOptions {
  import opened Values
  import opened Merge
  import opened AppConfig

  /** The parts of the host that resolution reads. */
  datatype Garfish = Garfish(options: Record, appInfos: map<string, Record>)

  /** The third argument of `generateAppOptions`: an entry URL shorthand or a
      partial application record (`{}` when the caller passes nothing). */
  datatype AppOptionsOrUrl = Url(url: string) | Partial(options: Record)

  datatype LoadError =
    | MissingEntry(appName: string)  // the failed `assert(appInfo.entry, ...)`
    | TypeError                      // a property read on `undefined`

  datatype Result<T> = Ok(value: T) | Err(error: LoadError)

  /** The registered record for `appName`, or `{}` when there is none. */
  function Registered(garfish: Garfish, appName: string): Record
  {
    if appName in garfish.appInfos then garfish.appInfos[appName] else map[]
  }

  /** The application-level configuration before the global options are
      merged in. */
  function Candidate(appName: string, garfish: Garfish, o: AppOptionsOrUrl, appKeys: seq<string>): (c: Record)
    // a URL for an unregistered app synthesises a minimal record
    ensures o.Url? && appName !in garfish.appInfos ==>
      c == map["name" := Str(appName), "basename" := Str("/"), "entry" := Str(o.url)]
    // a URL for a registered app replaces only its `entry`
    ensures o.Url? && appName in garfish.appInfos ==>
      && c.Keys == garfish.appInfos[appName].Keys + {"entry"}
      && c["entry"] == Str(o.url)
      && forall k :: k in c && k != "entry" ==> c[k] == garfish.appInfos[appName][k]
  {
    match o
    case Url(url) =>
      if appName in garfish.appInfos then garfish.appInfos[appName]["entry" := Str(url)]
      else map["name" := Str(appName), "basename" := Str("/"), "entry" := Str(url)]
    case Partial(options) =>
      AppConfig.AppConfig(Registered(garfish, appName), options, appKeys)
  }

  /** `generateAppOptions(appName, garfish, appOptionsOrUrl)`, with the
      registered record read as `{}` when the app is not registered. */
  function GenerateAppOptions(appName: string, garfish: Garfish, o: AppOptionsOrUrl, appKeys: seq<string>)
    : (r: Result<Record>)
    // it fails exactly when the merged configuration has no truthy entry
    ensures r.Ok? <==> Truthy(Get(AppConfig.AppConfig(garfish.options, Candidate(appName, garfish, o, appKeys), appKeys), "entry"))
    ensures r.Err? ==> r.error == MissingEntry(appName)
    // on success the entry is truthy and the name is the requested one
    ensures r.Ok? ==> "entry" in r.value && Truthy(r.value["entry"])
    ensures r.Ok? ==> "name" in r.value && r.value["name"] == Str(appName)
    // and every key is allowed and defined
    ensures r.Ok? ==> forall k :: k in r.value ==> k in AppConfigList(appKeys) && r.value[k] != Undefined
  {
    var resolved := AppConfig.AppConfig(garfish.options, Candidate(appName, garfish, o, appKeys), appKeys);
    if !Truthy(Get(resolved, "entry")) then Err(MissingEntry(appName))
    else Ok(resolved["name" := Str(appName)])
  }

  /** The merged value is truthy whenever the local side is. */
  lemma MergeKeepsTruthy(g: Value, l: Value)
    requires Truthy(l)
    ensures Truthy(MergeValue(g, l))
  {
  }

  /** Override keys win over the registered record and the global options. */
  lemma {:induction false} OverrideWins(appName: string, garfish: Garfish, options: Record, appKeys: seq<string>, k: string)
    requires k in AppConfigList(appKeys) && k != "props" && k != "name"
    requires k in options && options[k] != Undefined && !options[k].Obj?
    ensures var r := GenerateAppOptions(appName, garfish, Partial(options), appKeys);
            r.Ok? ==> k in r.value && r.value[k] == options[k]
  {
    var c := Candidate(appName, garfish, Partial(options), appKeys);
    assert k in c && c[k] == options[k];
  }

  /** Registered keys win over the global options when the override leaves
      them unset. */
  lemma {:induction false} RegisteredWins(appName: string, garfish: Garfish, options: Record, appKeys: seq<string>, k: string)
    requires k in AppConfigList(appKeys) && k != "props" && k != "name"
    requires appName in garfish.appInfos
    requires var reg := garfish.appInfos[appName]; k in reg && reg[k] != Undefined && !reg[k].Obj?
    requires k !in options
    ensures var r := GenerateAppOptions(appName, garfish, Partial(options), appKeys);
            r.Ok? ==> k in r.value && r.value[k] == garfish.appInfos[appName][k]
  {
    var c := Candidate(appName, garfish, Partial(options), appKeys);
    assert k in c && c[k] == garfish.appInfos[appName][k];
  }

  /** Keys that only the global options define pass through when allowed,
      and never when not. */
  lemma {:induction false} GlobalOnlyPassesThrough(appName: string, garfish: Garfish, options: Record, appKeys: seq<string>, k: string)
    requires k != "props" && k != "name"
    requires k in garfish.options && garfish.options[k] != Undefined
    requires k !in Registered(garfish, appName) && k !in options
    ensures var r := GenerateAppOptions(appName, garfish, Partial(options), appKeys);
            r.Ok? ==> (k in r.value <==> k in AppConfigList(appKeys))
    ensures var r := GenerateAppOptions(appName, garfish, Partial(options), appKeys);
            r.Ok? && k in r.value ==> r.value[k] == garfish.options[k]
  {
    var c := Candidate(appName, garfish, Partial(options), appKeys);
    assert k !in DeepMergeConfig(Registered(garfish, appName), options);
    assert k !in c;
  }

  /** The URL shorthand: resolution succeeds exactly when the URL is non-empty,
      and the URL is then the entry, whether or not the app is registered. */
  lemma {:induction false} UrlShorthand(appName: string, garfish: Garfish, url: string, appKeys: seq<string>)
    ensures var r := GenerateAppOptions(appName, garfish, Url(url), appKeys);
            (r.Ok? <==> url != "") && (r.Ok? ==> r.value["entry"] == Str(url))
  {
    var c := Candidate(appName, garfish, Url(url), appKeys);
    assert "entry" in c && c["entry"] == Str(url);
    assert "entry" in AppConfigList(appKeys);
    var resolved := AppConfig.AppConfig(garfish.options, c, appKeys);
    assert "entry" in resolved && resolved["entry"] == Str(url);
  }

  /** An unregistered app loaded with a bare URL also gets `basename` "/". */
  lemma {:induction false} UrlShorthandUnregistered(appName: string, garfish: Garfish, url: string, appKeys: seq<string>)
    requires appName !in garfish.appInfos && url != ""
    ensures var r := GenerateAppOptions(appName, garfish, Url(url), appKeys);
            && r.Ok? && r.value["entry"] == Str(url) && r.value["name"] == Str(appName)
            && "basename" in r.value && r.value["basename"] == Str("/")
  {
    UrlShorthand(appName, garfish, url, appKeys);
    var c := Candidate(appName, garfish, Url(url), appKeys);
    assert "basename" in c && c["basename"] == Str("/");
    assert "basename" in AppConfigList(appKeys);
  }

  /** With no entry anywhere, resolution fails and names the app. */
  lemma {:induction false} NoEntryFails(appName: string, garfish: Garfish, appKeys: seq<string>)
    requires appName !in garfish.appInfos
    requires !Truthy(Get(garfish.options, "entry"))
    ensures GenerateAppOptions(appName, garfish, Partial(map[]), appKeys) == Err(MissingEntry(appName))
    // as written, the same load throws before it reaches the entry check
    ensures GenerateAppOptionsAsWritten(appName, garfish, Partial(map[]), appKeys) == Err(TypeError)
  {
    var c := Candidate(appName, garfish, Partial(map[]), appKeys);
    assert DeepMergeConfig(map[], map[]) == map[];
    assert c == map[];
    var resolved := AppConfig.AppConfig(garfish.options, c, appKeys);
    assert !Truthy(Get(resolved, "entry"));
  }

  /** `generateAppOptions` as written: with an object override and no
      registered record, `getAppConfig(undefined, ...)` reads `props` of
      `undefined` and throws. */
  function GenerateAppOptionsAsWritten(appName: string, garfish: Garfish, o: AppOptionsOrUrl, appKeys: seq<string>)
    : (r: Result<Record>)
    ensures o.Url? || appName in garfish.appInfos ==> r == GenerateAppOptions(appName, garfish, o, appKeys)
  {
    var appInfo: Option<Record> := if appName in garfish.appInfos then Some(garfish.appInfos[appName]) else None;
    if o.Partial? && appInfo.None? then Err(TypeError)
    else
      var candidate :=
        match o
        case Url(url) =>
          if appInfo.Some? then appInfo.value["entry" := Str(url)]
          else map["name" := Str(appName), "basename" := Str("/"), "entry" := Str(url)]
        case Partial(options) => AppConfig.AppConfig(appInfo.value, options, appKeys);
      var resolved := AppConfig.AppConfig(garfish.options, candidate, appKeys);
      if !Truthy(Get(resolved, "entry")) then Err(MissingEntry(appName))
      else Ok(resolved["name" := Str(appName)])
  }

  /** The discrepancy: loading an unregistered app with an override that
      carries a truthy entry throws as written, while the corrected
      resolution succeeds with that entry. */
  lemma {:induction false} UnregisteredOverrideThrows(appName: string, garfish: Garfish, options: Record, appKeys: seq<string>)
    requires appName !in garfish.appInfos
    requires Truthy(Get(options, "entry"))
    ensures GenerateAppOptionsAsWritten(appName, garfish, Partial(options), appKeys) == Err(TypeError)
    ensures GenerateAppOptions(appName, garfish, Partial(options), appKeys).Ok?
  {
    var c := Candidate(appName, garfish, Partial(options), appKeys);
    assert "entry" in AppConfigList(appKeys);
    assert "entry" in c && c["entry"] == options["entry"];
    var resolved := AppConfig.AppConfig(garfish.options, c, appKeys);
    MergeKeepsTruthy(Get(garfish.options, "entry"), c["entry"]);
    assert "entry" in DeepMergeConfig(garfish.options, c);
    assert DeepMergeConfig(garfish.options, c)["entry"] == MergeValue(Get(garfish.options, "entry"), c["entry"]);
    assert Truthy(Get(resolved, "entry"));
  }
}
