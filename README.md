# Garfish configuration resolution, modelled in Dafny

This project models the configuration core of the Garfish micro-frontend host,
`packages/core/src/config.ts`. It covers five operations:

- `deepMergeConfig` merges a global and a local configuration. Every field
  except `props` goes through the utility library's `deepMerge`. `props` gets a
  one-level overlay: the global keys first, then the local keys on top.
- `getAppConfig` merges, then deletes every key that is not on the allow-list
  `appConfigList` and every key whose value is `undefined`.
- `generateAppOptions` resolves one application's options. The load-time
  override wins over the registered record, which wins over the host's global
  options. A bare string is shorthand for the entry. The call fails when the
  result has no truthy `entry`, and it always sets `name` to the requested
  application name.
- `createDefaultOptions` builds a host's default options. In nested mode the
  four host-only attributes are deleted.
- `filterNestedConfig` edits a configuration object in place. In a nested
  configuration it deletes the host-only attributes, with one warning per
  deleted key. It also wraps every lifecycle hook that holds a function. The
  wrapper tags the first `{name, entry}` argument with the nesting id and then
  forwards the call.

How JavaScript is represented:

- JavaScript values are the datatype `Values.Value`. An object is a
  `map<string, Value>` (`Values.Record`).
- Functions are `Values.Callable`. A `Closure(token)` stands for a function
  whose body lies outside the model. A `NestedHook(inner, id)` is the wrapper
  that `filterNestedConfig` installs. `NestedGuard.CallHook` gives the
  wrapper's behaviour. Its parameter `impl` supplies the result of calling an
  original function.
- The object that `filterNestedConfig` mutates is the class
  `Values.ConfigObject`.
- `getAppConfig` and `createDefaultOptions` delete keys in loops. They are
  methods whose loops are proved against the functions `AppConfig.AppConfig`
  and `Defaults.DefaultLiteral`.
- `deepMergeConfig` and `generateAppOptions` are functions.
- There are two lifecycle-key lists, and both are parameters:
  - `appKeys` stands for `appLifecycle().lifecycleKeys`. The allow-list is
    built from it.
  - `hookKeys` stands for `garfish.hooks.lifecycleKeys`. `filterNestedConfig`
    wraps the hooks it names.

Three behaviours of the code that a caller might not expect; the model
follows the code:

- `filterNestedConfig` wraps the lifecycle hooks even when `config.nested` is
  falsy, because the wrapping loop at lines 50-63 is outside the `if` at line
  41. Only the deletion of host-only attributes depends on `nested`.
- The wrapper's second test, `if (canCall(info))`, tests the value just assigned
  to `info.nested`. With the id `0`, the descriptor is tagged, the original hook
  is not called, and the wrapper returns `undefined`. `NestedGuard.ZeroIdSkipsCall`
  states this case. `NestedGuard.CalledExactlyOnce` states the
  "exactly one call" promise under the condition that makes it true: every id
  is non-zero.
- Resolution with an object override and no registered record throws, although
  line 126 (`appInfo || {}`) shows that a missing record was meant to be read as
  `{}` (see Findings). `AppOptions.GenerateAppOptions` is the corrected
  resolution; the lemmas about it describe that corrected behaviour.

## Model

| member | source | states |
|---|---|---|
| Values.Truthy | packages/core/src/config.ts:71-79 | the falsy values are exactly `undefined`, `null`, `false`, `0` and `''`; this is the test at lines 41, 59-60, 71, 78-79, 106 and 128 |
| Values.IsPlainObject | packages/core/src/config.ts:54 | a plain object is truthy, and arrays, functions and `null` are not plain objects |
| Values.HasOwn | packages/core/src/config.ts:54 | on a plain object, `hasOwn` holds exactly for the keys of its record; the model gives arrays and functions no own properties, which makes no difference because line 54 tests `isPlainObject` first |
| Values.Spread | packages/core/src/config.ts:78-79 | `{ ...v }` copies exactly the own properties of `v`, with their values |
| Merge.MergeValue | packages/core/src/config.ts:77 | one property of the library merge: a defined local value that is not merged with a plain object replaces the global one, a local object replaces a non-object, an `undefined` local value keeps the global one, and two plain objects merge recursively |
| Merge.DeepMerge | packages/core/src/config.ts:77 | the library merge keeps the keys of both sides; a defined local value wins unless both sides hold plain objects; a key that is missing or `undefined` locally keeps the global value; two plain objects are replaced by the recursive merge of their properties |
| Merge.DeepMergeConfig | packages/core/src/config.ts:68-81 | every field other than `props` is present exactly when one side has it, and its value is what the library merge of the two full inputs gives |
| Merge.PropsShallowOverlay | packages/core/src/config.ts:71-79 | when either `props` is truthy, the result's `props` is an object holding exactly the keys of both, with the local value for shared keys and the global value otherwise, carried over unchanged |
| Merge.PropsOrdinaryWhenFalsy | packages/core/src/config.ts:71-79 | when neither `props` is truthy, `props` is present only if an input has it and is then merged like any other field; with no `props` on either side the result has none |
| Merge.MergeConfigObjects | packages/core/src/config.ts:68-80 | merging two live objects yields the merge of their contents, and the method may not modify either object, so deleting `props` from the shallow copies cannot remove it from the caller's objects |
| AppConfig.FixedAttrs | packages/core/src/config.ts:14-25 | the eleven fixed attributes of the allow-list, in source order |
| AppConfig.InvalidNestedAttrs | packages/core/src/config.ts:29-34 | the four host-only attributes that a nested host may not configure |
| AppConfig.AppConfigList | packages/core/src/config.ts:14-27 | a key is on the allow-list exactly when it is one of the eleven fixed attributes or a lifecycle key |
| AppConfig.AppConfig | packages/core/src/config.ts:83-95 | every key of the result is on the allow-list, holds a defined value and keeps its value from `deepMergeConfig` (so `props` and merged objects carry through); no allowed, defined key of the merge is dropped; outside `props`, a defined local value wins over the global one (unless both are plain objects) and a key only the global side defines passes through when allowed |
| AppConfig.GetAppConfig | packages/core/src/config.ts:83-95 | the key-deleting loop leaves exactly the allowed configuration, so every remaining key is on the allow-list and defined |
| AppOptions.Candidate | packages/core/src/config.ts:102-126 | a URL for an unregistered app gives exactly `{name, basename: '/', entry: url}`; a URL for a registered app gives its record with only `entry` replaced |
| AppOptions.GenerateAppOptions | packages/core/src/config.ts:97-135 | resolution fails exactly when the merged entry is falsy, with an error naming the app; on success `entry` is truthy, `name` is the requested name whatever the inputs said, and every key is allowed and defined |
| AppOptions.OverrideWins | packages/core/src/config.ts:120-126 | in the corrected resolution (as written, an unregistered app throws first), an allowed, defined, non-object key of the override wins over both the registered record and the global options |
| AppOptions.RegisteredWins | packages/core/src/config.ts:120-126 | a registered key that the override leaves unset, whose value is defined and not an object, wins over the global options |
| AppOptions.GlobalOnlyPassesThrough | packages/core/src/config.ts:125-126 | in the corrected resolution (as written, an unregistered app with an object override throws first), a key that only the global options define is in the result exactly when it is allowed, and then keeps its global value |
| AppOptions.UrlShorthand | packages/core/src/config.ts:105-118 | with a URL, resolution succeeds exactly when the URL is non-empty, and the URL is the entry, whether or not the app is registered |
| AppOptions.UrlShorthandUnregistered | packages/core/src/config.ts:111-117 | an unregistered app loaded by URL resolves with that entry, its own name and `basename` '/' |
| AppOptions.NoEntryFails | packages/core/src/config.ts:128-132 | with no registration, an empty override and no truthy global entry, the corrected resolution fails with the missing-entry error for that app, while the code as written throws a TypeError before it reaches that check |
| AppOptions.GenerateAppOptionsAsWritten | packages/core/src/config.ts:102-135 | the code as written agrees with the corrected resolution on every URL load and on every load of a registered app |
| AppOptions.UnregisteredOverrideThrows | packages/core/src/config.ts:121-123 | as written, an object override for an unregistered app throws even when it carries a truthy entry, while the corrected resolution succeeds |
| Defaults.DefaultAttributes | packages/core/src/config.ts:139-174 | the attribute part of the default literal (lines 139-155 and the `customLoader` of line 174) has every host-only attribute, `basename` and `props`, and no hook name |
| Defaults.DefaultHookValues | packages/core/src/config.ts:156-173 | the hook part of the default literal has exactly the twelve default hooks, each a no-op except the three error hooks, which forward to the logger |
| Defaults.DefaultLiteral | packages/core/src/config.ts:139-175 | the whole literal: its keys are those of both parts, and since no hook shadows an attribute, each part's values appear unchanged |
| Defaults.CreateDefaultOptions | packages/core/src/config.ts:138-181 | nested: none of the four host-only keys; not nested: all four, with `autoRefreshApp` true, both other flags false and a sandbox whose three flags are false; either way `basename` is '/', `props` is empty, the hooks are no-ops except the three error hooks, and no other key is removed or changed |
| Defaults.DeleteHostOnly | packages/core/src/config.ts:177-179 | the deletion loop removes the four host-only keys and keeps every other key with its value |
| Defaults.LiteralHooks | packages/core/src/config.ts:156-173 | the default literal installs a no-op for every hook except the three error hooks, which forward to the logger |
| Defaults.LiteralCommonValues | packages/core/src/config.ts:147-148 | the default literal has `basename` '/' and empty `props` |
| Defaults.LiteralHostOnlyValues | packages/core/src/config.ts:143-155 | the default literal has all four host-only keys with their documented values |
| NestedGuard.IsInfo | packages/core/src/config.ts:53-54 | an argument is an app descriptor exactly when it is a plain object with own `name` and `entry` properties |
| NestedGuard.FindInfo | packages/core/src/config.ts:53-58 | the position found holds a plain object with own `name` and `entry` and no earlier argument does; when none is found, no argument does |
| NestedGuard.Tag | packages/core/src/config.ts:52 | tagging sets `nested` to the id, keeps every other property and adds no other key, so the descriptor stays a descriptor |
| NestedGuard.CallHook | packages/core/src/config.ts:57-61 | invoking a hook keeps the number of arguments and reaches an original function at most once |
| NestedGuard.NoDescriptorForwards | packages/core/src/config.ts:58-59 | with no descriptor argument, the original is called once with the unchanged arguments and its result is returned |
| NestedGuard.DescriptorTagged | packages/core/src/config.ts:57-61 | with a descriptor and a non-zero id, the first descriptor gets `nested = id` and no other new key, its other properties unchanged, every other argument is unchanged, and the original is called once with the tagged arguments and its result returned |
| NestedGuard.ZeroIdSkipsCall | packages/core/src/config.ts:52-60 | with a descriptor and id 0, the descriptor is tagged (`nested = 0`, nothing else changed) but the original is not called and `undefined` is returned |
| NestedGuard.CalledExactlyOnce | packages/core/src/config.ts:50-62 | under any stack of wrappers with non-zero ids, the original is called exactly once, with the arguments as the caller finally sees them, and its result is returned |
| NestedGuard.FilterNestedConfig | packages/core/src/config.ts:36-65 | the method returns the same object, emits the warnings of `Warnings` and leaves the configuration given by `Filtered` |
| NestedGuard.RemoveAllSpec | packages/core/src/config.ts:42-44 | deleting a list of keys keeps exactly the other keys, with their values |
| NestedGuard.PresentCounts | packages/core/src/config.ts:42-47 | a key is warned about as often as it is listed, and only if it was present |
| NestedGuard.WrapHooksAt | packages/core/src/config.ts:50-63 | the wrapping loop keeps the key set and gives each function-valued key one wrapper per occurrence in the key list; every other value is unchanged |
| NestedGuard.NestedStripsHostOnly | packages/core/src/config.ts:41-48 | in a nested configuration none of the four host-only keys remain, no other key is removed, and each key that was present is warned about exactly once |
| NestedGuard.NotNestedKeepsAll | packages/core/src/config.ts:41-48 | in a configuration that is not nested no key is deleted and nothing is warned about |
| NestedGuard.HooksWrapped | packages/core/src/config.ts:50-63 | every lifecycle key holding a function gets a wrapper with the given id around the same original; keys holding anything else, and keys not on the list, are unchanged |
| NestedGuard.DistinctKeysWrapOnce | packages/core/src/config.ts:50-63 | with each lifecycle key listed once, a function hook is wrapped by exactly one wrapper |
| NestedGuard.FilteredHookTagsDescriptor | packages/core/src/config.ts:50-61 | after filtering, calling a hook with a descriptor argument calls the original function once, with the descriptor's `nested` set to the id |

## Findings

| source | as written | input that shows it | evidently intended | confidence | as-written member | corrected member |
|---|---|---|---|---|---|---|
| packages/core/src/config.ts:102-123 | an object override for an app with no registered record calls `getAppConfig(undefined, override)`, whose `deepMergeConfig` reads `undefined.props` and throws a TypeError | `generateAppOptions('app1', garfish, { entry: 'https://x/y.html' })` with no `app1` in `garfish.appInfos`; also any unregistered name with the default `{}` | the missing record is read as `{}`, as `appInfo || {}` at line 126 does for the final merge: the override alone resolves, and a missing entry reports the "Can't load unexpected child app" error | high that it throws, not executed | AppOptions.GenerateAppOptionsAsWritten, AppOptions.UnregisteredOverrideThrows | AppOptions.GenerateAppOptions |

## Left out

- Object identity is not modelled, because objects are values here. Three consequences:
  - The merged `props` being a new top-level object, while its contents stay the same objects, is not stated. The contents are stated to be carried over unchanged.
  - The same descriptor object passed twice to a hook is not seen as one object.
  - Fresh closures per `createDefaultOptions` call are not distinguished: each default closure is a fixed token.
- The utility library's `deepMerge`, `isPlainObject`, `hasOwn` and `isObject` are specified, not reimplemented. The merge's deep cloning and its treatment of arrays are not modelled: an array is replaced like any other non-object value.
- Every object value is a plain object: `Value` has no case for class instances, proxies or other exotic objects. So `Values.IsPlainObject` only separates objects from arrays, functions and primitives, both in the descriptor test (line 54) and in the library merge.
- Values.Spread: spreading a truthy `props` that is not a plain object (a string or an array, which spread into index keys) contributes no keys in this model.
- Numbers are integers. NaN and fractional nesting ids are not modelled.
- The closure bodies are not modelled: the default `domGetter` (which creates a `div`), the no-op hooks and the error hooks that call `error(e)`. Each is a token.
- The `warn` and `error` logging calls are not modelled. A warning is the name of the deleted key; the message text is left out.
- `this` binding and variadic `apply` in the hook wrapper are not modelled. A call is the callee's token plus the argument sequence.
- The key order of `Object.keys` is not modelled: the deletion loop in `getAppConfig` visits the keys in an arbitrary order, and its result does not depend on that order.
- Prototype-chain lookups (`key in config`, inherited properties of `garfish.appInfos`) are not modelled: only own properties exist.
- The source of `appLifecycle().lifecycleKeys` and `garfish.hooks.lifecycleKeys` is not modelled. Both are parameters.
- The TypeScript types of the configuration fields are not modelled. Every field holds an arbitrary `Value`.
- packages/runtime/css-scope/src/index.ts is not part of this model. It only registers a loader hook and logs.
