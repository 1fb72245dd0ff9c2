/** `filterNestedConfig` (packages/core/src/config.ts): strips the host-only
    attributes from a nested configuration and wraps its lifecycle hooks so
    that they tag the application descriptor they receive with the nesting id. */
module NestedGuard {
  import opened Values
  import opened AppConfig

  // ----- The hook adapter -----

  /** `isInfo`: a plain object with own `name` and `entry` properties. */
  predicate IsInfo(v: Value)
    ensures IsInfo(v) <==> v.Obj? && "name" in v.fields && "entry" in v.fields
  {
    IsPlainObject(v) && HasOwn(v, "name") && HasOwn(v, "entry")
  }

  /** `args.find(isInfo)`, as the position of the first descriptor. */
  function FindInfo(args: seq<Value>): (i: Option<nat>)
    ensures i.Some? ==> i.value < |args| && IsInfo(args[i.value])
    ensures i.Some? ==> forall j :: 0 <= j < i.value ==> !IsInfo(args[j])
    ensures i.None? ==> forall j :: 0 <= j < |args| ==> !IsInfo(args[j])
  {
    if args == [] then None
    else if IsInfo(args[0]) then Some(0)
    else match FindInfo(args[1..])
      case None => None
      case Some(j) => Some(j + 1)
  }

  /** `info.nested = id` on a descriptor. */
  function Tag(info: Value, id: int): (tagged: Value)
    requires IsInfo(info)
    ensures IsInfo(tagged) && "nested" in tagged.fields && tagged.fields["nested"] == Num(id)
    ensures tagged.fields.Keys == info.fields.Keys + {"nested"}
    ensures forall k :: k != "nested" && k in info.fields ==> k in tagged.fields && tagged.fields[k] == info.fields[k]
  {
    Obj(info.fields["nested" := Num(id)])
  }

  /** A call that reached a function outside this model. */
  datatype Call = Call(token: nat, args: seq<Value>)

  /** What invoking a hook did: the calls that reached an original function,
      the value returned, and the arguments as the caller sees them afterwards
      (the descriptor is changed in place). */
  datatype Invocation = Invocation(calls: seq<Call>, result: Value, args: seq<Value>)

  /** Invoking hook `f` with `args`; `impl` gives the result of an original
      function, whose body is not modelled. */
  function CallHook(f: Callable, args: seq<Value>, impl: (nat, seq<Value>) -> Value): (inv: Invocation)
    ensures |inv.args| == |args|
    ensures |inv.calls| <= 1
  {
    match f
    case Closure(token) => Invocation([Call(token, args)], impl(token, args), args)
    case NestedHook(inner, id) =>
      match FindInfo(args)
      case None => CallHook(inner, args, impl)
      case Some(i) =>
        var tagged := args[i := Tag(args[i], id)];
        // `if (canCall(info))` tests the id that was just assigned
        if Truthy(Num(id)) then CallHook(inner, tagged, impl)
        else Invocation([], Undefined, tagged)
  }

  /** The original function under any number of adapters. */
  function Original(f: Callable): (c: Callable)
    ensures c.Closure?
  {
    match f
    case Closure(_) => f
    case NestedHook(inner, _) => Original(inner)
  }

  /** Every adapter around the original has a non-zero id. */
  predicate NonZeroIds(f: Callable)
  {
    match f
    case Closure(_) => true
    case NestedHook(inner, id) => id != 0 && NonZeroIds(inner)
  }

  /** Without a descriptor argument, the original is called once with the
      arguments untouched and its result is returned. */
  lemma {:induction false} NoDescriptorForwards(f: Callable, args: seq<Value>, impl: (nat, seq<Value>) -> Value)
    requires FindInfo(args).None?
    ensures var inv := CallHook(f, args, impl);
            && inv.calls == [Call(Original(f).token, args)]
            && inv.result == impl(Original(f).token, args)
            && inv.args == args
  {
    match f
    case Closure(_) =>
    case NestedHook(inner, _) => NoDescriptorForwards(inner, args, impl);
  }

  /** With a descriptor argument, one adapter tags the first descriptor and
      forwards the call once when its id is truthy. */
  lemma {:induction false} DescriptorTagged(token: nat, id: int, args: seq<Value>, impl: (nat, seq<Value>) -> Value)
    requires FindInfo(args).Some?
    requires id != 0
    ensures var i := FindInfo(args).value;
            var inv := CallHook(NestedHook(Closure(token), id), args, impl);
            && |inv.calls| == 1 && inv.calls[0].token == token
            && inv.calls[0].args == inv.args
            && inv.result == impl(token, inv.args)
            && |inv.args| == |args|
            && inv.args[i] == Tag(args[i], id)
            && IsInfo(inv.args[i]) && "nested" in inv.args[i].fields && inv.args[i].fields["nested"] == Num(id)
            && inv.args[i].fields.Keys == args[i].fields.Keys + {"nested"}
            && (forall k :: k != "nested" && k in args[i].fields ==>
                  k in inv.args[i].fields && inv.args[i].fields[k] == args[i].fields[k])
            && (forall j :: 0 <= j < |args| && j != i ==> inv.args[j] == args[j])
  {
  }

  /** With a zero id the descriptor is still tagged, but the original is not
      called and the adapter returns `undefined`. */
  lemma {:induction false} ZeroIdSkipsCall(token: nat, args: seq<Value>, impl: (nat, seq<Value>) -> Value)
    requires FindInfo(args).Some?
    ensures var i := FindInfo(args).value;
            var inv := CallHook(NestedHook(Closure(token), 0), args, impl);
            && inv.calls == [] && inv.result == Undefined
            && inv.args[i] == Tag(args[i], 0)
            && IsInfo(inv.args[i]) && "nested" in inv.args[i].fields && inv.args[i].fields["nested"] == Num(0)
  {
  }

  /** When every adapter has a non-zero id, the original is called exactly
      once, whatever the arguments, and its result is returned. */
  lemma {:induction false} CalledExactlyOnce(f: Callable, args: seq<Value>, impl: (nat, seq<Value>) -> Value)
    requires NonZeroIds(f)
    ensures var inv := CallHook(f, args, impl);
            && inv.calls == [Call(Original(f).token, inv.args)]
            && inv.result == impl(Original(f).token, inv.args)
  {
    match f
    case Closure(_) =>
    case NestedHook(inner, id) =>
      match FindInfo(args)
      case None => CalledExactlyOnce(inner, args, impl);
      case Some(i) => CalledExactlyOnce(inner, args[i := Tag(args[i], id)], impl);
  }

  // ----- Stripping and wrapping a configuration -----

  /** `m` with each key of `ks` deleted, in order. */
  function RemoveAll(m: Record, ks: seq<string>): (rest: Record)
  {
    if ks == [] then m else RemoveAll(m, ks[..|ks| - 1]) - {ks[|ks| - 1]}
  }

  /** The keys of `ks` that `m` holds, in order: the warnings. */
  function Present(m: Record, ks: seq<string>): (present: seq<string>)
  {
    if ks == [] then []
    else Present(m, ks[..|ks| - 1]) + (if ks[|ks| - 1] in m then [ks[|ks| - 1]] else [])
  }

  /** One step of the wrapping loop. */
  function WrapOne(m: Record, key: string, id: int): (wrapped: Record)
  {
    if key in m && m[key].Fn? then m[key := Fn(NestedHook(m[key].callee, id))] else m
  }

  /** The wrapping loop over the keys `ks`, in order. */
  function WrapHooks(m: Record, ks: seq<string>, id: int): (wrapped: Record)
  {
    if ks == [] then m else WrapOne(WrapHooks(m, ks[..|ks| - 1], id), ks[|ks| - 1], id)
  }

  /** `f` under `n` adapters with id `id`. */
  function Nest(f: Callable, id: int, n: nat): (g: Callable)
    ensures Original(g) == Original(f)
  {
    if n == 0 then f else NestedHook(Nest(f, id, n - 1), id)
  }

  /** The configuration `filterNestedConfig` leaves behind. */
  function Filtered(m: Record, hookKeys: seq<string>, id: int): (filtered: Record)
  {
    var stripped := if Truthy(Get(m, "nested")) then RemoveAll(m, InvalidNestedAttrs) else m;
    WrapHooks(stripped, hookKeys, id)
  }

  /** The warnings `filterNestedConfig` emits, one key name each. */
  function Warnings(m: Record): (warnings: seq<string>)
  {
    if Truthy(Get(m, "nested")) then Present(m, InvalidNestedAttrs) else []
  }

  /** `filterNestedConfig(garfish, config, id)`, changing `config` in place. */
  method FilterNestedConfig(config: ConfigObject, hookKeys: seq<string>, id: int)
    returns (r: ConfigObject, warnings: seq<string>)
    modifies config
    ensures r == config
    ensures warnings == Warnings(old(config.fields))
    ensures config.fields == Filtered(old(config.fields), hookKeys, id)
  {
    ghost var original := config.fields;
    warnings := [];
    if Truthy(Get(config.fields, "nested")) {
      for i := 0 to |InvalidNestedAttrs|
        invariant config.fields == RemoveAll(original, InvalidNestedAttrs[..i])
        invariant warnings == Present(original, InvalidNestedAttrs[..i])
      {
        var key := InvalidNestedAttrs[i];
        assert InvalidNestedAttrs[..i + 1][..i] == InvalidNestedAttrs[..i];
        PresentAgrees(original, InvalidNestedAttrs[..i], key);
        if key in config.fields {
          config.fields := config.fields - {key};
          warnings := warnings + [key];
        }
      }
      assert InvalidNestedAttrs[..|InvalidNestedAttrs|] == InvalidNestedAttrs;
    }
    ghost var stripped := config.fields;
    for i := 0 to |hookKeys|
      invariant config.fields == WrapHooks(stripped, hookKeys[..i], id)
    {
      var key := hookKeys[i];
      assert hookKeys[..i + 1][..i] == hookKeys[..i];
      var fn := Get(config.fields, key);
      if fn.Fn? {
        config.fields := config.fields[key := Fn(NestedHook(fn.callee, id))];
      }
    }
    assert hookKeys[..|hookKeys|] == hookKeys;
    r := config;
  }

  /** A key still in the stripped map was present originally, exactly when it
      is not among the keys deleted so far. */
  lemma {:induction false} PresentAgrees(m: Record, ks: seq<string>, key: string)
    ensures key in RemoveAll(m, ks) <==> key in m && key !in ks
  {
    RemoveAllSpec(m, ks);
  }

  lemma {:induction false} RemoveAllSpec(m: Record, ks: seq<string>)
    ensures forall k :: k in RemoveAll(m, ks) <==> k in m && k !in ks
    ensures forall k :: k in RemoveAll(m, ks) ==> RemoveAll(m, ks)[k] == m[k]
  {
    if ks != [] {
      RemoveAllSpec(m, ks[..|ks| - 1]);
      assert forall k :: k in ks <==> k in ks[..|ks| - 1] || k == ks[|ks| - 1];
    }
  }

  /** Each key of `ks` that `m` holds is warned about as often as it occurs. */
  lemma {:induction false} PresentCounts(m: Record, ks: seq<string>)
    ensures forall k :: multiset(Present(m, ks))[k] == if k in m then multiset(ks)[k] else 0
  {
    if ks != [] {
      var init := ks[..|ks| - 1];
      PresentCounts(m, init);
      assert ks == init + [ks[|ks| - 1]];
    }
  }

  /** The wrapping loop keeps the key set, leaves non-functions and keys off
      the list alone, and puts one adapter per occurrence of the key in the
      list around a function. */
  lemma {:induction false} WrapHooksAt(m: Record, ks: seq<string>, id: int)
    ensures WrapHooks(m, ks, id).Keys == m.Keys
    ensures forall k :: k in m ==>
      WrapHooks(m, ks, id)[k] ==
        if m[k].Fn? then Fn(Nest(m[k].callee, id, multiset(ks)[k])) else m[k]
  {
    if ks != [] {
      var init := ks[..|ks| - 1];
      WrapHooksAt(m, init, id);
      assert ks == init + [ks[|ks| - 1]];
    }
  }

  /** A nested configuration loses every host-only attribute and nothing
      else, with one warning per attribute that was there. */
  lemma {:induction false} NestedStripsHostOnly(m: Record, hookKeys: seq<string>, id: int)
    requires Truthy(Get(m, "nested"))
    ensures var f := Filtered(m, hookKeys, id);
            && (forall k :: k in InvalidNestedAttrs ==> k !in f)
            && (forall k :: k in f <==> k in m && k !in InvalidNestedAttrs)
    ensures forall k :: multiset(Warnings(m))[k] == if k in InvalidNestedAttrs && k in m then 1 else 0
  {
    RemoveAllSpec(m, InvalidNestedAttrs);
    WrapHooksAt(RemoveAll(m, InvalidNestedAttrs), hookKeys, id);
    PresentCounts(m, InvalidNestedAttrs);
  }

  /** A configuration that is not nested keeps every attribute and is not
      warned about. */
  lemma {:induction false} NotNestedKeepsAll(m: Record, hookKeys: seq<string>, id: int)
    requires !Truthy(Get(m, "nested"))
    ensures Filtered(m, hookKeys, id).Keys == m.Keys && Warnings(m) == []
  {
    WrapHooksAt(m, hookKeys, id);
  }

  /** Nested or not, lifecycle hooks holding functions get an adapter with
      the given id around the same original, and every other value is kept. */
  lemma {:induction false} HooksWrapped(m: Record, hookKeys: seq<string>, id: int)
    ensures var f := Filtered(m, hookKeys, id);
            forall k :: k in f ==> k in m && (k !in hookKeys || !m[k].Fn? ==> f[k] == m[k])
    ensures var f := Filtered(m, hookKeys, id);
            forall k :: k in f && k in hookKeys && m[k].Fn? ==>
              && f[k].Fn? && f[k].callee.NestedHook? && f[k].callee.id == id
              && Original(f[k].callee) == Original(m[k].callee)
  {
    var stripped := if Truthy(Get(m, "nested")) then RemoveAll(m, InvalidNestedAttrs) else m;
    RemoveAllSpec(m, InvalidNestedAttrs);
    WrapHooksAt(stripped, hookKeys, id);
    forall k | k in stripped && k in hookKeys
      ensures multiset(hookKeys)[k] > 0
    {
    }
  }

  /** With each lifecycle key listed once, a function hook is wrapped by
      exactly one adapter around the original function. */
  lemma {:induction false} DistinctKeysWrapOnce(m: Record, hookKeys: seq<string>, id: int, k: string)
    requires forall i, j :: 0 <= i < j < |hookKeys| ==> hookKeys[i] != hookKeys[j]
    requires k in m && k in Filtered(m, hookKeys, id) && k in hookKeys && m[k].Fn?
    ensures Filtered(m, hookKeys, id)[k] == Fn(NestedHook(m[k].callee, id))
  {
    var stripped := if Truthy(Get(m, "nested")) then RemoveAll(m, InvalidNestedAttrs) else m;
    RemoveAllSpec(m, InvalidNestedAttrs);
    WrapHooksAt(stripped, hookKeys, id);
    DistinctCountsOne(hookKeys, k);
    assert stripped[k] == m[k];
    assert Nest(m[k].callee, id, 1) == NestedHook(Nest(m[k].callee, id, 0), id);
  }

  lemma {:induction false} DistinctCountsOne(ks: seq<string>, k: string)
    requires forall i, j :: 0 <= i < j < |ks| ==> ks[i] != ks[j]
    requires k in ks
    ensures multiset(ks)[k] == 1
  {
    var init := ks[..|ks| - 1];
    assert ks == init + [ks[|ks| - 1]];
    if k == ks[|ks| - 1] {
      assert k !in init;
    } else {
      DistinctCountsOne(init, k);
    }
  }

  /** End to end: after `filterNestedConfig`, calling a lifecycle hook that
      held function `token` with a descriptor argument calls that function
      once, with the descriptor's `nested` set to the id. */
  lemma {:induction false} FilteredHookTagsDescriptor(
    m: Record, hookKeys: seq<string>, id: int, k: string, token: nat,
    args: seq<Value>, impl: (nat, seq<Value>) -> Value)
    requires forall i, j :: 0 <= i < j < |hookKeys| ==> hookKeys[i] != hookKeys[j]
    requires k in hookKeys && k in m && m[k] == Fn(Closure(token)) && k !in InvalidNestedAttrs
    requires id != 0 && FindInfo(args).Some?
    ensures k in Filtered(m, hookKeys, id) && Filtered(m, hookKeys, id)[k].Fn?
    ensures var i := FindInfo(args).value;
            var inv := CallHook(Filtered(m, hookKeys, id)[k].callee, args, impl);
            && inv.calls == [Call(token, inv.args)]
            && IsInfo(inv.args[i]) && "nested" in inv.args[i].fields && inv.args[i].fields["nested"] == Num(id)
  {
    RemoveAllSpec(m, InvalidNestedAttrs);
    var stripped := if Truthy(Get(m, "nested")) then RemoveAll(m, InvalidNestedAttrs) else m;
    WrapHooksAt(stripped, hookKeys, id);
    assert k in Filtered(m, hookKeys, id);
    DistinctKeysWrapOnce(m, hookKeys, id, k);
    DescriptorTagged(token, id, args, impl);
  }
}
