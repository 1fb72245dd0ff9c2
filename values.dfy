/** JavaScript values as the configuration core sees them, and the few library
    predicates over them (truthiness, `isPlainObject`, `hasOwn`, object spread). */
module Values {

  datatype Option<+T> = None | Some(value: T)

  /** A function value. `Closure` is any function whose body is outside this
      model (a user hook, a default no-op, the default container factory);
      `NestedHook` is the adapter that `filterNestedConfig` installs around a
      lifecycle hook, tagging descriptor arguments with the nesting id. */
  datatype Callable =
    | Closure(token: nat)
    | NestedHook(inner: Callable, id: int)

  datatype Value =
    | Undefined
    | Null
    | Bool(b: bool)
    | Num(n: int)
    | Str(s: string)
    | Arr(items: seq<Value>)
    | Obj(fields: map<string, Value>)
    | Fn(callee: Callable)

  /** A configuration record: an object's own enumerable properties. */
  type Record = map<string, Value>

  /** Property read: a missing key reads as `undefined`. */
  function Get(m: Record, k: string): Value
  {
    if k in m then m[k] else Undefined
  }

  /** JavaScript truthiness (numbers are integers here, so NaN does not arise). */
  predicate Truthy(v: Value)
    // the falsy values are exactly undefined, null, false, 0 and ''
    ensures Truthy(v) <==> !(v == Undefined || v == Null || v == Bool(false) || v == Num(0) || v == Str(""))
  {
    match v
    case Undefined => false
    case Null => false
    case Bool(b) => b
    case Num(n) => n != 0
    case Str(s) => s != ""
    case Arr(_) => true
    case Obj(_) => true
    case Fn(_) => true
  }

  /** `isPlainObject`: only object literals qualify, not arrays or functions. */
  predicate IsPlainObject(v: Value)
    ensures IsPlainObject(v) ==> Truthy(v)
    ensures v.Arr? || v.Fn? || v == Null ==> !IsPlainObject(v)
  {
    v.Obj?
  }

  /** `hasOwn(v, k)` for a plain object. */
  predicate HasOwn(v: Value, k: string)
    ensures HasOwn(v, k) ==> IsPlainObject(v)
    ensures IsPlainObject(v) ==> (HasOwn(v, k) <==> k in v.fields)
  {
    v.Obj? && k in v.fields
  }

  /** The own properties copied by `{ ...v }` when `v` is a configuration
      object; other operands contribute no properties in this model. */
  function Spread(v: Value): (s: Record)
    // exactly the own properties, with their values
    ensures forall k :: k in s ==> HasOwn(v, k) && s[k] == v.fields[k]
    ensures forall k :: HasOwn(v, k) ==> k in s
  {
    if v.Obj? then v.fields else map[]
  }

  /** A JavaScript object whose properties are changed in place. */
  class ConfigObject {
    var fields: Record

    constructor (init: Record)
      ensures fields == init
    {
      fields := init;
    }
  }
}
