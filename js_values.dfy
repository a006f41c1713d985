/** The JavaScript values the helpers handle, and the three operations on them
    that the helpers' traps perform: truthiness (`!current`), the loose
    comparison with null (`current != null`) and property lookup (`current[prop]`). */
module JsValues {

  /** A JavaScript value. Numbers are integers (with +Infinity for `length`);
      an object is identified by `id` and carries its own string-keyed
      properties; a function value is identified by `id`, and what it returns
      when applied is external code (see `Zest.Env`). */
  datatype Value =
    | Undefined
    | Null
    | Bool(b: bool)
    | Num(n: int)
    | Infinity
    | Str(s: string)
    | Obj(id: nat, props: map<string, Value>)
    | Func(id: nat)

  /** A property key as a proxy trap receives it: a string or a symbol. */
  datatype PropKey = Key(name: string) | Symbol(id: nat)

  /** JavaScript truthiness: `!v` is false exactly for these values. */
  predicate Truthy(v: Value) {
    match v
    case Undefined => false
    case Null => false
    case Bool(b) => b
    case Num(n) => n != 0
    case Str(s) => s != ""
    case _ => true
  }

  /** `v == null` under loose equality: true for null and undefined only. */
  predicate IsNullish(v: Value) {
    v.Undefined? || v.Null?
  }

  /** `v[key]` for a `v` that is not null or undefined (reading a member of
      those throws a TypeError, which the callers model): an object's own
      property, `undefined` otherwise. */
  function GetProperty(v: Value, key: PropKey): (r: Value)
    ensures r != Undefined ==> v.Obj? && key.Key? && key.name in v.props && r == v.props[key.name]
    ensures v.Obj? && key.Key? && key.name in v.props ==> r == v.props[key.name]
  {
    if v.Obj? && key.Key? && key.name in v.props then v.props[key.name] else Undefined
  }

  /** `v instanceof Function`. */
  predicate IsFunction(v: Value) {
    v.Func?
  }
}
