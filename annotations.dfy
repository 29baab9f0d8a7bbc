/** dict_deserializer/annotations.py: discriminators and the `validated` property. */
module Annotations {
  import opened Base
  import opened Values

  /**
   * `KeyValueDiscriminator(key, value, has_value)` or `FunctionDiscriminator(matcher)`.
   * When no value was given, `value` holds Null in place of the module's sentinel;
   * `hasValue` is then false and `value` is never read.
   */
  datatype Discriminator =
    | KeyValue(key: string, value: Value, hasValue: bool)
    | Matcher(matcher: Subject -> Result<bool>)

  /**
   * `Discriminator.check(d)`. A key/value discriminator applied to a class object
   * performs `key not in cls`, which Python rejects with a TypeError.
   */
  function Check(dc: Discriminator, s: Subject): (r: Result<bool>)
    ensures dc.KeyValue? && s.Data? ==>
      r == Success(dc.key in s.entries && (dc.hasValue ==> s.entries[dc.key] == dc.value))
    ensures dc.KeyValue? && s.Data? && dc.key !in s.entries ==> r == Success(false)
    ensures dc.KeyValue? && s.ClassObj? ==> r == Failure(TypeError(NotIterable))
    ensures dc.Matcher? ==> r == dc.matcher(s)
  {
    match dc
    case KeyValue(key, value, hasValue) =>
      (match s
       case ClassObj(_) => Failure(TypeError(NotIterable))
       case Data(d) =>
         if key !in d then Success(false)
         else if hasValue then Success(d[key] == value)
         else Success(true))
    case Matcher(m) => m(s)
  }

  /**
   * The discriminator `discriminate(key, value, matcher)` attaches, if any. `value` is
   * None when the argument was omitted (the sentinel) and Some(Null) for an explicit None.
   */
  function NewDiscriminator(key: Option<string>, value: Option<Value>,
                            matcher: Option<Subject -> Result<bool>>): (r: Option<Discriminator>)
    ensures key.Some? ==>
      r.Some? && r.value.KeyValue? && r.value.key == key.value &&
      r.value.hasValue == value.Some? && (value.Some? ==> r.value.value == value.value)
    ensures key.None? && matcher.Some? ==> r.Some? && r.value.Matcher? && r.value.matcher == matcher.value
    ensures key.None? && matcher.None? ==> r.None?
  {
    if key.Some? then
      Some(KeyValue(key.value, if value.Some? then value.value else Null, value.Some?))
    else if matcher.Some? then Some(Matcher(matcher.value))
    else None
  }

  /**
   * The property built by `validated(default)(fn)`: one cell, shared by every instance,
   * whose setter runs the validator `fn` before storing.
   */
  class Validated {
    const default: Value
    const fn: Value -> Outcome
    var cell: Value
    /** The values the setter has accepted, oldest first. */
    ghost var accepted: seq<Value>

    ghost predicate Valid()
      reads this
    {
      cell == if accepted == [] then default else accepted[|accepted| - 1]
    }

    constructor (default: Value, fn: Value -> Outcome)
      ensures Valid() && accepted == []
      ensures this.default == default && this.fn == fn
    {
      this.default := default;
      this.fn := fn;
      cell := default;
      accepted := [];
    }

    /** The getter; it ignores the instance it is read through. */
    function Get(instance: Value): (r: Value)
      reads this
      requires Valid()
      ensures r == if accepted == [] then default else accepted[|accepted| - 1]
    {
      cell
    }

    /** The setter: a value the validator rejects leaves the cell unchanged. */
    method Set(instance: Value, v: Value) returns (o: Outcome)
      requires Valid()
      modifies this
      ensures Valid()
      ensures o == fn(v)
      ensures accepted == if o.Pass? then old(accepted) + [v] else old(accepted)
    {
      o := fn(v);
      if o.Pass? {
        cell := v;
        accepted := accepted + [v];
      }
    }
  }
}
