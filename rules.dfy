/**
 * `Rule.validate` (identical in dict_deserializer/deserializer.py:20-25 and
 * serializer_utils/deserializer.py:20-25) and the conformance test it delegates to
 * `typeguard.check_type`.
 */
module Rules {
  import opened Base
  import opened Values
  import opened Hierarchy

  /** `isinstance(v, b)` for a builtin class; as in Python, a bool is an int. */
  predicate BuiltinConforms(v: Value, b: BuiltinClass)
  {
    match b
    case NoneType => v.Null?
    case BoolType => v.Bool?
    case IntType => v.Int? || v.Bool?
    case StrType => v.Str?
    case ListType => v.List?
    case DictType => v.Dict?
  }

  /**
   * `check_type(key, v, t)` succeeds. A stand-in for typeguard, covering the shapes the
   * engine can meet: isinstance for classes, some arm for a Union, and for `List[...]`
   * a list every element of which conforms to every type argument.
   */
  predicate Conforms(h: Classes, v: Value, t: Type)
    decreases t
  {
    match t
    case Builtin(b) => BuiltinConforms(v, b)
    case Union(arms) => exists i :: 0 <= i < |arms| && Conforms(h, v, arms[i])
    case ListOf(args) =>
      v.List? && forall j, i :: 0 <= j < |v.items| && 0 <= i < |args| ==> Conforms(h, v.items[j], args[i])
    case Record(c) => v.Instance? && IsSubclass(h, v.cls, c)
  }

  /** `rule.validate(key, value)`. */
  function Validate(h: Classes, rule: Rule, value: Value): (r: Result<Value>)
    ensures r.Failure? <==> !Conforms(h, value, rule.ty)
    ensures r.Failure? ==> r.error == TypeError(NotConforming)
    ensures r.Success? && value.Null? ==> r.value == rule.default
    ensures r.Success? && !value.Null? ==> r.value == value
  {
    if !Conforms(h, value, rule.ty) then Failure(TypeError(NotConforming))
    else if value.Null? then Success(rule.default)
    else Success(value)
  }

  /** None conforms to `Optional[t]`, and a Union accepts whatever one of its arms accepts. */
  lemma NoneConformsToOptional(h: Classes, t: Type)
    ensures Conforms(h, Null, OptionalOf(t))
  {
    if t != Builtin(NoneType) {
      assert Conforms(h, Null, Union([t, Builtin(NoneType)]).arms[1]);
    }
  }

  /** A class-level value conforms to the `Optional[type(v)]` rule get_attrs gives it. */
  lemma {:induction false} ValueConformsToItsType(h: Classes, v: Value)
    requires v.Instance? ==> v.cls < |h|
    ensures Conforms(h, v, TypeOf(v))
    ensures Conforms(h, v, OptionalOf(TypeOf(v)))
  {
    if !v.Null? {
      assert Conforms(h, v, Union([TypeOf(v), Builtin(NoneType)]).arms[0]);
    }
  }
}
