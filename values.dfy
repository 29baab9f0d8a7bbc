/** Untyped input data, the closed set of type descriptors, and type rules. */
module Values {
  import opened Base

  /** A class is named by its position in the hierarchy (its definition order). */
  type ClassId = nat

  /**
   * A Python value as the deserializer sees it: the scalars and containers of parsed
   * JSON, plus instances of Deserializable classes (attribute name to value).
   */
  datatype Value =
    | Null
    | Bool(b: bool)
    | Int(i: int)
    | Str(s: string)
    | List(items: seq<Value>)
    | Dict(entries: map<string, Value>)
    | Instance(cls: ClassId, attrs: map<string, Value>)

  /** The builtin classes a value can have; `type(v)` of a non-instance. */
  datatype BuiltinClass = NoneType | BoolType | IntType | StrType | ListType | DictType

  /**
   * A type expression: a builtin class, `typing.Union` (so also `Optional`),
   * `typing.List[...]` with its argument tuple, or a Deserializable class.
   */
  datatype Type =
    | Builtin(b: BuiltinClass)
    | Union(arms: seq<Type>)
    | ListOf(args: seq<Type>)
    | Record(cls: ClassId)

  /** `Rule(type, default)`. */
  datatype Rule = Rule(ty: Type, default: Value)

  /** A class annotation: either a bare type or a `Rule` object. */
  datatype Annotation = TypeAnn(t: Type) | RuleAnn(rule: Rule)

  /** What a discriminator is applied to: the input dict, or (below the first level) a class object. */
  datatype Subject = Data(entries: map<string, Value>) | ClassObj(cls: ClassId)

  /** `type(v)` as a type expression. */
  function TypeOf(v: Value): (t: Type)
    ensures v.Instance? <==> t.Record?
    ensures t.Record? ==> t.cls == v.cls
  {
    match v
    case Null => Builtin(NoneType)
    case Bool(_) => Builtin(BoolType)
    case Int(_) => Builtin(IntType)
    case Str(_) => Builtin(StrType)
    case List(_) => Builtin(ListType)
    case Dict(_) => Builtin(DictType)
    case Instance(c, _) => Record(c)
  }

  /** `Optional[t]`, which `typing` collapses to `NoneType` when `t` is `NoneType`. */
  function OptionalOf(t: Type): Type
  {
    if t == Builtin(NoneType) then t else Union([t, Builtin(NoneType)])
  }

  /** `Rule.to_rule`: a Rule is kept, a bare type gets default None. */
  function ToRule(a: Annotation): Rule
  {
    match a
    case TypeAnn(t) => Rule(t, Null)
    case RuleAnn(r) => r
  }

  /** Every class named in `t` is one of the first `n` classes. */
  predicate TypeIn(t: Type, n: nat)
  {
    match t
    case Builtin(_) => true
    case Union(arms) => forall i :: 0 <= i < |arms| ==> TypeIn(arms[i], n)
    case ListOf(args) => forall i :: 0 <= i < |args| ==> TypeIn(args[i], n)
    case Record(c) => c < n
  }
}
