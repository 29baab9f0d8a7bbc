/**
 * `deserialize(rule, data, try_all, key)` (dict_deserializer/deserializer.py:104-148): the
 * coercion engine. `fuel` is the number of nested `deserialize` frames Python still allows;
 * when it runs out the call fails with RecursionError, which nothing catches.
 */
module Engine {
  import opened Base
  import opened Values
  import opened ODicts
  import opened Hierarchy
  import opened Rules
  import opened Fields
  import opened Resolver

  /** The argument of a field at line 143: the data's entry when present, else the rule's default. */
  function FieldArg(d: map<string, Value>, k: string, r: Rule): Value
  {
    if k in d then d[k] else r.default
  }

  /** deserialize(rule, data, try_all). */
  function Deserialize(h: Classes, fuel: nat, rule: Rule, data: Value, tryAll: bool): Result<Value>
    requires WellFormed(h) && TypeIn(rule.ty, |h|)
    decreases fuel, 2, 0
  {
    if fuel == 0 then Failure(RecursionError)
    else
      var v := Validate(h, rule, data);
      if v.Success? then v
      else
        match rule.ty
        case Union(arms) => Arms(h, fuel - 1, arms, 0, data, tryAll)
        case ListOf(args) =>
          if |args| != 1 then Failure(TypeError(ListArity))
          else if !data.List? then Failure(TypeError(NotAList))
          else Items(h, fuel - 1, args[0], data.items, 0, [], tryAll)
        case Record(c) =>
          if !data.Dict? then Failure(TypeError(NotADict))
          else RecordBranch(h, fuel - 1, c, data.entries, tryAll)
        case Builtin(_) => Failure(TypeError(NoCandidate))
  }

  /** The record branch at lines 136-146, for dict data. */
  function RecordBranch(h: Classes, fuel: nat, c: ClassId, d: map<string, Value>, tryAll: bool): Result<Value>
    requires WellFormed(h) && c < |h|
    decreases fuel + 1, 1, 0
  {
    match Resolve(h, c, Data(d), tryAll)
    case Failure(e) => Failure(e)
    case Success(cls) =>
      if h[cls].isAbstract then Failure(TypeError(AbstractClass))
      else
        match GetAttrs(h, cls)
        case Failure(e) => Failure(e)
        case Success(fs) =>
          RulesInAt(fs, |h|);
          Build(h, fuel, cls, fs, d, 0, map[], tryAll)
  }

  /** The Union loop at lines 112-117 from arm `i` on: only a TypeError moves to the next arm. */
  function Arms(h: Classes, fuel: nat, arms: seq<Type>, i: nat, data: Value, tryAll: bool): Result<Value>
    requires WellFormed(h) && TypeIn(Union(arms), |h|)
    decreases fuel + 1, 0, |arms| - i
  {
    if i >= |arms| then Failure(TypeError(NoUnionArm))
    else
      var r := Deserialize(h, fuel, Rule(arms[i], Null), data, tryAll);
      if r.Success? || !r.error.IsTypeError() then r
      else Arms(h, fuel, arms, i + 1, data, tryAll)
  }

  /** The List loop at lines 127-130 from element `i` on, `acc` holding the results so far. */
  function Items(h: Classes, fuel: nat, t: Type, items: seq<Value>, i: nat, acc: seq<Value>, tryAll: bool)
    : Result<Value>
    requires WellFormed(h) && TypeIn(t, |h|)
    decreases fuel + 1, 0, |items| - i
  {
    if i >= |items| then Success(List(acc))
    else
      match Deserialize(h, fuel, Rule(t, Null), items[i], tryAll)
      case Failure(e) => Failure(e)
      case Success(v) => Items(h, fuel, t, items, i + 1, acc + [v], tryAll)
  }

  /** The field loop at lines 142-144 from field `i` on, `attrs` holding the attributes set so far. */
  function Build(h: Classes, fuel: nat, cls: ClassId, fs: ODict<Rule>, d: map<string, Value>, i: nat,
                 attrs: map<string, Value>, tryAll: bool): Result<Value>
    requires WellFormed(h) && cls < |h|
    requires forall j :: 0 <= j < |fs| ==> TypeIn(fs[j].1.ty, |h|)
    decreases fuel + 1, 0, |fs| - i
  {
    if i >= |fs| then Success(Instance(cls, attrs))
    else
      match FieldResult(h, fuel, cls, d, fs[i].0, fs[i].1, tryAll)
      case Failure(e) => Failure(e)
      case Success(v) => Build(h, fuel, cls, fs, d, i + 1, Store(h, cls, attrs, fs[i].0, v), tryAll)
  }

  /** One field at lines 143-144: coerce its argument, then `setattr` it. */
  function FieldResult(h: Classes, fuel: nat, cls: ClassId, d: map<string, Value>, k: string, r: Rule,
                       tryAll: bool): Result<Value>
    requires WellFormed(h) && cls < |h| && TypeIn(r.ty, |h|)
    decreases fuel + 1, 0, 0
  {
    match Deserialize(h, fuel, r, FieldArg(d, k, r), tryAll)
    case Failure(e) => Failure(e)
    case Success(v) =>
      match SetAttr(h, cls, k, v)
      case Fail(e) => Failure(e)
      case Pass => Success(v)
  }

  lemma {:induction false} RulesInAt(fs: ODict<Rule>, n: nat)
    requires RulesIn(fs, n)
    ensures forall j :: 0 <= j < |fs| ==> TypeIn(fs[j].1.ty, n)
  {
    forall j | 0 <= j < |fs|
      ensures TypeIn(fs[j].1.ty, n)
    {
      ValueAt(fs, j);
    }
  }

  lemma {:induction false} ValueAt<V>(d: ODict<V>, j: nat)
    requires j < |d|
    ensures d[j].1 in ValueSet(d)
  {
    if j > 0 {
      ValueAt(d[1..], j - 1);
    }
  }

  /**
   * deserialize as the code runs it: loops over the Union arms, the list elements and the
   * fields, with `setattr` running the setters of `validated` properties. The result is the
   * one `Deserialize` specifies; the cells keep their invariant and only gain values.
   */
  method DeserializeM(h: Classes, fuel: nat, rule: Rule, data: Value, tryAll: bool) returns (r: Result<Value>)
    requires WellFormed(h) && TypeIn(rule.ty, |h|)
    requires forall p :: p in Cells(h) ==> p.Valid()
    modifies Cells(h)
    ensures r == Deserialize(h, fuel, rule, data, tryAll)
    ensures forall p :: p in Cells(h) ==> p.Valid() && old(p.accepted) <= p.accepted
    decreases fuel, 1
  {
    if fuel == 0 {
      return Failure(RecursionError);
    }
    r := Validate(h, rule, data);
    if r.Success? {
      return;
    }
    match rule.ty {
      case Union(arms) =>
        r := ArmsM(h, fuel - 1, arms, data, tryAll);
      case ListOf(args) =>
        if |args| != 1 {
          return Failure(TypeError(ListArity));
        }
        if !data.List? {
          return Failure(TypeError(NotAList));
        }
        r := ItemsM(h, fuel - 1, args[0], data.items, tryAll);
      case Record(c) =>
        if !data.Dict? {
          return Failure(TypeError(NotADict));
        }
        r := RecordBranchM(h, fuel - 1, c, data.entries, tryAll);
      case Builtin(_) =>
        return Failure(TypeError(NoCandidate));
    }
  }

  /** The Union loop at lines 112-117: only a TypeError moves on to the next arm. */
  method ArmsM(h: Classes, fuel: nat, arms: seq<Type>, data: Value, tryAll: bool) returns (r: Result<Value>)
    requires WellFormed(h) && TypeIn(Union(arms), |h|)
    requires forall p :: p in Cells(h) ==> p.Valid()
    modifies Cells(h)
    ensures r == Arms(h, fuel, arms, 0, data, tryAll)
    ensures forall p :: p in Cells(h) ==> p.Valid() && old(p.accepted) <= p.accepted
    decreases fuel + 1, 0
  {
    var i := 0;
    while i < |arms|
      invariant i <= |arms|
      invariant Arms(h, fuel, arms, 0, data, tryAll) == Arms(h, fuel, arms, i, data, tryAll)
      invariant forall p :: p in Cells(h) ==> p.Valid() && old(p.accepted) <= p.accepted
    {
      var a := DeserializeM(h, fuel, Rule(arms[i], Null), data, tryAll);
      if a.Success? || !a.error.IsTypeError() {
        return a;
      }
      i := i + 1;
    }
    return Failure(TypeError(NoUnionArm));
  }

  /** The List loop at lines 127-130: coerce every element, in order. */
  method ItemsM(h: Classes, fuel: nat, t: Type, items: seq<Value>, tryAll: bool) returns (r: Result<Value>)
    requires WellFormed(h) && TypeIn(t, |h|)
    requires forall p :: p in Cells(h) ==> p.Valid()
    modifies Cells(h)
    ensures r == Items(h, fuel, t, items, 0, [], tryAll)
    ensures forall p :: p in Cells(h) ==> p.Valid() && old(p.accepted) <= p.accepted
    decreases fuel + 1, 0
  {
    var result := [];
    for i := 0 to |items|
      invariant Items(h, fuel, t, items, 0, [], tryAll) == Items(h, fuel, t, items, i, result, tryAll)
      invariant forall p :: p in Cells(h) ==> p.Valid() && old(p.accepted) <= p.accepted
    {
      var v := DeserializeM(h, fuel, Rule(t, Null), items[i], tryAll);
      if v.Failure? {
        return Failure(v.error);
      }
      result := result + [v.value];
    }
    return Success(List(result));
  }

  /** The class branch at lines 136-146: resolve, refuse an abstract class, then set every field. */
  method RecordBranchM(h: Classes, fuel: nat, c: ClassId, d: map<string, Value>, tryAll: bool) returns (r: Result<Value>)
    requires WellFormed(h) && c < |h|
    requires forall p :: p in Cells(h) ==> p.Valid()
    modifies Cells(h)
    ensures r == RecordBranch(h, fuel, c, d, tryAll)
    ensures forall p :: p in Cells(h) ==> p.Valid() && old(p.accepted) <= p.accepted
    decreases fuel + 1, 0
  {
    var cls := Resolve(h, c, Data(d), tryAll);
    if cls.Failure? {
      return Failure(cls.error);
    }
    if h[cls.value].isAbstract {
      return Failure(TypeError(AbstractClass));
    }
    var fs := GetAttrsM(h, cls.value);
    if fs.Failure? {
      return Failure(fs.error);
    }
    RulesInAt(fs.value, |h|);
    var attrs := map[];
    for i := 0 to |fs.value|
      invariant RecordBranch(h, fuel, c, d, tryAll) == Build(h, fuel, cls.value, fs.value, d, i, attrs, tryAll)
      invariant forall p :: p in Cells(h) ==> p.Valid() && old(p.accepted) <= p.accepted
    {
      var (k, rl) := fs.value[i];
      var v := DeserializeM(h, fuel, rl, FieldArg(d, k, rl), tryAll);
      if v.Failure? {
        return Failure(v.error);
      }
      var o := SetAttrM(h, cls.value, Instance(cls.value, attrs), k, v.value);
      if o.Fail? {
        return Failure(o.error);
      }
      attrs := Store(h, cls.value, attrs, k, v.value);
    }
    return Success(Instance(cls.value, attrs));
  }
}

/** What `deserialize` promises, stated over its specification. */
module EngineFacts {
  import opened Base
  import opened Values
  import opened ODicts
  import opened Hierarchy
  import opened Rules
  import opened Fields
  import opened Resolver
  import opened Engine

  /** A value that already conforms is returned as it is, None becoming the default (lines 106-109). */
  lemma ConformingShortcut(h: Classes, fuel: nat, rule: Rule, data: Value, tryAll: bool)
    requires WellFormed(h) && TypeIn(rule.ty, |h|) && fuel > 0
    requires Conforms(h, data, rule.ty)
    ensures Deserialize(h, fuel, rule, data, tryAll) == Success(if data.Null? then rule.default else data)
  {
  }

  /** A List rule with other than one argument, a non-list for a List, a non-dict for a class, or a builtin type fails. */
  lemma StructuralErrors(h: Classes, fuel: nat, rule: Rule, data: Value, tryAll: bool)
    requires WellFormed(h) && TypeIn(rule.ty, |h|) && fuel > 0
    requires !Conforms(h, data, rule.ty)
    ensures rule.ty.ListOf? && |rule.ty.args| != 1 ==>
      Deserialize(h, fuel, rule, data, tryAll) == Failure(TypeError(ListArity))
    ensures rule.ty.ListOf? && |rule.ty.args| == 1 && !data.List? ==>
      Deserialize(h, fuel, rule, data, tryAll) == Failure(TypeError(NotAList))
    ensures rule.ty.Record? && !data.Dict? ==>
      Deserialize(h, fuel, rule, data, tryAll) == Failure(TypeError(NotADict))
    ensures rule.ty.Builtin? ==>
      Deserialize(h, fuel, rule, data, tryAll) == Failure(TypeError(NoCandidate))
  {
  }

  /** Arms failing with TypeError are passed over. */
  lemma {:induction false} ArmsSkip(h: Classes, fuel: nat, arms: seq<Type>, data: Value, tryAll: bool, j: nat)
    requires WellFormed(h) && TypeIn(Union(arms), |h|) && j <= |arms|
    requires forall l :: 0 <= l < j ==>
      var r := Deserialize(h, fuel, Rule(arms[l], Null), data, tryAll); r.Failure? && r.error.TypeError?
    ensures Arms(h, fuel, arms, 0, data, tryAll) == Arms(h, fuel, arms, j, data, tryAll)
    decreases j
  {
    if j > 0 {
      ArmsSkip(h, fuel, arms, data, tryAll, j - 1);
    }
  }

  /**
   * A non-conforming value under a Union: the first arm (left to right) that succeeds or
   * fails with anything but a TypeError decides the result (lines 112-116).
   */
  lemma UnionFirstDecisive(h: Classes, fuel: nat, rule: Rule, data: Value, tryAll: bool, j: nat)
    requires WellFormed(h) && TypeIn(rule.ty, |h|) && fuel > 0
    requires rule.ty.Union? && !Conforms(h, data, rule.ty) && j < |rule.ty.arms|
    requires forall l :: 0 <= l < j ==>
      var r := Deserialize(h, fuel - 1, Rule(rule.ty.arms[l], Null), data, tryAll); r.Failure? && r.error.TypeError?
    requires var r := Deserialize(h, fuel - 1, Rule(rule.ty.arms[j], Null), data, tryAll);
      r.Success? || !r.error.TypeError?
    ensures Deserialize(h, fuel, rule, data, tryAll) ==
            Deserialize(h, fuel - 1, Rule(rule.ty.arms[j], Null), data, tryAll)
  {
    ArmsSkip(h, fuel - 1, rule.ty.arms, data, tryAll, j);
  }

  /** A non-conforming value under a Union every arm of which fails with TypeError is a TypeError (line 117). */
  lemma UnionNoArm(h: Classes, fuel: nat, rule: Rule, data: Value, tryAll: bool)
    requires WellFormed(h) && TypeIn(rule.ty, |h|) && fuel > 0
    requires rule.ty.Union? && !Conforms(h, data, rule.ty)
    requires forall l :: 0 <= l < |rule.ty.arms| ==>
      var r := Deserialize(h, fuel - 1, Rule(rule.ty.arms[l], Null), data, tryAll); r.Failure? && r.error.TypeError?
    ensures Deserialize(h, fuel, rule, data, tryAll) == Failure(TypeError(NoUnionArm))
  {
    ArmsSkip(h, fuel - 1, rule.ty.arms, data, tryAll, |rule.ty.arms|);
  }

  /** The List loop from element `i` on: it succeeds iff every element does, element by element. */
  lemma ItemsSpec(h: Classes, fuel: nat, t: Type, items: seq<Value>, i: nat, acc: seq<Value>, tryAll: bool)
    requires WellFormed(h) && TypeIn(t, |h|) && i <= |items|
    ensures var r := Items(h, fuel, t, items, i, acc, tryAll);
      && (r.Success? <==> forall j :: i <= j < |items| ==> Deserialize(h, fuel, Rule(t, Null), items[j], tryAll).Success?)
      && (r.Success? ==>
            && r.value.List? && |r.value.items| == |acc| + |items| - i && r.value.items[..|acc|] == acc
            && forall j :: i <= j < |items| ==>
                 Deserialize(h, fuel, Rule(t, Null), items[j], tryAll) == Success(r.value.items[|acc| + j - i]))
      && (r.Failure? ==>
            exists j :: i <= j < |items| && Deserialize(h, fuel, Rule(t, Null), items[j], tryAll) == r &&
              forall l :: i <= l < j ==> Deserialize(h, fuel, Rule(t, Null), items[l], tryAll).Success?)
  {
    ItemsOutcome(h, fuel, t, items, i, acc, tryAll);
    ItemsValues(h, fuel, t, items, i, acc, tryAll);
  }

  /** Whether the element loop succeeds, and which element fails first when it does not. */
  lemma {:induction false} ItemsOutcome(h: Classes, fuel: nat, t: Type, items: seq<Value>, i: nat, acc: seq<Value>,
                                        tryAll: bool)
    requires WellFormed(h) && TypeIn(t, |h|) && i <= |items|
    ensures var r := Items(h, fuel, t, items, i, acc, tryAll);
      && (r.Success? <==> forall j :: i <= j < |items| ==> Deserialize(h, fuel, Rule(t, Null), items[j], tryAll).Success?)
      && (r.Failure? ==>
            exists j :: i <= j < |items| && Deserialize(h, fuel, Rule(t, Null), items[j], tryAll) == r &&
              forall l :: i <= l < j ==> Deserialize(h, fuel, Rule(t, Null), items[l], tryAll).Success?)
    decreases |items| - i
  {
    if i < |items| {
      var e := Deserialize(h, fuel, Rule(t, Null), items[i], tryAll);
      if e.Success? {
        ItemsOutcome(h, fuel, t, items, i + 1, acc + [e.value], tryAll);
      }
    }
  }

  /** A successful element loop appends one coerced value per remaining element, in order. */
  lemma {:induction false} ItemsValues(h: Classes, fuel: nat, t: Type, items: seq<Value>, i: nat, acc: seq<Value>,
                                       tryAll: bool)
    requires WellFormed(h) && TypeIn(t, |h|) && i <= |items|
    ensures var r := Items(h, fuel, t, items, i, acc, tryAll);
      r.Success? ==>
        && r.value.List? && |r.value.items| == |acc| + |items| - i && r.value.items[..|acc|] == acc
        && forall j :: i <= j < |items| ==>
             Deserialize(h, fuel, Rule(t, Null), items[j], tryAll) == Success(r.value.items[|acc| + j - i])
    decreases |items| - i
  {
    if i < |items| {
      var e := Deserialize(h, fuel, Rule(t, Null), items[i], tryAll);
      if e.Success? {
        ItemsValues(h, fuel, t, items, i + 1, acc + [e.value], tryAll);
        var r := Items(h, fuel, t, items, i, acc, tryAll);
        if r.Success? {
          assert r.value.items[..|acc| + 1] == acc + [e.value];
          assert r.value.items[..|acc|] == (acc + [e.value])[..|acc|];
        }
      }
    }
  }

  /**
   * A non-conforming list under `List[t]` is coerced element by element (lines 126-130):
   * on success the result has the same length and element `i` is the coercion of element `i`;
   * otherwise the first element that fails gives the error.
   */
  lemma ListElementwise(h: Classes, fuel: nat, rule: Rule, data: Value, tryAll: bool)
    requires WellFormed(h) && TypeIn(rule.ty, |h|) && fuel > 0
    requires rule.ty.ListOf? && |rule.ty.args| == 1 && data.List? && !Conforms(h, data, rule.ty)
    ensures Elementwise(h, fuel - 1, rule.ty.args[0], data.items, Deserialize(h, fuel, rule, data, tryAll), tryAll)
  {
    ListUnfold(h, fuel, rule, data, tryAll);
    ItemsFresh(h, fuel - 1, rule.ty.args[0], data.items, tryAll);
  }

  /**
   * `r` is what coercing `items` one by one with `t` gives: a list of the same length whose
   * element `i` is the coercion of element `i` when every element succeeds, and otherwise the
   * error of the first element that fails.
   */
  ghost predicate Elementwise(h: Classes, fuel: nat, t: Type, items: seq<Value>, r: Result<Value>, tryAll: bool)
    requires WellFormed(h) && TypeIn(t, |h|)
  {
    && (r.Success? <==> forall i :: 0 <= i < |items| ==> Deserialize(h, fuel, Rule(t, Null), items[i], tryAll).Success?)
    && (r.Success? ==>
          && r.value.List? && |r.value.items| == |items|
          && forall i :: 0 <= i < |items| ==>
               Deserialize(h, fuel, Rule(t, Null), items[i], tryAll) == Success(r.value.items[i]))
    && (r.Failure? ==>
          exists i :: 0 <= i < |items| && Deserialize(h, fuel, Rule(t, Null), items[i], tryAll) == r &&
            forall l :: 0 <= l < i ==> Deserialize(h, fuel, Rule(t, Null), items[l], tryAll).Success?)
  }

  /** The element loop started on an empty list is elementwise. */
  lemma ItemsFresh(h: Classes, fuel: nat, t: Type, items: seq<Value>, tryAll: bool)
    requires WellFormed(h) && TypeIn(t, |h|)
    ensures Elementwise(h, fuel, t, items, Items(h, fuel, t, items, 0, [], tryAll), tryAll)
  {
    ItemsSpec(h, fuel, t, items, 0, [], tryAll);
  }

  /** A non-conforming dict under a class goes to the record branch with one frame fewer. */
  lemma RecordUnfold(h: Classes, fuel: nat, rule: Rule, data: Value, tryAll: bool)
    requires WellFormed(h) && TypeIn(rule.ty, |h|) && fuel > 0
    requires rule.ty.Record? && data.Dict? && !Conforms(h, data, rule.ty)
    ensures Deserialize(h, fuel, rule, data, tryAll) == RecordBranch(h, fuel - 1, rule.ty.cls, data.entries, tryAll)
  {
    assert !Validate(h, rule, data).Success?;
  }

  /** A non-conforming list under `List[t]` goes to the element loop with one frame fewer. */
  lemma ListUnfold(h: Classes, fuel: nat, rule: Rule, data: Value, tryAll: bool)
    requires WellFormed(h) && TypeIn(rule.ty, |h|) && fuel > 0
    requires rule.ty.ListOf? && |rule.ty.args| == 1 && data.List? && !Conforms(h, data, rule.ty)
    ensures Deserialize(h, fuel, rule, data, tryAll) == Items(h, fuel - 1, rule.ty.args[0], data.items, 0, [], tryAll)
  {
    assert !Validate(h, rule, data).Success?;
  }

  /** The field loop from field `i` on: it succeeds iff every field does, and sets each one. */
  lemma BuildSpec(h: Classes, fuel: nat, cls: ClassId, fs: ODict<Rule>, d: map<string, Value>,
                  i: nat, attrs: map<string, Value>, tryAll: bool)
    requires WellFormed(h) && cls < |h| && i <= |fs| && DistinctKeys(fs)
    requires forall j :: 0 <= j < |fs| ==> TypeIn(fs[j].1.ty, |h|)
    ensures var r := Build(h, fuel, cls, fs, d, i, attrs, tryAll);
      && (r.Success? <==> forall j :: i <= j < |fs| ==> FieldResult(h, fuel, cls, d, fs[j].0, fs[j].1, tryAll).Success?)
      && (r.Success? ==>
            && r.value.Instance? && r.value.cls == cls
            && (forall k :: k in r.value.attrs <==>
                  k in attrs || (Target(h, cls, k).None? && exists j :: i <= j < |fs| && fs[j].0 == k))
            && (forall k :: k in attrs && (Target(h, cls, k).Some? || forall j :: i <= j < |fs| ==> fs[j].0 != k) ==>
                  r.value.attrs[k] == attrs[k])
            && forall j :: i <= j < |fs| ==>
                 var f := FieldResult(h, fuel, cls, d, fs[j].0, fs[j].1, tryAll);
                 f.Success? && Landed(h, cls, r.value.attrs, fs[j].0, f.value))
      && (r.Failure? ==>
            exists j :: i <= j < |fs| && FieldResult(h, fuel, cls, d, fs[j].0, fs[j].1, tryAll) == r &&
              forall l :: i <= l < j ==> FieldResult(h, fuel, cls, d, fs[l].0, fs[l].1, tryAll).Success?)
  {
    BuildOutcome(h, fuel, cls, fs, d, i, attrs, tryAll);
    BuildAttrs(h, fuel, cls, fs, d, i, attrs, tryAll);
  }

  /** Whether the field loop succeeds, and which field fails first when it does not. */
  lemma {:induction false} BuildOutcome(h: Classes, fuel: nat, cls: ClassId, fs: ODict<Rule>, d: map<string, Value>,
                                        i: nat, attrs: map<string, Value>, tryAll: bool)
    requires WellFormed(h) && cls < |h| && i <= |fs|
    requires forall j :: 0 <= j < |fs| ==> TypeIn(fs[j].1.ty, |h|)
    ensures var r := Build(h, fuel, cls, fs, d, i, attrs, tryAll);
      && (r.Success? <==> forall j :: i <= j < |fs| ==> FieldResult(h, fuel, cls, d, fs[j].0, fs[j].1, tryAll).Success?)
      && (r.Failure? ==>
            exists j :: i <= j < |fs| && FieldResult(h, fuel, cls, d, fs[j].0, fs[j].1, tryAll) == r &&
              forall l :: i <= l < j ==> FieldResult(h, fuel, cls, d, fs[l].0, fs[l].1, tryAll).Success?)
    decreases |fs| - i
  {
    if i < |fs| {
      var f := FieldResult(h, fuel, cls, d, fs[i].0, fs[i].1, tryAll);
      if f.Success? {
        BuildOutcome(h, fuel, cls, fs, d, i + 1, Store(h, cls, attrs, fs[i].0, f.value), tryAll);
      }
    }
  }

  /** The instance a successful field loop builds. */
  lemma BuildAttrs(h: Classes, fuel: nat, cls: ClassId, fs: ODict<Rule>, d: map<string, Value>,
                   i: nat, attrs: map<string, Value>, tryAll: bool)
    requires WellFormed(h) && cls < |h| && i <= |fs| && DistinctKeys(fs)
    requires forall j :: 0 <= j < |fs| ==> TypeIn(fs[j].1.ty, |h|)
    ensures var r := Build(h, fuel, cls, fs, d, i, attrs, tryAll);
      r.Success? ==>
        && r.value.Instance? && r.value.cls == cls
        && (forall k :: k in r.value.attrs <==>
              k in attrs || (Target(h, cls, k).None? && exists j :: i <= j < |fs| && fs[j].0 == k))
        && (forall k :: k in attrs && (Target(h, cls, k).Some? || forall j :: i <= j < |fs| ==> fs[j].0 != k) ==>
              r.value.attrs[k] == attrs[k])
        && forall j :: i <= j < |fs| ==>
             var f := FieldResult(h, fuel, cls, d, fs[j].0, fs[j].1, tryAll);
             f.Success? && Landed(h, cls, r.value.attrs, fs[j].0, f.value)
  {
    BuildKeys(h, fuel, cls, fs, d, i, attrs, tryAll);
    BuildValues(h, fuel, cls, fs, d, i, attrs, tryAll);
  }

  /** A successful field loop adds exactly the remaining fields' keys and keeps every other attribute. */
  lemma {:induction false} BuildKeys(h: Classes, fuel: nat, cls: ClassId, fs: ODict<Rule>, d: map<string, Value>,
                                     i: nat, attrs: map<string, Value>, tryAll: bool)
    requires WellFormed(h) && cls < |h| && i <= |fs|
    requires forall j :: 0 <= j < |fs| ==> TypeIn(fs[j].1.ty, |h|)
    ensures var r := Build(h, fuel, cls, fs, d, i, attrs, tryAll);
      r.Success? ==>
        && r.value.Instance? && r.value.cls == cls
        && (forall k :: k in r.value.attrs <==>
              k in attrs || (Target(h, cls, k).None? && exists j :: i <= j < |fs| && fs[j].0 == k))
        && (forall k :: k in attrs && (Target(h, cls, k).Some? || forall j :: i <= j < |fs| ==> fs[j].0 != k) ==>
              r.value.attrs[k] == attrs[k])
    decreases |fs| - i
  {
    var r := Build(h, fuel, cls, fs, d, i, attrs, tryAll);
    if i < |fs| && r.Success? {
      var f := FieldResult(h, fuel, cls, d, fs[i].0, fs[i].1, tryAll);
      var attrs' := Store(h, cls, attrs, fs[i].0, f.value);
      assert r == Build(h, fuel, cls, fs, d, i + 1, attrs', tryAll);
      BuildKeys(h, fuel, cls, fs, d, i + 1, attrs', tryAll);
    }
  }

  /** A successful field loop stores, under each remaining field's key, the value that field produced. */
  lemma {:induction false} BuildValues(h: Classes, fuel: nat, cls: ClassId, fs: ODict<Rule>, d: map<string, Value>,
                                       i: nat, attrs: map<string, Value>, tryAll: bool)
    requires WellFormed(h) && cls < |h| && i <= |fs| && DistinctKeys(fs)
    requires forall j :: 0 <= j < |fs| ==> TypeIn(fs[j].1.ty, |h|)
    ensures var r := Build(h, fuel, cls, fs, d, i, attrs, tryAll);
      r.Success? ==>
        && r.value.Instance?
        && forall j :: i <= j < |fs| ==>
             var f := FieldResult(h, fuel, cls, d, fs[j].0, fs[j].1, tryAll);
             f.Success? && Landed(h, cls, r.value.attrs, fs[j].0, f.value)
    decreases |fs| - i
  {
    var r := Build(h, fuel, cls, fs, d, i, attrs, tryAll);
    if i < |fs| && r.Success? {
      var f := FieldResult(h, fuel, cls, d, fs[i].0, fs[i].1, tryAll);
      var attrs' := Store(h, cls, attrs, fs[i].0, f.value);
      assert r == Build(h, fuel, cls, fs, d, i + 1, attrs', tryAll);
      BuildValues(h, fuel, cls, fs, d, i + 1, attrs', tryAll);
      BuildKeys(h, fuel, cls, fs, d, i + 1, attrs', tryAll);
      forall j | i + 1 <= j < |fs|
        ensures fs[j].0 != fs[i].0
      {
        DistinctAt(fs, i, j);
      }
    }
  }

  /**
   * A non-conforming dict under a class: the class is resolved from the data, an abstract
   * one is refused, and otherwise an instance of the resolved class is built with one
   * attribute per field of `get_attrs`, each the coercion of the data's entry (or of the
   * field's default when the key is absent) that its `setattr` accepted. The first field
   * that fails decides the error; a field failure never leads to another candidate class.
   */
  lemma RecordSpec(h: Classes, fuel: nat, rule: Rule, data: Value, tryAll: bool)
    requires WellFormed(h) && TypeIn(rule.ty, |h|) && fuel > 0
    requires rule.ty.Record? && data.Dict? && !Conforms(h, data, rule.ty)
    ensures var res := Resolve(h, rule.ty.cls, Data(data.entries), tryAll);
      var r := Deserialize(h, fuel, rule, data, tryAll);
      && (res.Failure? ==> r == Failure(res.error))
      && (res.Success? && h[res.value].isAbstract ==> r == Failure(TypeError(AbstractClass)))
      && (res.Success? && !h[res.value].isAbstract && GetAttrs(h, res.value).Failure? ==>
            r == Failure(GetAttrs(h, res.value).error))
      && (res.Success? && !h[res.value].isAbstract && GetAttrs(h, res.value).Success? ==>
            var fs := GetAttrs(h, res.value).value;
            RulesInAt(fs, |h|);
            FieldsBuilt(h, fuel - 1, res.value, fs, data.entries, r, tryAll))
  {
    RecordUnfold(h, fuel, rule, data, tryAll);
    RecordBranchCases(h, fuel - 1, rule.ty.cls, data.entries, tryAll);
    var res := Resolve(h, rule.ty.cls, Data(data.entries), tryAll);
    var r := Deserialize(h, fuel, rule, data, tryAll);
    assert r == RecordBranch(h, fuel - 1, rule.ty.cls, data.entries, tryAll);
    if res.Success? && !h[res.value].isAbstract && GetAttrs(h, res.value).Success? {
      var fs := GetAttrs(h, res.value).value;
      RulesInAt(fs, |h|);
      assert r == Build(h, fuel - 1, res.value, fs, data.entries, 0, map[], tryAll);
      BuildFresh(h, fuel - 1, res.value, fs, data.entries, tryAll, r);
    }
  }

  /** The four stages of lines 136-146: resolve, reject an abstract class, collect the fields, build. */
  lemma RecordBranchCases(h: Classes, fuel: nat, c: ClassId, d: map<string, Value>, tryAll: bool)
    requires WellFormed(h) && c < |h|
    ensures var res := Resolve(h, c, Data(d), tryAll);
      var r := RecordBranch(h, fuel, c, d, tryAll);
      && (res.Failure? ==> r == Failure(res.error))
      && (res.Success? && h[res.value].isAbstract ==> r == Failure(TypeError(AbstractClass)))
      && (res.Success? && !h[res.value].isAbstract && GetAttrs(h, res.value).Failure? ==>
            r == Failure(GetAttrs(h, res.value).error))
      && (res.Success? && !h[res.value].isAbstract && GetAttrs(h, res.value).Success? ==>
            var fs := GetAttrs(h, res.value).value;
            RulesInAt(fs, |h|);
            r == Build(h, fuel, res.value, fs, d, 0, map[], tryAll))
  {
  }

  /**
   * `r` is what setting the fields `fs` of `cls` on a new instance gives: it succeeds iff
   * every field does, and then the instance holds exactly the fields that no `validated`
   * property intercepts, each field's value landing in the instance or in the property's
   * cell; otherwise the first field that fails gives the error.
   */
  ghost predicate FieldsBuilt(h: Classes, fuel: nat, cls: ClassId, fs: ODict<Rule>, d: map<string, Value>,
                              r: Result<Value>, tryAll: bool)
    requires WellFormed(h) && cls < |h|
    requires forall j :: 0 <= j < |fs| ==> TypeIn(fs[j].1.ty, |h|)
  {
    && (r.Success? <==> forall j :: 0 <= j < |fs| ==> FieldResult(h, fuel, cls, d, fs[j].0, fs[j].1, tryAll).Success?)
    && (r.Success? ==>
          && r.value.Instance? && r.value.cls == cls
          && (forall k :: k in r.value.attrs <==> k in Keys(fs) && Target(h, cls, k).None?)
          && forall j :: 0 <= j < |fs| ==>
               var f := FieldResult(h, fuel, cls, d, fs[j].0, fs[j].1, tryAll);
               f.Success? && Landed(h, cls, r.value.attrs, fs[j].0, f.value))
    && (r.Failure? ==>
          exists j :: 0 <= j < |fs| && FieldResult(h, fuel, cls, d, fs[j].0, fs[j].1, tryAll) == r &&
            forall l :: 0 <= l < j ==> FieldResult(h, fuel, cls, d, fs[l].0, fs[l].1, tryAll).Success?)
  }

  /** The field loop started with no attributes: the instance carries exactly the fields' keys. */
  lemma BuildFresh(h: Classes, fuel: nat, cls: ClassId, fs: ODict<Rule>, d: map<string, Value>, tryAll: bool,
                   r: Result<Value>)
    requires WellFormed(h) && cls < |h| && DistinctKeys(fs)
    requires forall j :: 0 <= j < |fs| ==> TypeIn(fs[j].1.ty, |h|)
    requires r == Build(h, fuel, cls, fs, d, 0, map[], tryAll)
    ensures FieldsBuilt(h, fuel, cls, fs, d, r, tryAll)
  {
    BuildSpec(h, fuel, cls, fs, d, 0, map[], tryAll);
    if r.Success? {
      forall k
        ensures k in r.value.attrs <==> k in Keys(fs) && Target(h, cls, k).None?
      {
        if k in Keys(fs) {
          LookupEntry(fs, k);
        }
        if j :| 0 <= j < |fs| && fs[j].0 == k {
          KeyAt(fs, j);
        }
      }
    }
  }

  /** A successful coercion under a class rule yields an instance of that class or of a descendant. */
  lemma RecordResultDescends(h: Classes, fuel: nat, rule: Rule, data: Value, tryAll: bool)
    requires WellFormed(h) && TypeIn(rule.ty, |h|) && rule.ty.Record?
    requires Deserialize(h, fuel, rule, data, tryAll).Success?
    ensures var v := Deserialize(h, fuel, rule, data, tryAll).value;
      v.Instance? && IsSubclass(h, v.cls, rule.ty.cls)
  {
    if !Conforms(h, data, rule.ty) {
      RecordSpec(h, fuel, rule, data, tryAll);
      ResolveDescendant(h, rule.ty.cls, Data(data.entries), tryAll);
    }
  }

  /**
   * The fuel stands for Python's recursion limit and nothing else: a coercion that does not
   * run out of it gives the same result with more.
   */
  lemma {:induction false} FuelMonotone(h: Classes, fuel: nat, rule: Rule, data: Value, tryAll: bool)
    requires WellFormed(h) && TypeIn(rule.ty, |h|)
    requires Deserialize(h, fuel, rule, data, tryAll) != Failure(RecursionError)
    ensures Deserialize(h, fuel + 1, rule, data, tryAll) == Deserialize(h, fuel, rule, data, tryAll)
    decreases fuel, 2, 0
  {
    if !Validate(h, rule, data).Success? {
      match rule.ty
      case Union(arms) => ArmsFuel(h, fuel - 1, arms, 0, data, tryAll);
      case ListOf(args) =>
        if |args| == 1 && data.List? {
          ItemsFuel(h, fuel - 1, args[0], data.items, 0, [], tryAll);
        }
      case Record(c) =>
        if data.Dict? {
          RecordFuel(h, fuel - 1, c, data.entries, tryAll);
        }
      case Builtin(_) =>
    }
  }

  lemma {:induction false} ArmsFuel(h: Classes, fuel: nat, arms: seq<Type>, i: nat, data: Value, tryAll: bool)
    requires WellFormed(h) && TypeIn(Union(arms), |h|)
    requires Arms(h, fuel, arms, i, data, tryAll) != Failure(RecursionError)
    ensures Arms(h, fuel + 1, arms, i, data, tryAll) == Arms(h, fuel, arms, i, data, tryAll)
    decreases fuel + 1, 0, |arms| - i
  {
    if i < |arms| {
      FuelMonotone(h, fuel, Rule(arms[i], Null), data, tryAll);
      var r := Deserialize(h, fuel, Rule(arms[i], Null), data, tryAll);
      if !(r.Success? || !r.error.IsTypeError()) {
        ArmsFuel(h, fuel, arms, i + 1, data, tryAll);
      }
    }
  }

  lemma {:induction false} ItemsFuel(h: Classes, fuel: nat, t: Type, items: seq<Value>, i: nat, acc: seq<Value>,
                                     tryAll: bool)
    requires WellFormed(h) && TypeIn(t, |h|)
    requires Items(h, fuel, t, items, i, acc, tryAll) != Failure(RecursionError)
    ensures Items(h, fuel + 1, t, items, i, acc, tryAll) == Items(h, fuel, t, items, i, acc, tryAll)
    decreases fuel + 1, 0, |items| - i
  {
    if i < |items| {
      FuelMonotone(h, fuel, Rule(t, Null), items[i], tryAll);
      var e := Deserialize(h, fuel, Rule(t, Null), items[i], tryAll);
      if e.Success? {
        ItemsFuel(h, fuel, t, items, i + 1, acc + [e.value], tryAll);
      }
    }
  }

  lemma {:induction false} RecordFuel(h: Classes, fuel: nat, c: ClassId, d: map<string, Value>, tryAll: bool)
    requires WellFormed(h) && c < |h|
    requires RecordBranch(h, fuel, c, d, tryAll) != Failure(RecursionError)
    ensures RecordBranch(h, fuel + 1, c, d, tryAll) == RecordBranch(h, fuel, c, d, tryAll)
    decreases fuel + 1, 1, 0
  {
    var res := Resolve(h, c, Data(d), tryAll);
    if res.Success? && !h[res.value].isAbstract && GetAttrs(h, res.value).Success? {
      var fs := GetAttrs(h, res.value).value;
      RulesInAt(fs, |h|);
      BuildFuel(h, fuel, res.value, fs, d, 0, map[], tryAll);
    }
  }

  lemma {:induction false} BuildFuel(h: Classes, fuel: nat, cls: ClassId, fs: ODict<Rule>, d: map<string, Value>,
                                     i: nat, attrs: map<string, Value>, tryAll: bool)
    requires WellFormed(h) && cls < |h|
    requires forall j :: 0 <= j < |fs| ==> TypeIn(fs[j].1.ty, |h|)
    requires Build(h, fuel, cls, fs, d, i, attrs, tryAll) != Failure(RecursionError)
    ensures Build(h, fuel + 1, cls, fs, d, i, attrs, tryAll) == Build(h, fuel, cls, fs, d, i, attrs, tryAll)
    decreases fuel + 1, 0, |fs| - i
  {
    if i < |fs| {
      var (k, r) := fs[i];
      FuelMonotone(h, fuel, r, FieldArg(d, k, r), tryAll);
      var f := FieldResult(h, fuel, cls, d, k, r, tryAll);
      if f.Success? {
        BuildFuel(h, fuel, cls, fs, d, i + 1, Store(h, cls, attrs, k, f.value), tryAll);
      }
    }
  }
}
