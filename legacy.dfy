/**
 * The older revision's `deserialize(t, d, try_all)` (serializer_utils/deserializer.py:89-110).
 * It descends into every subclass whose discriminators pass on the data, builds it in full
 * (fields included), and with `try_all` moves on to the next subclass when that build raises
 * a TypeError. Fields are only validated: there is no nested descent.
 */
module Legacy {
  import opened Base
  import opened Values
  import opened ODicts
  import opened Annotations
  import opened Hierarchy
  import opened Rules
  import opened Fields
  import opened Resolver

  /** deserialize(t, d, try_all). */
  function Deserialize(h: Classes, t: ClassId, d: map<string, Value>, tryAll: bool): (r: Result<Value>)
    requires WellFormed(h) && t < |h|
    decreases |h| - t, 1, 0
  {
    DeserializeFrom(h, t, d, tryAll, 0)
  }

  /**
   * The subclass loop at lines 90-100 from the `i`-th subclass on. The recursive call at
   * line 97 passes the data on but not `try_all`.
   */
  function DeserializeFrom(h: Classes, t: ClassId, d: map<string, Value>, tryAll: bool, i: nat): (r: Result<Value>)
    requires WellFormed(h) && t < |h|
    decreases |h| - t, 0, |h[t].subclasses| - i
  {
    assert ClassWellFormed(h, t);
    var subs := h[t].subclasses;
    if i >= |subs| then Construct(h, t, d)
    else
      var sc := subs[i];
      match AllPass(h[sc].discriminators, Data(d))
      case Failure(e) => Failure(e)
      case Success(pass) =>
        if !pass then DeserializeFrom(h, t, d, tryAll, i + 1)
        else
          var sub := Deserialize(h, sc, d, false);
          if sub.Success? then sub
          else if sub.error.TypeError? && tryAll then DeserializeFrom(h, t, d, tryAll, i + 1)
          else sub
  }

  /** Lines 102-110: refuse an abstract class, else set every field to its validated entry. */
  function Construct(h: Classes, t: ClassId, d: map<string, Value>): Result<Value>
    requires WellFormed(h) && t < |h|
  {
    if h[t].isAbstract then Failure(TypeError(AbstractClass))
    else
      match GetAttrs(h, t)
      case Failure(e) => Failure(e)
      case Success(fs) => SetFields(h, t, fs, d, 0, map[])
  }

  /** The field loop at lines 105-108 from field `i` on. */
  function SetFields(h: Classes, t: ClassId, fs: ODict<Rule>, d: map<string, Value>, i: nat,
                     attrs: map<string, Value>): Result<Value>
    requires WellFormed(h) && t < |h|
    decreases |fs| - i
  {
    if i >= |fs| then Success(Instance(t, attrs))
    else
      match FieldValue(h, t, d, fs[i].0, fs[i].1)
      case Failure(e) => Failure(e)
      case Success(v) => SetFields(h, t, fs, d, i + 1, Store(h, t, attrs, fs[i].0, v))
  }

  /** One field: `rule.validate(k, d[k] if k in d else None)`, then `setattr`. */
  function FieldValue(h: Classes, t: ClassId, d: map<string, Value>, k: string, r: Rule): Result<Value>
    requires WellFormed(h) && t < |h|
  {
    match Validate(h, r, if k in d then d[k] else Null)
    case Failure(e) => Failure(e)
    case Success(v) =>
      match SetAttr(h, t, k, v)
      case Fail(e) => Failure(e)
      case Pass => Success(v)
  }

  /**
   * deserialize as the code runs it: a loop over the subclasses with its try/except, then
   * a loop over the fields whose `setattr` runs the setters of `validated` properties.
   */
  method DeserializeM(h: Classes, t: ClassId, d: map<string, Value>, tryAll: bool) returns (r: Result<Value>)
    requires WellFormed(h) && t < |h|
    requires forall p :: p in Cells(h) ==> p.Valid()
    modifies Cells(h)
    ensures r == Deserialize(h, t, d, tryAll)
    ensures forall p :: p in Cells(h) ==> p.Valid() && old(p.accepted) <= p.accepted
    decreases |h| - t
  {
    assert ClassWellFormed(h, t);
    var subs := h[t].subclasses;
    var i := 0;
    while i < |subs|
      invariant i <= |subs|
      invariant Deserialize(h, t, d, tryAll) == DeserializeFrom(h, t, d, tryAll, i)
      invariant forall p :: p in Cells(h) ==> p.Valid() && old(p.accepted) <= p.accepted
    {
      var sc := subs[i];
      var pass := AllPass(h[sc].discriminators, Data(d));
      if pass.Failure? {
        return Failure(pass.error);
      }
      if pass.value {
        var sub := DeserializeM(h, sc, d, false);
        if sub.Success? || !sub.error.TypeError? || !tryAll {
          return sub;
        }
      }
      i := i + 1;
    }
    r := ConstructM(h, t, d);
  }

  /** Lines 102-110: refuse an abstract class, else set every field to its validated entry. */
  method ConstructM(h: Classes, t: ClassId, d: map<string, Value>) returns (r: Result<Value>)
    requires WellFormed(h) && t < |h|
    requires forall p :: p in Cells(h) ==> p.Valid()
    modifies Cells(h)
    ensures r == Construct(h, t, d)
    ensures forall p :: p in Cells(h) ==> p.Valid() && old(p.accepted) <= p.accepted
  {
    if h[t].isAbstract {
      return Failure(TypeError(AbstractClass));
    }
    var fs := GetAttrsM(h, t);
    if fs.Failure? {
      return Failure(fs.error);
    }
    var attrs := map[];
    for j := 0 to |fs.value|
      invariant Construct(h, t, d) == SetFields(h, t, fs.value, d, j, attrs)
      invariant forall p :: p in Cells(h) ==> p.Valid() && old(p.accepted) <= p.accepted
    {
      var (k, rule) := fs.value[j];
      var v := Validate(h, rule, if k in d then d[k] else Null);
      if v.Failure? {
        return Failure(v.error);
      }
      var o := SetAttrM(h, t, Instance(t, attrs), k, v.value);
      if o.Fail? {
        return Failure(o.error);
      }
      attrs := Store(h, t, attrs, k, v.value);
    }
    return Success(Instance(t, attrs));
  }
}

/** What the older `deserialize` promises, and where it parts from the newer engine. */
module LegacyFacts {
  import opened Base
  import opened Values
  import opened ODicts
  import opened Hierarchy
  import opened Rules
  import opened Fields
  import opened Resolver
  import opened Legacy

  /** The field loop from field `i` on: it succeeds iff every field does, and sets each one. */
  lemma SetFieldsSpec(h: Classes, t: ClassId, fs: ODict<Rule>, d: map<string, Value>, i: nat,
                      attrs: map<string, Value>)
    requires WellFormed(h) && t < |h| && i <= |fs| && DistinctKeys(fs)
    ensures var r := SetFields(h, t, fs, d, i, attrs);
      && (r.Success? <==> forall j :: i <= j < |fs| ==> FieldValue(h, t, d, fs[j].0, fs[j].1).Success?)
      && (r.Success? ==>
            && r.value.Instance? && r.value.cls == t
            && (forall k :: k in r.value.attrs <==>
                  k in attrs || (Target(h, t, k).None? && exists j :: i <= j < |fs| && fs[j].0 == k))
            && (forall k :: k in attrs && (Target(h, t, k).Some? || forall j :: i <= j < |fs| ==> fs[j].0 != k) ==>
                  r.value.attrs[k] == attrs[k])
            && forall j :: i <= j < |fs| ==>
                 var f := FieldValue(h, t, d, fs[j].0, fs[j].1);
                 f.Success? && Landed(h, t, r.value.attrs, fs[j].0, f.value))
      && (r.Failure? ==>
            exists j :: i <= j < |fs| && FieldValue(h, t, d, fs[j].0, fs[j].1) == r &&
              forall l :: i <= l < j ==> FieldValue(h, t, d, fs[l].0, fs[l].1).Success?)
  {
    SetFieldsOutcome(h, t, fs, d, i, attrs);
    SetFieldsAttrs(h, t, fs, d, i, attrs);
  }

  /** Whether the field loop succeeds, and which field fails first when it does not. */
  lemma {:induction false} SetFieldsOutcome(h: Classes, t: ClassId, fs: ODict<Rule>, d: map<string, Value>, i: nat,
                                            attrs: map<string, Value>)
    requires WellFormed(h) && t < |h| && i <= |fs|
    ensures var r := SetFields(h, t, fs, d, i, attrs);
      && (r.Success? <==> forall j :: i <= j < |fs| ==> FieldValue(h, t, d, fs[j].0, fs[j].1).Success?)
      && (r.Failure? ==>
            exists j :: i <= j < |fs| && FieldValue(h, t, d, fs[j].0, fs[j].1) == r &&
              forall l :: i <= l < j ==> FieldValue(h, t, d, fs[l].0, fs[l].1).Success?)
    decreases |fs| - i
  {
    if i < |fs| {
      var f := FieldValue(h, t, d, fs[i].0, fs[i].1);
      if f.Success? {
        SetFieldsOutcome(h, t, fs, d, i + 1, Store(h, t, attrs, fs[i].0, f.value));
      }
    }
  }

  /** The instance a successful field loop builds. */
  lemma SetFieldsAttrs(h: Classes, t: ClassId, fs: ODict<Rule>, d: map<string, Value>, i: nat,
                       attrs: map<string, Value>)
    requires WellFormed(h) && t < |h| && i <= |fs| && DistinctKeys(fs)
    ensures var r := SetFields(h, t, fs, d, i, attrs);
      r.Success? ==>
        && r.value.Instance? && r.value.cls == t
        && (forall k :: k in r.value.attrs <==>
              k in attrs || (Target(h, t, k).None? && exists j :: i <= j < |fs| && fs[j].0 == k))
        && (forall k :: k in attrs && (Target(h, t, k).Some? || forall j :: i <= j < |fs| ==> fs[j].0 != k) ==>
              r.value.attrs[k] == attrs[k])
        && forall j :: i <= j < |fs| ==>
             var f := FieldValue(h, t, d, fs[j].0, fs[j].1);
             f.Success? && Landed(h, t, r.value.attrs, fs[j].0, f.value)
  {
    SetFieldsKeys(h, t, fs, d, i, attrs);
    SetFieldsValues(h, t, fs, d, i, attrs);
  }

  /** A successful field loop adds exactly the remaining fields no property intercepts, and keeps every other attribute. */
  lemma {:induction false} SetFieldsKeys(h: Classes, t: ClassId, fs: ODict<Rule>, d: map<string, Value>, i: nat,
                                         attrs: map<string, Value>)
    requires WellFormed(h) && t < |h| && i <= |fs|
    ensures var r := SetFields(h, t, fs, d, i, attrs);
      r.Success? ==>
        && r.value.Instance? && r.value.cls == t
        && (forall k :: k in r.value.attrs <==>
              k in attrs || (Target(h, t, k).None? && exists j :: i <= j < |fs| && fs[j].0 == k))
        && (forall k :: k in attrs && (Target(h, t, k).Some? || forall j :: i <= j < |fs| ==> fs[j].0 != k) ==>
              r.value.attrs[k] == attrs[k])
    decreases |fs| - i
  {
    var r := SetFields(h, t, fs, d, i, attrs);
    if i < |fs| && r.Success? {
      var f := FieldValue(h, t, d, fs[i].0, fs[i].1);
      var attrs' := Store(h, t, attrs, fs[i].0, f.value);
      assert r == SetFields(h, t, fs, d, i + 1, attrs');
      SetFieldsKeys(h, t, fs, d, i + 1, attrs');
    }
  }

  /** A successful field loop leaves each field's validated value in the instance, or has it accepted by the intercepting property. */
  lemma {:induction false} SetFieldsValues(h: Classes, t: ClassId, fs: ODict<Rule>, d: map<string, Value>, i: nat,
                                           attrs: map<string, Value>)
    requires WellFormed(h) && t < |h| && i <= |fs| && DistinctKeys(fs)
    ensures var r := SetFields(h, t, fs, d, i, attrs);
      r.Success? ==>
        && r.value.Instance?
        && forall j :: i <= j < |fs| ==>
             var f := FieldValue(h, t, d, fs[j].0, fs[j].1);
             f.Success? && Landed(h, t, r.value.attrs, fs[j].0, f.value)
    decreases |fs| - i
  {
    var r := SetFields(h, t, fs, d, i, attrs);
    if i < |fs| && r.Success? {
      var f := FieldValue(h, t, d, fs[i].0, fs[i].1);
      var attrs' := Store(h, t, attrs, fs[i].0, f.value);
      assert r == SetFields(h, t, fs, d, i + 1, attrs');
      SetFieldsValues(h, t, fs, d, i + 1, attrs');
      SetFieldsKeys(h, t, fs, d, i + 1, attrs');
      forall j | i + 1 <= j < |fs|
        ensures fs[j].0 != fs[i].0
      {
        DistinctAt(fs, i, j);
      }
    }
  }

  /**
   * Building a class (lines 102-110): an abstract class is refused; otherwise the instance
   * has exactly the fields of `get_attrs`, each the validated entry of the data (None when
   * the key is absent) that its `setattr` accepted.
   */
  lemma ConstructSpec(h: Classes, t: ClassId, d: map<string, Value>)
    requires WellFormed(h) && t < |h|
    ensures var r := Construct(h, t, d);
      && (h[t].isAbstract ==> r == Failure(TypeError(AbstractClass)))
      && (r.Success? ==>
            && !h[t].isAbstract && GetAttrs(h, t).Success?
            && r.value.Instance? && r.value.cls == t
            && var fs := GetAttrs(h, t).value;
               && (forall k :: k in r.value.attrs <==> k in Keys(fs) && Target(h, t, k).None?)
               && forall j :: 0 <= j < |fs| ==>
                    var f := FieldValue(h, t, d, fs[j].0, fs[j].1);
                    f.Success? && Landed(h, t, r.value.attrs, fs[j].0, f.value))
  {
    var r := Construct(h, t, d);
    if !h[t].isAbstract && GetAttrs(h, t).Success? {
      var fs := GetAttrs(h, t).value;
      SetFieldsSpec(h, t, fs, d, 0, map[]);
      if r.Success? {
        forall k
          ensures k in r.value.attrs <==> k in Keys(fs) && Target(h, t, k).None?
        {
          if k in Keys(fs) {
            LookupEntry(fs, k);
          }
          if j :| 0 <= j < |fs| && fs[j].0 == k {
            KeyAt(fs, j);
          }
        }
      }
    }
  }

  /**
   * A field absent from the data is validated as None: building fails when None does not
   * conform to the field's type, and otherwise the field gets the rule's default.
   */
  lemma AbsentField(h: Classes, t: ClassId, d: map<string, Value>, j: nat)
    requires WellFormed(h) && t < |h| && !h[t].isAbstract && GetAttrs(h, t).Success?
    requires j < |GetAttrs(h, t).value| && GetAttrs(h, t).value[j].0 !in d
    ensures var (k, rule) := GetAttrs(h, t).value[j];
      var r := Construct(h, t, d);
      && (!Conforms(h, Null, rule.ty) ==> r.Failure?)
      && (r.Success? ==> r.value.Instance? && Landed(h, t, r.value.attrs, k, rule.default))
  {
    var fs := GetAttrs(h, t).value;
    SetFieldsSpec(h, t, fs, d, 0, map[]);
    ConstructSpec(h, t, d);
  }

  /** The subclass the recursive call at line 97 builds, for the `i`-th subclass of `t`. */
  function Attempt(h: Classes, t: ClassId, i: nat, d: map<string, Value>): Result<Value>
    requires WellFormed(h) && t < |h| && i < |h[t].subclasses|
  {
    assert ClassWellFormed(h, t);
    Deserialize(h, h[t].subclasses[i], d, false)
  }

  /** Subclasses that fail their discriminators on the data are skipped. */
  lemma {:induction false} LegacySkips(h: Classes, t: ClassId, d: map<string, Value>, tryAll: bool, i: nat)
    requires WellFormed(h) && t < |h| && i <= |h[t].subclasses|
    requires forall j :: 0 <= j < i ==> Verdict(h, t, j, Data(d)) == Success(false)
    ensures Deserialize(h, t, d, tryAll) == DeserializeFrom(h, t, d, tryAll, i)
    decreases i
  {
    if i > 0 {
      LegacySkips(h, t, d, tryAll, i - 1);
      assert ClassWellFormed(h, t);
      assert Verdict(h, t, i - 1, Data(d)) == Success(false);
    }
  }

  /** With no subclass passing its discriminators, `t` itself is built. */
  lemma LegacyNoneEligible(h: Classes, t: ClassId, d: map<string, Value>, tryAll: bool)
    requires WellFormed(h) && t < |h|
    requires forall j :: 0 <= j < |h[t].subclasses| ==> Verdict(h, t, j, Data(d)) == Success(false)
    ensures Deserialize(h, t, d, tryAll) == Construct(h, t, d)
  {
    LegacySkips(h, t, d, tryAll, |h[t].subclasses|);
  }

  /**
   * The first subclass whose discriminators pass on the data is built in full. If that
   * raises a TypeError — from a deeper subclass, an abstract class or any field — and
   * `tryAll` holds, the search goes on with the next subclass; otherwise the outcome stands.
   */
  lemma LegacyBacktracks(h: Classes, t: ClassId, d: map<string, Value>, tryAll: bool, i: nat)
    requires WellFormed(h) && t < |h| && i < |h[t].subclasses|
    requires forall j :: 0 <= j < i ==> Verdict(h, t, j, Data(d)) == Success(false)
    requires Verdict(h, t, i, Data(d)) == Success(true)
    ensures var sub := Attempt(h, t, i, d);
      Deserialize(h, t, d, tryAll) ==
        if sub.Success? || !sub.error.TypeError? || !tryAll then sub
        else DeserializeFrom(h, t, d, tryAll, i + 1)
  {
    LegacySkips(h, t, d, tryAll, i);
  }

  /**
   * The class of a successful result: `t` or a descendant, never abstract, and when it is not
   * `t`, its own discriminators all pass on the data (checked against the data at every level).
   */
  lemma {:induction false} LegacyResult(h: Classes, t: ClassId, d: map<string, Value>, tryAll: bool)
    requires WellFormed(h) && t < |h|
    ensures var r := Deserialize(h, t, d, tryAll);
      r.Success? ==>
        && r.value.Instance? && IsSubclass(h, r.value.cls, t) && !h[r.value.cls].isAbstract
        && (r.value.cls != t ==> AllPass(h[r.value.cls].discriminators, Data(d)) == Success(true))
    decreases |h| - t, 1, 0
  {
    LegacyFromResult(h, t, d, tryAll, 0);
  }

  lemma {:induction false} LegacyFromResult(h: Classes, t: ClassId, d: map<string, Value>, tryAll: bool, i: nat)
    requires WellFormed(h) && t < |h|
    ensures var r := DeserializeFrom(h, t, d, tryAll, i);
      r.Success? ==>
        && r.value.Instance? && IsSubclass(h, r.value.cls, t) && !h[r.value.cls].isAbstract
        && (r.value.cls != t ==> AllPass(h[r.value.cls].discriminators, Data(d)) == Success(true))
    decreases |h| - t, 0, |h[t].subclasses| - i
  {
    assert ClassWellFormed(h, t);
    var subs := h[t].subclasses;
    if i >= |subs| {
      ConstructSpec(h, t, d);
      assert IsSubclass(h, t, t);
    } else {
      var sc := subs[i];
      SubclassOfParent(h, t, i);
      var a := AllPass(h[sc].discriminators, Data(d));
      if a.Success? {
        LegacyFromResult(h, t, d, tryAll, i + 1);
        if a.value {
          var sub := Deserialize(h, sc, d, false);
          LegacyResult(h, sc, d, false);
          if sub.Success? {
            SubclassTransitive(h, sub.value.cls, sc, t);
            SubclassBelow(h, sub.value.cls, sc);
          }
        }
      }
    }
  }
}
