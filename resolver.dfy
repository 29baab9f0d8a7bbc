/**
 * `get_deserialization_class(t, d, try_all)` (dict_deserializer/deserializer.py:89-101):
 * descend into the first subclass whose discriminators all pass. The recursive call at
 * line 97 passes the class `t` where the data belongs, so below the first level the
 * discriminators see a class object.
 */
module Resolver {
  import opened Base
  import opened Values
  import opened Annotations
  import opened Hierarchy

  /** The `for discriminator ...: if not check: break / else:` test at lines 92-95. */
  function AllPass(ds: seq<Discriminator>, s: Subject): (r: Result<bool>)
    ensures r == Success(true) <==> forall i :: 0 <= i < |ds| ==> Check(ds[i], s) == Success(true)
    ensures r == Success(false) <==>
      exists i :: 0 <= i < |ds| && Check(ds[i], s) == Success(false) &&
        forall j :: 0 <= j < i ==> Check(ds[j], s) == Success(true)
    ensures r.Failure? ==>
      exists i :: 0 <= i < |ds| && Check(ds[i], s) == Failure(r.error) &&
        forall j :: 0 <= j < i ==> Check(ds[j], s) == Success(true)
    decreases |ds|
  {
    if ds == [] then Success(true)
    else
      match Check(ds[0], s)
      case Failure(e) => Failure(e)
      case Success(b) => if b then AllPass(ds[1..], s) else Success(false)
  }

  /** get_deserialization_class(t, s, try_all). */
  function Resolve(h: Classes, t: ClassId, s: Subject, tryAll: bool): (r: Result<ClassId>)
    requires WellFormed(h) && t < |h|
    ensures r.Success? ==> r.value < |h|
    decreases |h| - t, 1, 0
  {
    ResolveFrom(h, t, s, tryAll, 0)
  }

  /** The loop at lines 90-100 from the `i`-th subclass on; `return t` when it runs out. */
  function ResolveFrom(h: Classes, t: ClassId, s: Subject, tryAll: bool, i: nat): (r: Result<ClassId>)
    requires WellFormed(h) && t < |h|
    ensures r.Success? ==> r.value < |h|
    decreases |h| - t, 0, |h[t].subclasses| - i
  {
    assert ClassWellFormed(h, t);
    var subs := h[t].subclasses;
    if i >= |subs| then Success(t)
    else
      var sc := subs[i];
      match AllPass(h[sc].discriminators, s)
      case Failure(e) => Failure(e)
      case Success(pass) =>
        if !pass then ResolveFrom(h, t, s, tryAll, i + 1)
        else
          var sub := Resolve(h, sc, ClassObj(t), tryAll);
          if sub.Success? then sub
          else if sub.error.TypeError? && tryAll then ResolveFrom(h, t, s, tryAll, i + 1)
          else sub
  }

  /** Whether the `j`-th subclass of `t` passes its discriminators on `s`. */
  function Verdict(h: Classes, t: ClassId, j: nat, s: Subject): Result<bool>
    requires WellFormed(h) && t < |h| && j < |h[t].subclasses|
  {
    assert ClassWellFormed(h, t);
    AllPass(h[h[t].subclasses[j]].discriminators, s)
  }

  /** The recursive call at line 97 for the `i`-th subclass of `t`. */
  function Descend(h: Classes, t: ClassId, i: nat, tryAll: bool): Result<ClassId>
    requires WellFormed(h) && t < |h| && i < |h[t].subclasses|
  {
    assert ClassWellFormed(h, t);
    Resolve(h, h[t].subclasses[i], ClassObj(t), tryAll)
  }

  lemma {:induction false} SubclassOfParent(h: Classes, t: ClassId, i: nat)
    requires WellFormed(h) && t < |h| && i < |h[t].subclasses|
    ensures IsSubclass(h, h[t].subclasses[i], t) && t < h[t].subclasses[i] < |h|
  {
    assert ClassWellFormed(h, t);
    var sc := h[t].subclasses[i];
    assert t in h[sc].bases;
    var j :| 0 <= j < |h[sc].bases| && h[sc].bases[j] == t;
    assert IsSubclass(h, h[sc].bases[j], t);
  }

  /** The resolved class is `t` itself or one of its descendants. */
  lemma {:induction false} ResolveDescendant(h: Classes, t: ClassId, s: Subject, tryAll: bool)
    requires WellFormed(h) && t < |h|
    ensures var r := Resolve(h, t, s, tryAll); r.Success? ==> IsSubclass(h, r.value, t)
    decreases |h| - t, 1, 0
  {
    ResolveFromDescendant(h, t, s, tryAll, 0);
  }

  lemma {:induction false} ResolveFromDescendant(h: Classes, t: ClassId, s: Subject, tryAll: bool, i: nat)
    requires WellFormed(h) && t < |h|
    ensures var r := ResolveFrom(h, t, s, tryAll, i); r.Success? ==> IsSubclass(h, r.value, t)
    decreases |h| - t, 0, |h[t].subclasses| - i
  {
    assert ClassWellFormed(h, t);
    var subs := h[t].subclasses;
    if i < |subs| {
      var sc := subs[i];
      SubclassOfParent(h, t, i);
      var a := AllPass(h[sc].discriminators, s);
      if a.Success? {
        ResolveFromDescendant(h, t, s, tryAll, i + 1);
        if a.value {
          var sub := Resolve(h, sc, ClassObj(t), tryAll);
          ResolveDescendant(h, sc, ClassObj(t), tryAll);
          if sub.Success? {
            SubclassTransitive(h, sub.value, sc, t);
          }
        }
      }
    }
  }

  /** Subclasses that fail their discriminators are skipped. */
  lemma {:induction false} ResolveSkips(h: Classes, t: ClassId, s: Subject, tryAll: bool, i: nat)
    requires WellFormed(h) && t < |h| && i <= |h[t].subclasses|
    requires forall j :: 0 <= j < i ==> Verdict(h, t, j, s) == Success(false)
    ensures Resolve(h, t, s, tryAll) == ResolveFrom(h, t, s, tryAll, i)
    decreases i
  {
    if i > 0 {
      ResolveSkips(h, t, s, tryAll, i - 1);
      assert ClassWellFormed(h, t);
      assert Verdict(h, t, i - 1, s) == Success(false);
    }
  }

  /** When no subclass passes its discriminators, `t` itself is returned. */
  lemma ResolveNoneEligible(h: Classes, t: ClassId, s: Subject, tryAll: bool)
    requires WellFormed(h) && t < |h|
    requires forall j :: 0 <= j < |h[t].subclasses| ==>
      Verdict(h, t, j, s) == Success(false)
    ensures Resolve(h, t, s, tryAll) == Success(t)
  {
    ResolveSkips(h, t, s, tryAll, |h[t].subclasses|);
  }

  /**
   * The first subclass whose discriminators all pass is descended into (with the class `t`
   * as the subject). A TypeError from that descent propagates unless `tryAll`, in which
   * case the search goes on with the next subclass; other errors always propagate.
   */
  lemma ResolveFirstEligible(h: Classes, t: ClassId, s: Subject, tryAll: bool, i: nat)
    requires WellFormed(h) && t < |h| && i < |h[t].subclasses|
    requires forall j :: 0 <= j < i ==> Verdict(h, t, j, s) == Success(false)
    requires Verdict(h, t, i, s) == Success(true)
    ensures var sub := Descend(h, t, i, tryAll);
      Resolve(h, t, s, tryAll) ==
        if sub.Success? || !sub.error.TypeError? || !tryAll then sub
        else ResolveFrom(h, t, s, tryAll, i + 1)
  {
    ResolveSkips(h, t, s, tryAll, i);
    SubclassOfParent(h, t, i);
  }

  /**
   * An error raised while checking a subclass's discriminators is outside the try block:
   * it propagates whatever `tryAll` is.
   */
  lemma ResolveCheckErrorPropagates(h: Classes, t: ClassId, s: Subject, tryAll: bool, i: nat)
    requires WellFormed(h) && t < |h| && i < |h[t].subclasses|
    requires forall j :: 0 <= j < i ==> Verdict(h, t, j, s) == Success(false)
    requires Verdict(h, t, i, s).Failure?
    ensures Resolve(h, t, s, tryAll) == Failure(Verdict(h, t, i, s).error)
  {
    ResolveSkips(h, t, s, tryAll, i);
  }

  predicate HasKeyValue(ds: seq<Discriminator>)
  {
    exists i :: 0 <= i < |ds| && ds[i].KeyValue?
  }

  /** Checked against a class object, a list holding a key/value discriminator never passes. */
  lemma KeyValueNeverPassesOnClass(ds: seq<Discriminator>, c: ClassId)
    requires HasKeyValue(ds)
    ensures AllPass(ds, ClassObj(c)) != Success(true)
  {
    var i :| 0 <= i < |ds| && ds[i].KeyValue?;
    assert Check(ds[i], ClassObj(c)) == Failure(TypeError(NotIterable));
  }

  /**
   * Below the first level (subject a class object), the class returned is either the
   * starting class or one without any key/value discriminator.
   */
  lemma {:induction false} ResolveBelowFirstLevel(h: Classes, t: ClassId, p: ClassId, tryAll: bool)
    requires WellFormed(h) && t < |h|
    ensures var r := Resolve(h, t, ClassObj(p), tryAll);
      r.Success? && r.value != t ==> !HasKeyValue(h[r.value].discriminators)
    decreases |h| - t, 1, 0
  {
    ResolveFromBelowFirstLevel(h, t, p, tryAll, 0);
  }

  lemma {:induction false} ResolveFromBelowFirstLevel(h: Classes, t: ClassId, p: ClassId, tryAll: bool, i: nat)
    requires WellFormed(h) && t < |h|
    ensures var r := ResolveFrom(h, t, ClassObj(p), tryAll, i);
      r.Success? && r.value != t ==> !HasKeyValue(h[r.value].discriminators)
    decreases |h| - t, 0, |h[t].subclasses| - i
  {
    assert ClassWellFormed(h, t);
    var subs := h[t].subclasses;
    if i < |subs| {
      var sc := subs[i];
      var a := AllPass(h[sc].discriminators, ClassObj(p));
      if a.Success? {
        ResolveFromBelowFirstLevel(h, t, p, tryAll, i + 1);
        if a.value {
          if HasKeyValue(h[sc].discriminators) {
            KeyValueNeverPassesOnClass(h[sc].discriminators, p);
          }
          ResolveBelowFirstLevel(h, sc, t, tryAll);
        }
      }
    }
  }

  /**
   * A subclass whose own first subclass starts with a key/value discriminator can never be
   * descended into: that discriminator is checked against a class and raises TypeError.
   */
  lemma NestedKeyValueRaises(h: Classes, sc: ClassId, t: ClassId, tryAll: bool)
    requires WellFormed(h) && sc < |h| && |h[sc].subclasses| > 0
    requires var g := h[sc].subclasses[0];
      g < |h| && |h[g].discriminators| > 0 && h[g].discriminators[0].KeyValue?
    ensures Resolve(h, sc, ClassObj(t), tryAll) == Failure(TypeError(NotIterable))
  {
    assert ClassWellFormed(h, sc);
  }
}
