/**
 * The class registry that stands in for Python's class objects: per class its ordered
 * bases and subclasses, its own `__dict__` entries, its merged `__annotations__`, its
 * `_discriminators` and its `_abstract` flag (dict_deserializer/deserializer.py:28-56).
 */
module Hierarchy {
  import opened Base
  import opened Values
  import opened ODicts
  import opened Annotations

  /** A class-level attribute, as `_is_valid` tells them apart. */
  datatype Attr =
    | Plain(v: Value)
    | Callable
    | ClassMethod
    | StaticMethod
    | Property(setter: Option<Validated>)   // a `validated` property carries its cell; any other `property` has no setter (user setters are not modelled)

  datatype ClassInfo = ClassInfo(
    bases: seq<ClassId>,
    subclasses: seq<ClassId>,
    namespace: ODict<Attr>,
    annotations: Option<ODict<Annotation>>,  // None: the class has no `__annotations__` at all
    discriminators: seq<Discriminator>,
    isAbstract: bool)

  /** All classes, in definition order; a class's id is its index. `object` is left implicit. */
  type Classes = seq<ClassInfo>

  ghost predicate ClassValuesIn(ns: ODict<Attr>, n: nat)
  {
    forall a :: a in ValueSet(ns) && a.Plain? && a.v.Instance? ==> a.v.cls < n
  }

  ghost predicate AnnotationsIn(anns: ODict<Annotation>, n: nat)
  {
    forall a :: a in ValueSet(anns) ==> TypeIn(ToRule(a).ty, n)
  }

  ghost predicate ClassWellFormed(h: Classes, c: nat)
    requires c < |h|
  {
    var k := h[c];
    && (forall i :: 0 <= i < |k.bases| ==> k.bases[i] < c)
    && (forall i, j :: 0 <= i < j < |k.bases| ==> k.bases[i] != k.bases[j])
    && (forall i :: 0 <= i < |k.subclasses| ==>
          c < k.subclasses[i] < |h| && c in h[k.subclasses[i]].bases)
    && (forall i, j :: 0 <= i < j < |k.subclasses| ==> k.subclasses[i] < k.subclasses[j])
    && (forall j :: c < j < |h| && c in h[j].bases ==> j in k.subclasses)
    && DistinctKeys(k.namespace)
    && ClassValuesIn(k.namespace, |h|)
    && (k.annotations.Some? ==>
          DistinctKeys(k.annotations.value) && AnnotationsIn(k.annotations.value, |h|))
  }

  /**
   * What class creation guarantees: bases are defined before the class, `__subclasses__()`
   * lists exactly the classes naming it as a base, in definition order; dicts have unique keys.
   */
  ghost predicate WellFormed(h: Classes)
  {
    forall c :: 0 <= c < |h| ==> ClassWellFormed(h, c)
  }

  /** `issubclass(c, t)` along the base links (reflexive). */
  predicate IsSubclass(h: Classes, c: ClassId, t: ClassId)
    decreases c
  {
    c < |h| &&
    (c == t ||
     exists i :: 0 <= i < |h[c].bases| && h[c].bases[i] < c && IsSubclass(h, h[c].bases[i], t))
  }

  lemma {:induction false} SubclassBelow(h: Classes, c: ClassId, t: ClassId)
    requires IsSubclass(h, c, t)
    ensures t <= c
    decreases c
  {
    if c != t {
      var i :| 0 <= i < |h[c].bases| && h[c].bases[i] < c && IsSubclass(h, h[c].bases[i], t);
      SubclassBelow(h, h[c].bases[i], t);
    }
  }

  lemma {:induction false} SubclassTransitive(h: Classes, a: ClassId, b: ClassId, c: ClassId)
    requires IsSubclass(h, a, b) && IsSubclass(h, b, c)
    ensures IsSubclass(h, a, c)
    decreases a
  {
    if a != b {
      var i :| 0 <= i < |h[a].bases| && h[a].bases[i] < a && IsSubclass(h, h[a].bases[i], b);
      SubclassTransitive(h, h[a].bases[i], b, c);
    }
  }

  /** `rbase(c)`: the bases, each followed by its own ancestors, depth first. */
  function Ancestors(h: Classes, c: ClassId): (r: seq<ClassId>)
    requires WellFormed(h) && c < |h|
    ensures forall i :: 0 <= i < |r| ==> r[i] < c
    decreases c, 1, 0
  {
    assert ClassWellFormed(h, c);
    BasesAncestors(h, c, h[c].bases)
  }

  function BasesAncestors(h: Classes, c: ClassId, bs: seq<ClassId>): (r: seq<ClassId>)
    requires WellFormed(h) && c < |h|
    requires forall i :: 0 <= i < |bs| ==> bs[i] < c
    ensures forall i :: 0 <= i < |r| ==> r[i] < c
    decreases c, 0, |bs|
  {
    if bs == [] then []
    else BasesAncestors(h, c, bs[..|bs| - 1]) + [bs[|bs| - 1]] + Ancestors(h, bs[|bs| - 1])
  }

  /** rbase(cls, ls): appends each base and, recursively, that base's ancestors to `ls`. */
  method Rbase(h: Classes, c: ClassId, ls: seq<ClassId>) returns (r: seq<ClassId>)
    requires WellFormed(h) && c < |h|
    ensures r == ls + Ancestors(h, c)
    decreases c
  {
    assert ClassWellFormed(h, c);
    r := ls;
    var bases := h[c].bases;
    for i := 0 to |bases|
      invariant r == ls + BasesAncestors(h, c, bases[..i])
    {
      r := r + [bases[i]];
      r := Rbase(h, bases[i], r);
      assert bases[..i + 1][..i] == bases[..i];
    }
    assert bases[..|bases|] == bases;
  }

  lemma {:induction false} BasesAncestorsSound(h: Classes, c: ClassId, bs: seq<ClassId>, x: ClassId)
    requires WellFormed(h) && c < |h|
    requires forall i :: 0 <= i < |bs| ==> bs[i] < c
    requires x in BasesAncestors(h, c, bs)
    ensures exists i :: 0 <= i < |bs| && IsSubclass(h, bs[i], x)
    decreases c, 0, |bs|
  {
    var n := |bs| - 1;
    var pre := bs[..n];
    if x in BasesAncestors(h, c, pre) {
      BasesAncestorsSound(h, c, pre, x);
      var i :| 0 <= i < |pre| && IsSubclass(h, pre[i], x);
      assert bs[i] == pre[i];
    } else if x == bs[n] {
      assert IsSubclass(h, bs[n], x);
    } else {
      AncestorsSound(h, bs[n], x);
    }
  }

  /** Every class has at most one base. */
  ghost predicate SingleInheritance(h: Classes)
  {
    forall c :: 0 <= c < |h| ==> |h[c].bases| <= 1
  }

  /** Each class in `an` is a proper subclass of every class after it. */
  ghost predicate Descending(h: Classes, an: seq<ClassId>)
  {
    forall i, j :: 0 <= i < j < |an| ==> an[j] < an[i] && IsSubclass(h, an[i], an[j])
  }

  /** Under single inheritance `rbase` walks straight up the hierarchy. */
  lemma {:induction false} AncestorsLinear(h: Classes, c: ClassId)
    requires WellFormed(h) && c < |h| && SingleInheritance(h)
    ensures Descending(h, Ancestors(h, c))
    decreases c
  {
    assert ClassWellFormed(h, c);
    var bs := h[c].bases;
    if bs != [] {
      var b := bs[0];
      var up := Ancestors(h, b);
      assert bs == [b] && bs[..|bs| - 1] == [];
      var an := Ancestors(h, c);
      assert an == BasesAncestors(h, c, bs);
      assert BasesAncestors(h, c, bs) == BasesAncestors(h, c, []) + [b] + up;
      assert an == [b] + up;
      AncestorsLinear(h, b);
      forall i, j | 0 <= i < j < |an|
        ensures an[j] < an[i] && IsSubclass(h, an[i], an[j])
      {
        assert an[j] == up[j - 1];
        if i == 0 {
          assert an[0] == b && an[j] in up;
          AncestorsSound(h, b, an[j]);
        } else {
          assert an[i] == up[i - 1];
        }
      }
    }
  }

  /** Everything rbase lists is a proper ancestor. */
  lemma {:induction false} AncestorsSound(h: Classes, c: ClassId, x: ClassId)
    requires WellFormed(h) && c < |h|
    requires x in Ancestors(h, c)
    ensures x < c && IsSubclass(h, c, x)
    decreases c, 1, 0
  {
    assert ClassWellFormed(h, c);
    BasesAncestorsSound(h, c, h[c].bases, x);
    var i :| 0 <= i < |h[c].bases| && IsSubclass(h, h[c].bases[i], x);
    SubclassBelow(h, h[c].bases[i], x);
  }

  lemma {:induction false} BasesAncestorsContain(h: Classes, c: ClassId, bs: seq<ClassId>, i: nat)
    requires WellFormed(h) && c < |h|
    requires forall j :: 0 <= j < |bs| ==> bs[j] < c
    requires i < |bs|
    ensures bs[i] in BasesAncestors(h, c, bs)
    ensures forall y :: y in Ancestors(h, bs[i]) ==> y in BasesAncestors(h, c, bs)
    decreases |bs|
  {
    if i < |bs| - 1 {
      BasesAncestorsContain(h, c, bs[..|bs| - 1], i);
    }
  }

  /** rbase lists every proper ancestor. */
  lemma {:induction false} AncestorsComplete(h: Classes, c: ClassId, x: ClassId)
    requires WellFormed(h) && c < |h|
    requires IsSubclass(h, c, x) && x != c
    ensures x in Ancestors(h, c)
    decreases c
  {
    assert ClassWellFormed(h, c);
    var i :| 0 <= i < |h[c].bases| && h[c].bases[i] < c && IsSubclass(h, h[c].bases[i], x);
    var b := h[c].bases[i];
    BasesAncestorsContain(h, c, h[c].bases, i);
    if b != x {
      AncestorsComplete(h, b, x);
    }
  }

  /** The annotation for `k` of the first base, from index `i` on, whose annotations have it. */
  function BaseAnnotation(h: Classes, bases: seq<ClassId>, i: nat, k: string): Option<Annotation>
    requires forall j :: 0 <= j < |bases| ==> bases[j] < |h|
    decreases |bases| - i
  {
    if i >= |bases| then None
    else
      var a := h[bases[i]].annotations;
      if a.Some? && k in Keys(a.value) then Lookup(a.value, k) else BaseAnnotation(h, bases, i + 1, k)
  }

  /** BaseMeta's loop over the bases from index `i`, with `acc` the annotations so far. */
  function MergeFrom(h: Classes, bases: seq<ClassId>, i: nat, acc: Option<ODict<Annotation>>)
    : Option<ODict<Annotation>>
    requires forall j :: 0 <= j < |bases| ==> bases[j] < |h|
    decreases |bases| - i
  {
    if i >= |bases| then acc
    else
      var b := h[bases[i]].annotations;
      var acc' := if b.Some? then Some(Update(b.value, if acc.Some? then acc.value else [])) else acc;
      MergeFrom(h, bases, i + 1, acc')
  }

  /** The `__annotations__` BaseMeta leaves on a new class with bases `bases` and body annotations `own`. */
  function MergeAnnotations(h: Classes, bases: seq<ClassId>, own: Option<ODict<Annotation>>)
    : Option<ODict<Annotation>>
    requires forall j :: 0 <= j < |bases| ==> bases[j] < |h|
  {
    MergeFrom(h, bases, 0, own)
  }

  lemma {:induction false} MergeFromLookup(h: Classes, bases: seq<ClassId>, i: nat,
                                          acc: Option<ODict<Annotation>>, k: string)
    requires WellFormed(h)
    requires forall j :: 0 <= j < |bases| ==> bases[j] < |h|
    requires acc.Some? ==> DistinctKeys(acc.value)
    ensures var r := MergeFrom(h, bases, i, acc);
      && (r.None? <==> acc.None? && forall j :: i <= j < |bases| ==> h[bases[j]].annotations.None?)
      && (r.Some? ==> DistinctKeys(r.value))
      && (r.Some? ==>
            Lookup(r.value, k) ==
              if acc.Some? && k in Keys(acc.value) then Lookup(acc.value, k)
              else BaseAnnotation(h, bases, i, k))
    decreases |bases| - i
  {
    if i < |bases| {
      assert ClassWellFormed(h, bases[i]);
      var b := h[bases[i]].annotations;
      var acc' := if b.Some? then Some(Update(b.value, if acc.Some? then acc.value else [])) else acc;
      MergeFromLookup(h, bases, i + 1, acc', k);
    }
  }

  /**
   * BaseMeta.__new__: the class's own annotations win, then those of earlier bases over
   * later ones; the class has annotations exactly when it or some base does.
   */
  lemma MergeAnnotationsPrecedence(h: Classes, bases: seq<ClassId>, own: Option<ODict<Annotation>>, k: string)
    requires WellFormed(h)
    requires forall j :: 0 <= j < |bases| ==> bases[j] < |h|
    requires own.Some? ==> DistinctKeys(own.value)
    ensures var r := MergeAnnotations(h, bases, own);
      && (r.None? <==> own.None? && forall j :: 0 <= j < |bases| ==> h[bases[j]].annotations.None?)
      && (r.Some? ==> DistinctKeys(r.value))
      && (r.Some? && own.Some? && k in Keys(own.value) ==> Lookup(r.value, k) == Lookup(own.value, k))
      && (r.Some? && !(own.Some? && k in Keys(own.value)) ==> Lookup(r.value, k) == BaseAnnotation(h, bases, 0, k))
  {
    MergeFromLookup(h, bases, 0, own, k);
  }

  /** Class creation registers the new class `c` with each of its bases. */
  function AddSubclass(h: Classes, bases: seq<ClassId>, c: ClassId): (r: Classes)
    ensures |r| == |h|
    ensures forall i :: 0 <= i < |h| ==>
      r[i] == if i in bases then h[i].(subclasses := h[i].subclasses + [c]) else h[i]
  {
    seq(|h|, i requires 0 <= i < |h| =>
      if i in bases then h[i].(subclasses := h[i].subclasses + [c]) else h[i])
  }

  lemma TypeInGrows(t: Type, n: nat, m: nat)
    requires TypeIn(t, n) && n <= m
    ensures TypeIn(t, m)
  {
  }

  lemma {:induction false} DefineKeepsWellFormed(h: Classes, bases: seq<ClassId>, namespace: ODict<Attr>,
                                                 own: Option<ODict<Annotation>>)
    requires WellFormed(h)
    requires forall i :: 0 <= i < |bases| ==> bases[i] < |h|
    requires forall i, j :: 0 <= i < j < |bases| ==> bases[i] != bases[j]
    requires DistinctKeys(namespace) && ClassValuesIn(namespace, |h|)
    requires own.Some? ==> DistinctKeys(own.value) && AnnotationsIn(own.value, |h|)
    ensures var n := |h|;
      WellFormed(AddSubclass(h, bases, n) + [ClassInfo(bases, [], namespace, MergeAnnotations(h, bases, own), [], false)])
  {
    var n := |h|;
    var merged := MergeAnnotations(h, bases, own);
    var h' := AddSubclass(h, bases, n) + [ClassInfo(bases, [], namespace, merged, [], false)];
    forall c | 0 <= c < |h'|
      ensures ClassWellFormed(h', c)
    {
      if c < n {
        DefineKeepsOld(h, bases, h'[n], c);
      } else {
        DefineKeepsNew(h, bases, namespace, own);
      }
    }
  }

  /** An existing class stays well formed once the new class `nk` is appended below `bases`. */
  lemma DefineKeepsOld(h: Classes, bases: seq<ClassId>, nk: ClassInfo, c: ClassId)
    requires WellFormed(h) && c < |h| && nk.bases == bases
    requires forall i :: 0 <= i < |bases| ==> bases[i] < |h|
    ensures ClassWellFormed(AddSubclass(h, bases, |h|) + [nk], c)
  {
    var n := |h|;
    var h' := AddSubclass(h, bases, n) + [nk];
    assert ClassWellFormed(h, c);
    var k, k' := h[c], h'[c];
    assert k'.bases == k.bases && k'.namespace == k.namespace && k'.annotations == k.annotations;
    forall i | 0 <= i < |k'.subclasses|
      ensures c < k'.subclasses[i] < |h'| && c in h'[k'.subclasses[i]].bases
    {
      if i < |k.subclasses| {
        assert k'.subclasses[i] == k.subclasses[i];
      }
    }
    forall j | c < j < |h'| && c in h'[j].bases
      ensures j in k'.subclasses
    {
      if j < n {
        assert h'[j].bases == h[j].bases;
      }
    }
    if k.annotations.Some? {
      forall a | a in ValueSet(k.annotations.value)
        ensures TypeIn(ToRule(a).ty, |h'|)
      {
        TypeInGrows(ToRule(a).ty, n, |h'|);
      }
    }
  }

  /** The appended class itself is well formed. */
  lemma DefineKeepsNew(h: Classes, bases: seq<ClassId>, namespace: ODict<Attr>, own: Option<ODict<Annotation>>)
    requires WellFormed(h)
    requires forall i :: 0 <= i < |bases| ==> bases[i] < |h|
    requires forall i, j :: 0 <= i < j < |bases| ==> bases[i] != bases[j]
    requires DistinctKeys(namespace) && ClassValuesIn(namespace, |h|)
    requires own.Some? ==> DistinctKeys(own.value) && AnnotationsIn(own.value, |h|)
    ensures var n := |h|;
      ClassWellFormed(AddSubclass(h, bases, n) + [ClassInfo(bases, [], namespace, MergeAnnotations(h, bases, own), [], false)], n)
  {
    var n := |h|;
    var merged := MergeAnnotations(h, bases, own);
    var h' := AddSubclass(h, bases, n) + [ClassInfo(bases, [], namespace, merged, [], false)];
    if merged.Some? {
      MergeAnnotationsPrecedence(h, bases, own, "");
      MergeValues(h, bases, 0, own);
      forall a | a in ValueSet(merged.value)
        ensures TypeIn(ToRule(a).ty, |h'|)
      {
        TypeInGrows(ToRule(a).ty, n, |h'|);
      }
    }
  }

  lemma {:induction false} MergeValues(h: Classes, bases: seq<ClassId>, i: nat, acc: Option<ODict<Annotation>>)
    requires WellFormed(h)
    requires forall j :: 0 <= j < |bases| ==> bases[j] < |h|
    requires acc.Some? ==> AnnotationsIn(acc.value, |h|)
    ensures var r := MergeFrom(h, bases, i, acc); r.Some? ==> AnnotationsIn(r.value, |h|)
    decreases |bases| - i
  {
    if i < |bases| {
      assert ClassWellFormed(h, bases[i]);
      var b := h[bases[i]].annotations;
      var acc' := if b.Some? then Some(Update(b.value, if acc.Some? then acc.value else [])) else acc;
      MergeValues(h, bases, i + 1, acc');
    }
  }

  /** Two hierarchies that agree on everything but discriminators and abstract flags. */
  ghost predicate SameShape(h: Classes, h': Classes)
  {
    |h| == |h'| &&
    forall i :: 0 <= i < |h| ==>
      h[i].bases == h'[i].bases && h[i].subclasses == h'[i].subclasses &&
      h[i].namespace == h'[i].namespace && h[i].annotations == h'[i].annotations
  }

  lemma SameShapeWellFormed(h: Classes, h': Classes)
    requires WellFormed(h) && SameShape(h, h')
    ensures WellFormed(h')
  {
    forall c | 0 <= c < |h'|
      ensures ClassWellFormed(h', c)
    {
      assert ClassWellFormed(h, c);
    }
  }

  /** The process-wide registry, filled by class definitions and class decorators. */
  class Registry {
    var classes: Classes

    ghost predicate Valid()
      reads this
    {
      WellFormed(classes)
    }

    constructor ()
      ensures Valid() && classes == []
    {
      classes := [];
    }

    /**
     * BaseMeta.__new__ (with type.__new__): a fresh class with its own empty discriminator
     * list, not abstract, with merged annotations, registered as a subclass of each base.
     */
    method DefineClass(bases: seq<ClassId>, namespace: ODict<Attr>, own: Option<ODict<Annotation>>)
      returns (c: ClassId)
      requires Valid()
      requires forall i :: 0 <= i < |bases| ==> bases[i] < |classes|
      requires forall i, j :: 0 <= i < j < |bases| ==> bases[i] != bases[j]
      requires DistinctKeys(namespace) && ClassValuesIn(namespace, |classes|)
      requires own.Some? ==> DistinctKeys(own.value) && AnnotationsIn(own.value, |classes|)
      modifies this
      ensures Valid()
      ensures c == old(|classes|) && |classes| == c + 1
      ensures classes[c] == ClassInfo(bases, [], namespace, MergeAnnotations(old(classes), bases, own), [], false)
      ensures forall b :: 0 <= b < c ==>
        classes[b] == if b in bases then old(classes[b]).(subclasses := old(classes[b].subclasses) + [c])
                      else old(classes[b])
    {
      c := |classes|;
      DefineKeepsWellFormed(classes, bases, namespace, own);
      var info := ClassInfo(bases, [], namespace, MergeAnnotations(classes, bases, own), [], false);
      classes := AddSubclass(classes, bases, c) + [info];
    }

    /**
     * discriminate(key, value, matcher)(cls): appends the discriminator, if one was
     * described, to the class's own list, and returns the same class.
     */
    method Discriminate(c: ClassId, key: Option<string>, value: Option<Value>,
                        matcher: Option<Subject -> Result<bool>>) returns (r: ClassId)
      requires Valid() && c < |classes|
      modifies this
      ensures Valid() && r == c
      ensures var dc := NewDiscriminator(key, value, matcher);
        classes == if dc.None? then old(classes)
                   else old(classes)[c := old(classes[c]).(discriminators := old(classes[c].discriminators) + [dc.value])]
    {
      var dc := NewDiscriminator(key, value, matcher);
      if dc.Some? {
        var h' := classes[c := classes[c].(discriminators := classes[c].discriminators + [dc.value])];
        SameShapeWellFormed(classes, h');
        classes := h';
      }
      r := c;
    }

    /** abstract(cls): sets the class's own `_abstract` flag and returns the same class. */
    method MarkAbstract(c: ClassId) returns (r: ClassId)
      requires Valid() && c < |classes|
      modifies this
      ensures Valid() && r == c
      ensures classes == old(classes)[c := old(classes[c]).(isAbstract := true)]
    {
      var h' := classes[c := classes[c].(isAbstract := true)];
      SameShapeWellFormed(classes, h');
      classes := h';
      r := c;
    }
  }
}
