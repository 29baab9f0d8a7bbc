/**
 * Field-table construction: `_is_valid` and `Deserializable.get_attrs`
 * (dict_deserializer/deserializer.py:59-86, the same text as
 * serializer_utils/deserializer.py:59-86), and Python's `setattr` on a new instance.
 */
module Fields {
  import opened Base
  import opened Values
  import opened ODicts
  import opened Hierarchy
  import opened Annotations

  predicate StartsWithUnderscore(k: string)
  {
    |k| > 0 && k[0] == '_'
  }

  /** `_is_valid(key, value)`: public names bound to plain (non-callable, non-descriptor) values. */
  predicate IsValid(k: string, a: Attr)
  {
    !StartsWithUnderscore(k) && a.Plain?
  }

  function Reverse<T>(s: seq<T>): (r: seq<T>)
    ensures |r| == |s|
    ensures forall i :: 0 <= i < |s| ==> r[i] == s[|s| - 1 - i]
  {
    if s == [] then [] else Reverse(s[1..]) + [s[0]]
  }

  /** `reversed(rbase(cls)) + [cls]`: the classes get_attrs visits, root first. */
  function Chain(h: Classes, c: ClassId): (r: seq<ClassId>)
    requires WellFormed(h) && c < |h|
    ensures forall i :: 0 <= i < |r| ==> r[i] < |h|
  {
    Reverse(Ancestors(h, c)) + [c]
  }

  /** The rule a valid class-level value `v` yields: `Rule(Optional[type(v)], default=v)`. */
  function ClassValueRule(v: Value): Rule
  {
    Rule(OptionalOf(TypeOf(v)), v)
  }

  /** The `fields` and `defaults` dicts of get_attrs. */
  datatype Scan = Scan(fields: ODict<Rule>, defaults: map<string, Value>)

  /** One step of the inner loop at lines 72-75. */
  function ScanEntry(k: string, a: Attr, acc: Scan): Scan
  {
    if IsValid(k, a) then Scan(Put(acc.fields, k, ClassValueRule(a.v)), acc.defaults[k := a.v])
    else acc
  }

  function ScanNamespace(ns: ODict<Attr>, acc: Scan): Scan
    decreases |ns|
  {
    if ns == [] then acc else ScanNamespace(ns[1..], ScanEntry(ns[0].0, ns[0].1, acc))
  }

  /** The outer loop at lines 71-75 over the classes `rl`. */
  function ScanChain(h: Classes, rl: seq<ClassId>, acc: Scan): Scan
    requires forall i :: 0 <= i < |rl| ==> rl[i] < |h|
    decreases |rl|
  {
    if rl == [] then acc else ScanChain(h, rl[1..], ScanNamespace(h[rl[0]].namespace, acc))
  }

  /** Lines 81-83: the annotation's rule, taking the class-level value as default when there is one. */
  function AnnotatedRule(ann: Annotation, k: string, defaults: map<string, Value>): Rule
  {
    var rule := ToRule(ann);
    if k in defaults then rule.(default := defaults[k]) else rule
  }

  /** The loop at lines 77-84. */
  function AnnotationPass(anns: ODict<Annotation>, defaults: map<string, Value>, fields: ODict<Rule>)
    : ODict<Rule>
    decreases |anns|
  {
    if anns == [] then fields
    else
      var k := anns[0].0;
      var fields' := if k in defaults && !IsValid(k, Plain(defaults[k])) then fields
                     else Put(fields, k, AnnotatedRule(anns[0].1, k, defaults));
      AnnotationPass(anns[1..], defaults, fields')
  }

  ghost predicate RulesIn(fields: ODict<Rule>, n: nat)
  {
    forall r :: r in ValueSet(fields) ==> TypeIn(r.ty, n)
  }

  /**
   * What the first pass keeps: unique keys, `fields` and `defaults` with the same keys,
   * each such field the class-value rule of its default, every default under a valid name.
   */
  ghost predicate Agrees(s: Scan, n: nat)
  {
    && DistinctKeys(s.fields)
    && Keys(s.fields) == s.defaults.Keys
    && (forall k :: k in s.defaults ==>
          Lookup(s.fields, k) == Some(ClassValueRule(s.defaults[k])) && IsValid(k, Plain(s.defaults[k])))
    && (forall k :: k in s.defaults && s.defaults[k].Instance? ==> s.defaults[k].cls < n)
  }

  /** `cls.get_attrs()`; a class without `__annotations__` raises AttributeError at line 77. */
  function GetAttrs(h: Classes, c: ClassId): (r: Result<ODict<Rule>>)
    requires WellFormed(h) && c < |h|
    ensures r.Failure? <==> h[c].annotations.None?
    ensures r.Failure? ==> r.error == AttributeError("__annotations__")
    ensures r.Success? ==> DistinctKeys(r.value) && RulesIn(r.value, |h|)
  {
    var s := ScanChain(h, Chain(h, c), Scan([], map[]));
    ScanChainAgrees(h, Chain(h, c), Scan([], map[]));
    match h[c].annotations
    case None => Failure(AttributeError("__annotations__"))
    case Some(anns) =>
      assert ClassWellFormed(h, c);
      AgreesRulesIn(s, |h|);
      AnnotationPassKeeps(anns, s.defaults, s.fields, |h|);
      Success(AnnotationPass(anns, s.defaults, s.fields))
  }

  /** get_attrs as written: two nested loops over the chain, then a loop over the annotations. */
  method GetAttrsM(h: Classes, c: ClassId) returns (r: Result<ODict<Rule>>)
    requires WellFormed(h) && c < |h|
    ensures r == GetAttrs(h, c)
  {
    var fields: ODict<Rule> := [];
    var defaults: map<string, Value> := map[];
    var rb := Rbase(h, c, []);
    var rl := Reverse(rb) + [c];
    assert rl == Chain(h, c);
    for i := 0 to |rl|
      invariant ScanChain(h, rl, Scan([], map[])) == ScanChain(h, rl[i..], Scan(fields, defaults))
    {
      fields, defaults := ScanNamespaceM(h[rl[i]].namespace, fields, defaults);
      assert rl[i..][1..] == rl[i + 1..];
    }
    assert rl[|rl|..] == [];
    if h[c].annotations.None? {
      return Failure(AttributeError("__annotations__"));
    }
    fields := AnnotationPassM(h[c].annotations.value, defaults, fields);
    return Success(fields);
  }

  /** The inner loop at lines 72-75 over one class's namespace. */
  method ScanNamespaceM(ns: ODict<Attr>, fields: ODict<Rule>, defaults: map<string, Value>)
    returns (fields': ODict<Rule>, defaults': map<string, Value>)
    ensures Scan(fields', defaults') == ScanNamespace(ns, Scan(fields, defaults))
  {
    fields', defaults' := fields, defaults;
    for j := 0 to |ns|
      invariant ScanNamespace(ns, Scan(fields, defaults)) == ScanNamespace(ns[j..], Scan(fields', defaults'))
    {
      assert ns[j..][1..] == ns[j + 1..];
      var k := ns[j].0;
      var a := ns[j].1;
      if IsValid(k, a) {
        defaults' := defaults'[k := a.v];
        fields' := Put(fields', k, ClassValueRule(a.v));
      }
    }
    assert ns[|ns|..] == [];
  }

  /** The loop at lines 77-84 over the class's annotations. */
  method AnnotationPassM(anns: ODict<Annotation>, defaults: map<string, Value>, fields: ODict<Rule>)
    returns (r: ODict<Rule>)
    ensures r == AnnotationPass(anns, defaults, fields)
  {
    r := fields;
    for j := 0 to |anns|
      invariant AnnotationPass(anns, defaults, fields) == AnnotationPass(anns[j..], defaults, r)
    {
      assert anns[j..][1..] == anns[j + 1..];
      var k := anns[j].0;
      if k in defaults && !IsValid(k, Plain(defaults[k])) {
        continue;
      }
      var rule := ToRule(anns[j].1);
      if k in defaults {
        rule := rule.(default := defaults[k]);
      }
      r := Put(r, k, rule);
    }
    assert anns[|anns|..] == [];
  }

  // ----- what the first pass computes -----

  /** The value of the last valid entry for `k` in a class's namespace. */
  function NsLastValid(ns: ODict<Attr>, k: string): Option<Value>
    decreases |ns|
  {
    if ns == [] then None
    else
      var later := NsLastValid(ns[1..], k);
      if later.Some? then later
      else if ns[0].0 == k && IsValid(ns[0].0, ns[0].1) then Some(ns[0].1.v)
      else None
  }

  /** The value of `k` in the last class of `rl` that binds it validly. */
  function LastValid(h: Classes, rl: seq<ClassId>, k: string): Option<Value>
    requires forall i :: 0 <= i < |rl| ==> rl[i] < |h|
    decreases |rl|
  {
    if rl == [] then None
    else
      var later := LastValid(h, rl[1..], k);
      if later.Some? then later else NsLastValid(h[rl[0]].namespace, k)
  }

  lemma {:induction false} ScanNamespaceAgrees(ns: ODict<Attr>, acc: Scan, n: nat)
    requires Agrees(acc, n) && ClassValuesIn(ns, n)
    ensures Agrees(ScanNamespace(ns, acc), n)
    decreases |ns|
  {
    if ns != [] {
      var acc' := ScanEntry(ns[0].0, ns[0].1, acc);
      assert ns[0].1 in ValueSet(ns);
      assert ClassValuesIn(ns[1..], n);
      ScanNamespaceAgrees(ns[1..], acc', n);
    }
  }

  lemma {:induction false} ScanChainAgrees(h: Classes, rl: seq<ClassId>, acc: Scan)
    requires WellFormed(h) && Agrees(acc, |h|)
    requires forall i :: 0 <= i < |rl| ==> rl[i] < |h|
    ensures Agrees(ScanChain(h, rl, acc), |h|)
    decreases |rl|
  {
    if rl != [] {
      assert ClassWellFormed(h, rl[0]);
      ScanNamespaceAgrees(h[rl[0]].namespace, acc, |h|);
      ScanChainAgrees(h, rl[1..], ScanNamespace(h[rl[0]].namespace, acc));
    }
  }

  lemma {:induction false} AgreesRulesIn(s: Scan, n: nat)
    requires Agrees(s, n)
    ensures RulesIn(s.fields, n)
  {
    forall r | r in ValueSet(s.fields)
      ensures TypeIn(r.ty, n)
    {
      var k := ValueKey(s.fields, r);
      var v := s.defaults[k];
      assert Lookup(s.fields, k) == Some(ClassValueRule(v));
      assert r == ClassValueRule(v);
    }
  }

  /** A key under which a distinct-keyed dict stores `r`. */
  lemma {:induction false} ValueKeyExists<V>(d: ODict<V>, r: V)
    requires DistinctKeys(d) && r in ValueSet(d)
    ensures exists k :: k in Keys(d) && Lookup(d, k) == Some(r)
    decreases |d|
  {
    if d[0].1 != r {
      ValueKeyExists(d[1..], r);
      var k :| k in Keys(d[1..]) && Lookup(d[1..], k) == Some(r);
      assert k != d[0].0;
      assert k in Keys(d) && Lookup(d, k) == Some(r);
    } else {
      assert d[0].0 in Keys(d) && Lookup(d, d[0].0) == Some(r);
    }
  }

  ghost function ValueKey<V>(d: ODict<V>, r: V): (k: string)
    requires DistinctKeys(d) && r in ValueSet(d)
    ensures k in Keys(d) && Lookup(d, k) == Some(r)
  {
    ValueKeyExists(d, r);
    var k :| k in Keys(d) && Lookup(d, k) == Some(r); k
  }

  lemma {:induction false} AnnotationPassKeeps(anns: ODict<Annotation>, defaults: map<string, Value>,
                                               fields: ODict<Rule>, n: nat)
    requires DistinctKeys(fields) && RulesIn(fields, n) && AnnotationsIn(anns, n)
    ensures DistinctKeys(AnnotationPass(anns, defaults, fields))
    ensures RulesIn(AnnotationPass(anns, defaults, fields), n)
    decreases |anns|
  {
    if anns != [] {
      var k := anns[0].0;
      assert anns[0].1 in ValueSet(anns);
      assert AnnotationsIn(anns[1..], n);
      var fields' := if k in defaults && !IsValid(k, Plain(defaults[k])) then fields
                     else Put(fields, k, AnnotatedRule(anns[0].1, k, defaults));
      AnnotationPassKeeps(anns[1..], defaults, fields', n);
    }
  }

  lemma {:induction false} ScanNamespaceDefaults(ns: ODict<Attr>, acc: Scan, k: string)
    ensures var r := ScanNamespace(ns, acc); var lv := NsLastValid(ns, k);
      && (k in r.defaults <==> k in acc.defaults || lv.Some?)
      && (k in r.defaults ==> r.defaults[k] == if lv.Some? then lv.value else acc.defaults[k])
    decreases |ns|
  {
    if ns != [] {
      ScanNamespaceDefaults(ns[1..], ScanEntry(ns[0].0, ns[0].1, acc), k);
    }
  }

  lemma {:induction false} ScanChainDefaults(h: Classes, rl: seq<ClassId>, acc: Scan, k: string)
    requires forall i :: 0 <= i < |rl| ==> rl[i] < |h|
    ensures var r := ScanChain(h, rl, acc); var lv := LastValid(h, rl, k);
      && (k in r.defaults <==> k in acc.defaults || lv.Some?)
      && (k in r.defaults ==> r.defaults[k] == if lv.Some? then lv.value else acc.defaults[k])
    decreases |rl|
  {
    if rl != [] {
      var ns := h[rl[0]].namespace;
      ScanNamespaceDefaults(ns, acc, k);
      ScanChainDefaults(h, rl[1..], ScanNamespace(ns, acc), k);
    }
  }

  /**
   * The annotation loop (lines 77-84): every annotated name gets its annotation's rule,
   * with the class-level default when there is one; the skip at line 78 is never taken
   * because `defaults` only ever holds valid names.
   */
  lemma {:induction false} AnnotationPassLookup(anns: ODict<Annotation>, defaults: map<string, Value>,
                                                fields: ODict<Rule>, k: string)
    requires DistinctKeys(anns)
    requires forall k' :: k' in defaults ==> IsValid(k', Plain(defaults[k']))
    ensures var r := AnnotationPass(anns, defaults, fields);
      && Keys(r) == Keys(fields) + Keys(anns)
      && Lookup(r, k) == if k in Keys(anns) then Some(AnnotatedRule(Lookup(anns, k).value, k, defaults))
                         else Lookup(fields, k)
    decreases |anns|
  {
    if anns != [] {
      var k0 := anns[0].0;
      var fields' := Put(fields, k0, AnnotatedRule(anns[0].1, k0, defaults));
      AnnotationPassLookup(anns[1..], defaults, fields', k);
    }
  }

  /**
   * get_attrs (lines 66-86): the fields are the annotated names and the names with a valid
   * class-level value somewhere in the chain. An annotated name keeps its annotated type and
   * takes the class-level value last in the chain as default when there is one; any other
   * field is `Optional[type(v)]` with default `v`, for `v` the class-level value last in the chain.
   */
  lemma GetAttrsFields(h: Classes, c: ClassId, k: string)
    requires WellFormed(h) && c < |h| && h[c].annotations.Some?
    ensures var fields := GetAttrs(h, c).value;
      var anns := h[c].annotations.value;
      var lv := LastValid(h, Chain(h, c), k);
      && (k in Keys(fields) <==> k in Keys(anns) || lv.Some?)
      && (k in Keys(anns) ==>
            Lookup(fields, k) ==
              Some(Rule(ToRule(Lookup(anns, k).value).ty,
                        if lv.Some? then lv.value else ToRule(Lookup(anns, k).value).default)))
      && (k !in Keys(anns) && lv.Some? ==> Lookup(fields, k) == Some(ClassValueRule(lv.value)))
  {
    var s := ScanChain(h, Chain(h, c), Scan([], map[]));
    ScanChainAgrees(h, Chain(h, c), Scan([], map[]));
    ScanChainDefaults(h, Chain(h, c), Scan([], map[]), k);
    assert ClassWellFormed(h, c);
    AnnotationPassLookup(h[c].annotations.value, s.defaults, s.fields, k);
  }

  lemma {:induction false} NsLastValidBinding(ns: ODict<Attr>, k: string)
    requires DistinctKeys(ns)
    ensures var lv := NsLastValid(ns, k);
      lv.Some? <==> (Lookup(ns, k).Some? && IsValid(k, Lookup(ns, k).value))
    ensures var lv := NsLastValid(ns, k); lv.Some? ==> Lookup(ns, k) == Some(Plain(lv.value))
    decreases |ns|
  {
    if ns != [] {
      NsLastValidBinding(ns[1..], k);
    }
  }

  /**
   * The last binding wins: the value LastValid reports is the valid binding of `k` in some
   * class of the chain, and no later class of the chain binds `k` validly.
   */
  lemma {:induction false} LastValidWins(h: Classes, rl: seq<ClassId>, k: string)
    requires WellFormed(h)
    requires forall i :: 0 <= i < |rl| ==> rl[i] < |h|
    requires LastValid(h, rl, k).Some?
    ensures var v := LastValid(h, rl, k).value;
      && !StartsWithUnderscore(k)
      && exists i :: 0 <= i < |rl| && Lookup(h[rl[i]].namespace, k) == Some(Plain(v)) &&
           forall j :: i < j < |rl| ==> NsLastValid(h[rl[j]].namespace, k).None?
    decreases |rl|
  {
    var v := LastValid(h, rl, k).value;
    if LastValid(h, rl[1..], k).Some? {
      LastValidWins(h, rl[1..], k);
      var i :| 0 <= i < |rl[1..]| && Lookup(h[rl[1..][i]].namespace, k) == Some(Plain(v)) &&
               forall j :: i < j < |rl[1..]| ==> NsLastValid(h[rl[1..][j]].namespace, k).None?;
      assert Lookup(h[rl[i + 1]].namespace, k) == Some(Plain(v));
      forall j | i + 1 < j < |rl|
        ensures NsLastValid(h[rl[j]].namespace, k).None?
      {
        assert rl[j] == rl[1..][j - 1];
      }
    } else {
      assert ClassWellFormed(h, rl[0]);
      NsLastValidBinding(h[rl[0]].namespace, k);
      forall j | 0 < j < |rl|
        ensures NsLastValid(h[rl[j]].namespace, k).None?
      {
        LastValidNone(h, rl[1..], k, j - 1);
      }
    }
  }

  lemma {:induction false} LastValidNone(h: Classes, rl: seq<ClassId>, k: string, j: nat)
    requires forall i :: 0 <= i < |rl| ==> rl[i] < |h|
    requires LastValid(h, rl, k).None? && j < |rl|
    ensures NsLastValid(h[rl[j]].namespace, k).None?
    decreases |rl|
  {
    if j > 0 {
      LastValidNone(h, rl[1..], k, j - 1);
    }
  }

  /**
   * The chain get_attrs walks ends with the class itself, after its proper ancestors. Under
   * single inheritance it runs from the root down: every class in it is a proper subclass
   * of each class before it, so a later class-level value is a more derived one. With
   * several bases this order does not hold (see `Scenarios.DiamondDefault`).
   */
  lemma ChainRootFirst(h: Classes, c: ClassId)
    requires WellFormed(h) && c < |h|
    ensures var rl := Chain(h, c);
      && rl[|rl| - 1] == c
      && (forall i :: 0 <= i < |rl| - 1 ==> rl[i] < c && IsSubclass(h, c, rl[i]))
      && (SingleInheritance(h) ==>
            forall i, j :: 0 <= i < j < |rl| ==> rl[i] < rl[j] && IsSubclass(h, rl[j], rl[i]))
  {
    var rl := Chain(h, c);
    var an := Ancestors(h, c);
    forall i | 0 <= i < |rl| - 1
      ensures rl[i] < c && IsSubclass(h, c, rl[i])
    {
      assert rl[i] == an[|an| - 1 - i];
      AncestorsSound(h, c, rl[i]);
    }
    if SingleInheritance(h) {
      AncestorsLinear(h, c);
      forall i, j | 0 <= i < j < |rl|
        ensures rl[i] < rl[j] && IsSubclass(h, rl[j], rl[i])
      {
        if j < |rl| - 1 {
          assert rl[i] == an[|an| - 1 - i] && rl[j] == an[|an| - 1 - j];
        }
      }
    }
  }

  // ----- setattr -----

  /** The first binding of `k` found in the namespaces of `order`. */
  function FindAttr(h: Classes, order: seq<ClassId>, k: string): Option<Attr>
    requires forall i :: 0 <= i < |order| ==> order[i] < |h|
    decreases |order|
  {
    if order == [] then None
    else
      var a := Lookup(h[order[0]].namespace, k);
      if a.Some? then a else FindAttr(h, order[1..], k)
  }

  /**
   * `setattr(instance, k, v)` on an instance of class `c`: a property found on the class
   * intercepts it (a `validated` one runs its validator, one without a setter raises
   * AttributeError); otherwise the value lands in the instance.
   */
  function SetAttr(h: Classes, c: ClassId, k: string, v: Value): Outcome
    requires WellFormed(h) && c < |h|
  {
    match FindAttr(h, [c] + Ancestors(h, c), k)
    case Some(Property(None)) => Fail(AttributeError(k))
    case Some(Property(Some(p))) => p.fn(v)
    case _ => Pass
  }

  /** The `validated` cells held by the classes of the hierarchy. */
  ghost function Cells(h: Classes): set<Validated>
  {
    set c, i | 0 <= c < |h| && 0 <= i < |h[c].namespace| && h[c].namespace[i].1.Property? &&
               h[c].namespace[i].1.setter.Some? :: h[c].namespace[i].1.setter.value
  }

  /** The cell a `setattr` of `k` on an instance of `c` writes to, if a `validated` property intercepts it. */
  function Target(h: Classes, c: ClassId, k: string): Option<Validated>
    requires WellFormed(h) && c < |h|
  {
    match FindAttr(h, [c] + Ancestors(h, c), k)
    case Some(Property(Some(p))) => Some(p)
    case _ => None
  }

  /**
   * The instance's own attributes after a `setattr(instance, k, v)` that passed: a name a
   * `validated` property intercepts is kept in that property's cell, not in the instance.
   */
  function Store(h: Classes, c: ClassId, attrs: map<string, Value>, k: string, v: Value): map<string, Value>
    requires WellFormed(h) && c < |h|
  {
    if Target(h, c, k).Some? then attrs else attrs[k := v]
  }

  /**
   * What setting field `k` to `v` on an instance of `c`, whose own attributes end up as
   * `attrs`, leaves behind: `v` in `attrs`, or, when a `validated` property intercepts `k`,
   * the property's validator accepted `v`. The shared cell held `v` right after that
   * `setattr`; a later `setattr` through the same property can replace it.
   */
  predicate Landed(h: Classes, c: ClassId, attrs: map<string, Value>, k: string, v: Value)
    requires WellFormed(h) && c < |h|
  {
    match Target(h, c, k)
    case None => k in attrs && attrs[k] == v
    case Some(p) => p.fn(v) == Pass
  }

  lemma {:induction false} FindAttrCell(h: Classes, order: seq<ClassId>, k: string)
    requires forall i :: 0 <= i < |order| ==> order[i] < |h|
    requires var a := FindAttr(h, order, k); a.Some? && a.value.Property? && a.value.setter.Some?
    ensures FindAttr(h, order, k).value.setter.value in Cells(h)
    decreases |order|
  {
    var a := Lookup(h[order[0]].namespace, k);
    if a.Some? {
      LookupEntry(h[order[0]].namespace, k);
      var i :| 0 <= i < |h[order[0]].namespace| && h[order[0]].namespace[i] == (k, a.value);
      assert h[order[0]].namespace[i].1.setter.value in Cells(h);
    } else {
      FindAttrCell(h, order[1..], k);
    }
  }

  /**
   * `setattr(instance, k, v)` with its effect: when a `validated` property intercepts it,
   * that property's setter runs and only its cell can change.
   */
  method SetAttrM(h: Classes, c: ClassId, instance: Value, k: string, v: Value) returns (o: Outcome)
    requires WellFormed(h) && c < |h|
    requires forall p :: p in Cells(h) ==> p.Valid()
    modifies Cells(h)
    ensures o == SetAttr(h, c, k, v)
    ensures forall p :: p in Cells(h) ==> p.Valid()
    ensures forall p :: p in Cells(h) ==>
      p.accepted == if Target(h, c, k) == Some(p) && o.Pass? then old(p.accepted) + [v] else old(p.accepted)
  {
    var order := Rbase(h, c, [c]);
    match FindAttr(h, order, k)
    case Some(Property(None)) =>
      o := Fail(AttributeError(k));
    case Some(Property(Some(p))) =>
      FindAttrCell(h, order, k);
      o := p.Set(instance, v);
    case _ =>
      o := Pass;
  }
}
