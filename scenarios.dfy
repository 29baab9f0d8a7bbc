/**
 * Small concrete hierarchies on which the two revisions of the engine and the resolver's
 * nested-subject behaviour can be compared outright.
 */
module Scenarios {
  import opened Base
  import opened Values
  import opened ODicts
  import opened Hierarchy
  import opened Rules
  import opened Fields
  import opened Resolver
  import opened Annotations
  import Engine
  import EngineFacts
  import Legacy
  import LegacyFacts

  /**
   * `Shape` (0), with an empty `__annotations__`, and two subclasses without discriminators:
   * `Circle` (1) with an annotated `radius: int`, and `Label` (2) with an annotated `text: str`.
   */
  function Shapes(): Classes
  {
    [ ClassInfo([], [1, 2], [], Some([]), [], false),
      ClassInfo([0], [], [], Some([("radius", TypeAnn(Builtin(IntType)))]), [], false),
      ClassInfo([0], [], [], Some([("text", TypeAnn(Builtin(StrType)))]), [], false) ]
  }

  lemma ShapesWellFormed()
    ensures WellFormed(Shapes())
  {
    var h := Shapes();
    forall c | 0 <= c < |h|
      ensures ClassWellFormed(h, c)
    {
      if c == 0 { Shape0(); } else if c == 1 { Shape1(); } else { Shape2(); }
    }
  }

  lemma Shape0() ensures ClassWellFormed(Shapes(), 0) {
    var h := Shapes();
    assert ValueSet(h[0].namespace) == {};
  }
  lemma Shape1() ensures ClassWellFormed(Shapes(), 1) {
    var h := Shapes();
    assert ValueSet(h[1].namespace) == {};
  }
  lemma Shape2() ensures ClassWellFormed(Shapes(), 2) {
    var h := Shapes();
    assert ValueSet(h[2].namespace) == {};
  }

  lemma ShapesAttrs()
    ensures WellFormed(Shapes())
    ensures GetAttrs(Shapes(), 1) == Success([("radius", Rule(Builtin(IntType), Null))])
    ensures GetAttrs(Shapes(), 2) == Success([("text", Rule(Builtin(StrType), Null))])
  {
    ShapesWellFormed();
    var h := Shapes();
    assert Ancestors(h, 0) == [];
    assert Ancestors(h, 1) == [0];
    assert Ancestors(h, 2) == [0];
    assert Chain(h, 1) == [0, 1];
    assert Chain(h, 2) == [0, 2];
  }

  /** The data `{"text": "hello"}`: a Label, not a Circle. */
  function LabelData(): map<string, Value>
  {
    map["text" := Str("hello")]
  }

  /**
   * The older engine with `try_all` builds Circle first, whose missing `radius` fails
   * validation, backtracks, and builds Label; without `try_all` the field failure propagates.
   */
  lemma LegacyBacktracksToLabel()
    ensures WellFormed(Shapes())
    ensures Legacy.Deserialize(Shapes(), 0, LabelData(), true) == Success(Instance(2, LabelData()))
    ensures Legacy.Deserialize(Shapes(), 0, LabelData(), false) == Failure(TypeError(NotConforming))
  {
    ShapesAttrs();
    var h := Shapes();
    var d := LabelData();
    assert FindAttr(h, [2] + Ancestors(h, 2), "text") == None;
    assert Legacy.Deserialize(h, 1, d, false) == Failure(TypeError(NotConforming));
    assert Legacy.Deserialize(h, 2, d, false) == Success(Instance(2, d));
  }

  /**
   * The newer engine resolves the same data to Circle (the resolver only looks at
   * discriminators), and the missing `radius` then fails with no other candidate tried.
   */
  lemma EngineDoesNotBacktrack(fuel: nat)
    requires fuel >= 2
    ensures WellFormed(Shapes())
    ensures Engine.Deserialize(Shapes(), fuel, Rule(Record(0), Null), Dict(LabelData()), true) ==
            Failure(TypeError(NoCandidate))
  {
    ShapesAttrs();
    var h := Shapes();
    var d := LabelData();
    assert Resolve(h, 1, ClassObj(0), true) == Success(1);
    assert Resolve(h, 0, Data(d), true) == Success(1);
    var r := Rule(Builtin(IntType), Null);
    assert Engine.Deserialize(h, fuel - 1, r, Null, true) == Failure(TypeError(NoCandidate));
    assert Engine.FieldResult(h, fuel - 1, 1, d, "radius", r, true) == Failure(TypeError(NoCandidate));
    assert Engine.Build(h, fuel - 1, 1, [("radius", r)], d, 0, map[], true) == Failure(TypeError(NoCandidate));
    assert Engine.RecordBranch(h, fuel - 1, 0, d, true) == Failure(TypeError(NoCandidate));
  }

  /**
   * `Node` (0) <- `Branch` (1) <- `Leaf` (2), where only `Leaf` carries a discriminator:
   * key `kind` with value `"leaf"`. Each class has an empty `__annotations__`.
   */
  function Nodes(): Classes
  {
    [ ClassInfo([], [1], [], Some([]), [], false),
      ClassInfo([0], [2], [], Some([]), [], false),
      ClassInfo([1], [], [], Some([]), [Annotations.KeyValue("kind", Str("leaf"), true)], false) ]
  }

  lemma Node0() ensures ClassWellFormed(Nodes(), 0) {
    assert ValueSet(Nodes()[0].namespace) == {};
  }
  lemma Node1() ensures ClassWellFormed(Nodes(), 1) {
    assert ValueSet(Nodes()[1].namespace) == {};
  }
  lemma Node2() ensures ClassWellFormed(Nodes(), 2) {
    assert ValueSet(Nodes()[2].namespace) == {};
  }

  lemma NodesWellFormed()
    ensures WellFormed(Nodes())
  {
    var h := Nodes();
    forall c | 0 <= c < |h|
      ensures ClassWellFormed(h, c)
    {
      if c == 0 { Node0(); } else if c == 1 { Node1(); } else { Node2(); }
    }
  }

  function LeafData(): map<string, Value>
  {
    map["kind" := Str("leaf")]
  }

  /**
   * Data that `Leaf`'s discriminator accepts never reaches `Leaf` in the newer resolver:
   * below `Node` the discriminator is checked against the class `Branch`, which raises a
   * TypeError. It propagates without `try_all`; with it, `Branch` is passed over and `Node`
   * itself is the answer.
   */
  lemma NestedDiscriminatorQuirk()
    ensures WellFormed(Nodes())
    ensures Resolve(Nodes(), 0, Data(LeafData()), false) == Failure(TypeError(NotIterable))
    ensures Resolve(Nodes(), 0, Data(LeafData()), true) == Success(0)
  {
    NodesWellFormed();
    var h := Nodes();
    NestedKeyValueRaises(h, 1, 0, false);
    NestedKeyValueRaises(h, 1, 0, true);
    assert Verdict(h, 0, 0, Data(LeafData())) == Success(true);
    ResolveFirstEligible(h, 0, Data(LeafData()), false, 0);
    ResolveFirstEligible(h, 0, Data(LeafData()), true, 0);
  }

  /** A scan over classes without class-level values leaves the accumulator as it was. */
  lemma {:induction false} ScanChainBare(h: Classes, rl: seq<ClassId>, acc: Scan)
    requires forall i :: 0 <= i < |rl| ==> rl[i] < |h| && h[rl[i]].namespace == []
    ensures ScanChain(h, rl, acc) == acc
    decreases |rl|
  {
    if rl != [] {
      ScanChainBare(h, rl[1..], acc);
    }
  }

  /** A class with no annotations of its own or inherited, and no class-level values anywhere, has no fields. */
  lemma GetAttrsBare(h: Classes, c: ClassId)
    requires WellFormed(h) && c < |h| && h[c].annotations == Some([])
    requires forall x :: 0 <= x < |h| ==> h[x].namespace == []
    ensures GetAttrs(h, c) == Success([])
  {
    var rl := Chain(h, c);
    ScanChainBare(h, rl, Scan([], map[]));
  }

  lemma LeafAttrs()
    ensures WellFormed(Nodes())
    ensures GetAttrs(Nodes(), 2) == Success([])
  {
    NodesWellFormed();
    GetAttrsBare(Nodes(), 2);
  }

  /** The older engine checks the data at every level and builds `Leaf`. */
  lemma LegacyReachesLeaf()
    ensures WellFormed(Nodes())
    ensures Legacy.Deserialize(Nodes(), 0, LeafData(), false) == Success(Instance(2, map[]))
  {
    LeafAttrs();
    var h := Nodes();
    assert Legacy.Deserialize(h, 2, LeafData(), false) == Success(Instance(2, map[]));
    assert Legacy.Deserialize(h, 1, LeafData(), false) == Success(Instance(2, map[]));
  }

  const OptInt := Union([Builtin(IntType), Builtin(NoneType)])

  /**
   * The receipt classes: abstract `ReceiptLine` (0) with `pk: Optional[int]`, `name: str`
   * and a class value `t = 0`; `TransactionLine` (1), discriminated by `type == "transaction"`,
   * adding `article_id: int` and `amount: int`; `RefundLine` (2), discriminated by
   * `type == "refund"`. Annotations are stored merged, as the metaclass leaves them.
   */
  function Receipts(): Classes
  {
    [ ClassInfo([], [1, 2], [("__repr__", Callable), ("t", Plain(Int(0)))], Some(ReceiptAnns), [], true),
      ClassInfo([0], [], [("__repr__", Callable)], Some(TransactionAnns),
                [Annotations.KeyValue("type", Str("transaction"), true)], false),
      ClassInfo([0], [], [("__repr__", Callable)], Some(ReceiptAnns),
                [Annotations.KeyValue("type", Str("refund"), true)], false) ]
  }

  /** Growing an ordered dict at the front, for the literal dicts below. */
  lemma Cons<V>(x: (string, V), d: ODict<V>)
    ensures Keys([x] + d) == {x.0} + Keys(d)
    ensures ValueSet([x] + d) == {x.1} + ValueSet(d)
    ensures x.0 !in Keys(d) && DistinctKeys(d) ==> DistinctKeys([x] + d)
  {
    assert ([x] + d)[1..] == d;
  }

  const ReceiptAnns: ODict<Annotation> := [("pk", TypeAnn(OptInt)), ("name", TypeAnn(Builtin(StrType)))]
  const TransactionAnns: ODict<Annotation> := ReceiptAnns + TransactionOwn

  lemma ReceiptAnnsFacts()
    ensures DistinctKeys(ReceiptAnns) && DistinctKeys(TransactionAnns)
    ensures ValueSet(ReceiptAnns) == {TypeAnn(OptInt), TypeAnn(Builtin(StrType))}
    ensures ValueSet(TransactionAnns) == {TypeAnn(OptInt), TypeAnn(Builtin(StrType)), TypeAnn(Builtin(IntType))}
  {
    var a3: ODict<Annotation> := [("amount", TypeAnn(Builtin(IntType)))];
    Cons(("amount", TypeAnn(Builtin(IntType))), []);
    assert [("amount", TypeAnn(Builtin(IntType)))] + [] == a3;
    var a2 := [("article_id", TypeAnn(Builtin(IntType)))] + a3;
    Cons(("article_id", TypeAnn(Builtin(IntType))), a3);
    var a1 := [("name", TypeAnn(Builtin(StrType)))] + a2;
    Cons(("name", TypeAnn(Builtin(StrType))), a2);
    Cons(("pk", TypeAnn(OptInt)), a1);
    assert TransactionAnns == [("pk", TypeAnn(OptInt))] + a1;
    var r1: ODict<Annotation> := [("name", TypeAnn(Builtin(StrType)))];
    Cons(("name", TypeAnn(Builtin(StrType))), []);
    assert [("name", TypeAnn(Builtin(StrType)))] + [] == r1;
    Cons(("pk", TypeAnn(OptInt)), r1);
    assert ReceiptAnns == [("pk", TypeAnn(OptInt))] + r1;
  }

  lemma ReceiptNamespaces()
    ensures ValueSet(Receipts()[0].namespace) == {Callable, Plain(Int(0))}
    ensures ValueSet(Receipts()[1].namespace) == {Callable}
    ensures ValueSet(Receipts()[2].namespace) == {Callable}
  {
    var h := Receipts();
    assert h[0].namespace[1..][1..] == [];
    assert h[1].namespace[1..] == [];
    assert h[2].namespace[1..] == [];
  }

  lemma Receipt0() ensures ClassWellFormed(Receipts(), 0) {
    var h := Receipts();
    ReceiptAnnsFacts();
    assert ValueSet(h[0].namespace) == {Callable, Plain(Int(0))};
  }
  lemma Receipt1() ensures ClassWellFormed(Receipts(), 1) {
    var h := Receipts();
    ReceiptAnnsFacts();
    assert ValueSet(h[1].namespace) == {Callable};
  }
  lemma Receipt2() ensures ClassWellFormed(Receipts(), 2) {
    var h := Receipts();
    ReceiptAnnsFacts();
    assert ValueSet(h[2].namespace) == {Callable};
  }

  lemma ReceiptsWellFormed()
    ensures WellFormed(Receipts())
  {
    var h := Receipts();
    forall c | 0 <= c < |h|
      ensures ClassWellFormed(h, c)
    {
      if c == 0 { Receipt0(); } else if c == 1 { Receipt1(); } else { Receipt2(); }
    }
  }

  const TDefault: map<string, Value> := map["t" := Int(0)]
  const F0: ODict<Rule> := [("t", Rule(OptInt, Int(0)))]
  const F2: ODict<Rule> := F0 + [("pk", Rule(OptInt, Null)), ("name", Rule(Builtin(StrType), Null))]
  const F4: ODict<Rule> :=
    F2 + [("article_id", Rule(Builtin(IntType), Null)), ("amount", Rule(Builtin(IntType), Null))]

  lemma ReceiptScan()
    ensures WellFormed(Receipts())
    ensures ScanChain(Receipts(), Chain(Receipts(), 1), Scan([], map[])) == Scan(F0, TDefault)
    ensures ScanChain(Receipts(), Chain(Receipts(), 2), Scan([], map[])) == Scan(F0, TDefault)
  {
    ReceiptsWellFormed();
    var h := Receipts();
    assert Ancestors(h, 0) == [];
    assert Chain(h, 1) == [0, 1];
    assert Chain(h, 2) == [0, 2];
    assert ScanNamespace(h[0].namespace, Scan([], map[])) == Scan(F0, TDefault);
  }

  /** Adding a new key at the end of a literal dict. */
  lemma PutNew<V>(d: ODict<V>, x: (string, V))
    requires x.0 !in Keys(d)
    ensures Put(d, x.0, x.1) == d + [x]
    ensures Keys(d + [x]) == Keys(d) + {x.0}
  {
    AppendKeys(d, x);
  }

  /** One step of the annotation pass over a fresh, bare-typed name. */
  lemma PassNew(anns: ODict<Annotation>, d: map<string, Value>, f: ODict<Rule>)
    requires anns != [] && anns[0].0 !in d && anns[0].0 !in Keys(f) && anns[0].1.TypeAnn?
    ensures var x := (anns[0].0, Rule(anns[0].1.t, Null));
      && AnnotationPass(anns, d, f) == AnnotationPass(anns[1..], d, f + [x])
      && Keys(f + [x]) == Keys(f) + {x.0}
  {
    PutNew(f, (anns[0].0, Rule(anns[0].1.t, Null)));
  }

  lemma ReceiptPass()
    ensures AnnotationPass(ReceiptAnns, TDefault, F0) == F2
  {
    Cons(("t", Rule(OptInt, Int(0))), []);
    assert [("t", Rule(OptInt, Int(0)))] + [] == F0;
    PassNew(ReceiptAnns, TDefault, F0);
    var f1 := F0 + [("pk", Rule(OptInt, Null))];
    PassNew(ReceiptAnns[1..], TDefault, f1);
    assert f1 + [("name", Rule(Builtin(StrType), Null))] == F2;
    assert ReceiptAnns[1..][1..] == [];
  }

  lemma {:induction false} PassConcat(a: ODict<Annotation>, b: ODict<Annotation>, d: map<string, Value>, f: ODict<Rule>)
    ensures AnnotationPass(a + b, d, f) == AnnotationPass(b, d, AnnotationPass(a, d, f))
    decreases |a|
  {
    if a != [] {
      assert (a + b)[0] == a[0] && (a + b)[1..] == a[1..] + b;
      var k := a[0].0;
      var f' := if k in d && !IsValid(k, Plain(d[k])) then f else Put(f, k, AnnotatedRule(a[0].1, k, d));
      PassConcat(a[1..], b, d, f');
    } else {
      assert a + b == b;
    }
  }

  const TransactionOwn: ODict<Annotation> :=
    [("article_id", TypeAnn(Builtin(IntType))), ("amount", TypeAnn(Builtin(IntType)))]

  lemma F2Keys()
    ensures Keys(F2) == {"t", "pk", "name"}
  {
    Cons(("t", Rule(OptInt, Int(0))), []);
    assert [("t", Rule(OptInt, Int(0)))] + [] == F0;
    var f1 := F0 + [("pk", Rule(OptInt, Null))];
    AppendKeys(F0, ("pk", Rule(OptInt, Null)));
    AppendKeys(f1, ("name", Rule(Builtin(StrType), Null)));
    assert f1 + [("name", Rule(Builtin(StrType), Null))] == F2;
  }

  lemma TransactionTail()
    ensures AnnotationPass(TransactionOwn, TDefault, F2) == F4
  {
    F2Keys();
    PassNew(TransactionOwn, TDefault, F2);
    var f3 := F2 + [("article_id", Rule(Builtin(IntType), Null))];
    PassNew(TransactionOwn[1..], TDefault, f3);
    assert f3 + [("amount", Rule(Builtin(IntType), Null))] == F4;
    assert TransactionOwn[1..][1..] == [];
  }

  lemma TransactionPass()
    ensures AnnotationPass(TransactionAnns, TDefault, F0) == F4
  {
    assert TransactionAnns == ReceiptAnns + TransactionOwn;
    PassConcat(ReceiptAnns, TransactionOwn, TDefault, F0);
    ReceiptPass();
    TransactionTail();
  }

  /** `t = 0` becomes the field `t: Optional[int] = 0`, ahead of the annotated fields. */
  lemma ReceiptAttrs()
    ensures WellFormed(Receipts())
    ensures GetAttrs(Receipts(), 1) == Success(F4)
    ensures GetAttrs(Receipts(), 2) == Success(F2)
  {
    ReceiptScan();
    ReceiptPass();
    TransactionPass();
  }

  lemma AppendKeys<V>(d: ODict<V>, x: (string, V))
    ensures Keys(d + [x]) == Keys(d) + {x.0}
    decreases |d|
  {
    if d != [] {
      assert (d + [x])[1..] == d[1..] + [x];
      AppendKeys(d[1..], x);
    }
  }

  /** A lookup through classes none of which holds a property never finds one. */
  lemma {:induction false} NoPropertyFound(h: Classes, order: seq<ClassId>, k: string)
    requires forall i :: 0 <= i < |order| ==> order[i] < |h|
    requires forall i, a :: 0 <= i < |order| && a in ValueSet(h[order[i]].namespace) ==> !a.Property?
    ensures FindAttr(h, order, k).None? || !FindAttr(h, order, k).value.Property?
    decreases |order|
  {
    if order != [] && Lookup(h[order[0]].namespace, k).None? {
      assert forall i :: 0 <= i < |order[1..]| ==> order[1..][i] == order[i + 1];
      NoPropertyFound(h, order[1..], k);
    }
  }

  /** No receipt class has a property, so every `setattr` lands in the instance. */
  lemma ReceiptSetAttr(c: ClassId, k: string, v: Value)
    requires c < 3
    ensures WellFormed(Receipts())
    ensures SetAttr(Receipts(), c, k, v) == Pass && Target(Receipts(), c, k).None?
  {
    ReceiptsWellFormed();
    ReceiptNamespaces();
    var h := Receipts();
    assert Ancestors(h, 0) == [];
    if c == 0 {
      NoPropertyFound(h, [0], k);
    } else {
      assert Ancestors(h, c) == [0];
      NoPropertyFound(h, [c, 0], k);
    }
  }

  function TransactionData(): map<string, Value>
  {
    map["type" := Str("transaction"), "name" := Str("asdf"), "article_id" := Int(5), "amount" := Int(5)]
  }

  function TransactionResult(): map<string, Value>
  {
    map["t" := Int(0), "pk" := Null, "name" := Str("asdf"), "article_id" := Int(5), "amount" := Int(5)]
  }

  /** A field the older engine validates and sets on a receipt class. */
  lemma ReceiptField(c: ClassId, d: map<string, Value>, k: string, r: Rule, v: Value)
    requires c < 3
    requires Validate(Receipts(), r, if k in d then d[k] else Null) == Success(v)
    ensures WellFormed(Receipts())
    ensures Legacy.FieldValue(Receipts(), c, d, k, r) == Success(v)
  {
    ReceiptSetAttr(c, k, v);
  }

  /** The values the receipt fields take conform to their types. */
  lemma OptIntConforms(h: Classes)
    ensures Conforms(h, Null, OptInt) && Conforms(h, Int(0), OptInt)
    ensures Conforms(h, Str("asdf"), Builtin(StrType)) && Conforms(h, Int(5), Builtin(IntType))
  {
    assert Conforms(h, Null, OptInt.arms[1]);
    assert Conforms(h, Int(0), OptInt.arms[0]);
  }

  lemma TransactionFieldValues()
    ensures WellFormed(Receipts())
    ensures var h := Receipts(); var d := TransactionData();
      && Legacy.FieldValue(h, 1, d, "t", Rule(OptInt, Int(0))) == Success(Int(0))
      && Legacy.FieldValue(h, 1, d, "pk", Rule(OptInt, Null)) == Success(Null)
      && Legacy.FieldValue(h, 1, d, "name", Rule(Builtin(StrType), Null)) == Success(Str("asdf"))
      && Legacy.FieldValue(h, 1, d, "article_id", Rule(Builtin(IntType), Null)) == Success(Int(5))
      && Legacy.FieldValue(h, 1, d, "amount", Rule(Builtin(IntType), Null)) == Success(Int(5))
  {
    var h := Receipts();
    var d := TransactionData();
    OptIntConforms(h);
    assert "t" !in d && "pk" !in d;
    assert d["name"] == Str("asdf") && d["article_id"] == Int(5) && d["amount"] == Int(5);
    ReceiptField(1, d, "t", Rule(OptInt, Int(0)), Int(0));
    ReceiptField(1, d, "pk", Rule(OptInt, Null), Null);
    ReceiptField(1, d, "name", Rule(Builtin(StrType), Null), Str("asdf"));
    ReceiptField(1, d, "article_id", Rule(Builtin(IntType), Null), Int(5));
    ReceiptField(1, d, "amount", Rule(Builtin(IntType), Null), Int(5));
  }

  /** The attributes set one by one, in field order, make up the expected TransactionLine. */
  lemma TransactionMap()
    ensures map[]["t" := Int(0)]["pk" := Null]["name" := Str("asdf")]["article_id" := Int(5)]["amount" := Int(5)]
            == TransactionResult()
  {
  }

  lemma SetFieldsStep(h: Classes, t: ClassId, fs: ODict<Rule>, d: map<string, Value>, i: nat,
                      attrs: map<string, Value>, v: Value)
    requires WellFormed(h) && t < |h| && i < |fs|
    requires Legacy.FieldValue(h, t, d, fs[i].0, fs[i].1) == Success(v) && Target(h, t, fs[i].0).None?
    ensures Legacy.SetFields(h, t, fs, d, i, attrs) == Legacy.SetFields(h, t, fs, d, i + 1, attrs[fs[i].0 := v])
  {
  }

  lemma TransactionFields()
    ensures WellFormed(Receipts())
    ensures Legacy.Construct(Receipts(), 1, TransactionData()) == Success(Instance(1, TransactionResult()))
  {
    ReceiptAttrs();
    TransactionFieldValues();
    F4Literal();
    TransactionMap();
    var h := Receipts();
    var d := TransactionData();
    var m0: map<string, Value> := map[];
    var m1 := m0["t" := Int(0)];
    var m2 := m1["pk" := Null];
    var m3 := m2["name" := Str("asdf")];
    var m4 := m3["article_id" := Int(5)];
    ReceiptSetAttr(1, "t", Null);
    ReceiptSetAttr(1, "pk", Null);
    ReceiptSetAttr(1, "name", Null);
    ReceiptSetAttr(1, "article_id", Null);
    ReceiptSetAttr(1, "amount", Null);
    SetFieldsStep(h, 1, F4, d, 0, m0, Int(0));
    SetFieldsStep(h, 1, F4, d, 1, m1, Null);
    SetFieldsStep(h, 1, F4, d, 2, m2, Str("asdf"));
    SetFieldsStep(h, 1, F4, d, 3, m3, Int(5));
    SetFieldsStep(h, 1, F4, d, 4, m4, Int(5));
    assert Legacy.SetFields(h, 1, F4, d, 5, m4["amount" := Int(5)]) == Success(Instance(1, TransactionResult()));
  }

  /**
   * The receipts of test.py under the older engine: `type` selects the subclass; `t` takes its
   * class-level default 0 and the absent `pk` its default None.
   */
  lemma LegacyTransaction()
    ensures WellFormed(Receipts())
    ensures Legacy.Deserialize(Receipts(), 0, TransactionData(), false) == Success(Instance(1, TransactionResult()))
  {
    TransactionFields();
    var h := Receipts();
    assert Legacy.Deserialize(h, 1, TransactionData(), false) == Success(Instance(1, TransactionResult()));
  }

  function OtherData(): map<string, Value>
  {
    map["type" := Str("other"), "name" := Str("asdf")]
  }

  /** No subclass matches `type == "other"`, and `ReceiptLine` itself is abstract. */
  lemma LegacyOtherIsAbstract()
    ensures WellFormed(Receipts())
    ensures Legacy.Deserialize(Receipts(), 0, OtherData(), false) == Failure(TypeError(AbstractClass))
  {
    ReceiptsWellFormed();
    var h := Receipts();
    assert Verdict(h, 0, 0, Data(OtherData())) == Success(false);
    assert Verdict(h, 0, 1, Data(OtherData())) == Success(false);
    LegacyFacts.LegacyNoneEligible(h, 0, OtherData(), false);
  }

  /** A field the newer engine coerces and sets on a receipt class, when its argument already conforms. */
  lemma EngineReceiptField(f: nat, c: ClassId, d: map<string, Value>, k: string, r: Rule, v: Value)
    requires f >= 1 && c < 3 && TypeIn(r.ty, 3)
    requires Validate(Receipts(), r, Engine.FieldArg(d, k, r)) == Success(v)
    ensures WellFormed(Receipts())
    ensures Engine.FieldResult(Receipts(), f, c, d, k, r, false) == Success(v)
  {
    ReceiptSetAttr(c, k, v);
  }

  lemma EngineTransactionFieldValues(fuel: nat)
    requires fuel >= 1
    ensures WellFormed(Receipts())
    ensures var h := Receipts(); var d := TransactionData();
      && Engine.FieldResult(h, fuel, 1, d, "t", Rule(OptInt, Int(0)), false) == Success(Int(0))
      && Engine.FieldResult(h, fuel, 1, d, "pk", Rule(OptInt, Null), false) == Success(Null)
      && Engine.FieldResult(h, fuel, 1, d, "name", Rule(Builtin(StrType), Null), false) == Success(Str("asdf"))
      && Engine.FieldResult(h, fuel, 1, d, "article_id", Rule(Builtin(IntType), Null), false) == Success(Int(5))
      && Engine.FieldResult(h, fuel, 1, d, "amount", Rule(Builtin(IntType), Null), false) == Success(Int(5))
  {
    var h := Receipts();
    var d := TransactionData();
    OptIntConforms(h);
    assert "t" !in d && "pk" !in d;
    assert d["name"] == Str("asdf") && d["article_id"] == Int(5) && d["amount"] == Int(5);
    EngineReceiptField(fuel, 1, d, "t", Rule(OptInt, Int(0)), Int(0));
    EngineReceiptField(fuel, 1, d, "pk", Rule(OptInt, Null), Null);
    EngineReceiptField(fuel, 1, d, "name", Rule(Builtin(StrType), Null), Str("asdf"));
    EngineReceiptField(fuel, 1, d, "article_id", Rule(Builtin(IntType), Null), Int(5));
    EngineReceiptField(fuel, 1, d, "amount", Rule(Builtin(IntType), Null), Int(5));
  }

  /** The attributes the field loop sets from field `i` on, given the value of each field. */
  function SetAll(attrs: map<string, Value>, fs: ODict<Rule>, vs: seq<Value>, i: nat): map<string, Value>
    requires |vs| == |fs|
    decreases |fs| - i
  {
    if i >= |fs| then attrs else SetAll(attrs[fs[i].0 := vs[i]], fs, vs, i + 1)
  }

  /** A field loop every field of which succeeds builds the instance holding all their values. */
  lemma {:induction false} BuildAll(h: Classes, f: nat, cls: ClassId, fs: ODict<Rule>, d: map<string, Value>, i: nat,
                                    attrs: map<string, Value>, vs: seq<Value>)
    requires WellFormed(h) && cls < |h| && i <= |fs| && |vs| == |fs|
    requires forall j :: 0 <= j < |fs| ==> TypeIn(fs[j].1.ty, |h|)
    requires forall j :: i <= j < |fs| ==> Engine.FieldResult(h, f, cls, d, fs[j].0, fs[j].1, false) == Success(vs[j])
    requires forall j :: i <= j < |fs| ==> Target(h, cls, fs[j].0).None?
    ensures Engine.Build(h, f, cls, fs, d, i, attrs, false) == Success(Instance(cls, SetAll(attrs, fs, vs, i)))
    decreases |fs| - i
  {
    if i < |fs| {
      BuildAll(h, f, cls, fs, d, i + 1, attrs[fs[i].0 := vs[i]], vs);
    }
  }

  lemma F4Literal()
    ensures F4 == [("t", Rule(OptInt, Int(0))), ("pk", Rule(OptInt, Null)), ("name", Rule(Builtin(StrType), Null)),
                   ("article_id", Rule(Builtin(IntType), Null)), ("amount", Rule(Builtin(IntType), Null))]
  {
  }

  lemma EngineTransactionBuild(f: nat)
    requires f >= 1
    ensures WellFormed(Receipts())
    ensures forall j :: 0 <= j < |F4| ==> TypeIn(F4[j].1.ty, |Receipts()|)
    ensures Engine.Build(Receipts(), f, 1, F4, TransactionData(), 0, map[], false) ==
            Success(Instance(1, TransactionResult()))
  {
    EngineTransactionFieldValues(f);
    F4Literal();
    TransactionMap();
    var vs := [Int(0), Null, Str("asdf"), Int(5), Int(5)];
    forall j | 0 <= j < |F4|
      ensures Target(Receipts(), 1, F4[j].0).None?
    {
      ReceiptSetAttr(1, F4[j].0, Null);
    }
    BuildAll(Receipts(), f, 1, F4, TransactionData(), 0, map[], vs);
    TransactionSetAll();
  }

  lemma TransactionSetAll()
    ensures SetAll(map[], F4, [Int(0), Null, Str("asdf"), Int(5), Int(5)], 0) == TransactionResult()
  {
    F4Literal();
    TransactionMap();
    var vs := [Int(0), Null, Str("asdf"), Int(5), Int(5)];
    var m0: map<string, Value> := map[];
    var m1 := m0["t" := Int(0)];
    var m2 := m1["pk" := Null];
    var m3 := m2["name" := Str("asdf")];
    var m4 := m3["article_id" := Int(5)];
    var m5 := m4["amount" := Int(5)];
    assert SetAll(m5, F4, vs, 5) == m5;
    assert SetAll(m4, F4, vs, 4) == m5;
    assert SetAll(m3, F4, vs, 3) == m5;
    assert SetAll(m2, F4, vs, 2) == m5;
    assert SetAll(m1, F4, vs, 1) == m5;
  }

  lemma ResolveTransaction()
    ensures WellFormed(Receipts())
    ensures Resolve(Receipts(), 0, Data(TransactionData()), false) == Success(1)
  {
    ReceiptsWellFormed();
    var h := Receipts();
    assert Resolve(h, 1, ClassObj(0), false) == Success(1);
    assert Verdict(h, 0, 0, Data(TransactionData())) == Success(true);
    ResolveFirstEligible(h, 0, Data(TransactionData()), false, 0);
  }

  lemma EngineTransactionRecord(f: nat)
    requires f >= 1
    ensures WellFormed(Receipts())
    ensures Engine.RecordBranch(Receipts(), f, 0, TransactionData(), false) == Success(Instance(1, TransactionResult()))
  {
    ReceiptAttrs();
    ResolveTransaction();
    EngineTransactionBuild(f);
  }

  /** The newer engine gives the same TransactionLine for the same data. */
  lemma EngineTransaction(fuel: nat)
    requires fuel >= 2
    ensures WellFormed(Receipts())
    ensures Engine.Deserialize(Receipts(), fuel, Rule(Record(0), Null), Dict(TransactionData()), false) ==
            Success(Instance(1, TransactionResult()))
  {
    EngineTransactionRecord(fuel - 1);
    UnfoldReceipt(Receipts(), fuel, TransactionData(), Success(Instance(1, TransactionResult())));
  }

  lemma UnfoldReceipt(h: Classes, fuel: nat, d: map<string, Value>, r: Result<Value>)
    requires WellFormed(h) && |h| > 0 && fuel > 0
    requires Engine.RecordBranch(h, fuel - 1, 0, d, false) == r
    ensures Engine.Deserialize(h, fuel, Rule(Record(0), Null), Dict(d), false) == r
  {
    EngineFacts.RecordUnfold(h, fuel, Rule(Record(0), Null), Dict(d), false);
  }

  /** The validator of test_Property.py: `len(value) > 10` raises TypeError (as does `len` of a non-sized value). */
  function NameCheck(v: Value): Outcome
  {
    var size := match v
      case Str(s) => Some(|s|)
      case List(items) => Some(|items|)
      case Dict(entries) => Some(|entries|)
      case _ => None;
    if size.None? then Fail(TypeError(Rejected("object has no len()")))
    else if size.value > 10 then Fail(TypeError(Rejected("Maximum name length is 20 characters")))
    else Pass
  }

  /** `Object` (0) of test_Property.py: `name: str`, with `name` a `validated` property. */
  function Objects(p: Validated): Classes
  {
    [ClassInfo([], [], [("name", Property(Some(p)))], Some([("name", TypeAnn(Builtin(StrType)))]), [], false)]
  }

  lemma ObjectsWellFormed(p: Validated)
    ensures WellFormed(Objects(p))
    ensures Cells(Objects(p)) == {p}
  {
    var h := Objects(p);
    assert ValueSet(h[0].namespace) == {Property(Some(p))};
    assert ValueSet(h[0].annotations.value) == {TypeAnn(Builtin(StrType))};
    assert ClassWellFormed(h, 0);
    assert h[0].namespace[0].1.setter.value == p;
  }

  lemma ObjectsAttrs(p: Validated)
    ensures WellFormed(Objects(p))
    ensures GetAttrs(Objects(p), 0) == Success([("name", Rule(Builtin(StrType), Null))])
    ensures forall v :: SetAttr(Objects(p), 0, "name", v) == p.fn(v)
    ensures Target(Objects(p), 0, "name") == Some(p)
  {
    ObjectsWellFormed(p);
    var h := Objects(p);
    assert Ancestors(h, 0) == [];
    assert Chain(h, 0) == [0];
    var ns := h[0].namespace;
    assert ns[1..] == [];
    assert ScanNamespace(ns, Scan([], map[])) == Scan([], map[]);
    assert ScanChain(h, [0], Scan([], map[])) == Scan([], map[]);
    var anns := h[0].annotations.value;
    assert anns[1..] == [];
    assert AnnotationPass(anns, map[], []) == [("name", Rule(Builtin(StrType), Null))];
  }

  function ObjectData(name: string): Value
  {
    Dict(map["name" := Str(name)])
  }

  lemma ObjectOutcome(p: Validated, fuel: nat, name: string)
    requires fuel >= 2 && p.fn == NameCheck
    ensures WellFormed(Objects(p))
    ensures Engine.Deserialize(Objects(p), fuel, Rule(Record(0), Null), ObjectData(name), false) ==
      if |name| > 10 then Failure(TypeError(Rejected("Maximum name length is 20 characters")))
      else Success(Instance(0, map[]))
  {
    ObjectsAttrs(p);
    var h := Objects(p);
    var d := map["name" := Str(name)];
    assert Resolve(h, 0, Data(d), false) == Success(0);
    var r := Rule(Builtin(StrType), Null);
    assert Engine.Deserialize(h, fuel - 1, r, Str(name), false) == Success(Str(name));
    assert Engine.Build(h, fuel - 1, 0, [("name", r)], d, 0, map[], false) ==
      if |name| > 10 then Failure(TypeError(Rejected("Maximum name length is 20 characters")))
      else Success(Instance(0, map[]));
  }

  /**
   * test_Property.py as the code runs it: a short name is accepted and stored in the
   * property's cell, a long one is rejected by the validator and leaves the cell as it was.
   * The cell belongs to the property, not to an instance: reading it through any instance
   * gives the last accepted name.
   */
  method PropertyScenario() returns (short: Result<Value>, long: Result<Value>, seen: Value)
    ensures short == Success(Instance(0, map[]))
    ensures long == Failure(TypeError(Rejected("Maximum name length is 20 characters")))
    ensures seen == Str("Kevin")
  {
    var p := new Validated(Null, NameCheck);
    var h := Objects(p);
    ObjectsWellFormed(p);
    ObjectOutcome(p, 2, "Rolf");
    ObjectOutcome(p, 2, "abcdefghijklmnopqrstuvwxyz");
    short := Engine.DeserializeM(h, 2, Rule(Record(0), Null), ObjectData("Rolf"), false);
    long := Engine.DeserializeM(h, 2, Rule(Record(0), Null), ObjectData("abcdefghijklmnopqrstuvwxyz"), false);
    var o := p.Set(Instance(0, map[]), Str("Kevin"));
    seen := p.Get(short.value);
  }

  /**
   * A diamond: `A` (0) binds `x = 1`, `B(A)` (1), `C(A)` (2) binds `x = 2`, and `D(B, C)` (3).
   * Each class has an empty `__annotations__`.
   */
  function Diamond(): Classes
  {
    [ ClassInfo([], [1, 2], [("x", Plain(Int(1)))], Some([]), [], false),
      ClassInfo([0], [3], [], Some([]), [], false),
      ClassInfo([0], [3], [("x", Plain(Int(2)))], Some([]), [], false),
      ClassInfo([1, 2], [], [], Some([]), [], false) ]
  }

  lemma Diamond0() ensures ClassWellFormed(Diamond(), 0) {
    assert ValueSet(Diamond()[0].namespace) == {Plain(Int(1))};
  }
  lemma Diamond1() ensures ClassWellFormed(Diamond(), 1) {
    assert ValueSet(Diamond()[1].namespace) == {};
  }
  lemma Diamond2() ensures ClassWellFormed(Diamond(), 2) {
    assert ValueSet(Diamond()[2].namespace) == {Plain(Int(2))};
  }
  lemma Diamond3() ensures ClassWellFormed(Diamond(), 3) {
    assert ValueSet(Diamond()[3].namespace) == {};
  }

  lemma DiamondWellFormed()
    ensures WellFormed(Diamond())
  {
    var h := Diamond();
    forall c | 0 <= c < |h|
      ensures ClassWellFormed(h, c)
    {
      if c == 0 { Diamond0(); } else if c == 1 { Diamond1(); } else if c == 2 { Diamond2(); } else { Diamond3(); }
    }
  }

  /**
   * With several bases the chain of get_attrs is not root first: `rbase(D)` is
   * `[B, A, C, A]`, so `A` is visited again after `C`, and `D`'s field `x` takes `A`'s
   * value 1 as default although `C`, a subclass of `A`, binds 2.
   */
  lemma DiamondDefault()
    ensures WellFormed(Diamond())
    ensures Chain(Diamond(), 3) == [0, 2, 0, 1, 3]
    ensures IsSubclass(Diamond(), 2, 0) && NsLastValid(Diamond()[2].namespace, "x") == Some(Int(2))
    ensures Lookup(GetAttrs(Diamond(), 3).value, "x") == Some(ClassValueRule(Int(1)))
  {
    DiamondWellFormed();
    DiamondChain();
    DiamondLastValid();
    GetAttrsFields(Diamond(), 3, "x");
  }

  /** The diamond's chain visits the shared root twice, the second time after `C`. */
  lemma DiamondChain()
    ensures WellFormed(Diamond()) && Chain(Diamond(), 3) == [0, 2, 0, 1, 3]
  {
    DiamondWellFormed();
    var h := Diamond();
    assert Ancestors(h, 0) == [];
    assert Ancestors(h, 1) == [0];
    assert Ancestors(h, 2) == [0];
    assert BasesAncestors(h, 3, [1]) == [1, 0];
    assert [1, 2][..1] == [1];
    assert Ancestors(h, 3) == [1, 0, 2, 0];
  }

  /** Along that chain the last namespace defining `x` is the root's. */
  lemma DiamondLastValid()
    ensures WellFormed(Diamond()) && LastValid(Diamond(), [0, 2, 0, 1, 3], "x") == Some(Int(1))
  {
    DiamondWellFormed();
    var h := Diamond();
    var rl := [0, 2, 0, 1, 3];
    assert NsLastValid(h[0].namespace, "x") == Some(Int(1));
    assert LastValid(h, rl[3..], "x") == None by {
      assert rl[3..][1..] == [3];
    }
    assert LastValid(h, rl[2..], "x") == Some(Int(1)) by {
      assert rl[2..][1..] == rl[3..];
    }
    assert LastValid(h, rl[1..], "x") == Some(Int(1)) by {
      assert rl[1..][1..] == rl[2..];
    }
  }
}
