# dict_deserializer in Dafny

A model of `dict_deserializer`, a small Python library. It turns plain data into typed objects: dicts, lists, strings, numbers, booleans and None, as a JSON decoder would produce them. It has two parts:

- **The declarations.** A class derives from `Deserializable` and declares its fields as annotations, optionally with class-level defaults. Its metaclass `BaseMeta` merges the annotations of the bases into the class. The decorators `@discriminate(key, value | matcher)` and `@abstract` steer which subclass a dict becomes. A `@validated(default)` property checks a value before storing it.
- **The engine.** `deserialize(rule, data, try_all)`:
  - returns a value that already conforms to the rule's type, with None becoming the rule's default;
  - tries the arms of a `Union` in order;
  - coerces the elements of a `List[t]` one by one;
  - for a class, picks a subclass with `get_deserialization_class`, refuses an abstract one, and builds an instance. Each field of `get_attrs` is coerced from the dict's entry, or from the field's default when the key is absent, and set with `setattr`.

The older `serializer_utils` revision of the engine is modelled too. It works on dicts only, checks discriminators against the data at every level, and with `try_all` backtracks over whole subclasses, field failures included.

Files, one module each (two in `engine.dfy` and `legacy.dfy`):

- `base.dfy`: `Option`, `Result`, and the exceptions the code raises. `TypeError` carries a reason; `AttributeError`; `RecursionError`.
- `values.dfy`: Python values, the typing forms the engine inspects, `Rule`, and the subject a discriminator sees.
- `odicts.dfy`: insertion-ordered dicts as sequences of pairs.
- `annotations.dfy`: discriminators, `discriminate`, and the `validated` property, a class with one shared cell.
- `hierarchy.dfy`: the classes as a registry, plus `issubclass`, `rbase` and the `BaseMeta` annotation merge.
- `rules.dfy`: `Rule.validate` and the `check_type` conformance test.
- `fields.dfy`: `get_attrs` (a specification function and a loop method) and `setattr`.
- `resolver.dfy`: `get_deserialization_class`.
- `engine.dfy`: `deserialize` as a recursive specification (`Engine`), the method that runs it with its loops and `setattr` calls, and the properties proved about it (`EngineFacts`).
- `legacy.dfy`: the older `deserialize` (`Legacy`) and its properties (`LegacyFacts`).
- `scenarios.dfy`: concrete hierarchies, including the receipt lines of `test.py` and the validated `Object` of `test_Property.py`, on which the outcomes are proved outright.

How classes are represented: classes are indices into a sequence of class records. A base always has a smaller index than its subclasses, so every walk up or down the hierarchy terminates.

`deserialize` takes a `fuel` argument that stands for Python's remaining recursion depth. Running out of it is a `RecursionError`, which no `except TypeError` catches. `FuelMonotone` shows that the fuel changes nothing else.

The code walks the direct subclasses in definition order and descends into the first one that is eligible. A field failure in the newer engine never leads to another candidate class (`EngineDoesNotBacktrack`).

Two consequences of the code that the model keeps:

- An instance holds its own attributes (`__dict__`) only. A field that a `validated` property intercepts is not stored in the instance. Its `setattr` runs the property's setter, which keeps the value in a cell shared by every instance of the class. Reading the field through any instance gives the last value accepted through any of them (`Scenarios.PropertyScenario`).
- With several bases, `rbase` lists a shared ancestor once per path, so the chain of `get_attrs` is not root first. A class-level value of a shared ancestor can override that of a more derived class (`Scenarios.DiamondDefault`). Python's own attribute lookup would pick the more derived value. Under single inheritance the chain is root first (`Fields.ChainRootFirst`).

Two assumptions:

- `type(rule.type) is type(Union)` and `type(rule.type) is type(List)` are read with the typing semantics of Python 3.6. Under those, `Optional[...]` and `Union[...]` match the first test, and `List[...]` matches the second.
- `serializer_utils/annotations.py` is not part of this model. The older engine's discriminators are taken to behave as those of `dict_deserializer/annotations.py`.

## Model

| member | source | states |
|---|---|---|
| ODicts.Lookup | dict_deserializer/deserializer.py:81 | Looking a key up in an insertion-ordered dict finds a value iff the key is present, and that value is one of the dict's values. |
| ODicts.Put | dict_deserializer/deserializer.py:74-75 | `d[k] = v` adds `k` to the keys and maps it to `v`, leaving every other key's value alone. A new key goes at the end; an existing key keeps its position. Distinct keys stay distinct. |
| ODicts.Update | dict_deserializer/deserializer.py:40-41 | `a.update(b)` has the keys of both. With distinct keys in `b`, a key of `b` maps to `b`'s value and any other key to `a`'s. |
| Values.TypeOf | dict_deserializer/deserializer.py:75 | `type(v)` is a user class exactly for instances, and then it is the instance's class. |
| Annotations.Check | dict_deserializer/annotations.py:35-51 | A key/value discriminator on a dict passes iff the key is present and, when a value was given, the entry equals it. A missing key is a plain `False`. On a class object it raises TypeError. A function discriminator returns its matcher's verdict. |
| Annotations.NewDiscriminator | dict_deserializer/annotations.py:57-80 | A key gives a key/value discriminator that compares values only when a value was passed; an explicit None counts as a value. Otherwise a matcher gives a function discriminator. With neither, no discriminator is attached. |
| Annotations.Validated.constructor | dict_deserializer/annotations.py:98-109 | A new `validated` property holds its default and has accepted nothing. |
| Annotations.Validated.Get | dict_deserializer/annotations.py:111-112 | The getter returns the last value the setter accepted, or the default, whatever instance it is read through. |
| Annotations.Validated.Set | dict_deserializer/annotations.py:114-116 | The setter's outcome is the validator's verdict. An accepted value becomes the stored one; a rejected value leaves the cell unchanged. |
| Hierarchy.Registry.constructor | dict_deserializer/deserializer.py:28-33 | An empty registry is well formed. |
| Hierarchy.Registry.DefineClass | dict_deserializer/deserializer.py:28-44 | Class creation appends a class with its own empty discriminator list, not abstract, with the merged annotations. It registers the class as the last subclass of each base, changes nothing else, and keeps the registry well formed. |
| Hierarchy.DefineKeepsWellFormed | dict_deserializer/deserializer.py:28-44 | Adding a class whose distinct bases, class-level values and own annotations refer only to existing classes, registered as a subclass of each base, keeps the hierarchy well formed. |
| Hierarchy.Registry.Discriminate | dict_deserializer/annotations.py:68-80 | `discriminate(...)` appends its discriminator, when one is described, to that class's list only, and returns the same class. |
| Hierarchy.Registry.MarkAbstract | dict_deserializer/annotations.py:84-95 | `abstract` sets the flag of that class only and returns the same class. |
| Hierarchy.Rbase | dict_deserializer/deserializer.py:47-56 | `rbase(cls, ls)` appends to `ls` exactly the depth-first ancestor list `Ancestors`. |
| Hierarchy.AncestorsSound | dict_deserializer/deserializer.py:47-56 | Everything `rbase` lists is a proper ancestor of the class. |
| Hierarchy.AncestorsComplete | dict_deserializer/deserializer.py:47-56 | Every proper ancestor appears in `rbase`'s list. |
| Hierarchy.AncestorsLinear | dict_deserializer/deserializer.py:47-56 | When every class has at most one base, each class `rbase` lists is a proper subclass of every class listed after it. |
| Hierarchy.SubclassTransitive | dict_deserializer/deserializer.py:132 | `issubclass` along base links is transitive. |
| Hierarchy.MergeAnnotationsPrecedence | dict_deserializer/deserializer.py:35-42 | After the merge, a class's own annotation wins. Otherwise the first base (left to right) that annotates the name gives the annotation. Keys stay distinct. The class has annotations iff it or some base does. |
| Rules.Validate | dict_deserializer/deserializer.py:20-25 | `validate` fails with TypeError iff the value does not conform to the rule's type. On success None becomes the default, and any other value is returned unchanged. |
| Rules.NoneConformsToOptional | dict_deserializer/deserializer.py:75 | None conforms to `Optional[t]` for every `t`. |
| Rules.ValueConformsToItsType | dict_deserializer/deserializer.py:73-75 | A class-level value conforms to `type(v)` and to the `Optional[type(v)]` rule `get_attrs` gives it. |
| Fields.GetAttrs | dict_deserializer/deserializer.py:66-86 | `get_attrs` raises AttributeError iff the class has no `__annotations__`. Its fields have distinct names and rules over known classes. |
| Fields.GetAttrsM | dict_deserializer/deserializer.py:66-86 | The two nested loops over the chain and the loop over the annotations compute `GetAttrs`. |
| Fields.ScanNamespaceM | dict_deserializer/deserializer.py:72-75 | The loop over one class's `__dict__` records each valid name's value as default and as an `Optional[type(v)]` field, giving `ScanNamespace`. |
| Fields.AnnotationPassM | dict_deserializer/deserializer.py:77-84 | The loop over the class's annotations skips a name whose default is not valid, and otherwise sets the annotated rule with any default, giving `AnnotationPass`. |
| Fields.GetAttrsFields | dict_deserializer/deserializer.py:71-84 | A name is a field iff it is annotated or has a valid class-level value in the chain. An annotated field keeps its type, with the valid class-level value last in the chain as default when there is one. Any other field is `Optional[type(v)]` with default `v`. |
| Fields.LastValidWins | dict_deserializer/deserializer.py:71-75 | The class-level default comes from a class of the chain that binds the name validly, and no later class of the chain binds it validly. Such a name never starts with `_`. Later means more derived only under single inheritance (`Fields.ChainRootFirst`). |
| Fields.ChainRootFirst | dict_deserializer/deserializer.py:69-70 | The chain `get_attrs` walks ends with the class itself, after its proper ancestors. When every class has at most one base, each class in the chain is a proper subclass of every class before it. |
| Fields.SetAttrM | dict_deserializer/deserializer.py:144 | `setattr` has outcome `SetAttr`. When a `validated` property of the class intercepts the name, only that property's cell can change, and it changes exactly when the validator accepts. |
| Resolver.Resolve | dict_deserializer/deserializer.py:89-101 | `get_deserialization_class` only ever returns a registered class. |
| Resolver.AllPass | dict_deserializer/deserializer.py:92-95 | The discriminator loop passes iff every check is true. It is false iff some check is false after only true ones. An error comes from a check that raised after only true ones. |
| Resolver.ResolveDescendant | dict_deserializer/deserializer.py:89-101 | The resolved class is the requested class or one of its descendants. |
| Resolver.ResolveSkips | dict_deserializer/deserializer.py:90-94 | Subclasses whose discriminators fail are passed over. |
| Resolver.ResolveNoneEligible | dict_deserializer/deserializer.py:90-101 | When no subclass passes its discriminators, the class itself is returned. |
| Resolver.ResolveFirstEligible | dict_deserializer/deserializer.py:95-100 | The first eligible subclass is descended into, with the class as the subject. A TypeError from that descent moves on to the next subclass only under `try_all`. Any other outcome is returned. |
| Resolver.ResolveCheckErrorPropagates | dict_deserializer/deserializer.py:92-93 | An error raised by a discriminator check propagates whatever `try_all` is. |
| Resolver.KeyValueNeverPassesOnClass | dict_deserializer/deserializer.py:97 | Checked against a class object, a discriminator list holding a key/value discriminator never passes. |
| Resolver.ResolveBelowFirstLevel | dict_deserializer/deserializer.py:97 | Below the first level, the class returned is the starting class or one without key/value discriminators. |
| Resolver.NestedKeyValueRaises | dict_deserializer/deserializer.py:97 | A subclass whose first own subclass starts with a key/value discriminator makes the descent raise TypeError. |
| Engine.DeserializeM | dict_deserializer/deserializer.py:104-148 | Running `deserialize` with its loops and `setattr` calls gives `Engine.Deserialize`. Every `validated` cell stays consistent, and its list of accepted values only grows. |
| Engine.ArmsM | dict_deserializer/deserializer.py:111-117 | The Union loop computes `Arms`: it returns the first arm that succeeds or raises something other than TypeError, and raises TypeError when no arm is left. |
| Engine.ItemsM | dict_deserializer/deserializer.py:126-130 | The List loop computes `Items`, appending the elements' coercions in order and stopping at the first failure. |
| Engine.RecordBranchM | dict_deserializer/deserializer.py:136-146 | The class branch computes `RecordBranch`: resolve, refuse an abstract class, then coerce and `setattr` every field. |
| EngineFacts.ConformingShortcut | dict_deserializer/deserializer.py:106-109 | A conforming value is returned as is; None becomes the rule's default. |
| EngineFacts.StructuralErrors | dict_deserializer/deserializer.py:119-148 | A non-conforming value raises TypeError in four cases, each with its own reason: a `List` with other than one argument, a non-list for a `List`, a non-dict for a class, and a builtin type. |
| EngineFacts.ArmsSkip | dict_deserializer/deserializer.py:112-116 | Union arms failing with TypeError are passed over. |
| EngineFacts.UnionFirstDecisive | dict_deserializer/deserializer.py:111-116 | Under a Union, the first arm that succeeds or raises something other than TypeError decides the result. |
| EngineFacts.UnionNoArm | dict_deserializer/deserializer.py:117 | If every arm raises TypeError, so does the Union. |
| EngineFacts.ItemsSpec | dict_deserializer/deserializer.py:127-130 | The list loop succeeds iff every remaining element does. It appends element-wise results after the accumulator. Otherwise the first failing element's error is returned. |
| EngineFacts.ItemsOutcome | dict_deserializer/deserializer.py:128-129 | The list loop succeeds iff every remaining element does; otherwise its error is that of the first failing element. |
| EngineFacts.ItemsValues | dict_deserializer/deserializer.py:128-130 | A successful list loop keeps the accumulator as a prefix and appends exactly one coerced value per remaining element, in order. |
| EngineFacts.ItemsFresh | dict_deserializer/deserializer.py:126-130 | Started on an empty result, the list loop is elementwise: same length, element `i` from element `i`, or the first failure. |
| EngineFacts.ListElementwise | dict_deserializer/deserializer.py:119-130 | A list under `List[t]` succeeds iff every element does. The result has the same length and holds each element's coercion. Otherwise the first failure decides. |
| EngineFacts.BuildSpec | dict_deserializer/deserializer.py:141-146 | The field loop succeeds iff every field does; otherwise the first failing field decides. It adds to the earlier attributes exactly the remaining fields no `validated` property intercepts, each holding its coerced value. If a `validated` property intercepts a field, its value stays out of the instance; the property's validator accepted it, and the shared cell held it right after that `setattr`. A later `setattr` through the same property, from a nested record or a later list element, can replace it. |
| EngineFacts.BuildOutcome | dict_deserializer/deserializer.py:142-144 | The field loop succeeds iff every remaining field does; otherwise its error is that of the first failing field. |
| EngineFacts.BuildAttrs | dict_deserializer/deserializer.py:141-146 | A successful field loop yields an instance of the class. Its attributes are the earlier ones plus exactly the remaining fields no property intercepts, each holding that field's coerced value. If a `validated` property intercepts a field, its value stays out of the instance; the property's validator accepted it, and the shared cell held it right after that `setattr`. A later `setattr` through the same property, from a nested record or a later list element, can replace it. |
| EngineFacts.BuildKeys | dict_deserializer/deserializer.py:142-144 | A successful field loop adds exactly the keys of the remaining fields that no `validated` property intercepts. Every other attribute is left as it was. |
| EngineFacts.BuildValues | dict_deserializer/deserializer.py:142-144 | With distinct field names, each remaining field's coerced value ends up under its key in the instance. For an intercepted name, it is accepted by the property's validator instead. |
| EngineFacts.BuildFresh | dict_deserializer/deserializer.py:141-146 | Started with no attributes, the field loop either fails with the first failing field, or builds an instance whose keys are exactly the fields no property intercepts. Each field's value lands in the instance, or is accepted by the intercepting property's validator. |
| EngineFacts.RecordBranchCases | dict_deserializer/deserializer.py:136-146 | The class branch propagates a resolver error, refuses an abstract class, propagates a `get_attrs` error, and otherwise runs the field loop on the resolved class's fields. |
| EngineFacts.RecordSpec | dict_deserializer/deserializer.py:132-146 | A dict under a class first resolves a class, and a resolver error propagates. An abstract class raises TypeError, and a `get_attrs` error propagates. Otherwise the result is an instance of the resolved class, and each `get_attrs` field is coerced from its entry or default. The instance holds exactly the fields no `validated` property intercepts; an intercepted field's value is accepted by that property. The first failing field decides, and no other class is tried. |
| EngineFacts.RecordResultDescends | dict_deserializer/deserializer.py:132-146 | A successful class coercion yields an instance of the class or of a descendant. |
| EngineFacts.FuelMonotone | dict_deserializer/deserializer.py:104-148 | A result other than RecursionError is unchanged with more recursion depth. |
| Legacy.DeserializeM | serializer_utils/deserializer.py:89-110 | Running the older `deserialize` with its loops and `setattr` calls gives `Legacy.Deserialize`. Every `validated` cell stays consistent, and its list of accepted values only grows. |
| Legacy.ConstructM | serializer_utils/deserializer.py:102-110 | The final step computes `Construct`: refuse an abstract class, then validate and `setattr` every field. |
| LegacyFacts.SetFieldsSpec | serializer_utils/deserializer.py:106-108 | The field loop succeeds iff every field does; otherwise the first failing field decides. Each field's validated value is set in the instance, or, for a name a `validated` property intercepts, accepted by that property. |
| LegacyFacts.SetFieldsOutcome | serializer_utils/deserializer.py:106-108 | The older field loop succeeds iff every remaining field does; otherwise its error is that of the first failing field. |
| LegacyFacts.SetFieldsAttrs | serializer_utils/deserializer.py:105-110 | A successful older field loop yields an instance of the class. Its attributes are the earlier ones plus exactly the remaining fields no property intercepts, each holding its validated value. If a `validated` property intercepts a field, its value stays out of the instance; the property's validator accepted it, and the shared cell held it right after that `setattr`. A later `setattr` through the same property, from a nested record or a later list element, can replace it. |
| LegacyFacts.SetFieldsKeys | serializer_utils/deserializer.py:106-108 | A successful older field loop adds exactly the keys of the remaining fields no `validated` property intercepts. Every other attribute is left as it was. |
| LegacyFacts.SetFieldsValues | serializer_utils/deserializer.py:106-108 | With distinct field names, each field's validated value ends up in the instance. For an intercepted name, it is accepted by the property's validator instead. |
| LegacyFacts.ConstructSpec | serializer_utils/deserializer.py:102-110 | An abstract class raises TypeError. A built instance holds exactly the `get_attrs` fields no `validated` property intercepts. Each field's validated entry, or None when the key is absent, lands in the instance or is accepted by the intercepting property. |
| LegacyFacts.AbsentField | serializer_utils/deserializer.py:107 | A field missing from the data is validated as None. Building fails when None does not conform. Otherwise the field gets the rule's default, in the instance, or accepted by the intercepting property's validator. |
| LegacyFacts.LegacySkips | serializer_utils/deserializer.py:90-94 | Subclasses whose discriminators fail on the data are passed over. |
| LegacyFacts.LegacyNoneEligible | serializer_utils/deserializer.py:90-110 | With no eligible subclass, the class itself is built. |
| LegacyFacts.LegacyBacktracks | serializer_utils/deserializer.py:95-100 | The first eligible subclass is built in full. A TypeError from anywhere in it moves on to the next subclass only under `try_all`. |
| LegacyFacts.LegacyResult | serializer_utils/deserializer.py:89-110 | A result is an instance of the class or a descendant, never abstract. A class other than the starting one has discriminators that pass on the data. |
| Scenarios.LegacyBacktracksToLabel | serializer_utils/deserializer.py:95-100 | For a base with two undiscriminated subclasses, data that fits only the second yields the second under `try_all`; without it, the first subclass's field error is raised. |
| Scenarios.EngineDoesNotBacktrack | dict_deserializer/deserializer.py:136-146 | On the same hierarchy the newer engine commits to the first subclass and raises, whatever `try_all` is. |
| Scenarios.NestedDiscriminatorQuirk | dict_deserializer/deserializer.py:97 | A key/value discriminator two levels down raises TypeError. With `try_all` the resolver falls back to the root class, even though the data matches the deeper class. |
| Scenarios.DiamondDefault | dict_deserializer/deserializer.py:47-75 | For `D(B, C)` with `B(A)` and `C(A)`, the chain is `A, C, A, B, D`. `D`'s field `x` therefore defaults to `A`'s value, although `C` is a subclass of `A` and binds `x` itself. |
| Scenarios.LegacyReachesLeaf | serializer_utils/deserializer.py:97 | The older engine checks the deeper discriminator against the data and builds the deeper class. |
| Scenarios.LegacyTransaction | test.py:8-26 | `{'type': 'transaction', 'name': 'asdf', 'article_id': 5, 'amount': 5}` becomes a `TransactionLine` with `pk` None and `t` 0. |
| Scenarios.LegacyOtherIsAbstract | test.py:44 | `{'type': 'other', 'name': 'asdf'}` matches no subclass, and the abstract `ReceiptLine` raises TypeError. |
| Scenarios.EngineTransaction | test.py:42 | The newer engine gives the same `TransactionLine` for that data. |
| Scenarios.ObjectOutcome | test_Property.py:28-40 | `Object` with a validated `name`: a name longer than ten characters raises the validator's TypeError. A short name is accepted by the property, and the instance itself holds no `name`. |
| Scenarios.PropertyScenario | test_Property.py:6-40 | Running the engine on `Object` with the name `'Rolf'` and with a long name returns what `ObjectOutcome` says. Reading `name` through any instance afterwards gives the property's last accepted value. |

## Left out

- `typeguard.check_type` is replaced by `Rules.Conforms`, a stand-in. It covers builtin classes, `Union`/`Optional`, `List[...]` and user classes. Other typing forms, and typeguard's treatment of subscripted generics beyond these, are not modelled.
- Python reflection is replaced by the class registry. This covers `__bases__`, `__subclasses__()`, `__dict__`, `hasattr` and `__annotations__`. Dynamic class creation outside `BaseMeta`, and mutation of classes after their definition other than by the decorators, are not modelled.
- The attribute lookup that `setattr` performs walks the class followed by its `rbase` order. This is the MRO for single inheritance only.
- Values are compared structurally. Python's `1 == True` and user-defined `__eq__` are not modelled.
- `cls()` is taken to succeed with an empty instance. User `__init__` methods are not run.
- A validator receives the value but not `self`. Its verdict is its only effect.
- A `property` other than a `validated` one is modelled as having no setter, so `setattr` on it raises AttributeError. User-defined setters of a plain `@property` are not modelled.
- `Rule.to_rule` returns the annotation's own `Rule` object, and `get_attrs` writes the default into it (dict_deserializer/deserializer.py:81-83). The model treats rules as values, so that aliasing, and its effect on later calls, is not captured.
- Engine.DeserializeM: the contract bounds the effect on `validated` cells (consistency, and only appending) but does not state which values are appended. The effect of each single `setattr` is stated by `Fields.SetAttrM`.
- Engine.ArmsM: the same bound on `validated` cells as `Engine.DeserializeM`; which values the arms append is not stated.
- Engine.ItemsM: the same bound on `validated` cells as `Engine.DeserializeM`; which values the elements append is not stated.
- Engine.RecordBranchM: the same bound on `validated` cells as `Engine.DeserializeM`; which values the fields' `setattr` calls append is not stated.
- Legacy.DeserializeM: the same bound on `validated` cells as for the newer engine; which values are appended is not stated.
- Legacy.ConstructM: the same bound on `validated` cells; which values the fields' `setattr` calls append is not stated.
- Python's recursion limit becomes the explicit `fuel` argument. A default that is re-coerced forever ends in RecursionError, as it would in Python.
- The older engine takes the data as a dict, as its callers do. A non-dict argument, for which `k in d` would behave differently, is not modelled.
- `object` as an implicit base, `__repr__`, `setup.py`, `dict_deserializer/__init__.py` and the test runner are not modelled.
- `serializer_utils/annotations.py` is not part of this model.
