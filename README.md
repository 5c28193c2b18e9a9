# class_spec: capability cast, identity, clone and footprint

This project models the runtime logic in the `class_spec` helper of the
coherence::lang object model. A managed class `T` declares itself as
`class_spec<T, extends<P>, implements<I1, ..., In>>`, and the helper then
generates four runtime operations for it:

- `_cast(id)` is the capability cast. It first checks the class's own id. Then
  it asks the directly implemented interfaces. Only if both answer null does it
  ask the parent spec.
- `sizeOf(fDeep = false)` returns `sizeof(T)` when shallow. When deep, it
  returns the parent's deep size.
- `_getClassId()` returns the class's identity token.
- The default `clone()` always raises clone-not-supported, naming `T`.

The model is pure. A declaration is a `Spec` value (module `ClassSpecs`):
`Class(id, size, interfaces, super)`. The chain of parents ends in `Object`,
the universal root. Each interface is the set of class ids its own `_icast`
answers for. A cast result is `Null`, `AsClass(level)` or
`AsInterface(level, slot)`. A level counts from the root: the lowest class
above `Object` is level 0. So a level means the same thing to a class and to
all of its descendants, and the parent's answer is handed back unchanged.
`Lineage(c)` lists the levels, root-most first. `CastProperties.FirstMatch`
describes the first match going upward independently of `Cast`, and the
lemmas prove that `Cast` returns exactly that answer.

Assumptions about code that is not part of this model:

- `Object::_cast` is taken to answer null for every id.
- `Object::sizeOf(true)` is passed in as the parameter `objectDeepSize`.
- `implements_chain::_icast` is taken to return the first declared interface
  that answers for the id. `InterfaceCast` models it this way.
- Class ids are abstract naturals. `WellFormed` states what declarations
  guarantee: at most sixteen interfaces per level, a distinct id per class,
  and no interface answering for a class id.
- The type named by `clone`'s condition (`typeid(T)`) is modelled by `T`'s class id.

The operations take only the class spec, with no per-instance data. The
bodies in `class_spec` itself read no instance state: `_cast`, `_getClassId`
and `clone` depend only on the class, and so does shallow `sizeOf`. Deep
`sizeOf` ends in `Object::sizeOf(true)` called on the same object, whose body
is not part of this model, so its answer is an input (`objectDeepSize`).

`class_spec::sizeOf(true)`
(include/public/coherence/lang/class_spec.hpp:178-179) returns the inherited
deep size and adds nothing at its own level. A class whose deep size should
include its own part must override `sizeOf`. In the model, the deep size of
every chain equals the `Object::sizeOf(true)` answer
(`FootprintProperties.DeepIgnoresLevels`).

## Model

| member | source | states |
|---|---|---|
| `ClassSpecs.InterfaceCast` | include/public/coherence/lang/class_spec.hpp:186-191 | returns a slot exactly when some declared interface answers for the id; that slot answers for it, and no earlier slot does |
| `ClassSpecs.Cast` | include/public/coherence/lang/class_spec.hpp:183-193 | a non-null answer names a level of the object's own lineage |
| `ClassSpecs.SizeOf` | include/public/coherence/lang/class_spec.hpp:176-181 | shallow is `sizeof(T)`; deep is whatever the root's deep size is, at every depth of the chain |
| `ClassSpecs.GetClassId` | include/public/coherence/lang/class_spec.hpp:203-206 | `_cast` with the returned id hands back the object itself as `T` |
| `ClassSpecs.Clone` | include/public/coherence/lang/class_spec.hpp:170-174 | always the clone-not-supported condition, never an object, naming the id `_getClassId` returns |
| `CastProperties.OwnIdFirst` | include/public/coherence/lang/class_spec.hpp:189-190 | the own id yields the object as `T`, and replacing the interfaces and the parent does not change that answer |
| `CastProperties.OwnIdBeatsInterfaces` | include/public/coherence/lang/class_spec.hpp:189-191 | an interface that also answers for the own id does not take precedence over it |
| `CastProperties.DirectInterfaceBeforeParent` | include/public/coherence/lang/class_spec.hpp:191-192 | a direct interface hit is returned as it is: the interface chain's answer at this level, no later than any answering slot, and no parent can replace it |
| `CastProperties.FallThroughToParent` | include/public/coherence/lang/class_spec.hpp:192 | with no own-id or interface match, the result equals the parent's `_cast` exactly |
| `CastProperties.NoInterfacesOwnIdElseParent` | include/public/coherence/lang/class_spec.hpp:189-192 | with the default `implements<>` (line 70), the cast is own id, else the parent |
| `CastProperties.CastIsFirstMatch` | include/public/coherence/lang/class_spec.hpp:183-193 | the answer is the first match going upward: no higher level matches, and at its level the own id comes before the first answering interface |
| `CastProperties.FirstMatchUnique` | include/public/coherence/lang/class_spec.hpp:183-193 | the first-match description admits only one answer |
| `CastProperties.FirstMatchIsCast` | include/public/coherence/lang/class_spec.hpp:183-193 | any answer meeting the first-match description is the one `_cast` returns |
| `CastProperties.CastNonNullIff` | include/public/coherence/lang/class_spec.hpp:183-193 | non-null if and only if the own id or an interface of some level in the lineage matches |
| `CastProperties.AncestorCastIsSelf` | include/public/coherence/lang/class_spec.hpp:189-192 | in a well-formed chain, the id of any ancestor, or of the class itself, yields the object as that class |
| `CastProperties.InterfaceSlotInRange` | include/public/coherence/lang/class_spec.hpp:127-142 | in a well-formed chain an interface answer is one of the sixteen slots |
| `FootprintProperties.DefaultIsShallow` | include/public/coherence/lang/class_spec.hpp:176-180 | `sizeOf()` defaults to shallow and is `sizeof(T)` |
| `FootprintProperties.ShallowIgnoresAncestors` | include/public/coherence/lang/class_spec.hpp:180 | the shallow size does not depend on the ancestors |
| `FootprintProperties.DeepIsInheritedDeep` | include/public/coherence/lang/class_spec.hpp:178-179 | `sizeOf(true)` equals the parent's `sizeOf(true)` exactly |
| `FootprintProperties.DeepIgnoresLevels` | include/public/coherence/lang/class_spec.hpp:176-181 | two objects whose `Object::sizeOf(true)` answers agree have the same deep size, whatever their chains |
| `IdentityProperties.AsSelfOnlyForOwnId` | include/public/coherence/lang/class_spec.hpp:203-206 | `_cast` returns the object as `T` for the id `_getClassId` returns, and for no other id |
| `IdentityProperties.CloneNamesDeclaredClass` | include/public/coherence/lang/class_spec.hpp:170-172 | in a well-formed chain, the default clone of a subclass names the subclass, not its parent |

## Left out

- The Handle, View and Holder typedefs and the `interface_1` to `interface_16` typedefs (lines 112-142) are compile-time type aliases. Only the limit of sixteen slots is kept, in `WellFormed`.
- The proxy constructors, the generated `create` methods and the protected copy `create` (lines 157, 168, 214-217) are left out. They are macro-generated, rely on overload resolution at compile time, and their bodies are not visible.
- `COH_GENERATE_CLASS_ID` and `COH_CLASS_ID` (line 196) are left out because their internals are not visible. Ids are abstract naturals, distinct per class in `WellFormed`.
- The internals of `implements_chain::_icast`, `Object::_cast` and `Object::sizeOf` are not part of this model. lang_spec.hpp is not part of this model either. They enter only as the assumptions stated above.
- The parent link: `_cast` delegates to `super_spec` (`E::inherited`) and `sizeOf` to `inherited` (`E::inherited_literal`). Both are modelled by the same `super` link, since `extends` is defined in lang_spec.hpp.
- A parent class that overrides `sizeOf` or `clone` itself is not modelled. Every level uses the `class_spec` defaults.
- Pointer values, `static_cast` adjustment and the layout of virtually inherited interfaces are abstracted into the `CastResult` tags.
- `clone`'s C++ exception is modelled as the `CloneNotSupported` result. The unreachable `return NULL` after it is dropped.
- Reference counting, allocation and thread safety belong to external collaborators. They are left out.
