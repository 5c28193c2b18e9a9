/**
  A model of the runtime part of the `class_spec` helper of coherence::lang:
  the capability cast `_cast`, the footprint query `sizeOf`, the identity
  accessor `_getClassId` and the default `clone`.

  A class declared through `class_spec<T, extends<P>, implements<I1, ...>>`
  is described by a `Spec` value: its class id, `sizeof(T)`, the ordered list
  of directly implemented interfaces and the spec of its parent.  The chain
  of parents ends in `Object`, the universal root, whose own code is not part
  of this model; what the root does is stated as an assumption where it is
  used (`Cast` of `Object` is `Null`, `Object::sizeOf(true)` is an input).
*/
module ClassSpecs {
  import opened Wrappers

  /** `size64_t`: an unsigned 64-bit size. */
  newtype u64 = x: int | 0 <= x < 0x1_0000_0000_0000_0000

  /** An abstract class identity token (`coh_class_id`). */
  type ClassId = nat

  /** `implements<...>` takes at most sixteen interfaces. */
  const MaxInterfaces: nat := 16

  /**
    A directly implemented capability interface, given by the set of class
    ids its own `_icast` answers for (its id and those of the interfaces it
    in turn extends).
  */
  datatype Interface = Interface(answers: set<ClassId>)

  /** A class specification chain, most derived class outermost. */
  datatype Spec =
    | Object
    | Class(id: ClassId, size: u64, interfaces: seq<Interface>, super: Spec)

  /**
    What `_cast` hands back: the null pointer, the object viewed as the class
    at a given level of its lineage, or the sub-object of the `slot`-th
    interface declared at that level.  Levels count from the root: the
    lowest class above `Object` is level 0, so a level means the same thing
    to a class and to all of its descendants.
  */
  datatype CastResult =
    | Null
    | AsClass(level: nat)
    | AsInterface(level: nat, slot: nat)

  /**
    What `clone` hands back: a new object, or the clone-not-supported
    condition naming a class.  `Cloned` stands for what an overriding
    `clone` would return; overrides are not modelled, so nothing here
    builds it.
  */
  datatype CloneResult =
    | Cloned(copy: Spec)
    | CloneNotSupported(typeName: ClassId)

  /** The number of class_spec levels above `Object`. */
  function Depth(c: Spec): nat
  {
    match c
    case Object => 0
    case Class(_, _, _, sup) => Depth(sup) + 1
  }

  /** The class_spec levels of a chain, root-most first: index i is level i. */
  function Lineage(c: Spec): (r: seq<Spec>)
    ensures |r| == Depth(c)
    ensures forall i :: 0 <= i < |r| ==> r[i].Class?
  {
    match c
    case Object => []
    case Class(_, _, _, sup) => Lineage(sup) + [c]
  }

  /** Some interface of the list answers for `id`. */
  ghost predicate Answers(ifaces: seq<Interface>, id: ClassId)
  {
    exists s :: 0 <= s < |ifaces| && id in ifaces[s].answers
  }

  /** A level matches `id` when its own id is `id` or one of its interfaces answers for it. */
  ghost predicate Matches(k: Spec, id: ClassId)
  {
    k.Class? && (k.id == id || Answers(k.interfaces, id))
  }

  /**
    The implements chain's `_icast`: the slot of the first declared interface
    that answers for `id`, or `None` (the null pointer) when none does.
  */
  function InterfaceCast(ifaces: seq<Interface>, id: ClassId): (r: Option<nat>)
    ensures r.Some? <==> Answers(ifaces, id)
    ensures r.Some? ==> r.value < |ifaces| && id in ifaces[r.value].answers
    ensures r.Some? ==> forall t :: 0 <= t < r.value ==> id !in ifaces[t].answers
  {
    if |ifaces| == 0 then None
    else if id in ifaces[0].answers then Some(0)
    else
      match InterfaceCast(ifaces[1..], id)
      case None =>
        assert forall s :: 1 <= s < |ifaces| ==> ifaces[s] == ifaces[1..][s - 1];
        None
      case Some(k) => Some(k + 1)
  }

  /**
    `class_spec::_cast`: first this class's own id, then the directly
    implemented interfaces, and only when both give null the parent's
    `_cast`.  Below the last class_spec level, `Object` is assumed to
    answer null.
  */
  function Cast(c: Spec, id: ClassId): (r: CastResult)
    ensures !r.Null? ==> r.level < Depth(c)
  {
    match c
    case Object => Null
    case Class(cid, _, ifaces, sup) =>
      var p :=
        if cid == id then AsClass(Depth(sup))
        else (match InterfaceCast(ifaces, id)
              case Some(s) => AsInterface(Depth(sup), s)
              case None => Null);
      if !p.Null? then p else Cast(sup, id)
  }

  /**
    `class_spec::sizeOf(fDeep = false)`: shallow, `sizeof(T)`; deep, exactly
    what the parent's `sizeOf(true)` returns, which at the bottom of the
    chain is `Object::sizeOf(true)`, given here as `objectDeepSize`.
  */
  function SizeOf(c: Spec, objectDeepSize: u64, deep: bool := false): (r: u64)
    requires c.Class?
    ensures !deep ==> r == c.size
    ensures deep ==> r == objectDeepSize
  {
    if !deep then c.size
    else if c.super.Object? then objectDeepSize
    else SizeOf(c.super, objectDeepSize, true)
  }

  /** `class_spec::_getClassId`: the id that `_cast` answers as the object itself. */
  function GetClassId(c: Spec): (r: ClassId)
    requires c.Class?
    ensures Cast(c, r) == AsClass(Depth(c.super))
  {
    c.id
  }

  /** The default `class_spec::clone`: always the clone-not-supported condition, naming `T`. */
  function Clone(c: Spec): (r: CloneResult)
    requires c.Class?
    ensures r.CloneNotSupported? && r.typeName == GetClassId(c)
  {
    CloneNotSupported(c.id)
  }

  /**
    What a declaration can be: at most sixteen interfaces per level, a
    distinct id per class, and no interface answering for a class id (class
    and interface tokens identify different types).
  */
  ghost predicate WellFormed(c: Spec)
  {
    var L := Lineage(c);
    && (forall i :: 0 <= i < |L| ==> |L[i].interfaces| <= MaxInterfaces)
    && (forall i, j :: 0 <= i < j < |L| ==> L[i].id != L[j].id)
    && (forall i, j :: 0 <= i < |L| && 0 <= j < |L| ==> !Answers(L[i].interfaces, L[j].id))
  }
}
