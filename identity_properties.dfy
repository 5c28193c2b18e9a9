/** Properties of `_getClassId` and of the default `clone`. */
module IdentityProperties {
  import opened ClassSpecs

  /** `_cast` answers "this object as T" for the id `_getClassId` returns and for no other id. */
  lemma AsSelfOnlyForOwnId(c: Spec, id: ClassId)
    requires c.Class?
    ensures Cast(c, id) == AsClass(Depth(c.super)) <==> id == GetClassId(c)
  {
  }

  /** The last two entries of a lineage are the class and its parent. */
  lemma LineageTop(c: Spec)
    requires c.Class?
    ensures Lineage(c)[Depth(c.super)] == c
    ensures c.super.Class? ==> Lineage(c)[Depth(c.super) - 1] == c.super
  {
    if c.super.Class? {
      assert Lineage(c.super) == Lineage(c.super.super) + [c.super];
    }
  }

  /**
    The default `clone` names the class its own spec declares: a subclass
    that does not override `clone` reports itself, never its parent.
  */
  lemma CloneNamesDeclaredClass(c: Spec)
    requires WellFormed(c) && c.Class? && c.super.Class?
    ensures Clone(c).typeName != Clone(c.super).typeName
  {
    LineageTop(c);
    var L := Lineage(c);
    assert L[Depth(c.super) - 1].id != L[Depth(c.super)].id;
  }
}
