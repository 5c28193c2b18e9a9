/**
  Properties of `_cast`: the order in which it consults the class's own id,
  its direct interfaces and its parent, and a closed characterisation of its
  answer over the whole lineage ("the first match going upward wins").
*/
module CastProperties {
  import opened ClassSpecs

  /**
    `r` is the answer "first match going upward": no level above the answer's
    level matches; at the answer's level either the class's own id is the
    one requested, or it is not and `slot` is the first interface answering.
  */
  ghost predicate FirstMatch(c: Spec, id: ClassId, r: CastResult)
  {
    var L := Lineage(c);
    match r
    case Null =>
      forall i :: 0 <= i < |L| ==> !Matches(L[i], id)
    case AsClass(lv) =>
      && lv < |L|
      && L[lv].id == id
      && (forall i :: lv < i < |L| ==> !Matches(L[i], id))
    case AsInterface(lv, s) =>
      && lv < |L|
      && L[lv].id != id
      && s < |L[lv].interfaces|
      && id in L[lv].interfaces[s].answers
      && (forall t :: 0 <= t < s ==> id !in L[lv].interfaces[t].answers)
      && (forall i :: lv < i < |L| ==> !Matches(L[i], id))
  }

  /** Asking for the class's own id yields the object as that class, whatever its interfaces and parent answer. */
  lemma OwnIdFirst(c: Spec, ifaces: seq<Interface>, sup: Spec)
    requires c.Class? && Depth(sup) == Depth(c.super)
    ensures Cast(c, c.id) == AsClass(Depth(c.super))
    ensures Cast(c.(interfaces := ifaces, super := sup), c.id) == Cast(c, c.id)
  {
  }

  /** An interface that also answers for the class's own id is never consulted. */
  lemma OwnIdBeatsInterfaces(c: Spec, slot: nat)
    requires c.Class? && slot < |c.interfaces| && c.id in c.interfaces[slot].answers
    ensures Cast(c, c.id).AsClass?
  {
  }

  /**
    Direct interfaces come before the parent: a hit among them is returned
    as it is, the first answering slot, and the parent's answer cannot
    replace it.
  */
  lemma DirectInterfaceBeforeParent(c: Spec, id: ClassId, slot: nat, sup: Spec)
    requires c.Class? && c.id != id
    requires slot < |c.interfaces| && id in c.interfaces[slot].answers
    requires Depth(sup) == Depth(c.super)
    ensures InterfaceCast(c.interfaces, id).Some?
    ensures Cast(c, id) == AsInterface(Depth(c.super), InterfaceCast(c.interfaces, id).value)
    ensures Cast(c, id).slot <= slot
    ensures Cast(c.(super := sup), id) == Cast(c, id)
  {
  }

  /** When neither the own id nor a direct interface matches, the answer is the parent's, unchanged. */
  lemma FallThroughToParent(c: Spec, id: ClassId)
    requires c.Class? && c.id != id && !Answers(c.interfaces, id)
    ensures Cast(c, id) == Cast(c.super, id)
  {
  }

  /** With the default `implements<>`, `_cast` is "own id, else parent". */
  lemma NoInterfacesOwnIdElseParent(c: Spec, id: ClassId)
    requires c.Class? && c.interfaces == []
    ensures Cast(c, id) == if c.id == id then AsClass(Depth(c.super)) else Cast(c.super, id)
  {
  }

  /** `_cast`'s answer is the first match going upward through the lineage. */
  lemma {:induction false} CastIsFirstMatch(c: Spec, id: ClassId)
    ensures FirstMatch(c, id, Cast(c, id))
  {
    match c
    case Object =>
    case Class(cid, _, ifaces, sup) =>
      var L := Lineage(c);
      var n := Depth(sup);
      assert L == Lineage(sup) + [c];
      assert L[n] == c;
      if cid != id && InterfaceCast(ifaces, id).None? {
        CastIsFirstMatch(sup, id);
        assert !Matches(L[n], id);
        assert forall i :: 0 <= i < n ==> L[i] == Lineage(sup)[i];
      }
  }

  /** The level a non-null first-match answer names does match. */
  lemma AnswerLevelMatches(c: Spec, id: ClassId, r: CastResult)
    requires FirstMatch(c, id, r)
    ensures !r.Null? ==> r.level < |Lineage(c)| && Matches(Lineage(c)[r.level], id)
  {
    if r.AsInterface? {
      assert Answers(Lineage(c)[r.level].interfaces, id);
    }
  }

  /** At most one answer is the first match. */
  lemma FirstMatchUnique(c: Spec, id: ClassId, r1: CastResult, r2: CastResult)
    requires FirstMatch(c, id, r1) && FirstMatch(c, id, r2)
    ensures r1 == r2
  {
    AnswerLevelMatches(c, id, r1);
    AnswerLevelMatches(c, id, r2);
  }

  /** Hence the first match is exactly what `_cast` returns. */
  lemma FirstMatchIsCast(c: Spec, id: ClassId, r: CastResult)
    requires FirstMatch(c, id, r)
    ensures r == Cast(c, id)
  {
    CastIsFirstMatch(c, id);
    FirstMatchUnique(c, id, r, Cast(c, id));
  }

  /** `_cast` is non-null exactly when some level's own id or one of its interfaces matches. */
  lemma CastNonNullIff(c: Spec, id: ClassId)
    ensures !Cast(c, id).Null? <==> exists i :: 0 <= i < |Lineage(c)| && Matches(Lineage(c)[i], id)
  {
    CastIsFirstMatch(c, id);
    AnswerLevelMatches(c, id, Cast(c, id));
  }

  /** In a well-formed chain, asking for an ancestor's (or the class's own) id yields the object as that ancestor. */
  lemma AncestorCastIsSelf(c: Spec, lv: nat)
    requires WellFormed(c) && lv < Depth(c)
    ensures Cast(c, Lineage(c)[lv].id) == AsClass(lv)
  {
    var L := Lineage(c);
    var id := L[lv].id;
    forall i | lv < i < |L|
      ensures !Matches(L[i], id)
    {
      assert L[lv].id != L[i].id;
      assert !Answers(L[i].interfaces, L[lv].id);
    }
    FirstMatchIsCast(c, id, AsClass(lv));
  }

  /** In a well-formed chain an interface answer names one of the (at most sixteen) declared slots. */
  lemma InterfaceSlotInRange(c: Spec, id: ClassId)
    requires WellFormed(c)
    ensures Cast(c, id).AsInterface? ==> Cast(c, id).slot < MaxInterfaces
  {
    CastIsFirstMatch(c, id);
  }
}
