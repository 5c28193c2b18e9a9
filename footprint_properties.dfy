/** Properties of `sizeOf`: the shallow default and the deep delegation up the chain. */
module FootprintProperties {
  import opened ClassSpecs

  /** `sizeOf()` with no argument is the shallow query, `sizeof(T)`. */
  lemma DefaultIsShallow(c: Spec, objectDeepSize: u64)
    requires c.Class?
    ensures SizeOf(c, objectDeepSize) == SizeOf(c, objectDeepSize, false) == c.size
  {
  }

  /** The shallow size depends on the class alone, not on its ancestors. */
  lemma ShallowIgnoresAncestors(c: Spec, sup: Spec, objectDeepSize: u64)
    requires c.Class?
    ensures SizeOf(c.(super := sup), objectDeepSize) == SizeOf(c, objectDeepSize)
  {
  }

  /** `sizeOf(true)` returns exactly the parent's `sizeOf(true)`: this level adds nothing. */
  lemma DeepIsInheritedDeep(c: Spec, objectDeepSize: u64)
    requires c.Class? && c.super.Class?
    ensures SizeOf(c, objectDeepSize, true) == SizeOf(c.super, objectDeepSize, true)
  {
  }

  /**
    So the deep size is the same for any two chains over the same object
    root, whatever their depths and shallow sizes.
  */
  lemma DeepIgnoresLevels(c1: Spec, c2: Spec, objectDeepSize: u64)
    requires c1.Class? && c2.Class?
    ensures SizeOf(c1, objectDeepSize, true) == SizeOf(c2, objectDeepSize, true)
  {
  }
}
