/** Properties of the `compare` predicate a heap is built with. */
module Orders {

  /** `less` is a strict weak order: irreflexive, transitive, and "not less" is
      transitive too, so incomparable values behave like equal ones. This is what
      `lambda x, y: x < y` and `lambda x, y: x > y` give. */
  ghost predicate StrictWeakOrder(less: (int, int) -> bool)
  {
    && (forall x :: !less(x, x))
    && (forall x, y, z :: less(x, y) && less(y, z) ==> less(x, z))
    && (forall x, y, z :: !less(x, y) && !less(y, z) ==> !less(x, z))
  }

  /** The min-heap and max-heap comparisons are strict weak orders. */
  lemma IntComparisonsAreStrictWeakOrders()
    ensures StrictWeakOrder((x: int, y: int) => x < y)
    ensures StrictWeakOrder((x: int, y: int) => x > y)
  {
  }

  lemma Asymmetric(less: (int, int) -> bool, x: int, y: int)
    requires StrictWeakOrder(less)
    ensures less(x, y) ==> !less(y, x)
  {
    Transitive(less, x, y, x);
  }

  lemma Transitive(less: (int, int) -> bool, x: int, y: int, z: int)
    requires StrictWeakOrder(less)
    ensures less(x, y) && less(y, z) ==> less(x, z)
  {
  }

  lemma NotLessTransitive(less: (int, int) -> bool, x: int, y: int, z: int)
    requires StrictWeakOrder(less)
    ensures !less(x, y) && !less(y, z) ==> !less(x, z)
  {
  }
}
