/**
 * The comparison vocabulary shared by the Gaussian integers and the lattice
 * points: the three answers of a total comparison and the optional answer of
 * a partial one (Rust's `Ordering` and `Option<Ordering>`).
 */
module Orderings {

  datatype Ordering = Less | Equal | Greater

  datatype Option<T> = None | Some(value: T)

  /** The total order of integers, as `Ord::cmp` answers it. */
  function CompareInts(x: int, y: int): (o: Ordering)
    ensures o == Less <==> x < y
    ensures o == Equal <==> x == y
    ensures o == Greater <==> x > y
  {
    if x < y then Less else if x > y then Greater else Equal
  }
}
