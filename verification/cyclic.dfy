/** Cyclic indexing into a polygon's vertex list: index i - 1 of vertex 0 is
    the last vertex, index i + 1 of the last vertex is vertex 0. */
module Cyclic {

  /** An index at most one lap away from the range 0 .. n - 1 wraps by adding
      or subtracting n once. */
  lemma Wrap(n: int)
    requires n > 0
    ensures forall x {:trigger x % n} :: -n <= x < 2 * n ==>
              x % n == (if x < 0 then x + n else if x >= n then x - n else x)
  {
    forall x | -n <= x < 2 * n
      ensures x % n == (if x < 0 then x + n else if x >= n then x - n else x)
    {
      if x < 0 {
        assert (x + n) % n == x + n;
      }
    }
  }
}
