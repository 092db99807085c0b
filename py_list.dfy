/** Python's list indexing, shared by the two grid games: an index counts from the end when
    it is negative, and an index out of range raises `IndexError`. */
module PyList {

  datatype Option<T> = None | Some(value: T)

  /** Python's index `i` into a list of `n` items: counted from the end when negative, and
      `None` where Python raises `IndexError`. */
  function PyIndex(i: int, n: nat): (r: Option<nat>)
    ensures r.Some? <==> -(n as int) <= i < n
    ensures r.Some? ==> r.value < n && r.value == i % n
  {
    if 0 <= i < n then Some(i)
    else if -(n as int) <= i < 0 then
      assert (i + n) % n == i % n by { ModShift(i, n); }
      Some(i + n)
    else None
  }

  /** Adding the divisor leaves the (Euclidean) remainder alone. */
  lemma ModShift(i: int, n: int)
    requires -n <= i < 0
    ensures (i + n) % n == i % n
  {
    var q := i / n;
    assert i == q * n + i % n;
    assert q == -1;
  }

  /** Where Python's `grid[row][col]` does not raise: negative indices count from the end. */
  predicate InWrappedGrid(height: int, width: int, row: int, col: int)
  {
    -height <= row < height && -width <= col < width
  }
}
