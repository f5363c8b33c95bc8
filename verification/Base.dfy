/** Machine integers, results, the outcome of reading at an offset, and set sizes, shared by every component. */
module Base {
  const U32_LIMIT: nat := 0x1_0000_0000

  type byte = n: nat | n < 256
  type U16 = n: nat | n < 0x1_0000
  type U32 = n: nat | n < U32_LIMIT

  datatype Option<+T> = None | Some(value: T)

  datatype Result<+T, +E> = Ok(value: T) | Err(error: E)

  // ---- reading at an offset

  /** A value and the offset after it, or an error. */
  datatype Outcome<+T, +E> = Got(value: T, next: nat) | Bad(error: E)

  /** What a stateful read promises: the parser's value and offset, or the parser's error. */
  ghost predicate Agrees<T, E>(r: Result<T, E>, p: Outcome<T, E>, offset: nat) {
    match p
    case Got(v, next) => r == Ok(v) && offset == next
    case Bad(e) => r == Err(e)
  }

  /** A list whose first elements are already at hand. */
  function Prepend<T, E>(xs: seq<T>, p: Outcome<seq<T>, E>): Outcome<seq<T>, E> {
    match p
    case Got(ys, next) => Got(xs + ys, next)
    case Bad(e) => Bad(e)
  }

  lemma PrependTwice<T, E>(xs: seq<T>, x: T, p: Outcome<seq<T>, E>)
    ensures Prepend(xs, Prepend([x], p)) == Prepend(xs + [x], p)
  {
    if p.Got? { assert xs + ([x] + p.value) == xs + [x] + p.value; }
  }

  lemma PrependNone<T, E>(p: Outcome<seq<T>, E>)
    ensures Prepend([], p) == p
  {
    if p.Got? { assert [] + p.value == p.value; }
  }

  lemma PrependEnd<T, E>(xs: seq<T>, p: Outcome<seq<T>, E>)
    requires p.Got? && p.value == []
    ensures Prepend(xs, p) == Got(xs, p.next)
  {
    assert xs + [] == xs;
  }

  // ---- finite sets

  lemma SubsetSize<T>(a: set<T>, b: set<T>)
    requires a <= b
    ensures |a| <= |b|
    ensures a != b ==> |a| < |b|
  {
    assert b == a + (b - a);
  }
}
