/** Small shared definitions. */
module Basics {

  type Byte = b: nat | b < 256

  datatype Option<+T> = None | Some(value: T)

  lemma MoveOne<T>(done: seq<T>, c: T, rest: seq<T>)
    ensures done + ([c] + rest) == done + [c] + rest
  {
  }

  // A part of a finite set has at most as many elements.
  lemma Subset<T>(a: set<T>, b: set<T>)
    requires a <= b
    ensures |a| <= |b|
  {
    assert b == a + (b - a);
  }
}
