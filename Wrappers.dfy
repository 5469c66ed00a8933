/** Option and Result values shared by every module of the model. */
module Wrappers {

  /** A value that may be absent (JavaScript `null` / `undefined`). */
  datatype Option<+T> = None | Some(value: T)

  /** The outcome of an operation that may throw an `Error` with a message. */
  datatype Result<+T> = Ok(value: T) | Err(message: string)

  /** `Math.max` on integers. */
  function Max(a: int, b: int): (r: int)
    ensures r >= a && r >= b && (r == a || r == b)
  {
    if a >= b then a else b
  }

  /** Every element of `s` occurs exactly once. */
  predicate NoDups<T(==)>(s: seq<T>)
  {
    forall i, j :: 0 <= i < j < |s| ==> s[i] != s[j]
  }

  /** A sequence without repetitions is no longer than any set that holds all of its elements. */
  lemma {:induction false} NoDupsBoundedBy<T>(s: seq<T>, bound: set<T>)
    requires NoDups(s)
    requires forall x :: x in s ==> x in bound
    ensures |s| <= |bound|
  {
    if s != [] {
      var last := s[|s| - 1];
      var prefix := s[..|s| - 1];
      assert NoDups(prefix);
      assert forall x :: x in prefix ==> x in bound - {last} by {
        forall x | x in prefix ensures x in bound - {last} {
          var i :| 0 <= i < |prefix| && prefix[i] == x;
          assert s[i] == x && s[|s| - 1] == last;
        }
      }
      NoDupsBoundedBy(prefix, bound - {last});
    }
  }
}
