/** Small shared vocabulary: optional values, duplicate-freedom, maximum and minimum, prefixes. */
module Basics {

  /** An optional value. */
  datatype Option<+T> = None | Some(value: T)

  /** True iff no element of `s` occurs twice. */
  predicate NoDup<T(==)>(s: seq<T>) {
    forall i, j :: 0 <= i < j < |s| ==> s[i] != s[j]
  }

  /** The larger of two integers (Python's `max` on two arguments). */
  function Max(a: int, b: int): int {
    if a < b then b else a
  }

  /** The smaller of two integers. */
  function Min(a: int, b: int): int {
    if a < b then a else b
  }

  /** True iff `p` is a prefix of `s`. */
  predicate IsPrefix<T(==)>(p: seq<T>, s: seq<T>) {
    |p| <= |s| && s[..|p|] == p
  }

  /** Appending distinct elements that are new keeps a sequence duplicate-free. */
  lemma NoDupAppend<T>(a: seq<T>, b: seq<T>)
    requires NoDup(a) && NoDup(b)
    requires forall j :: 0 <= j < |b| ==> b[j] !in a
    ensures NoDup(a + b)
  {
    forall i, j | 0 <= i < j < |a + b|
      ensures (a + b)[i] != (a + b)[j]
    {
      if j >= |a| && i < |a| {
        assert (a + b)[j] == b[j - |a|];
        assert (a + b)[i] in a;
      }
    }
  }
}
