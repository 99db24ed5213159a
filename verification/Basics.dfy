/** What several of the models use. */
module Basics {

  datatype Option<+T> = None | Some(value: T)

  /** A C string: no NUL before its terminator. */
  type CString = s: string | '\0' !in s

  predicate NoDup<T(==)>(s: seq<T>) {
    forall i, j :: 0 <= i < j < |s| ==> s[i] != s[j]
  }

  lemma Concat3<T>(a: seq<T>, b: seq<T>, c: seq<T>)
    ensures a + (b + c) == (a + b) + c
  {
  }

  lemma ProductMonotone(a: nat, b: nat, r: nat)
    requires a <= b
    ensures a * r <= b * r
  {
  }

  lemma ProductStep(a: nat, r: nat)
    ensures (a + 1) * r == a * r + r
  {
  }
}
