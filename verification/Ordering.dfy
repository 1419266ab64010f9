/** Python's order on strings, which `sorted`, `min` and `max` use. */
module Ordering {
  import opened SortedSets

  predicate Leq(a: string, b: string) {
    a == [] || (b != [] && (a[0] < b[0] || (a[0] == b[0] && Leq(a[1..], b[1..]))))
  }

  lemma {:induction false} LeqTotal(a: string, b: string)
    ensures Leq(a, b) || Leq(b, a)
    ensures Leq(a, b) && Leq(b, a) ==> a == b
  {
    if a != [] && b != [] && a[0] == b[0] {
      LeqTotal(a[1..], b[1..]);
      assert a == [a[0]] + a[1..] && b == [b[0]] + b[1..];
    }
  }

  lemma {:induction false} LeqTransitive(a: string, b: string, c: string)
    requires Leq(a, b) && Leq(b, c)
    ensures Leq(a, c)
  {
    if a != [] && a[0] == b[0] && b[0] == c[0] {
      LeqTransitive(a[1..], b[1..], c[1..]);
    }
  }

  lemma StringsAreOrdered()
    ensures IsTotalOrder(Leq)
  {
    forall x: string, y: string
      ensures Leq(x, y) || Leq(y, x)
      ensures Leq(x, y) && Leq(y, x) ==> x == y
    {
      LeqTotal(x, y);
    }
    forall x: string, y: string, z: string | Leq(x, y) && Leq(y, z)
      ensures Leq(x, z)
    {
      LeqTransitive(x, y, z);
    }
  }
}
