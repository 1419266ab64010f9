/** `sorted(xs, key=...)`: a stable sort that keeps repetitions. */
module Sorting {

  ghost predicate IsTotalPreorder<T(!new)>(leq: (T, T) -> bool) {
    && (forall x, y :: leq(x, y) || leq(y, x))
    && (forall x, y, z :: leq(x, y) && leq(y, z) ==> leq(x, z))
  }

  predicate InOrder<T>(leq: (T, T) -> bool, s: seq<T>) {
    forall i, j :: 0 <= i < j < |s| ==> leq(s[i], s[j])
  }

  function Insert<T>(leq: (T, T) -> bool, x: T, s: seq<T>): (r: seq<T>)
    ensures |r| == |s| + 1
  {
    if s == [] || leq(x, s[0]) then [x] + s else [s[0]] + Insert(leq, x, s[1..])
  }

  function Sort<T>(leq: (T, T) -> bool, s: seq<T>): (r: seq<T>)
    ensures |r| == |s|
  {
    if s == [] then [] else Insert(leq, s[0], Sort(leq, s[1..]))
  }

  lemma {:induction false} InsertInOrder<T(!new)>(leq: (T, T) -> bool, x: T, s: seq<T>)
    requires IsTotalPreorder(leq) && InOrder(leq, s)
    ensures InOrder(leq, Insert(leq, x, s))
    ensures multiset(Insert(leq, x, s)) == multiset(s) + multiset{x}
  {
    if s != [] {
      assert s == [s[0]] + s[1..];
      if leq(x, s[0]) {
        assert forall j :: 0 <= j < |s| ==> leq(s[0], s[j]) || j == 0;
      } else {
        var tail := Insert(leq, x, s[1..]);
        InsertInOrder(leq, x, s[1..]);
        forall j | 0 <= j < |tail|
          ensures leq(s[0], tail[j])
        {
          assert tail[j] in multiset(tail);
          assert tail[j] == x || tail[j] in s[1..];
        }
      }
    }
  }

  /** The sort puts the elements in order and keeps each as often as it came. */
  lemma {:induction false} SortSorts<T(!new)>(leq: (T, T) -> bool, s: seq<T>)
    requires IsTotalPreorder(leq)
    ensures InOrder(leq, Sort(leq, s))
    ensures multiset(Sort(leq, s)) == multiset(s)
  {
    if s != [] {
      SortSorts(leq, s[1..]);
      InsertInOrder(leq, s[0], Sort(leq, s[1..]));
      assert s == [s[0]] + s[1..];
    }
  }

  lemma SortKeepsMembers<T(!new)>(leq: (T, T) -> bool, s: seq<T>)
    requires IsTotalPreorder(leq)
    ensures forall x :: x in Sort(leq, s) <==> x in s
  {
    SortSorts(leq, s);
    forall x
      ensures x in Sort(leq, s) <==> x in s
    {
      assert x in Sort(leq, s) <==> x in multiset(Sort(leq, s));
      assert x in s <==> x in multiset(s);
    }
  }
}
