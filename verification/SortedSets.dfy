/** `sorted({...})`: the distinct elements of a sequence in ascending order. */
module SortedSets {

  ghost predicate IsTotalOrder<T(!new)>(leq: (T, T) -> bool) {
    && (forall x, y :: leq(x, y) || leq(y, x))
    && (forall x, y :: leq(x, y) && leq(y, x) ==> x == y)
    && (forall x, y, z :: leq(x, y) && leq(y, z) ==> leq(x, z))
  }

  ghost predicate StrictlyAscending<T>(leq: (T, T) -> bool, s: seq<T>) {
    forall i, j :: 0 <= i < j < |s| ==> leq(s[i], s[j]) && s[i] != s[j]
  }

  function InsertDistinct<T(==)>(leq: (T, T) -> bool, x: T, s: seq<T>): (r: seq<T>) {
    if s == [] then [x]
    else if x == s[0] then s
    else if leq(x, s[0]) then [x] + s
    else [s[0]] + InsertDistinct(leq, x, s[1..])
  }

  function SortedSet<T(==)>(leq: (T, T) -> bool, s: seq<T>): (r: seq<T>)
    decreases |s|
  {
    if s == [] then [] else InsertDistinct(leq, s[|s| - 1], SortedSet(leq, s[..|s| - 1]))
  }

  lemma SortedSetAppend<T>(leq: (T, T) -> bool, s: seq<T>, x: T)
    ensures SortedSet(leq, s + [x]) == InsertDistinct(leq, x, SortedSet(leq, s))
  {
    assert (s + [x])[..|s|] == s;
  }

  lemma AscendingTail<T(!new)>(leq: (T, T) -> bool, x: T, tail: seq<T>)
    requires StrictlyAscending(leq, tail)
    requires forall y :: y in tail ==> leq(x, y) && x != y
    ensures StrictlyAscending(leq, [x] + tail)
  {
    forall i, j | 0 <= i < j < |tail| + 1
      ensures leq(([x] + tail)[i], ([x] + tail)[j]) && ([x] + tail)[i] != ([x] + tail)[j]
    {
      assert ([x] + tail)[j] == tail[j - 1] && tail[j - 1] in tail;
      if i > 0 {
        assert ([x] + tail)[i] == tail[i - 1];
      }
    }
  }

  lemma {:induction false} InsertDistinctAscends<T(!new)>(leq: (T, T) -> bool, x: T, s: seq<T>)
    requires IsTotalOrder(leq) && StrictlyAscending(leq, s)
    ensures StrictlyAscending(leq, InsertDistinct(leq, x, s))
    ensures forall y :: y in InsertDistinct(leq, x, s) <==> y == x || y in s
  {
    if s != [] {
      assert s == [s[0]] + s[1..];
      if x != s[0] {
        forall y | y in s[1..]
          ensures leq(s[0], y) && s[0] != y
        {
          var i :| 0 <= i < |s[1..]| && s[1..][i] == y;
          assert s[i + 1] == y;
        }
        if leq(x, s[0]) {
          AscendingTail(leq, x, s);
        } else {
          InsertDistinctAscends(leq, x, s[1..]);
          AscendingTail(leq, s[0], InsertDistinct(leq, x, s[1..]));
        }
      }
    }
  }

  /** The result lists exactly the elements, each once, in order. */
  lemma {:induction false} SortedSetIsSorted<T(!new)>(leq: (T, T) -> bool, s: seq<T>)
    requires IsTotalOrder(leq)
    ensures StrictlyAscending(leq, SortedSet(leq, s))
    ensures forall y :: y in SortedSet(leq, s) <==> y in s
    decreases |s|
  {
    if s != [] {
      var front := s[..|s| - 1];
      SortedSetIsSorted(leq, front);
      InsertDistinctAscends(leq, s[|s| - 1], SortedSet(leq, front));
      assert s == front + [s[|s| - 1]];
    }
  }

  lemma FirstIsLeast<T(!new)>(leq: (T, T) -> bool, s: seq<T>, y: T)
    requires IsTotalOrder(leq) && StrictlyAscending(leq, s) && y in s
    ensures leq(s[0], y)
    ensures y in s[1..] <==> y != s[0]
  {
    var i :| 0 <= i < |s| && s[i] == y;
    if i > 0 {
      assert s[1..][i - 1] == y;
    }
  }

  /** There is only one way to list a set in strict order. */
  lemma {:induction false} SameMembersSameList<T(!new)>(leq: (T, T) -> bool, a: seq<T>, b: seq<T>)
    requires IsTotalOrder(leq) && StrictlyAscending(leq, a) && StrictlyAscending(leq, b)
    requires forall y :: y in a <==> y in b
    ensures a == b
  {
    assert a != [] ==> a[0] in b;
    assert b != [] ==> b[0] in a;
    if a != [] && b != [] {
      FirstIsLeast(leq, a, b[0]);
      FirstIsLeast(leq, b, a[0]);
      forall y
        ensures y in a[1..] <==> y in b[1..]
      {
        if y in a {
          FirstIsLeast(leq, a, y);
          FirstIsLeast(leq, b, y);
        }
      }
      SameMembersSameList(leq, a[1..], b[1..]);
      assert a == [a[0]] + a[1..] && b == [b[0]] + b[1..];
    }
  }

  lemma SameElementsSameSet<T(!new)>(leq: (T, T) -> bool, s: seq<T>, t: seq<T>)
    requires IsTotalOrder(leq)
    requires forall y :: y in s <==> y in t
    ensures SortedSet(leq, s) == SortedSet(leq, t)
  {
    SortedSetIsSorted(leq, s);
    SortedSetIsSorted(leq, t);
    SameMembersSameList(leq, SortedSet(leq, s), SortedSet(leq, t));
  }
}
