/** Filtering and mapping of sequences: what a Python list comprehension computes. */
module Sequences {

  function Filter<T>(p: T -> bool, s: seq<T>): (r: seq<T>)
  {
    if s == [] then []
    else (if p(s[0]) then [s[0]] else []) + Filter(p, s[1..])
  }

  function Map<A, B>(f: A -> B, s: seq<A>): (r: seq<B>)
  {
    seq(|s|, i requires 0 <= i < |s| => f(s[i]))
  }

  lemma {:induction false} FilterConcat<T>(p: T -> bool, a: seq<T>, b: seq<T>)
    ensures Filter(p, a + b) == Filter(p, a) + Filter(p, b)
  {
    if a == [] {
      assert a + b == b;
    } else {
      var head := if p(a[0]) then [a[0]] else [];
      assert (a + b)[1..] == a[1..] + b;
      FilterConcat(p, a[1..], b);
      assert head + (Filter(p, a[1..]) + Filter(p, b)) == (head + Filter(p, a[1..])) + Filter(p, b);
    }
  }

  lemma FilterAppend<T>(p: T -> bool, s: seq<T>, x: T)
    ensures Filter(p, s + [x]) == if p(x) then Filter(p, s) + [x] else Filter(p, s)
  {
    FilterConcat(p, s, [x]);
    assert [x][1..] == [];
  }

  lemma {:induction false} FilterMember<T>(p: T -> bool, s: seq<T>, x: T)
    ensures x in Filter(p, s) <==> x in s && p(x)
  {
    if s != [] {
      FilterMember(p, s[1..], x);
      assert s == [s[0]] + s[1..];
    }
  }

  lemma {:induction false} FilterNone<T>(p: T -> bool, s: seq<T>)
    requires forall x :: x in s ==> !p(x)
    ensures Filter(p, s) == []
  {
    if s != [] {
      FilterNone(p, s[1..]);
    }
  }

  lemma {:induction false} FilterAll<T>(p: T -> bool, s: seq<T>)
    requires forall x :: x in s ==> p(x)
    ensures Filter(p, s) == s
  {
    if s != [] {
      FilterAll(p, s[1..]);
    }
  }

  /** Filtering first by a weaker predicate changes nothing. */
  lemma {:induction false} FilterWeaker<T>(p: T -> bool, weaker: T -> bool, s: seq<T>)
    requires forall x :: x in s && p(x) ==> weaker(x)
    ensures Filter(p, Filter(weaker, s)) == Filter(p, s)
  {
    if s != [] {
      FilterWeaker(p, weaker, s[1..]);
      FilterConcat(p, if weaker(s[0]) then [s[0]] else [], Filter(weaker, s[1..]));
      assert [s[0]][1..] == [];
    }
  }

  lemma {:induction false} FilterShrinks<T>(p: T -> bool, q: T -> bool, s: seq<T>)
    ensures |Filter(p, Filter(q, s))| <= |Filter(p, s)|
  {
    if s != [] {
      FilterShrinks(p, q, s[1..]);
      FilterConcat(p, if q(s[0]) then [s[0]] else [], Filter(q, s[1..]));
      assert [s[0]][1..] == [];
    }
  }

  /** Filtering first by a disjoint predicate leaves nothing. */
  lemma FilterDisjoint<T>(p: T -> bool, q: T -> bool, s: seq<T>)
    requires forall x :: x in s && q(x) ==> !p(x)
    ensures Filter(p, Filter(q, s)) == []
  {
    forall x | x in Filter(q, s)
      ensures !p(x)
    {
      FilterMember(q, s, x);
    }
    FilterNone(p, Filter(q, s));
  }

  /** Filtering the images is mapping the elements whose images pass. */
  lemma {:induction false} FilterMap<A, B>(p: B -> bool, q: A -> bool, f: A -> B, s: seq<A>)
    requires forall x :: x in s ==> p(f(x)) == q(x)
    ensures Filter(p, Map(f, s)) == Map(f, Filter(q, s))
  {
    if s != [] {
      FilterMap(p, q, f, s[1..]);
      assert Map(f, s)[1..] == Map(f, s[1..]);
    }
  }

  lemma {:induction false} FilterBoth<T>(p: T -> bool, q: T -> bool, both: T -> bool, s: seq<T>)
    requires forall x :: x in s ==> both(x) == (p(x) && q(x))
    ensures Filter(p, Filter(q, s)) == Filter(both, s)
  {
    if s != [] {
      FilterBoth(p, q, both, s[1..]);
      FilterConcat(p, if q(s[0]) then [s[0]] else [], Filter(q, s[1..]));
      assert [s[0]][1..] == [];
    }
  }

  lemma {:induction false} FilterAgrees<T>(p: T -> bool, q: T -> bool, s: seq<T>)
    requires forall x :: x in s ==> p(x) == q(x)
    ensures Filter(p, s) == Filter(q, s)
  {
    if s != [] {
      FilterAgrees(p, q, s[1..]);
    }
  }

  /** Filtering keeps each passing element as often as it came. */
  lemma {:induction false} FilterCounts<T>(p: T -> bool, s: seq<T>, x: T)
    ensures multiset(Filter(p, s))[x] == if p(x) then multiset(s)[x] else 0
  {
    if s != [] {
      FilterCounts(p, s[1..], x);
      assert s == [s[0]] + s[1..];
    }
  }

  lemma MapAppend<A, B>(f: A -> B, s: seq<A>, x: A)
    ensures Map(f, s + [x]) == Map(f, s) + [f(x)]
  {
  }

  lemma MapConcat<A, B>(f: A -> B, a: seq<A>, b: seq<A>)
    ensures Map(f, a + b) == Map(f, a) + Map(f, b)
  {
  }

  function Flatten<T>(parts: seq<seq<T>>): (r: seq<T>) {
    if parts == [] then [] else parts[0] + Flatten(parts[1..])
  }

  lemma {:induction false} FlattenAppend<T>(parts: seq<seq<T>>, last: seq<T>)
    ensures Flatten(parts + [last]) == Flatten(parts) + last
  {
    if parts == [] {
      assert parts + [last] == [last] && [last][1..] == [];
    } else {
      assert (parts + [last])[1..] == parts[1..] + [last];
      FlattenAppend(parts[1..], last);
    }
  }

  lemma {:induction false} FlattenMember<T>(parts: seq<seq<T>>, x: T)
    ensures x in Flatten(parts) <==> exists part :: part in parts && x in part
  {
    if parts != [] {
      FlattenMember(parts[1..], x);
      assert parts == [parts[0]] + parts[1..];
    }
  }
}
