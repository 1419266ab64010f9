/** `bytes.replace`: leftmost, non-overlapping.  Byte strings are written as character strings. */
module Substitution {

  function Replace(s: string, x: string, y: string): string
    requires x != ""
    decreases |s|
  {
    if s == "" then ""
    else if x <= s then y + Replace(s[|x|..], x, y)
    else [s[0]] + Replace(s[1..], x, y)
  }

  predicate Contains(s: string, x: string) {
    exists i :: 0 <= i <= |s| && x <= s[i..]
  }

  /** No proper suffix of `x` is also a prefix of it. */
  predicate Unbordered(x: string) {
    forall m :: 0 < m < |x| ==> !(x[m..] <= x)
  }

  /** No occurrence of `x` can overlap an occurrence of `y`, at either end or inside. */
  predicate NeverOverlap(x: string, y: string) {
    && (forall m :: 0 <= m < |x| ==> !(x[m..] <= y) && !(y <= x[m..]))
    && (forall m :: 0 <= m < |y| ==> !(y[m..] <= x) && !(x <= y[m..]))
  }

  lemma ContainsTail(s: string, x: string, n: nat)
    requires n <= |s|
    ensures Contains(s[n..], x) ==> Contains(s, x)
    ensures x <= s ==> Contains(s, x)
  {
    if Contains(s[n..], x) {
      var i :| 0 <= i <= |s[n..]| && x <= s[n..][i..];
      assert s[n..][i..] == s[n + i..];
    }
    assert s[0..] == s;
  }

  lemma PrefixCons(x: string, m: nat, s: string)
    requires m < |x| && s != ""
    ensures x[m..] <= s <==> x[m] == s[0] && x[m + 1..] <= s[1..]
  {
    if x[m] == s[0] && x[m + 1..] <= s[1..] {
      assert x[m..] == [x[m]] + x[m + 1..] && s == [s[0]] + s[1..];
    }
  }

  /** A prefix of a concatenation lies within its first part, or the first part within it. */
  lemma PrefixOfConcat(p: string, a: string, b: string)
    ensures p <= a + b && |p| <= |a| ==> p <= a
    ensures p <= a + b && |p| >= |a| ==> a <= p
  {
    if p <= a + b {
      assert forall k :: 0 <= k < |p| && k < |a| ==> p[k] == a[k];
    }
  }

  /** An inserted `x` cannot complete a tail of `x` that was not there before. */
  lemma {:induction false} NoStraddle(s: string, was: string, x: string, m: nat)
    requires was != "" && Unbordered(x) && 0 < m <= |x|
    ensures x[m..] <= Replace(s, was, x) ==> x[m..] <= s
    decreases |s|
  {
    if m < |x| && s != "" {
      if was <= s {
        PrefixOfConcat(x[m..], x, Replace(s[|was|..], was, x));
      } else {
        var t := Replace(s, was, x);
        assert t[1..] == Replace(s[1..], was, x);
        PrefixCons(x, m, t);
        PrefixCons(x, m, s);
        NoStraddle(s[1..], was, x, m + 1);
      }
    }
  }

  /** Substituting back undoes a substitution by an unbordered new name that was not there before. */
  lemma {:induction false} SubstituteBack(s: string, was: string, name: string)
    requires was != "" && name != "" && Unbordered(name) && !Contains(s, name)
    ensures Replace(Replace(s, was, name), name, was) == s
    decreases |s|
  {
    if s != "" {
      if was <= s {
        var rest := s[|was|..];
        var done := Replace(rest, was, name);
        ContainsTail(s, name, |was|);
        SubstituteBack(rest, was, name);
        assert (name + done)[|name|..] == done && name <= name + done;
        assert s == was + rest;
      } else {
        var done := Replace(s[1..], was, name);
        var t := [s[0]] + done;
        ContainsTail(s, name, 1);
        SubstituteBack(s[1..], was, name);
        assert t[1..] == done && name[0..] == name;
        PrefixCons(name, 0, t);
        PrefixCons(name, 0, s);
        NoStraddle(s[1..], was, name, 1);
      }
    }
  }

  lemma {:induction false} NoNewTail(s: string, x: string, y: string, m: nat)
    requires x != "" && NeverOverlap(x, y) && m <= |x|
    ensures x[m..] <= Replace(s, x, y) ==> x[m..] <= s
    decreases |s|
  {
    if m < |x| && s != "" {
      if x <= s {
        PrefixOfConcat(x[m..], y, Replace(s[|x|..], x, y));
      } else {
        var t := Replace(s, x, y);
        assert t[1..] == Replace(s[1..], x, y);
        PrefixCons(x, m, t);
        PrefixCons(x, m, s);
        NoNewTail(s[1..], x, y, m + 1);
      }
    }
  }

  /** Replacing every occurrence leaves none, when the two names cannot overlap. */
  lemma {:induction false} ReplacedIsGone(s: string, x: string, y: string)
    requires x != "" && NeverOverlap(x, y)
    ensures !Contains(Replace(s, x, y), x)
    decreases |s|
  {
    if s != "" {
      var t := Replace(s, x, y);
      var head := if x <= s then y else [s[0]];
      var rest := Replace(if x <= s then s[|x|..] else s[1..], x, y);
      ReplacedIsGone(if x <= s then s[|x|..] else s[1..], x, y);
      NoNewTail(s, x, y, 0);
      assert t == head + rest && x[0..] == x && t[0..] == t;
      forall i | 0 <= i <= |t|
        ensures !(x <= t[i..])
      {
        if i >= |head| {
          assert t[i..] == rest[i - |head|..];
        } else if x <= s {
          assert t[i..] == y[i..] + rest;
          PrefixOfConcat(x, y[i..], rest);
        }
      }
    }
  }

  /** Exactly when substituting back recovers the text. */
  lemma SubstituteBackExactly(s: string, was: string, name: string)
    requires was != "" && name != "" && Unbordered(name) && NeverOverlap(name, was)
    ensures Replace(Replace(s, was, name), name, was) == s <==> !Contains(s, name)
  {
    if Contains(s, name) {
      ReplacedIsGone(Replace(s, was, name), name, was);
    } else {
      SubstituteBack(s, was, name);
    }
  }
}
