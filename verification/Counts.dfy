/** Counts per family, per template and over all cells (analysis/security.py). */
module Counts {
  import opened Wrappers
  import opened AnalysisErrors
  import opened Sequences
  import opened SortedSets
  import opened Ordering
  import opened Security

  datatype Counts = Counts(count: nat, total: nat)

  datatype Bucket = Bucket(name: string, counts: Counts)

  /** What verdicts are clustered axis: their family or their template. */
  datatype Axis = ByFamily | ByTemplate

  function NameOf(axis: Axis, v: Verdict): string {
    if axis.ByFamily? then v.family else v.template
  }

  function Is(quantity: string): Verdict -> bool {
    (v: Verdict) => Get(v.quantities, quantity) == Some(true)
  }

  function IsScored(quantity: string): Verdict -> bool {
    (v: Verdict) => Get(v.quantities, quantity).Some?
  }

  function In(axis: Axis, name: string): Verdict -> bool {
    (v: Verdict) => NameOf(axis, v) == name
  }

  function CountsOf(rows: seq<Verdict>, quantity: string): Counts {
    Counts(|Filter(Is(quantity), rows)|, |Filter(IsScored(quantity), rows)|)
  }

  function InstanceMicro(verdicts: seq<Verdict>, quantity: string): Counts {
    CountsOf(verdicts, quantity)
  }

  function NamesIn(axis: Axis, verdicts: seq<Verdict>): (r: seq<string>)
    ensures |r| == |verdicts|
  {
    seq(|verdicts|, i requires 0 <= i < |verdicts| => NameOf(axis, verdicts[i]))
  }

  function Buckets(axis: Axis, names: seq<string>, verdicts: seq<Verdict>, quantity: string): (r: seq<Bucket>)
    ensures |r| == |names|
  {
    seq(|names|, i requires 0 <= i < |names| =>
      Bucket(names[i], CountsOf(Filter(In(axis, names[i]), verdicts), quantity)))
  }

  /** `class_macro` by family, `clustered_by_template` by template. */
  function Clustered(axis: Axis, verdicts: seq<Verdict>, quantity: string): seq<Bucket> {
    Buckets(axis, SortedSet(Leq, NamesIn(axis, verdicts)), verdicts, quantity)
  }

  // ---- the loop ----

  ghost predicate Sorts(axis: Axis, buckets: map<string, seq<Verdict>>, names: seq<string>, verdicts: seq<Verdict>) {
    && (forall n :: n in buckets <==> n in NamesIn(axis, verdicts))
    && (forall n :: n in names <==> n in NamesIn(axis, verdicts))
    && (forall n :: n in buckets ==> buckets[n] == Filter(In(axis, n), verdicts))
  }

  lemma NamesAppend(axis: Axis, verdicts: seq<Verdict>, v: Verdict)
    ensures NamesIn(axis, verdicts + [v]) == NamesIn(axis, verdicts) + [NameOf(axis, v)]
  {
  }

  lemma NameMember(axis: Axis, verdicts: seq<Verdict>, v: Verdict)
    requires v in verdicts
    ensures NameOf(axis, v) in NamesIn(axis, verdicts)
  {
    var i :| 0 <= i < |verdicts| && verdicts[i] == v;
    assert NamesIn(axis, verdicts)[i] == NameOf(axis, v);
  }

  lemma NothingIn(axis: Axis, verdicts: seq<Verdict>, name: string)
    requires name !in NamesIn(axis, verdicts)
    ensures Filter(In(axis, name), verdicts) == []
  {
    forall v | v in verdicts
      ensures NameOf(axis, v) != name
    {
      NameMember(axis, verdicts, v);
    }
    FilterNone(In(axis, name), verdicts);
  }

  function Put(axis: Axis, buckets: map<string, seq<Verdict>>, v: Verdict): map<string, seq<Verdict>> {
    var name := NameOf(axis, v);
    buckets[name := (if name in buckets then buckets[name] else []) + [v]]
  }

  lemma PutSorts(axis: Axis, buckets: map<string, seq<Verdict>>, names: seq<string>, verdicts: seq<Verdict>, v: Verdict)
    requires Sorts(axis, buckets, names, verdicts)
    ensures var names' := if NameOf(axis, v) in buckets then names else names + [NameOf(axis, v)];
      Sorts(axis, Put(axis, buckets, v), names', verdicts + [v])
  {
    NamesAppend(axis, verdicts, v);
    forall n | n in Put(axis, buckets, v)
      ensures Put(axis, buckets, v)[n] == Filter(In(axis, n), verdicts + [v])
    {
      FilterAppend(In(axis, n), verdicts, v);
      if n !in buckets {
        NothingIn(axis, verdicts, n);
      }
    }
  }

  method BucketLoop(axis: Axis, verdicts: seq<Verdict>) returns (buckets: map<string, seq<Verdict>>, names: seq<string>)
    ensures Sorts(axis, buckets, names, verdicts)
  {
    buckets, names := map[], [];
    for n := 0 to |verdicts|
      invariant Sorts(axis, buckets, names, verdicts[..n])
    {
      assert verdicts[..n + 1] == verdicts[..n] + [verdicts[n]];
      PutSorts(axis, buckets, names, verdicts[..n], verdicts[n]);
      if NameOf(axis, verdicts[n]) !in buckets {
        names := names + [NameOf(axis, verdicts[n])];
      }
      buckets := Put(axis, buckets, verdicts[n]);
    }
    assert verdicts[..|verdicts|] == verdicts;
  }

  method CountLoop(
    axis: Axis, buckets: map<string, seq<Verdict>>, order: seq<string>, ghost verdicts: seq<Verdict>,
    quantity: string)
    returns (r: seq<Bucket>)
    requires forall n :: n in order ==> n in buckets && buckets[n] == Filter(In(axis, n), verdicts)
    ensures r == Buckets(axis, order, verdicts, quantity)
  {
    r := [];
    for n := 0 to |order|
      invariant r == Buckets(axis, order[..n], verdicts, quantity)
    {
      assert order[n] in order;
      var rows := buckets[order[n]];
      r := r + [Bucket(order[n], Counts(|Filter(Is(quantity), rows)|, |Filter(IsScored(quantity), rows)|))];
    }
    assert order[..|order|] == order;
  }

  method ClusterLoop(axis: Axis, verdicts: seq<Verdict>, quantity: string) returns (r: seq<Bucket>)
    ensures r == Clustered(axis, verdicts, quantity)
  {
    var buckets, names := BucketLoop(axis, verdicts);
    StringsAreOrdered();
    SameElementsSameSet(Leq, names, NamesIn(axis, verdicts));
    SortedSetIsSorted(Leq, names);
    r := CountLoop(axis, buckets, SortedSet(Leq, names), verdicts, quantity);
  }

  // ---- the clusters add up ----

  function SumCounts(buckets: seq<Bucket>): nat {
    if buckets == [] then 0 else buckets[0].counts.count + SumCounts(buckets[1..])
  }

  function SumTotals(buckets: seq<Bucket>): nat {
    if buckets == [] then 0 else buckets[0].counts.total + SumTotals(buckets[1..])
  }

  /** How many of the named buckets' verdicts pass. */
  function Across(p: Verdict -> bool, axis: Axis, names: seq<string>, verdicts: seq<Verdict>): nat {
    if names == [] then 0
    else |Filter(p, Filter(In(axis, names[0]), verdicts))| + Across(p, axis, names[1..], verdicts)
  }

  lemma InAppend(p: Verdict -> bool, axis: Axis, name: string, verdicts: seq<Verdict>, v: Verdict)
    ensures |Filter(p, Filter(In(axis, name), verdicts + [v]))|
      == |Filter(p, Filter(In(axis, name), verdicts))| + if NameOf(axis, v) == name && p(v) then 1 else 0
  {
    FilterAppend(In(axis, name), verdicts, v);
    FilterAppend(p, Filter(In(axis, name), verdicts), v);
  }

  ghost predicate NoRepeats(names: seq<string>) {
    forall i, j :: 0 <= i < j < |names| ==> names[i] != names[j]
  }

  lemma {:induction false} AcrossAppend(
    p: Verdict -> bool, axis: Axis, names: seq<string>, verdicts: seq<Verdict>, v: Verdict)
    requires NoRepeats(names)
    ensures Across(p, axis, names, verdicts + [v])
      == Across(p, axis, names, verdicts) + if NameOf(axis, v) in names && p(v) then 1 else 0
  {
    if names != [] {
      InAppend(p, axis, names[0], verdicts, v);
      AcrossAppend(p, axis, names[1..], verdicts, v);
      assert names == [names[0]] + names[1..];
      if names[0] in names[1..] {
        var i :| 0 <= i < |names[1..]| && names[1..][i] == names[0];
        assert names[i + 1] == names[0];
      }
    }
  }

  lemma {:induction false} AcrossNothing(p: Verdict -> bool, axis: Axis, names: seq<string>)
    ensures Across(p, axis, names, []) == 0
  {
    if names != [] {
      AcrossNothing(p, axis, names[1..]);
    }
  }

  /** Buckets that miss no verdict and overlap in none count each passing verdict once. */
  lemma {:induction false} AcrossCountsAll(p: Verdict -> bool, axis: Axis, names: seq<string>, verdicts: seq<Verdict>)
    requires NoRepeats(names) && forall v :: v in verdicts ==> NameOf(axis, v) in names
    ensures Across(p, axis, names, verdicts) == |Filter(p, verdicts)|
    decreases |verdicts|
  {
    if verdicts == [] {
      AcrossNothing(p, axis, names);
    } else {
      var front, v := verdicts[..|verdicts| - 1], verdicts[|verdicts| - 1];
      assert verdicts == front + [v];
      AcrossCountsAll(p, axis, names, front);
      AcrossAppend(p, axis, names, front, v);
      FilterAppend(p, front, v);
    }
  }

  lemma {:induction false} SumsAreAcross(axis: Axis, names: seq<string>, verdicts: seq<Verdict>, quantity: string)
    ensures SumCounts(Buckets(axis, names, verdicts, quantity)) == Across(Is(quantity), axis, names, verdicts)
    ensures SumTotals(Buckets(axis, names, verdicts, quantity)) == Across(IsScored(quantity), axis, names, verdicts)
  {
    if names != [] {
      SumsAreAcross(axis, names[1..], verdicts, quantity);
      assert Buckets(axis, names, verdicts, quantity)[1..] == Buckets(axis, names[1..], verdicts, quantity);
    }
  }

  lemma ClusterNames(axis: Axis, verdicts: seq<Verdict>)
    ensures NoRepeats(SortedSet(Leq, NamesIn(axis, verdicts)))
    ensures forall v :: v in verdicts ==> NameOf(axis, v) in SortedSet(Leq, NamesIn(axis, verdicts))
  {
    StringsAreOrdered();
    SortedSetIsSorted(Leq, NamesIn(axis, verdicts));
    forall v | v in verdicts
      ensures NameOf(axis, v) in NamesIn(axis, verdicts)
    {
      NameMember(axis, verdicts, v);
    }
  }

  /** Clustering, by family or by template, moves no verdict in or out of the counts. */
  lemma ClustersAddUp(axis: Axis, verdicts: seq<Verdict>, quantity: string)
    ensures SumCounts(Clustered(axis, verdicts, quantity)) == InstanceMicro(verdicts, quantity).count
    ensures SumTotals(Clustered(axis, verdicts, quantity)) == InstanceMicro(verdicts, quantity).total
  {
    var names := SortedSet(Leq, NamesIn(axis, verdicts));
    ClusterNames(axis, verdicts);
    SumsAreAcross(axis, names, verdicts, quantity);
    AcrossCountsAll(Is(quantity), axis, names, verdicts);
    AcrossCountsAll(IsScored(quantity), axis, names, verdicts);
  }

  lemma {:induction false} FilterSizeByCounts(p: Verdict -> bool, s: seq<Verdict>, t: seq<Verdict>)
    requires multiset(s) == multiset(t)
    ensures multiset(Filter(p, s)) == multiset(Filter(p, t))
    ensures |Filter(p, s)| == |Filter(p, t)|
  {
    forall v
      ensures multiset(Filter(p, s))[v] == multiset(Filter(p, t))[v]
    {
      FilterCounts(p, s, v);
      FilterCounts(p, t, v);
    }
    assert |multiset(Filter(p, s))| == |Filter(p, s)| && |multiset(Filter(p, t))| == |Filter(p, t)|;
  }

  lemma NamesOfTheSame(axis: Axis, s: seq<Verdict>, t: seq<Verdict>, name: string)
    requires multiset(s) == multiset(t) && name in NamesIn(axis, s)
    ensures name in NamesIn(axis, t)
  {
    var i :| 0 <= i < |s| && NamesIn(axis, s)[i] == name;
    assert s[i] in multiset(s);
    assert s[i] in t;
    NameMember(axis, t, s[i]);
  }

  /** The clusters are the same whatever order the verdicts come in. */
  lemma ClustersIgnoreOrder(axis: Axis, s: seq<Verdict>, t: seq<Verdict>, quantity: string)
    requires multiset(s) == multiset(t)
    ensures Clustered(axis, s, quantity) == Clustered(axis, t, quantity)
    ensures InstanceMicro(s, quantity) == InstanceMicro(t, quantity)
  {
    forall name
      ensures name in NamesIn(axis, s) <==> name in NamesIn(axis, t)
    {
      if name in NamesIn(axis, s) {
        NamesOfTheSame(axis, s, t, name);
      }
      if name in NamesIn(axis, t) {
        NamesOfTheSame(axis, t, s, name);
      }
    }
    StringsAreOrdered();
    SameElementsSameSet(Leq, NamesIn(axis, s), NamesIn(axis, t));
    forall name
      ensures CountsOf(Filter(In(axis, name), s), quantity) == CountsOf(Filter(In(axis, name), t), quantity)
    {
      FilterSizeByCounts(In(axis, name), s, t);
      SameCounts(Filter(In(axis, name), s), Filter(In(axis, name), t), quantity);
    }
    SameCounts(s, t, quantity);
  }

  lemma SameCounts(s: seq<Verdict>, t: seq<Verdict>, quantity: string)
    requires multiset(s) == multiset(t)
    ensures CountsOf(s, quantity) == CountsOf(t, quantity)
  {
    FilterSizeByCounts(Is(quantity), s, t);
    FilterSizeByCounts(IsScored(quantity), s, t);
  }

  /** `Counts.rate`. */
  function Rate(c: Counts): Result<real, AnalysisError> {
    if c.total == 0 then Failure(RateOverNothing) else Success(c.count as real / c.total as real)
  }

  lemma {:induction false} TrueIsScored(rows: seq<Verdict>, quantity: string)
    ensures CountsOf(rows, quantity).count <= CountsOf(rows, quantity).total <= |rows|
  {
    if rows != [] {
      TrueIsScored(rows[1..], quantity);
    }
  }

  lemma QuotientInUnit(a: nat, b: nat)
    requires a <= b && b > 0
    ensures 0.0 <= a as real / b as real <= 1.0
  {
  }

  /** A reported rate is a proportion, and is refused exactly when no cell was scored. */
  lemma RateIsAProportion(rows: seq<Verdict>, quantity: string)
    ensures match Rate(CountsOf(rows, quantity))
      case Failure(e) => e == RateOverNothing && forall v :: v in rows ==> !IsScored(quantity)(v)
      case Success(r) => 0.0 <= r <= 1.0 && exists v :: v in rows && IsScored(quantity)(v)
  {
    TrueIsScored(rows, quantity);
    var c := CountsOf(rows, quantity);
    if c.total == 0 {
      forall v | v in rows
        ensures !IsScored(quantity)(v)
      {
        FilterMember(IsScored(quantity), rows, v);
      }
    } else {
      QuotientInUnit(c.count, c.total);
      var v := Filter(IsScored(quantity), rows)[0];
      FilterMember(IsScored(quantity), rows, v);
    }
  }

  // ---- what a count counts ----

  /** The counts are those of the verdicts of one family or template whose quantity is true, and is scored. */
  predicate CountsThose(b: Bucket, axis: Axis, verdicts: seq<Verdict>, quantity: string) {
    var mine := (v: Verdict) =>
      (axis == ByFamily && v.family == b.name) || (axis == ByTemplate && v.template == b.name);
    && b.counts.count == |Filter((v: Verdict) => mine(v) && Get(v.quantities, quantity) == Some(true), verdicts)|
    && b.counts.total == |Filter((v: Verdict) => mine(v) && Get(v.quantities, quantity) != None, verdicts)|
  }

  lemma BucketCountsThose(axis: Axis, name: string, verdicts: seq<Verdict>, quantity: string)
    ensures CountsThose(Bucket(name, CountsOf(Filter(In(axis, name), verdicts), quantity)), axis, verdicts, quantity)
  {
    var mine := (v: Verdict) => (axis == ByFamily && v.family == name) || (axis == ByTemplate && v.template == name);
    FilterBoth(Is(quantity), In(axis, name),
               (v: Verdict) => mine(v) && Get(v.quantities, quantity) == Some(true), verdicts);
    FilterBoth(IsScored(quantity), In(axis, name),
               (v: Verdict) => mine(v) && Get(v.quantities, quantity) != None, verdicts);
  }

  predicate HasBucket(clusters: seq<Bucket>, name: string) {
    exists b :: b in clusters && b.name == name
  }

  predicate Occurs(axis: Axis, verdicts: seq<Verdict>, name: string) {
    exists v :: v in verdicts && (if axis == ByFamily then v.family else v.template) == name
  }

  lemma ClusterAt(axis: Axis, verdicts: seq<Verdict>, quantity: string, i: nat)
    requires i < |Clustered(axis, verdicts, quantity)|
    ensures var names := SortedSet(Leq, NamesIn(axis, verdicts));
      && |Clustered(axis, verdicts, quantity)| == |names|
      && Clustered(axis, verdicts, quantity)[i].name == names[i]
      && CountsThose(Clustered(axis, verdicts, quantity)[i], axis, verdicts, quantity)
  {
    BucketCountsThose(axis, SortedSet(Leq, NamesIn(axis, verdicts))[i], verdicts, quantity);
  }

  /** There is one bucket for each family, or template, that occurs, in the order of the names, and it counts the
      verdicts of that name. */
  lemma ClustersExactly(axis: Axis, verdicts: seq<Verdict>, quantity: string)
    ensures var clusters := Clustered(axis, verdicts, quantity);
      && (forall i :: 0 <= i < |clusters| ==> CountsThose(clusters[i], axis, verdicts, quantity))
      && (forall i, j :: 0 <= i < j < |clusters| ==>
            Leq(clusters[i].name, clusters[j].name) && clusters[i].name != clusters[j].name)
      && (forall name :: HasBucket(clusters, name) <==> Occurs(axis, verdicts, name))
  {
    var names := SortedSet(Leq, NamesIn(axis, verdicts));
    var clusters := Clustered(axis, verdicts, quantity);
    StringsAreOrdered();
    SortedSetIsSorted(Leq, NamesIn(axis, verdicts));
    forall i | 0 <= i < |clusters|
      ensures clusters[i].name == names[i] && CountsThose(clusters[i], axis, verdicts, quantity)
    {
      ClusterAt(axis, verdicts, quantity, i);
    }
    forall name
      ensures HasBucket(clusters, name) <==> Occurs(axis, verdicts, name)
    {
      BucketNamed(clusters, names, name);
      NameOccurs(axis, verdicts, name);
    }
  }

  lemma BucketNamed(clusters: seq<Bucket>, names: seq<string>, name: string)
    requires |clusters| == |names| && forall i :: 0 <= i < |names| ==> clusters[i].name == names[i]
    ensures HasBucket(clusters, name) <==> name in names
  {
    if name in names {
      var i :| 0 <= i < |names| && names[i] == name;
      assert clusters[i] in clusters;
    }
  }

  lemma NameOccurs(axis: Axis, verdicts: seq<Verdict>, name: string)
    ensures name in NamesIn(axis, verdicts) <==> Occurs(axis, verdicts, name)
  {
    if name in NamesIn(axis, verdicts) {
      var i :| 0 <= i < |verdicts| && NamesIn(axis, verdicts)[i] == name;
      assert verdicts[i] in verdicts;
    }
    if Occurs(axis, verdicts, name) {
      var v :| v in verdicts && (if axis == ByFamily then v.family else v.template) == name;
      NameMember(axis, verdicts, v);
    }
  }

  /** Over all cells: how many say true, how many say anything, and the one over the other. */
  lemma InstanceMicroExactly(verdicts: seq<Verdict>, quantity: string)
    ensures var c := InstanceMicro(verdicts, quantity);
      && c.count == |Filter((v: Verdict) => Get(v.quantities, quantity) == Some(true), verdicts)|
      && c.total == |Filter((v: Verdict) => Get(v.quantities, quantity) != None, verdicts)|
      && (Rate(c).Success? ==> Rate(c).value * c.total as real == c.count as real)
  {
    FilterAgrees((v: Verdict) => Get(v.quantities, quantity) == Some(true), Is(quantity), verdicts);
    FilterAgrees((v: Verdict) => Get(v.quantities, quantity) != None, IsScored(quantity), verdicts);
  }
}
