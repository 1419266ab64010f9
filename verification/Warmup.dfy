/** Discarding warm-up repetitions (analysis/latency.py). */
module Warmup {
  import opened Wrappers
  import opened AnalysisErrors
  import opened Sequences
  import opened SortedSets

  /** One timed span.  Durations are reals. */
  datatype Sample = Sample(
    arm: string, scenario: string, phase: string, batch: int, repetition: int, span: string, value: real)

  datatype Key = Key(arm: string, scenario: string, phase: string, batch: int)

  /** One entry of the insertion-ordered dict of groups. */
  datatype Group = Group(key: Key, samples: seq<Sample>)

  function KeyOf(x: Sample): Key {
    Key(x.arm, x.scenario, x.phase, x.batch)
  }

  /** `groups.setdefault(key, []).append(x)`. */
  function Add(groups: seq<Group>, x: Sample): (r: seq<Group>) {
    if groups == [] then [Group(KeyOf(x), [x])]
    else if groups[0].key == KeyOf(x) then [groups[0].(samples := groups[0].samples + [x])] + groups[1..]
    else [groups[0]] + Add(groups[1..], x)
  }

  function AddAll(groups: seq<Group>, samples: seq<Sample>): (r: seq<Group>)
    decreases |samples|
  {
    if samples == [] then groups
    else Add(AddAll(groups, samples[..|samples| - 1]), samples[|samples| - 1])
  }

  function Groups(samples: seq<Sample>): (r: seq<Group>) {
    AddAll([], samples)
  }

  predicate IntLeq(a: int, b: int) {
    a <= b
  }

  function RepetitionsOf(group: seq<Sample>): (r: seq<int>)
    ensures |r| == |group|
    ensures forall i :: 0 <= i < |r| ==> r[i] == group[i].repetition
  {
    seq(|group|, i requires 0 <= i < |group| => group[i].repetition)
  }

  function Take<T>(s: seq<T>, n: nat): (r: seq<T>) {
    if n <= |s| then s[..n] else s
  }

  /** The repetitions of a group that warm it up. */
  function Cutoff(group: seq<Sample>, perBatch: nat): (r: seq<int>) {
    Take(SortedSet(IntLeq, RepetitionsOf(group)), perBatch)
  }

  function Outside(cutoff: seq<int>): Sample -> bool {
    (x: Sample) => x.repetition !in cutoff
  }

  function Kept(group: seq<Sample>, perBatch: nat): (r: seq<Sample>) {
    Filter(Outside(Cutoff(group, perBatch)), group)
  }

  function KeptGroups(groups: seq<Group>, perBatch: nat): (r: seq<Group>)
    ensures |r| == |groups|
  {
    if groups == [] then []
    else [Group(groups[0].key, Kept(groups[0].samples, perBatch))] + KeptGroups(groups[1..], perBatch)
  }

  function SamplesOf(g: Group): (r: seq<Sample>) {
    g.samples
  }

  /** The samples of all groups, group by group. */
  function Members(groups: seq<Group>): (r: seq<Sample>) {
    Flatten(Map(SamplesOf, groups))
  }

  function Discard(samples: seq<Sample>, perBatch: nat): (r: seq<Sample>) {
    Members(KeptGroups(Groups(samples), perBatch))
  }

  lemma {:induction false} KeptGroupsAppend(groups: seq<Group>, g: Group, perBatch: nat)
    ensures KeptGroups(groups + [g], perBatch)
      == KeptGroups(groups, perBatch) + [Group(g.key, Kept(g.samples, perBatch))]
  {
    if groups == [] {
      assert [g][1..] == [];
    } else {
      KeptGroupsAppend(groups[1..], g, perBatch);
      assert (groups + [g])[1..] == groups[1..] + [g];
    }
  }

  lemma MembersAppend(groups: seq<Group>, g: Group)
    ensures Members(groups + [g]) == Members(groups) + g.samples
  {
    MapAppend(SamplesOf, groups, g);
    FlattenAppend(Map(SamplesOf, groups), g.samples);
  }

  lemma KeptMembersAppend(groups: seq<Group>, g: Group, perBatch: nat)
    ensures Members(KeptGroups(groups + [g], perBatch))
      == Members(KeptGroups(groups, perBatch)) + Kept(g.samples, perBatch)
  {
    KeptGroupsAppend(groups, g, perBatch);
    MembersAppend(KeptGroups(groups, perBatch), Group(g.key, Kept(g.samples, perBatch)));
  }

  lemma AddAllAppend(groups: seq<Group>, samples: seq<Sample>, x: Sample)
    ensures AddAll(groups, samples + [x]) == Add(AddAll(groups, samples), x)
  {
    assert (samples + [x])[..|samples|] == samples;
  }

  method GroupLoop(samples: seq<Sample>) returns (groups: seq<Group>)
    ensures groups == Groups(samples)
  {
    groups := [];
    for n := 0 to |samples|
      invariant groups == Groups(samples[..n])
    {
      AddAllAppend([], samples[..n], samples[n]);
      assert samples[..n + 1] == samples[..n] + [samples[n]];
      groups := Add(groups, samples[n]);
    }
    assert samples[..|samples|] == samples;
  }

  method KeepLoop(groups: seq<Group>, perBatch: nat) returns (kept: seq<Sample>)
    ensures kept == Members(KeptGroups(groups, perBatch))
  {
    kept := [];
    for n := 0 to |groups|
      invariant kept == Members(KeptGroups(groups[..n], perBatch))
    {
      var cutoff := Cutoff(groups[n].samples, perBatch);
      KeptMembersAppend(groups[..n], groups[n], perBatch);
      assert groups[..n + 1] == groups[..n] + [groups[n]];
      kept := kept + Filter(Outside(cutoff), groups[n].samples);
    }
    assert groups[..|groups|] == groups;
  }

  method DiscardWarmup(samples: seq<Sample>, perBatch: int) returns (r: Result<seq<Sample>, AnalysisError>)
    ensures r == if perBatch < 0 then Failure(NegativeDiscard) else Success(Discard(samples, perBatch))
  {
    if perBatch < 0 {
      return Failure(NegativeDiscard);
    }
    var groups := GroupLoop(samples);
    var kept := KeepLoop(groups, perBatch);
    r := Success(kept);
  }

  // ---- what the groups are ----

  /** Distinct keys, and nothing filed under another key. */
  ghost predicate Sound(groups: seq<Group>) {
    && (forall i, j :: 0 <= i < j < |groups| ==> groups[i].key != groups[j].key)
    && (forall i, x :: 0 <= i < |groups| && x in groups[i].samples ==> KeyOf(x) == groups[i].key)
  }

  lemma {:induction false} AddIsSound(groups: seq<Group>, x: Sample)
    requires Sound(groups)
    ensures Sound(Add(groups, x))
    ensures forall i :: 0 <= i < |Add(groups, x)| ==>
      Add(groups, x)[i].key == KeyOf(x) || exists j :: 0 <= j < |groups| && groups[j].key == Add(groups, x)[i].key
  {
    if groups != [] && groups[0].key != KeyOf(x) {
      AddIsSound(groups[1..], x);
      assert forall j :: 0 <= j < |groups[1..]| ==> groups[1..][j] == groups[j + 1];
    }
  }

  lemma {:induction false} AddAllIsSound(groups: seq<Group>, samples: seq<Sample>)
    requires Sound(groups)
    ensures Sound(AddAll(groups, samples))
    decreases |samples|
  {
    if samples != [] {
      AddAllIsSound(groups, samples[..|samples| - 1]);
      AddIsSound(AddAll(groups, samples[..|samples| - 1]), samples[|samples| - 1]);
    }
  }

  lemma MembersCons(g: Group, groups: seq<Group>)
    ensures Members([g] + groups) == g.samples + Members(groups)
  {
    assert Map(SamplesOf, [g] + groups)[1..] == Map(SamplesOf, groups);
  }

  lemma {:induction false} AddMembers(groups: seq<Group>, x: Sample)
    ensures multiset(Members(Add(groups, x))) == multiset(Members(groups)) + multiset{x}
  {
    if groups == [] {
      var g := Group(KeyOf(x), [x]);
      MembersCons(g, []);
      assert Add(groups, x) == [g] + [] && g.samples + [] == [x];
    } else {
      var g, rest := groups[0], groups[1..];
      MembersCons(g, rest);
      assert groups == [g] + rest;
      if g.key != KeyOf(x) {
        AddMembers(rest, x);
        MembersCons(g, Add(rest, x));
      } else {
        MembersCons(Group(g.key, g.samples + [x]), rest);
      }
    }
  }

  /** Grouping loses no sample and invents none. */
  lemma {:induction false} GroupsMembers(samples: seq<Sample>)
    ensures multiset(Members(Groups(samples))) == multiset(samples)
    decreases |samples|
  {
    if samples != [] {
      var front, x := samples[..|samples| - 1], samples[|samples| - 1];
      GroupsMembers(front);
      AddMembers(Groups(front), x);
      assert samples == front + [x];
    }
  }

  // ---- discarding is an action ----

  lemma {:induction false} AddAllConcat(groups: seq<Group>, a: seq<Sample>, b: seq<Sample>)
    ensures AddAll(groups, a + b) == AddAll(AddAll(groups, a), b)
    decreases |b|
  {
    if b == [] {
      assert a + b == a;
    } else {
      var n := |b| - 1;
      AddAllConcat(groups, a, b[..n]);
      assert (a + b)[..|a + b| - 1] == a + b[..n];
    }
  }

  lemma {:induction false} AddFresh(groups: seq<Group>, x: Sample)
    requires forall i :: 0 <= i < |groups| ==> groups[i].key != KeyOf(x)
    ensures Add(groups, x) == groups + [Group(KeyOf(x), [x])]
  {
    if groups != [] {
      AddFresh(groups[1..], x);
      assert groups == [groups[0]] + groups[1..];
    }
  }

  lemma {:induction false} AddToLast(groups: seq<Group>, front: seq<Sample>, x: Sample)
    requires forall i :: 0 <= i < |groups| ==> groups[i].key != KeyOf(x)
    ensures Add(groups + [Group(KeyOf(x), front)], x) == groups + [Group(KeyOf(x), front + [x])]
  {
    var last := Group(KeyOf(x), front);
    if groups == [] {
      assert [last][1..] == [];
    } else {
      AddToLast(groups[1..], front, x);
      assert (groups + [last])[1..] == groups[1..] + [last];
      assert groups == [groups[0]] + groups[1..];
    }
  }

  function Entry(g: Group): (r: seq<Group>) {
    if g.samples == [] then [] else [g]
  }

  /** Filing a whole group's samples under a new key files the group. */
  lemma {:induction false} AddWholeGroup(groups: seq<Group>, g: Group)
    requires forall i :: 0 <= i < |groups| ==> groups[i].key != g.key
    requires forall x :: x in g.samples ==> KeyOf(x) == g.key
    ensures AddAll(groups, g.samples) == groups + Entry(g)
    decreases |g.samples|
  {
    if g.samples != [] {
      var n := |g.samples| - 1;
      var front, x := g.samples[..n], g.samples[n];
      AddWholeGroup(groups, Group(g.key, front));
      assert KeyOf(x) == g.key;
      assert front + [x] == g.samples;
      if front == [] {
        AddFresh(groups, x);
      } else {
        AddToLast(groups, front, x);
      }
    }
  }

  function NonEmpty(groups: seq<Group>): (r: seq<Group>) {
    if groups == [] then []
    else if groups[0].samples == [] then NonEmpty(groups[1..])
    else [groups[0]] + NonEmpty(groups[1..])
  }

  lemma {:induction false} NonEmptyAppend(groups: seq<Group>, g: Group)
    ensures NonEmpty(groups + [g]) == NonEmpty(groups) + Entry(g)
  {
    if groups == [] {
      assert [g][1..] == [];
    } else {
      NonEmptyAppend(groups[1..], g);
      assert (groups + [g])[1..] == groups[1..] + [g];
    }
  }

  lemma {:induction false} NonEmptyMembers(groups: seq<Group>, g: Group)
    ensures g in NonEmpty(groups) ==> g in groups
  {
    if groups != [] {
      NonEmptyMembers(groups[1..], g);
    }
  }

  /** Grouping a flattened dict again gives the same dict, in the same order, less its empty groups. */
  lemma {:induction false} RegroupMembers(groups: seq<Group>)
    requires Sound(groups)
    ensures Groups(Members(groups)) == NonEmpty(groups)
    decreases |groups|
  {
    if groups != [] {
      var front, g := groups[..|groups| - 1], groups[|groups| - 1];
      RegroupMembers(front);
      assert groups == front + [g];
      MembersAppend(front, g);
      AddAllConcat([], Members(front), g.samples);
      forall i | 0 <= i < |NonEmpty(front)|
        ensures NonEmpty(front)[i].key != g.key
      {
        NonEmptyMembers(front, NonEmpty(front)[i]);
      }
      AddWholeGroup(NonEmpty(front), g);
      NonEmptyAppend(front, g);
    }
  }

  function Drop<T>(s: seq<T>, n: nat): (r: seq<T>) {
    if n <= |s| then s[n..] else []
  }

  lemma RepetitionMember(group: seq<Sample>, r: int)
    ensures r in RepetitionsOf(group) <==> exists x :: x in group && x.repetition == r
  {
    if r in RepetitionsOf(group) {
      var i :| 0 <= i < |group| && RepetitionsOf(group)[i] == r;
      assert group[i] in group && group[i].repetition == r;
    }
    if exists x :: x in group && x.repetition == r {
      var x :| x in group && x.repetition == r;
      var i :| 0 <= i < |group| && group[i] == x;
      assert RepetitionsOf(group)[i] == r;
    }
  }

  lemma IntsAreOrdered()
    ensures IsTotalOrder(IntLeq)
  {
  }

  lemma TakeOrDrop(s: seq<int>, n: nat, y: int)
    requires StrictlyAscending(IntLeq, s)
    ensures y in Drop(s, n) <==> y in s && y !in Take(s, n)
  {
    if n <= |s| {
      assert s == s[..n] + s[n..];
    }
  }

  /** The repetitions left after a discard are the sorted ones past the cutoff. */
  lemma KeptRepetitions(group: seq<Sample>, n: nat)
    ensures SortedSet(IntLeq, RepetitionsOf(Kept(group, n))) == Drop(SortedSet(IntLeq, RepetitionsOf(group)), n)
  {
    IntsAreOrdered();
    var all := SortedSet(IntLeq, RepetitionsOf(group));
    var left := SortedSet(IntLeq, RepetitionsOf(Kept(group, n)));
    SortedSetIsSorted(IntLeq, RepetitionsOf(group));
    SortedSetIsSorted(IntLeq, RepetitionsOf(Kept(group, n)));
    forall y
      ensures y in left <==> y in Drop(all, n)
    {
      RepetitionMember(group, y);
      RepetitionMember(Kept(group, n), y);
      TakeOrDrop(all, n, y);
      forall x {
        FilterMember(Outside(Cutoff(group, n)), group, x);
      }
    }
    SameMembersSameList(IntLeq, left, Drop(all, n));
  }

  lemma TakeMore(s: seq<int>, n: nat, m: nat)
    ensures Take(s, n + m) == Take(s, n) + Take(Drop(s, n), m)
  {
  }

  lemma KeptTwice(group: seq<Sample>, n: nat, m: nat)
    ensures Kept(Kept(group, n), m) == Kept(group, n + m)
  {
    KeptRepetitions(group, n);
    TakeMore(SortedSet(IntLeq, RepetitionsOf(group)), n, m);
    FilterBoth(Outside(Cutoff(Kept(group, n), m)), Outside(Cutoff(group, n)), Outside(Cutoff(group, n + m)), group);
  }

  lemma {:induction false} KeptGroupsTwice(groups: seq<Group>, n: nat, m: nat)
    ensures KeptGroups(KeptGroups(groups, n), m) == KeptGroups(groups, n + m)
  {
    if groups != [] {
      KeptTwice(groups[0].samples, n, m);
      KeptGroupsTwice(groups[1..], n, m);
      assert KeptGroups(groups, n)[1..] == KeptGroups(groups[1..], n);
    }
  }

  lemma KeptCons(g: Group, groups: seq<Group>, n: nat)
    ensures Members(KeptGroups([g] + groups, n)) == Kept(g.samples, n) + Members(KeptGroups(groups, n))
  {
    assert ([g] + groups)[1..] == groups;
    MembersCons(Group(g.key, Kept(g.samples, n)), KeptGroups(groups, n));
  }

  lemma {:induction false} EmptyGroupsKeepNothing(groups: seq<Group>, n: nat)
    ensures Members(KeptGroups(NonEmpty(groups), n)) == Members(KeptGroups(groups, n))
  {
    if groups != [] {
      var g, rest := groups[0], groups[1..];
      assert groups == [g] + rest;
      EmptyGroupsKeepNothing(rest, n);
      KeptCons(g, rest, n);
      if g.samples != [] {
        KeptCons(g, NonEmpty(rest), n);
      }
    }
  }

  lemma {:induction false} KeptGroupsAt(groups: seq<Group>, n: nat, i: nat)
    requires i < |groups|
    ensures KeptGroups(groups, n)[i] == Group(groups[i].key, Kept(groups[i].samples, n))
  {
    if i > 0 {
      KeptGroupsAt(groups[1..], n, i - 1);
    }
  }

  lemma KeptGroupsSound(groups: seq<Group>, n: nat)
    requires Sound(groups)
    ensures Sound(KeptGroups(groups, n))
  {
    forall i | 0 <= i < |groups|
      ensures KeptGroups(groups, n)[i] == Group(groups[i].key, Kept(groups[i].samples, n))
    {
      KeptGroupsAt(groups, n, i);
    }
    forall i, x | 0 <= i < |groups| && x in KeptGroups(groups, n)[i].samples
      ensures KeyOf(x) == groups[i].key
    {
      FilterMember(Outside(Cutoff(groups[i].samples, n)), groups[i].samples, x);
    }
  }

  /** Discarding `n` repetitions and then `m` more is discarding `n + m`: the same list, in the same order. */
  lemma DiscardIsAnAction(samples: seq<Sample>, n: nat, m: nat)
    ensures Discard(Discard(samples, n), m) == Discard(samples, n + m)
  {
    var groups := Groups(samples);
    AddAllIsSound([], samples);
    KeptGroupsSound(groups, n);
    RegroupMembers(KeptGroups(groups, n));
    EmptyGroupsKeepNothing(KeptGroups(groups, n), m);
    KeptGroupsTwice(groups, n, m);
  }

  // ---- what is discarded does not depend on the input order ----

  function SameGroup(key: Key): Sample -> bool {
    (x: Sample) => KeyOf(x) == key
  }

  function GroupOf(samples: seq<Sample>, key: Key): (r: seq<Sample>) {
    Filter(SameGroup(key), samples)
  }

  /** Whether the discard keeps a sample, said of the sample alone. */
  function PastWarmup(samples: seq<Sample>, perBatch: nat): Sample -> bool {
    (x: Sample) => x.repetition !in Cutoff(GroupOf(samples, KeyOf(x)), perBatch)
  }

  ghost predicate HasKey(groups: seq<Group>, key: Key) {
    exists i :: 0 <= i < |groups| && groups[i].key == key
  }

  ghost predicate EveryKey(groups: seq<Group>, samples: seq<Sample>) {
    forall x :: x in samples ==> HasKey(groups, KeyOf(x))
  }

  ghost predicate InOrder(groups: seq<Group>, samples: seq<Sample>) {
    forall i :: 0 <= i < |groups| ==> groups[i].samples == GroupOf(samples, groups[i].key)
  }

  /** The samples filed under a key are those that have it, in input order. */
  ghost predicate Files(groups: seq<Group>, samples: seq<Sample>) {
    Sound(groups) && InOrder(groups, samples) && EveryKey(groups, samples)
  }

  lemma {:induction false} AddFiles(groups: seq<Group>, x: Sample)
    requires Sound(groups)
    ensures var r := Add(groups, x);
      && |groups| <= |r| <= |groups| + 1
      && (forall i :: 0 <= i < |groups| ==>
        r[i] == if groups[i].key == KeyOf(x) then Group(groups[i].key, groups[i].samples + [x]) else groups[i])
      && (|r| > |groups| <==> forall i :: 0 <= i < |groups| ==> groups[i].key != KeyOf(x))
      && (|r| > |groups| ==> r[|groups|] == Group(KeyOf(x), [x]))
  {
    if groups != [] && groups[0].key != KeyOf(x) {
      AddFiles(groups[1..], x);
    }
  }

  lemma AddKeepsOrder(before: seq<Group>, front: seq<Sample>, x: Sample)
    requires Files(before, front)
    ensures InOrder(Add(before, x), front + [x])
  {
    AddFiles(before, x);
    var after := Add(before, x);
    forall i | 0 <= i < |after|
      ensures after[i].samples == GroupOf(front + [x], after[i].key)
    {
      FilterAppend(SameGroup(after[i].key), front, x);
      if i == |before| {
        FilterNone(SameGroup(KeyOf(x)), front);
      }
    }
  }

  lemma AddHasKey(before: seq<Group>, x: Sample, key: Key)
    requires Sound(before)
    ensures HasKey(Add(before, x), key) <==> HasKey(before, key) || key == KeyOf(x)
  {
    AddFiles(before, x);
    var after := Add(before, x);
    if HasKey(before, key) {
      var i :| 0 <= i < |before| && before[i].key == key;
      assert after[i].key == key;
    }
    if key == KeyOf(x) && !HasKey(before, key) {
      assert after[|before|].key == key;
    }
  }

  lemma {:induction false} GroupsFile(samples: seq<Sample>)
    ensures Files(Groups(samples), samples)
    decreases |samples|
  {
    if samples != [] {
      var front, x := samples[..|samples| - 1], samples[|samples| - 1];
      GroupsFile(front);
      assert samples == front + [x];
      AddKeepsOrder(Groups(front), front, x);
      AddIsSound(Groups(front), x);
      forall y | y in samples
        ensures HasKey(Groups(samples), KeyOf(y))
      {
        AddHasKey(Groups(front), x, KeyOf(y));
      }
    }
  }

  lemma {:induction false} KeptIsAFilter(groups: seq<Group>, samples: seq<Sample>, n: nat)
    requires Sound(groups)
    requires InOrder(groups, samples)
    ensures Members(KeptGroups(groups, n)) == Filter(PastWarmup(samples, n), Members(groups))
  {
    if groups != [] {
      KeptIsAFilter(groups[1..], samples, n);
      KeptCons(groups[0], groups[1..], n);
      MembersCons(groups[0], groups[1..]);
      assert groups == [groups[0]] + groups[1..];
      FilterConcat(PastWarmup(samples, n), groups[0].samples, Members(groups[1..]));
      FilterAgrees(PastWarmup(samples, n), Outside(Cutoff(groups[0].samples, n)), groups[0].samples);
    }
  }

  lemma SameGroupMembers(s: seq<Sample>, t: seq<Sample>, key: Key, n: nat)
    requires multiset(s) == multiset(t)
    ensures Cutoff(GroupOf(s, key), n) == Cutoff(GroupOf(t, key), n)
  {
    forall x
      ensures x in GroupOf(s, key) <==> x in GroupOf(t, key)
    {
      FilterMember(SameGroup(key), s, x);
      FilterMember(SameGroup(key), t, x);
      assert x in s <==> x in multiset(s);
      assert x in t <==> x in multiset(t);
    }
    forall r
      ensures r in RepetitionsOf(GroupOf(s, key)) <==> r in RepetitionsOf(GroupOf(t, key))
    {
      RepetitionMember(GroupOf(s, key), r);
      RepetitionMember(GroupOf(t, key), r);
    }
    IntsAreOrdered();
    SameElementsSameSet(IntLeq, RepetitionsOf(GroupOf(s, key)), RepetitionsOf(GroupOf(t, key)));
  }

  /** What survives is exactly the samples past their own group's cutoff, each as often as it came. */
  lemma DiscardKeeps(samples: seq<Sample>, n: nat, x: Sample)
    ensures multiset(Discard(samples, n))[x] == if PastWarmup(samples, n)(x) then multiset(samples)[x] else 0
  {
    GroupsFile(samples);
    GroupsMembers(samples);
    KeptIsAFilter(Groups(samples), samples, n);
    FilterCounts(PastWarmup(samples, n), Members(Groups(samples)), x);
  }

  lemma SameCount(s: seq<Sample>, t: seq<Sample>, n: nat, x: Sample)
    requires multiset(s) == multiset(t)
    ensures multiset(Discard(s, n))[x] == multiset(Discard(t, n))[x]
  {
    DiscardKeeps(s, n, x);
    DiscardKeeps(t, n, x);
    SameGroupMembers(s, t, KeyOf(x), n);
  }

  /** Whatever order the samples arrive in, the same ones are kept. */
  lemma DiscardIgnoresOrder(s: seq<Sample>, t: seq<Sample>, n: nat)
    requires multiset(s) == multiset(t)
    ensures multiset(Discard(s, n)) == multiset(Discard(t, n))
  {
    forall x
      ensures multiset(Discard(s, n))[x] == multiset(Discard(t, n))[x]
    {
      SameCount(s, t, n, x);
    }
  }

  /** In each group the discard drops the `n` smallest repetitions, or all of them, and no others. */
  lemma DiscardDropsTheEarliest(samples: seq<Sample>, n: nat, x: Sample, y: Sample)
    requires x in samples && y in samples && KeyOf(x) == KeyOf(y)
    ensures x !in Discard(samples, n) && y in Discard(samples, n) ==> x.repetition < y.repetition
    ensures x in Discard(samples, n) && y.repetition >= x.repetition ==> y in Discard(samples, n)
    ensures |Cutoff(GroupOf(samples, KeyOf(x)), n)| <= n
    ensures |Cutoff(GroupOf(samples, KeyOf(x)), n)| < n ==> x !in Discard(samples, n)
  {
    var group := GroupOf(samples, KeyOf(x));
    var all := SortedSet(IntLeq, RepetitionsOf(group));
    IntsAreOrdered();
    SortedSetIsSorted(IntLeq, RepetitionsOf(group));
    forall z | z == x || z == y
      ensures z.repetition in all
      ensures z in Discard(samples, n) <==> z.repetition in Drop(all, n)
    {
      FilterMember(SameGroup(KeyOf(x)), samples, z);
      RepetitionMember(group, z.repetition);
      DiscardKeeps(samples, n, z);
      TakeOrDrop(all, n, z.repetition);
      assert z in Discard(samples, n) <==> multiset(Discard(samples, n))[z] > 0;
    }
    EarlierOrLater(all, n, x.repetition, y.repetition);
    EarlierOrLater(all, n, y.repetition, x.repetition);
  }

  lemma EarlierOrLater(all: seq<int>, n: nat, r: int, later: int)
    requires StrictlyAscending(IntLeq, all) && r in all && later in all
    ensures r !in Drop(all, n) && later in Drop(all, n) ==> r < later
  {
    TakeOrDrop(all, n, r);
    if r !in Drop(all, n) && later in Drop(all, n) {
      var i :| 0 <= i < |Take(all, n)| && Take(all, n)[i] == r;
      var j :| 0 <= j < |Drop(all, n)| && Drop(all, n)[j] == later;
      assert all[i] == r && all[n + j] == later;
      assert IntLeq(all[i], all[n + j]);
    }
  }

  // ---- the discard, sample by sample ----

  /** Timed by the same arm on the same scenario, in the same phase and batch. */
  predicate SameBatch(x: Sample, y: Sample) {
    x.arm == y.arm && x.scenario == y.scenario && x.phase == y.phase && x.batch == y.batch
  }

  /** The repetitions of its batch that came before the sample's. */
  function EarlierThan(samples: seq<Sample>, x: Sample): set<int> {
    set y | y in samples && SameBatch(x, y) && y.repetition < x.repetition :: y.repetition
  }

  function MembersOf(s: seq<int>): set<int> {
    set r | r in s
  }

  predicate Rising(s: seq<int>) {
    forall i, j :: 0 <= i < j < |s| ==> s[i] < s[j]
  }

  lemma {:induction false} RisingSize(s: seq<int>)
    requires Rising(s)
    ensures |MembersOf(s)| == |s|
    decreases |s|
  {
    if s != [] {
      var front, last := s[..|s| - 1], s[|s| - 1];
      RisingSize(front);
      assert s == front + [last];
      assert MembersOf(s) == MembersOf(front) + {last};
    }
  }

  lemma RepetitionsRise(group: seq<Sample>)
    ensures Rising(SortedSet(IntLeq, RepetitionsOf(group)))
    ensures forall r :: r in SortedSet(IntLeq, RepetitionsOf(group)) <==> r in RepetitionsOf(group)
  {
    IntsAreOrdered();
    SortedSetIsSorted(IntLeq, RepetitionsOf(group));
    var all := SortedSet(IntLeq, RepetitionsOf(group));
    forall i, j | 0 <= i < j < |all|
      ensures all[i] < all[j]
    {
      assert IntLeq(all[i], all[j]);
    }
  }

  lemma BeforeInRising(all: seq<int>, i: nat, r: int)
    requires Rising(all) && i < |all|
    ensures r in all[..i] <==> r in all && r < all[i]
  {
    if r in all && r < all[i] {
      var k :| 0 <= k < |all| && all[k] == r;
      assert k < i;
      assert all[..i][k] == r;
    }
  }

  lemma RepetitionOfBatch(samples: seq<Sample>, x: Sample, r: int)
    ensures r in RepetitionsOf(GroupOf(samples, KeyOf(x)))
      <==> exists y :: y in samples && SameBatch(x, y) && y.repetition == r
  {
    var group := GroupOf(samples, KeyOf(x));
    RepetitionMember(group, r);
    forall y
      ensures y in group <==> y in samples && SameBatch(x, y)
    {
      FilterMember(SameGroup(KeyOf(x)), samples, y);
    }
  }

  lemma EarlierAreBefore(samples: seq<Sample>, x: Sample, all: seq<int>, i: nat)
    requires all == SortedSet(IntLeq, RepetitionsOf(GroupOf(samples, KeyOf(x))))
    requires i < |all| && all[i] == x.repetition
    ensures EarlierThan(samples, x) == MembersOf(all[..i])
  {
    RepetitionsRise(GroupOf(samples, KeyOf(x)));
    forall r
      ensures r in EarlierThan(samples, x) <==> r in all[..i]
    {
      RepetitionOfBatch(samples, x, r);
      BeforeInRising(all, i, r);
    }
  }

  /** A sample is kept, as often as it came, exactly if at least `n` repetitions of its batch came before its own. */
  lemma KeptExactly(samples: seq<Sample>, n: nat, x: Sample)
    requires x in samples
    ensures multiset(Discard(samples, n))[x] == if |EarlierThan(samples, x)| >= n then multiset(samples)[x] else 0
  {
    var all := SortedSet(IntLeq, RepetitionsOf(GroupOf(samples, KeyOf(x))));
    RepetitionsRise(GroupOf(samples, KeyOf(x)));
    assert SameBatch(x, x);
    RepetitionOfBatch(samples, x, x.repetition);
    var i :| 0 <= i < |all| && all[i] == x.repetition;
    EarlierAreBefore(samples, x, all, i);
    RisingSize(all[..i]);
    DiscardKeeps(samples, n, x);
    InPrefix(all, n, i);
  }

  lemma InPrefix(all: seq<int>, n: nat, i: nat)
    requires Rising(all) && i < |all|
    ensures all[i] in Take(all, n) <==> i < n
  {
    if n < |all| {
      BeforeInRising(all, n, all[i]);
    }
  }
}
