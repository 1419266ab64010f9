/** The removal-only proof of tools/workplan/verify_prune.py, for one file: the opcode loop, the runs of
    removed lines, and their categories.  `difflib` is represented by what its opcodes promise. */
module Prune {
  import opened Wrappers
  import opened Sequences
  import opened Substitution

  const OLD_PATH_TOKEN := "docs/tasks"
  const NEW_PATH_TOKEN := "docs/workplan"

  datatype Tag = Equal | Delete | Replaced | Insert

  /** `old[a1..a2]` became `new[b1..b2]`. */
  datatype Opcode = Opcode(op: Tag, a1: nat, a2: nat, b1: nat, b2: nat)

  datatype Category = A | B | C

  function Reverted(line: string): string {
    Replace(line, NEW_PATH_TOKEN, OLD_PATH_TOKEN)
  }

  /** What `get_opcodes` promises: the opcodes tile both files in order, equal ranges hold equal lines, and
      a deletion takes nothing from the new file. */
  predicate Tiles(was: seq<string>, now: seq<string>, ops: seq<Opcode>, a: nat, b: nat)
    decreases |ops|
  {
    if ops == [] then a == |was| && b == |now|
    else
      var o := ops[0];
      && o.a1 == a && o.b1 == b && a <= o.a2 <= |was| && b <= o.b2 <= |now|
      && (o.op.Equal? ==> was[a..o.a2] == now[b..o.b2])
      && (o.op.Delete? ==> o.b2 == b)
      && Tiles(was, now, ops[1..], o.a2, o.b2)
  }

  /** An old line survives as a new one: as it was, or with its path repointed. */
  predicate Survives(oldLine: string, newLine: string) {
    newLine == oldLine || Reverted(newLine) == oldLine
  }

  /** Of the first `|keep|` lines, those marked to stay, in order. */
  function KeptLines(was: seq<string>, keep: seq<bool>): (r: seq<string>)
    requires |keep| <= |was|
    decreases |keep|
  {
    if keep == [] then []
    else
      var n := |keep| - 1;
      KeptLines(was, keep[..n]) + (if keep[n] then [was[n]] else [])
  }

  /** The others of them with their indices, in order. */
  function RemovedLines(was: seq<string>, keep: seq<bool>): (r: seq<(nat, string)>)
    requires |keep| <= |was|
    ensures |KeptLines(was, keep)| + |r| == |keep|
    decreases |keep|
  {
    if keep == [] then []
    else
      var n := |keep| - 1;
      RemovedLines(was, keep[..n]) + (if keep[n] then [] else [(n, was[n])])
  }

  ghost predicate SurvivesEach(lines: seq<string>, now: seq<string>) {
    |lines| == |now| && forall j :: 0 <= j < |now| ==> Survives(lines[j], now[j])
  }

  /** The new lines are the old ones so far without the removed ones, each remaining line surviving. */
  ghost predicate OnlyPruned(was: seq<string>, now: seq<string>, keep: seq<bool>, removed: seq<(nat, string)>) {
    |keep| <= |was| && removed == RemovedLines(was, keep) && SurvivesEach(KeptLines(was, keep), now)
  }

  function Marks(keep: bool, n: nat): (r: seq<bool>)
    ensures |r| == n
  {
    seq(n, i => keep)
  }

  function Lines(was: seq<string>, a: nat, b: nat): (r: seq<(nat, string)>)
    requires a <= b <= |was|
  {
    seq(b - a, i requires 0 <= i < b - a => (a + i, was[a + i]))
  }

  /** One more line, kept or removed. */
  lemma OneLine(was: seq<string>, keep: seq<bool>, mark: bool)
    requires |keep| < |was|
    ensures KeptLines(was, keep + [mark]) == KeptLines(was, keep) + (if mark then [was[|keep|]] else [])
    ensures RemovedLines(was, keep + [mark]) == RemovedLines(was, keep) + (if mark then [] else [(|keep|, was[|keep|])])
  {
    assert (keep + [mark])[..|keep|] == keep;
  }

  lemma MarkOne(keep: seq<bool>, mark: bool, n: nat)
    requires n > 0
    ensures keep + Marks(mark, n) == (keep + Marks(mark, n - 1)) + [mark]
    ensures |keep + Marks(mark, n - 1)| == |keep| + (n - 1)
  {
    assert Marks(mark, n) == Marks(mark, n - 1) + [mark];
  }

  lemma KeepOne(was: seq<string>, a: nat, last: nat, lines: seq<string>)
    requires a <= last < |was|
    ensures lines + was[a..last] + [was[last]] == lines + was[a..last + 1]
  {
    assert was[a..last + 1] == was[a..last] + [was[last]];
  }

  lemma RemoveOne(was: seq<string>, a: nat, last: nat, lines: seq<(nat, string)>)
    requires a <= last < |was|
    ensures lines + Lines(was, a, last) + [(last, was[last])] == lines + Lines(was, a, last + 1)
  {
    assert Lines(was, a, last + 1) == Lines(was, a, last) + [(last, was[last])];
  }

  lemma KeepNext(was: seq<string>, keep: seq<bool>, front: seq<bool>, whole: seq<bool>)
    requires |keep| <= |front| < |was| && whole == front + [true]
    requires KeptLines(was, front) == KeptLines(was, keep) + was[|keep|..|front|]
    ensures KeptLines(was, whole) == KeptLines(was, keep) + was[|keep|..|front| + 1]
    ensures RemovedLines(was, whole) == RemovedLines(was, front)
  {
    OneLine(was, front, true);
    KeepOne(was, |keep|, |front|, KeptLines(was, keep));
  }

  lemma RemoveNext(was: seq<string>, keep: seq<bool>, front: seq<bool>, whole: seq<bool>)
    requires |keep| <= |front| < |was| && whole == front + [false]
    requires RemovedLines(was, front) == RemovedLines(was, keep) + Lines(was, |keep|, |front|)
    ensures RemovedLines(was, whole) == RemovedLines(was, keep) + Lines(was, |keep|, |front| + 1)
    ensures KeptLines(was, whole) == KeptLines(was, front)
  {
    var n := |front|;
    var last: (nat, string) := (n, was[n]);
    OneLine(was, front, false);
    assert KeptLines(was, front) + [] == KeptLines(was, front);
    assert RemovedLines(was, whole) == RemovedLines(was, front) + [last];
    RemoveOne(was, |keep|, n, RemovedLines(was, keep));
  }

  lemma {:induction false} KeepRange(was: seq<string>, keep: seq<bool>, n: nat)
    requires |keep| + n <= |was|
    ensures KeptLines(was, keep + Marks(true, n)) == KeptLines(was, keep) + was[|keep|..|keep| + n]
    ensures RemovedLines(was, keep + Marks(true, n)) == RemovedLines(was, keep)
    decreases n
  {
    if n == 0 {
      assert keep + Marks(true, 0) == keep;
    } else {
      KeepRange(was, keep, n - 1);
      MarkOne(keep, true, n);
      KeepNext(was, keep, keep + Marks(true, n - 1), keep + Marks(true, n));
    }
  }

  lemma {:induction false} RemoveRange(was: seq<string>, keep: seq<bool>, n: nat)
    requires |keep| + n <= |was|
    ensures KeptLines(was, keep + Marks(false, n)) == KeptLines(was, keep)
    ensures RemovedLines(was, keep + Marks(false, n)) == RemovedLines(was, keep) + Lines(was, |keep|, |keep| + n)
    decreases n
  {
    if n == 0 {
      assert keep + Marks(false, 0) == keep;
    } else {
      RemoveRange(was, keep, n - 1);
      MarkOne(keep, false, n);
      RemoveNext(was, keep, keep + Marks(false, n - 1), keep + Marks(false, n));
    }
  }

  lemma SurvivesConcat(x: seq<string>, y: seq<string>, x': seq<string>, y': seq<string>)
    requires SurvivesEach(x, y) && SurvivesEach(x', y')
    ensures SurvivesEach(x + x', y + y')
  {
  }

  lemma OpcodeKeepsPruned(was: seq<string>, now: seq<string>, o: Opcode, removed: seq<(nat, string)>, keep: seq<bool>)
    requires |keep| == o.a1 <= o.a2 <= |was| && o.b1 <= o.b2 <= |now|
    requires OnlyPruned(was, now[..o.b1], keep, removed)
    requires if o.op.Delete? then o.b2 == o.b1 else SurvivesEach(was[o.a1..o.a2], now[o.b1..o.b2])
    ensures OnlyPruned(was, now[..o.b2], keep + Marks(!o.op.Delete?, o.a2 - o.a1),
                       if o.op.Delete? then removed + Lines(was, o.a1, o.a2) else removed)
  {
    if o.op.Delete? {
      RemoveRange(was, keep, o.a2 - o.a1);
    } else {
      KeepRange(was, keep, o.a2 - o.a1);
      SurvivesConcat(KeptLines(was, keep), now[..o.b1], was[o.a1..o.a2], now[o.b1..o.b2]);
      assert now[..o.b2] == now[..o.b1] + now[o.b1..o.b2];
    }
  }

  /** What may stand in a prune: an unchanged or deleted range, or one replaced line by line by lines that revert. */
  predicate Allowed(was: seq<string>, now: seq<string>, o: Opcode) {
    || o.op.Equal? || o.op.Delete?
    || (&& o.op.Replaced? && o.a1 <= o.a2 <= |was| && o.b1 <= o.b2 <= |now|
        && RevertsEach(was[o.a1..o.a2], now[o.b1..o.b2]))
  }

  predicate RevertsEach(was: seq<string>, now: seq<string>) {
    |was| == |now| && forall k :: 0 <= k < |was| ==> Reverted(now[k]) == was[k]
  }

  /** The deleted lines, with their indices. */
  function Deleted(was: seq<string>, ops: seq<Opcode>): (r: seq<(nat, string)>)
    decreases |ops|
  {
    if ops == [] then []
    else
      var o := ops[|ops| - 1];
      Deleted(was, ops[..|ops| - 1])
      + (if o.op.Delete? && o.a1 <= o.a2 <= |was| then Lines(was, o.a1, o.a2) else [])
  }

  /** One opcode: what it removes, and whether it may stand in a prune. */
  method ApplyOpcode(was: seq<string>, now: seq<string>, o: Opcode, removed: seq<(nat, string)>, ghost keep: seq<bool>)
    returns (removed': seq<(nat, string)>, repointed: nat, faults: nat, ghost keep': seq<bool>)
    requires |keep| == o.a1 <= o.a2 <= |was| && o.b1 <= o.b2 <= |now|
    requires o.op.Equal? ==> was[o.a1..o.a2] == now[o.b1..o.b2]
    requires o.op.Delete? ==> o.b2 == o.b1
    ensures faults == 0 && OnlyPruned(was, now[..o.b1], keep, removed) ==> OnlyPruned(was, now[..o.b2], keep', removed')
    ensures faults == 0 <==> Allowed(was, now, o)
    ensures removed' == removed + (if o.op.Delete? then Lines(was, o.a1, o.a2) else [])
    ensures |keep'| == o.a2
  {
    removed', repointed, faults := removed, 0, 0;
    keep' := keep + Marks(!o.op.Delete?, o.a2 - o.a1);
    if o.op.Equal? {
      assert SurvivesEach(was[o.a1..o.a2], now[o.b1..o.b2]);
    } else if o.op.Delete? {
      removed' := removed + Lines(was, o.a1, o.a2);
    } else if o.op.Replaced? && o.a2 - o.a1 == o.b2 - o.b1 {
      repointed, faults := CheckReplaced(was[o.a1..o.a2], now[o.b1..o.b2]);
    } else {
      faults := 1;
    }
    if faults == 0 && OnlyPruned(was, now[..o.b1], keep, removed) {
      OpcodeKeepsPruned(was, now, o, removed, keep);
    }
  }

  predicate AllAllowed(was: seq<string>, now: seq<string>, ops: seq<Opcode>) {
    forall n :: 0 <= n < |ops| ==> Allowed(was, now, ops[n])
  }

  lemma AllowedStep(was: seq<string>, now: seq<string>, front: seq<Opcode>, o: Opcode)
    ensures AllAllowed(was, now, front + [o]) <==> AllAllowed(was, now, front) && Allowed(was, now, o)
  {
    var all := front + [o];
    assert all[|front|] == o;
    assert forall n :: 0 <= n < |front| ==> all[n] == front[n];
  }

  lemma DeletedStep(was: seq<string>, front: seq<Opcode>, o: Opcode)
    ensures Deleted(was, front + [o]) == Deleted(was, front)
      + (if o.op.Delete? && o.a1 <= o.a2 <= |was| then Lines(was, o.a1, o.a2) else [])
  {
    assert (front + [o])[..|front|] == front;
  }

  /** What the opcodes so far come to. */
  ghost predicate SoFar(
    was: seq<string>, now: seq<string>, ops: seq<Opcode>, failures: nat, removed: seq<(nat, string)>)
  {
    (failures == 0 <==> AllAllowed(was, now, ops)) && removed == Deleted(was, ops)
  }

  lemma OneMoreOpcode(
    was: seq<string>, now: seq<string>, upTo: seq<Opcode>, front: seq<Opcode>, o: Opcode,
    failures: nat, faults: nat, removed: seq<(nat, string)>)
    requires upTo == front + [o] && o.a1 <= o.a2 <= |was|
    requires SoFar(was, now, front, failures, removed) && (faults == 0 <==> Allowed(was, now, o))
    ensures SoFar(was, now, upTo, failures + faults,
                  removed + (if o.op.Delete? then Lines(was, o.a1, o.a2) else []))
  {
    AllowedStep(was, now, front, o);
    DeletedStep(was, front, o);
  }

  /** The opcode loop.  A file it finds no fault with was only pruned and repointed. */
  method CheckOpcodes(was: seq<string>, now: seq<string>, ops: seq<Opcode>)
    returns (removed: seq<(nat, string)>, repointed: nat, failures: nat, ghost keep: seq<bool>)
    requires Tiles(was, now, ops, 0, 0)
    ensures |keep| == |was|
    ensures failures == 0 ==> OnlyPruned(was, now, keep, removed)
    ensures failures == 0 <==> AllAllowed(was, now, ops)
    ensures removed == Deleted(was, ops)
  {
    removed, repointed, failures, keep := [], 0, 0, [];
    ghost var b: nat := 0;
    assert ops[0..] == ops;
    for n := 0 to |ops|
      invariant |keep| <= |was| && b <= |now| && Tiles(was, now, ops[n..], |keep|, b)
      invariant failures == 0 ==> OnlyPruned(was, now[..b], keep, removed)
      invariant SoFar(was, now, ops[..n], failures, removed)
    {
      assert ops[n..][0] == ops[n] && ops[n..][1..] == ops[n + 1..];
      var changed, faults;
      ghost var before := removed;
      removed, changed, faults, keep := ApplyOpcode(was, now, ops[n], removed, keep);
      OneMoreOpcode(was, now, ops[..n + 1], ops[..n], ops[n], failures, faults, before);
      repointed := repointed + changed;
      failures := failures + faults;
      b := ops[n].b2;
    }
    assert now[..b] == now && ops[..|ops|] == ops;
  }

  /** Line by line: each replaced line must revert to the old one. */
  method CheckReplaced(was: seq<string>, now: seq<string>) returns (repointed: nat, failures: nat)
    requires |was| == |now|
    ensures repointed + failures == |was|
    ensures failures == 0 <==> forall k :: 0 <= k < |was| ==> Reverted(now[k]) == was[k]
    ensures failures == 0 ==> SurvivesEach(was, now)
  {
    repointed, failures := 0, 0;
    for k := 0 to |was|
      invariant repointed + failures == k
      invariant failures == 0 <==> forall m :: 0 <= m < k ==> Reverted(now[m]) == was[m]
    {
      if Reverted(now[k]) == was[k] {
        repointed := repointed + 1;
      } else {
        failures := failures + 1;
      }
    }
  }

  // ---- runs and categories ----

  predicate Contiguous(run: seq<(nat, string)>) {
    run != [] && forall i :: 0 < i < |run| ==> run[i].0 == run[i - 1].0 + 1
  }

  /** Maximal: consecutive runs do not touch. */
  predicate Apart(run: seq<(nat, string)>, next: seq<(nat, string)>) {
    run != [] && next != [] && next[0].0 != run[|run| - 1].0 + 1
  }

  ghost predicate Maximal(runs: seq<seq<(nat, string)>>) {
    && (forall i :: 0 <= i < |runs| ==> Contiguous(runs[i]))
    && (forall i :: 0 < i < |runs| ==> Apart(runs[i - 1], runs[i]))
  }

  method CloseRun(runs: seq<seq<(nat, string)>>, run: seq<(nat, string)>) returns (r: seq<seq<(nat, string)>>)
    requires Maximal(runs) && Contiguous(run) && (runs != [] ==> Apart(runs[|runs| - 1], run))
    ensures Maximal(r) && Flatten(r) == Flatten(runs) + run && r[..|r| - 1] == runs && r[|r| - 1] == run
  {
    FlattenAppend(runs, run);
    r := runs + [run];
  }

  /** The runs closed so far and the one being built. */
  ghost predicate Splitting(runs: seq<seq<(nat, string)>>, run: seq<(nat, string)>) {
    && Maximal(runs)
    && (run == [] ==> runs == [])
    && (run != [] ==> Contiguous(run) && (runs != [] ==> Apart(runs[|runs| - 1], run)))
  }

  method NextLine(runs: seq<seq<(nat, string)>>, run: seq<(nat, string)>, line: (nat, string))
    returns (runs': seq<seq<(nat, string)>>, run': seq<(nat, string)>)
    requires Splitting(runs, run)
    ensures Splitting(runs', run') && run' != []
    ensures Flatten(runs') + run' == Flatten(runs) + run + [line]
  {
    runs', run' := runs, run;
    if run != [] && line.0 != run[|run| - 1].0 + 1 {
      runs' := CloseRun(runs, run);
      run' := [];
    }
    run' := run' + [line];
  }

  /** The maximal contiguous runs of the removed lines. */
  method SplitRuns(removed: seq<(nat, string)>) returns (runs: seq<seq<(nat, string)>>)
    ensures Flatten(runs) == removed
    ensures Maximal(runs)
  {
    runs := [];
    var run: seq<(nat, string)> := [];
    for n := 0 to |removed|
      invariant Flatten(runs) + run == removed[..n]
      invariant Splitting(runs, run)
    {
      runs, run := NextLine(runs, run, removed[n]);
    }
    assert removed[..|removed|] == removed;
    if run != [] {
      runs := CloseRun(runs, run);
    }
  }

  /** The categories of the lines of a run that classify on their own. */
  function Categories(classify: string -> Option<Category>, run: seq<(nat, string)>): set<Category> {
    set l | l in run && classify(l.1).Some? :: classify(l.1).value
  }

  /** A line's own category, or for a blank line or rule the only category its run has. */
  function CategoryOf(
    classify: string -> Option<Category>, structural: string -> bool, categories: set<Category>, text: string)
    : Option<Category>
  {
    if classify(text).Some? then classify(text)
    else if structural(text) && |categories| == 1 then
      SingletonHasOne(categories);
      var only :| only in categories;
      Some(only)
    else None
  }

  lemma SingletonHasOne(s: set<Category>)
    requires |s| == 1
    ensures exists x :: x in s && forall y :: y in s ==> y == x
  {
    var x :| x in s;
    assert |s - {x}| == 0;
    assert s == s - {x} + {x};
  }

  predicate Categorized(classify: string -> Option<Category>, structural: string -> bool, run: seq<(nat, string)>) {
    forall line :: line in run ==> CategoryOf(classify, structural, Categories(classify, run), line.1).Some?
  }

  predicate RunsCategorized(
    classify: string -> Option<Category>, structural: string -> bool, runs: seq<seq<(nat, string)>>)
  {
    forall run :: run in runs ==> Categorized(classify, structural, run)
  }

  /** The lines of a run that fall in a category, or in none. */
  function FallsIn(classify: string -> Option<Category>, structural: string -> bool, categories: set<Category>,
                   category: Option<Category>): ((nat, string)) -> bool {
    (line: (nat, string)) => CategoryOf(classify, structural, categories, line.1) == category
  }

  function LinesIn(classify: string -> Option<Category>, structural: string -> bool, run: seq<(nat, string)>,
                   category: Option<Category>): (r: seq<(nat, string)>) {
    Filter(FallsIn(classify, structural, Categories(classify, run), category), run)
  }

  function AllLinesIn(classify: string -> Option<Category>, structural: string -> bool, runs: seq<seq<(nat, string)>>,
                      category: Option<Category>): (r: seq<(nat, string)>)
    decreases |runs|
  {
    if runs == [] then []
    else
      var n := |runs| - 1;
      AllLinesIn(classify, structural, runs[..n], category) + LinesIn(classify, structural, runs[n], category)
  }

  lemma AllLinesAppend(classify: string -> Option<Category>, structural: string -> bool, runs: seq<seq<(nat, string)>>,
                       last: seq<(nat, string)>, category: Option<Category>)
    ensures AllLinesIn(classify, structural, runs + [last], category)
      == AllLinesIn(classify, structural, runs, category) + LinesIn(classify, structural, last, category)
  {
    assert (runs + [last])[..|runs|] == runs;
  }

  /** Each removed line stands in its own category's list and in no other, as often as it was removed. */
  lemma {:induction false} CategoriesPartition(
    classify: string -> Option<Category>, structural: string -> bool, runs: seq<seq<(nat, string)>>)
    ensures multiset(Flatten(runs))
      == multiset(AllLinesIn(classify, structural, runs, Some(A)))
       + multiset(AllLinesIn(classify, structural, runs, Some(B)))
       + multiset(AllLinesIn(classify, structural, runs, Some(C)))
       + multiset(AllLinesIn(classify, structural, runs, None))
    decreases |runs|
  {
    if runs != [] {
      var front, last := runs[..|runs| - 1], runs[|runs| - 1];
      assert runs == front + [last];
      CategoriesPartition(classify, structural, front);
      FlattenAppend(front, last);
      RunPartitions(classify, structural, Categories(classify, last), last);
    }
  }

  lemma RunPartitions(
    classify: string -> Option<Category>, structural: string -> bool, categories: set<Category>,
    run: seq<(nat, string)>)
    ensures multiset(run)
      == multiset(Filter(FallsIn(classify, structural, categories, Some(A)), run))
       + multiset(Filter(FallsIn(classify, structural, categories, Some(B)), run))
       + multiset(Filter(FallsIn(classify, structural, categories, Some(C)), run))
       + multiset(Filter(FallsIn(classify, structural, categories, None), run))
  {
    var a, b := FallsIn(classify, structural, categories, Some(A)), FallsIn(classify, structural, categories, Some(B));
    var c, none := FallsIn(classify, structural, categories, Some(C)), FallsIn(classify, structural, categories, None);
    forall line
      ensures OneOf(a, b, c, none, line)
    {
      match CategoryOf(classify, structural, categories, line.1)
      case None =>
      case Some(A) =>
      case Some(B) =>
      case Some(C) =>
    }
    FourWays(a, b, c, none, run);
  }

  predicate OneOf<T>(p: T -> bool, q: T -> bool, r: T -> bool, s: T -> bool, x: T) {
    |(if p(x) then [x] else []) + (if q(x) then [x] else [])
     + (if r(x) then [x] else []) + (if s(x) then [x] else [])| == 1
  }

  lemma FilterHead<T>(p: T -> bool, x: T, rest: seq<T>)
    ensures multiset(Filter(p, [x] + rest)) == multiset(Filter(p, rest)) + (if p(x) then multiset{x} else multiset{})
  {
    assert ([x] + rest)[1..] == rest;
  }

  lemma {:induction false} FourWays<T(!new)>(p: T -> bool, q: T -> bool, r: T -> bool, s: T -> bool, xs: seq<T>)
    requires forall x :: OneOf(p, q, r, s, x)
    ensures multiset(xs)
      == multiset(Filter(p, xs)) + multiset(Filter(q, xs)) + multiset(Filter(r, xs)) + multiset(Filter(s, xs))
  {
    if xs != [] {
      var x, rest := xs[0], xs[1..];
      FourWays(p, q, r, s, rest);
      assert xs == [x] + rest;
      FilterHead(p, x, rest);
      FilterHead(q, x, rest);
      FilterHead(r, x, rest);
      FilterHead(s, x, rest);
      assert OneOf(p, q, r, s, x);
    }
  }

  /** In category order, with what falls in none last. */
  datatype Totals = Totals(a: nat, b: nat, c: nat, uncategorized: nat)

  function Of(t: Totals, category: Option<Category>): nat {
    match category
    case None => t.uncategorized
    case Some(A) => t.a
    case Some(B) => t.b
    case Some(C) => t.c
  }

  function Sum(t: Totals): nat {
    t.a + t.b + t.c + t.uncategorized
  }

  function Counted(t: Totals, category: Option<Category>): Totals {
    match category
    case None => t.(uncategorized := t.uncategorized + 1)
    case Some(A) => t.(a := t.a + 1)
    case Some(B) => t.(b := t.b + 1)
    case Some(C) => t.(c := t.c + 1)
  }

  ghost predicate GrownBy(start: Totals, totals: Totals, lines: Option<Category> -> seq<(nat, string)>) {
    forall category :: Of(totals, category) == Of(start, category) + |lines(category)|
  }

  lemma CountedGrows(
    classify: string -> Option<Category>, structural: string -> bool, categories: set<Category>,
    front: seq<(nat, string)>, line: (nat, string), start: Totals, totals: Totals)
    requires GrownBy(start, totals, c => Filter(FallsIn(classify, structural, categories, c), front))
    ensures GrownBy(start, Counted(totals, CategoryOf(classify, structural, categories, line.1)),
                    c => Filter(FallsIn(classify, structural, categories, c), front + [line]))
  {
    var own := CategoryOf(classify, structural, categories, line.1);
    forall category
      ensures Of(Counted(totals, own), category)
        == Of(start, category) + |Filter(FallsIn(classify, structural, categories, category), front + [line])|
    {
      FilterAppend(FallsIn(classify, structural, categories, category), front, line);
      CountedOf(totals, own, category);
    }
  }

  lemma CountedOf(totals: Totals, own: Option<Category>, category: Option<Category>)
    ensures Of(Counted(totals, own), category) == Of(totals, category) + (if category == own then 1 else 0)
  {
  }

  /** The totals run on from file to file, so each step adds to what it is given. */
  method CategorizeRun(
    classify: string -> Option<Category>, structural: string -> bool, run: seq<(nat, string)>, start: Totals)
    returns (totals: Totals)
    ensures GrownBy(start, totals, c => LinesIn(classify, structural, run, c))
  {
    totals := start;
    var categories := Categories(classify, run);
    for n := 0 to |run|
      invariant GrownBy(start, totals, c => Filter(FallsIn(classify, structural, categories, c), run[..n]))
    {
      assert run[..n + 1] == run[..n] + [run[n]];
      CountedGrows(classify, structural, categories, run[..n], run[n], start, totals);
      totals := Counted(totals, CategoryOf(classify, structural, categories, run[n].1));
    }
    assert run[..|run|] == run;
  }

  lemma GrowsOn(classify: string -> Option<Category>, structural: string -> bool, front: seq<seq<(nat, string)>>,
                last: seq<(nat, string)>, start: Totals, before: Totals, totals: Totals)
    requires GrownBy(start, before, c => AllLinesIn(classify, structural, front, c))
    requires GrownBy(before, totals, c => LinesIn(classify, structural, last, c))
    ensures GrownBy(start, totals, c => AllLinesIn(classify, structural, front + [last], c))
  {
    forall category
      ensures Of(totals, category) == Of(start, category) + |AllLinesIn(classify, structural, front + [last], category)|
    {
      AllLinesAppend(classify, structural, front, last, category);
      assert Of(before, category) == Of(start, category) + |AllLinesIn(classify, structural, front, category)|;
      assert Of(totals, category) == Of(before, category) + |LinesIn(classify, structural, last, category)|;
    }
  }

  /** Each total grows by the number of removed lines of its own category, wherever they were removed. */
  method Categorize(
    classify: string -> Option<Category>, structural: string -> bool, runs: seq<seq<(nat, string)>>, start: Totals)
    returns (totals: Totals)
    ensures GrownBy(start, totals, c => AllLinesIn(classify, structural, runs, c))
  {
    totals := start;
    for n := 0 to |runs|
      invariant GrownBy(start, totals, c => AllLinesIn(classify, structural, runs[..n], c))
    {
      assert runs[..n + 1] == runs[..n] + [runs[n]];
      var before := totals;
      totals := CategorizeRun(classify, structural, runs[n], totals);
      GrowsOn(classify, structural, runs[..n], runs[n], start, before, totals);
    }
    assert runs[..|runs|] == runs;
  }

  /** Together the totals grow by the number of removed lines. */
  lemma TotalsAddUp(classify: string -> Option<Category>, structural: string -> bool, runs: seq<seq<(nat, string)>>,
                    start: Totals, totals: Totals)
    requires GrownBy(start, totals, c => AllLinesIn(classify, structural, runs, c))
    ensures Sum(totals) == Sum(start) + |Flatten(runs)|
  {
    CategoriesPartition(classify, structural, runs);
    SizesAddUp(Flatten(runs),
      AllLinesIn(classify, structural, runs, Some(A)), AllLinesIn(classify, structural, runs, Some(B)),
      AllLinesIn(classify, structural, runs, Some(C)), AllLinesIn(classify, structural, runs, None));
    assert Of(totals, Some(A)) == totals.a && Of(totals, Some(B)) == totals.b && Of(totals, Some(C)) == totals.c;
    assert Of(totals, None) == totals.uncategorized;
  }

  lemma SizesAddUp(
    whole: seq<(nat, string)>, a: seq<(nat, string)>, b: seq<(nat, string)>, c: seq<(nat, string)>,
    d: seq<(nat, string)>)
    requires multiset(whole) == multiset(a) + multiset(b) + multiset(c) + multiset(d)
    ensures |whole| == |a| + |b| + |c| + |d|
  {
    assert |multiset(whole)| == |whole|;
  }

  /** Nothing is left over exactly when every line of every run falls in a category. */
  lemma {:induction false} NothingLeftOver(
    classify: string -> Option<Category>, structural: string -> bool, runs: seq<seq<(nat, string)>>)
    ensures AllLinesIn(classify, structural, runs, None) == [] <==> RunsCategorized(classify, structural, runs)
    decreases |runs|
  {
    if runs != [] {
      var front, last := runs[..|runs| - 1], runs[|runs| - 1];
      NothingLeftOver(classify, structural, front);
      assert runs == front + [last];
      NothingLeftInRun(classify, structural, last);
      AllLinesAppend(classify, structural, front, last, None);
      RunsCategorizedAppend(classify, structural, front, last);
    }
  }

  lemma NothingLeftInRun(classify: string -> Option<Category>, structural: string -> bool, run: seq<(nat, string)>)
    ensures LinesIn(classify, structural, run, None) == [] <==> Categorized(classify, structural, run)
  {
    NoneLeft(FallsIn(classify, structural, Categories(classify, run), None), run);
  }

  lemma RunsCategorizedAppend(classify: string -> Option<Category>, structural: string -> bool,
                              front: seq<seq<(nat, string)>>, last: seq<(nat, string)>)
    ensures RunsCategorized(classify, structural, front + [last])
      <==> RunsCategorized(classify, structural, front) && Categorized(classify, structural, last)
  {
    assert forall run :: run in front + [last] <==> run in front || run == last;
  }

  lemma NoneLeft(p: ((nat, string)) -> bool, run: seq<(nat, string)>)
    ensures Filter(p, run) == [] <==> forall line :: line in run ==> !p(line)
  {
    if forall line :: line in run ==> !p(line) {
      FilterNone(p, run);
    } else {
      var line :| line in run && p(line);
      FilterMember(p, run, line);
    }
  }

  /** One file, end to end: no failure means the file lost whole lines only, every lost line falls in a
      category, and the totals count them all. */
  method CheckFile(classify: string -> Option<Category>, structural: string -> bool,
                   was: seq<string>, now: seq<string>, ops: seq<Opcode>, start: Totals)
    returns (failures: nat, totals: Totals, removed: seq<(nat, string)>, ghost keep: seq<bool>)
    requires Tiles(was, now, ops, 0, 0)
    ensures Sum(totals) == Sum(start) + |removed|
    ensures exists runs ::
      && Flatten(runs) == removed && Maximal(runs)
      && GrownBy(start, totals, c => AllLinesIn(classify, structural, runs, c))
    ensures failures == 0 ==> |keep| == |was| && OnlyPruned(was, now, keep, removed)
    ensures failures == 0 ==>
      exists runs :: Flatten(runs) == removed && Maximal(runs) && RunsCategorized(classify, structural, runs)
    ensures failures == 0 ==> totals.uncategorized == start.uncategorized && |was| == |now| + (Sum(totals) - Sum(start))
    ensures removed == Deleted(was, ops)
    ensures failures == 0 <==> AllAllowed(was, now, ops) && totals.uncategorized == start.uncategorized
  {
    var repointed: nat;
    removed, repointed, failures, keep := CheckOpcodes(was, now, ops);
    var runs := SplitRuns(removed);
    totals := Categorize(classify, structural, runs, start);
    TotalsAddUp(classify, structural, runs, start, totals);
    NothingLeftOver(classify, structural, runs);
    assert Of(totals, None) == totals.uncategorized && Of(start, None) == start.uncategorized;
    failures := failures + (totals.uncategorized - start.uncategorized);
  }

  // ---- survival and categories, spelt out ----

  lemma SurvivesExactly(oldLine: string, newLine: string)
    ensures Survives(oldLine, newLine) <==>
      newLine == oldLine || Replace(newLine, "docs/workplan", "docs/tasks") == oldLine
  {
  }

  /** A removed line falls in its own category, or if it has none and is blank or a rule, in the one category that all
      the categorized lines of its run share. */
  lemma CategoryExactly(classify: string -> Option<Category>, structural: string -> bool, run: seq<(nat, string)>,
                        text: string, category: Category)
    ensures CategoryOf(classify, structural, Categories(classify, run), text) == Some(category) <==>
      || classify(text) == Some(category)
      || (&& classify(text) == None && structural(text)
          && (exists line :: line in run && classify(line.1) == Some(category))
          && (forall line :: line in run ==> classify(line.1) == None || classify(line.1) == Some(category)))
  {
    var categories := Categories(classify, run);
    forall c
      ensures c in categories <==> exists line :: line in run && classify(line.1) == Some(c)
    {
      if c in categories {
        var line :| line in run && classify(line.1).Some? && classify(line.1).value == c;
      }
    }
    if |categories| == 1 {
      SingletonHasOne(categories);
    }
    if category in categories && forall c :: c in categories ==> c == category {
      assert categories == {category};
    }
  }

  lemma AllowedExactly(was: seq<string>, now: seq<string>, o: Opcode)
    requires o.a1 <= o.a2 <= |was| && o.b1 <= o.b2 <= |now|
    ensures Allowed(was, now, o) <==>
      || o.op == Equal || o.op == Delete
      || (&& o.op == Replaced && o.a2 - o.a1 == o.b2 - o.b1
          && forall i, j :: o.a1 <= i < o.a2 && o.b1 <= j < o.b2 && i - o.a1 == j - o.b1 ==>
            Replace(now[j], "docs/workplan", "docs/tasks") == was[i])
  {
    var a, b := was[o.a1..o.a2], now[o.b1..o.b2];
    forall k | 0 <= k < |a| && k < |b|
      ensures a[k] == was[o.a1 + k] && b[k] == now[o.b1 + k]
    {
    }
  }
}
