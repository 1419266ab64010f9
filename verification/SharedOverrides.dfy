/** `gamma_ablation` of src/harness/authorizer/frozen_config.py in memory.  Gamma is copied; the override values
    are the document's own, so what is written below one of them is written into the document. */
module SharedOverrides {
  import opened Wrappers
  import opened FrozenConfig
  import opened ObjectGraph

  // ---- what reaches the document, read off the inputs ----

  /** After the first `k` overrides the `i`-th value still stands where it was put. */
  predicate Stands(overrides: seq<(Path, Doc)>, i: nat, k: nat)
    requires k <= |overrides|
  {
    i < k && forall m :: i < m < k ==> !(overrides[m].0 <= overrides[i].0)
  }

  /** The `k`-th override is written inside the `i`-th value. */
  predicate Lands(overrides: seq<(Path, Doc)>, i: nat, k: nat)
    requires Named(overrides) && k < |overrides|
  {
    Stands(overrides, i, k) && overrides[i].0 <= Parent(overrides[k].0)
  }

  /** Of the first `n` overrides those written inside the `i`-th value, with their paths from there. */
  function Inside(overrides: seq<(Path, Doc)>, i: nat, n: nat): (r: seq<(Path, Doc)>)
    requires Named(overrides) && n <= |overrides|
    ensures Named(r)
  {
    if n == 0 then []
    else
      Inside(overrides, i, n - 1)
      + (if Lands(overrides, i, n - 1) then [(overrides[n - 1].0[|overrides[i].0|..], overrides[n - 1].1)] else [])
  }

  /** What becomes of the document's `i`-th override value. */
  function Own(overrides: seq<(Path, Doc)>, i: nat, n: nat): Result<Doc, ConfigError>
    requires Named(overrides) && n <= |overrides| && i < |overrides|
  {
    PutAll(overrides[i].1, Inside(overrides, i, n))
  }

  lemma OwnStep(overrides: seq<(Path, Doc)>, i: nat, n: nat)
    requires Named(overrides) && n < |overrides| && i < |overrides|
    ensures !Lands(overrides, i, n) ==> Own(overrides, i, n + 1) == Own(overrides, i, n)
    ensures Lands(overrides, i, n) && Own(overrides, i, n).Success? ==>
      Own(overrides, i, n + 1) == Put(Own(overrides, i, n).value, overrides[n].0[|overrides[i].0|..], overrides[n].1)
  {
    var before := Inside(overrides, i, n);
    if Lands(overrides, i, n) {
      var landed := (overrides[n].0[|overrides[i].0|..], overrides[n].1);
      assert (before + [landed])[..|before|] == before;
    } else {
      assert before + [] == before;
    }
  }

  lemma {:induction false} NotYetWritten(overrides: seq<(Path, Doc)>, i: nat, n: nat)
    requires Named(overrides) && n <= |overrides| && n <= i < |overrides|
    ensures Own(overrides, i, n) == Success(overrides[i].1)
  {
    if n > 0 {
      NotYetWritten(overrides, i, n - 1);
      OwnStep(overrides, i, n - 1);
    }
  }

  // ---- the document and the copy ----

  /** What the function is given: gamma and the override values of a loaded document. */
  ghost predicate Loaded(h: Store, gammaRef: Ref, gamma: Doc, refs: seq<Ref>, overrides: seq<(Path, Doc)>) {
    && |refs| == |overrides| && Named(overrides)
    && Shows(h, gammaRef, gamma) && Tree(h, gammaRef)
    && (forall i :: 0 <= i < |refs| ==>
          Shows(h, refs[i], overrides[i].1) && Tree(h, refs[i]) && Apart(h, gammaRef, refs[i]))
    && (forall i, j :: 0 <= i < |refs| && 0 <= j < |refs| && i != j ==> Apart(h, refs[i], refs[j]))
  }

  ghost predicate RootHolds(h: Store, root: Ref, gamma: Doc, refs: seq<Ref>, overrides: seq<(Path, Doc)>, n: nat)
    requires |refs| == |overrides| && Named(overrides) && n <= |overrides|
  {
    && PutAll(gamma, overrides[..n]).Success?
    && Shows(h, root, PutAll(gamma, overrides[..n]).value) && Tree(h, root)
  }

  /** Where the `i`-th value is: in the copy, if it stands; nowhere in it otherwise. */
  ghost predicate Placed(h: Store, root: Ref, refs: seq<Ref>, overrides: seq<(Path, Doc)>, n: nat, i: nat)
    requires |refs| == |overrides| && n <= |overrides| && i < |overrides|
  {
    if Stands(overrides, i, n) then At(h, root, overrides[i].0) == Some(refs[i]) else Apart(h, root, refs[i])
  }

  ghost predicate OwnHolds(h: Store, refs: seq<Ref>, overrides: seq<(Path, Doc)>, n: nat, i: nat)
    requires |refs| == |overrides| && Named(overrides) && n <= |overrides| && i < |overrides|
  {
    && Own(overrides, i, n).Success?
    && Shows(h, refs[i], Own(overrides, i, n).value) && Tree(h, refs[i])
  }

  /** Values not written yet are apart from every other value. */
  ghost predicate Waiting(h: Store, refs: seq<Ref>, n: nat) {
    forall i, j :: 0 <= i < |refs| && n <= j < |refs| && i != j ==> Apart(h, refs[i], refs[j])
  }

  /** The state after `n` overrides. */
  ghost predicate Halfway(h: Store, root: Ref, gamma: Doc, refs: seq<Ref>, overrides: seq<(Path, Doc)>, n: nat) {
    && |refs| == |overrides| && Named(overrides) && n <= |overrides|
    && RootHolds(h, root, gamma, refs, overrides, n)
    && (forall i :: 0 <= i < |refs| ==> Placed(h, root, refs, overrides, n, i) && OwnHolds(h, refs, overrides, n, i))
    && Waiting(h, refs, n)
  }

  /** The `n`-th assignment is about to be made. */
  ghost predicate AboutTo(
    h: Store, root: Ref, gamma: Doc, refs: seq<Ref>, overrides: seq<(Path, Doc)>, n: nat, dict: Dict)
  {
    && Halfway(h, root, gamma, refs, overrides, n) && n < |overrides|
    && dict in h && LeadsTo(h, root, Parent(overrides[n].0), dict)
  }

  ghost function Next(h: Store, refs: seq<Ref>, overrides: seq<(Path, Doc)>, n: nat, dict: Dict): Store
    requires dict in h && |refs| == |overrides| && Named(overrides) && n < |overrides|
  {
    var path := overrides[n].0;
    Written(h, dict, path[|path| - 1], refs[n])
  }

  lemma ApartIsSymmetric(h: Store, r: Ref, s: Ref)
    requires Apart(h, r, s)
    ensures Apart(h, s, r)
  {
  }

  lemma PathIsParentAndKey(path: Path)
    requires path != []
    ensures Parent(path) + [path[|path| - 1]] == path
  {
  }

  lemma NextRoot(h: Store, root: Ref, gamma: Doc, refs: seq<Ref>, overrides: seq<(Path, Doc)>, n: nat, dict: Dict)
    requires AboutTo(h, root, gamma, refs, overrides, n, dict)
    ensures RootHolds(Next(h, refs, overrides, n, dict), root, gamma, refs, overrides, n + 1)
  {
    var path := overrides[n].0;
    assert Placed(h, root, refs, overrides, n, n) && OwnHolds(h, refs, overrides, n, n);
    NotYetWritten(overrides, n, n);
    PathIsParentAndKey(path);
    assert overrides[..n + 1][..n] == overrides[..n];
    var before := PutAll(gamma, overrides[..n]).value;
    HitShows(h, root, before, Parent(path), dict, path[|path| - 1], refs[n], overrides[n].1);
    HitStaysTree(h, root, Parent(path), dict, path[|path| - 1], refs[n]);
  }

  /** Inside a value it lands in, the assignment is made where its remaining path says. */
  lemma LandsAt(
    h: Store, root: Ref, gamma: Doc, refs: seq<Ref>, overrides: seq<(Path, Doc)>, n: nat, dict: Dict, i: nat)
    requires AboutTo(h, root, gamma, refs, overrides, n, dict) && i < |overrides| && Lands(overrides, i, n)
    ensures var rel := overrides[n].0[|overrides[i].0|..];
      rel != [] && LeadsTo(h, refs[i], Parent(rel), dict) && rel[|rel| - 1] == overrides[n].0[|overrides[n].0| - 1]
  {
    var path, at := overrides[n].0, overrides[i].0;
    var rel := path[|at|..];
    assert Placed(h, root, refs, overrides, n, i);
    assert Parent(path) == at + Parent(rel);
    AtSplit(h, root, at, Parent(rel));
  }

  /** A value that stands and lies on the way is written inside. */
  lemma NextOwnHit(
    h: Store, root: Ref, gamma: Doc, refs: seq<Ref>, overrides: seq<(Path, Doc)>, n: nat, dict: Dict, i: nat)
    requires AboutTo(h, root, gamma, refs, overrides, n, dict) && i < |overrides| && Lands(overrides, i, n)
    ensures OwnHolds(Next(h, refs, overrides, n, dict), refs, overrides, n + 1, i)
  {
    var rel := overrides[n].0[|overrides[i].0|..];
    assert OwnHolds(h, refs, overrides, n, i) && OwnHolds(h, refs, overrides, n, n) && Apart(h, refs[i], refs[n]);
    NotYetWritten(overrides, n, n);
    LandsAt(h, root, gamma, refs, overrides, n, dict, i);
    PathIsParentAndKey(rel);
    HitShows(h, refs[i], Own(overrides, i, n).value, Parent(rel), dict, rel[|rel| - 1], refs[n], overrides[n].1);
    HitStaysTree(h, refs[i], Parent(rel), dict, rel[|rel| - 1], refs[n]);
    OwnStep(overrides, i, n);
  }

  /** Any other value is out of reach of the assignment. */
  lemma NextOwnMissed(
    h: Store, root: Ref, gamma: Doc, refs: seq<Ref>, overrides: seq<(Path, Doc)>, n: nat, dict: Dict, i: nat)
    requires AboutTo(h, root, gamma, refs, overrides, n, dict) && i < |overrides| && !Lands(overrides, i, n)
    ensures Misses(h, refs[i], dict)
    ensures OwnHolds(Next(h, refs, overrides, n, dict), refs, overrides, n + 1, i)
  {
    var path, at := overrides[n].0, overrides[i].0;
    assert Placed(h, root, refs, overrides, n, i) && OwnHolds(h, refs, overrides, n, i);
    forall p: Path
      ensures !LeadsTo(h, refs[i], p, dict)
    {
      if Stands(overrides, i, n) {
        AtSplit(h, root, at, p);
        assert LeadsTo(h, refs[i], p, dict) ==> LeadsTo(h, root, at + p, dict);
        assert at <= at + p;
      }
    }
    MissedSeesTheSame(h, refs[i], dict, path[|path| - 1], refs[n]);
    SameViewSameDoc(h, Next(h, refs, overrides, n, dict), refs[i], Own(overrides, i, n).value);
    OwnStep(overrides, i, n);
  }

  lemma NextOwn(
    h: Store, root: Ref, gamma: Doc, refs: seq<Ref>, overrides: seq<(Path, Doc)>, n: nat, dict: Dict, i: nat)
    requires AboutTo(h, root, gamma, refs, overrides, n, dict) && i < |overrides|
    ensures OwnHolds(Next(h, refs, overrides, n, dict), refs, overrides, n + 1, i)
  {
    if Lands(overrides, i, n) {
      NextOwnHit(h, root, gamma, refs, overrides, n, dict, i);
    } else {
      NextOwnMissed(h, root, gamma, refs, overrides, n, dict, i);
    }
  }

  /** Values that wait or fell out stay apart from the copy. */
  lemma NextApart(
    h: Store, root: Ref, gamma: Doc, refs: seq<Ref>, overrides: seq<(Path, Doc)>, n: nat, dict: Dict, i: nat)
    requires AboutTo(h, root, gamma, refs, overrides, n, dict) && i < |overrides| && i != n
    requires Apart(h, root, refs[i])
    ensures Apart(Next(h, refs, overrides, n, dict), root, refs[i])
  {
    var path := overrides[n].0;
    assert Placed(h, root, refs, overrides, n, n) && Apart(h, refs[i], refs[n]);
    ApartIsSymmetric(h, refs[i], refs[n]);
    HitStaysApart(h, root, Parent(path), dict, path[|path| - 1], refs[n], refs[i]);
  }

  /** What the copy reaches after the assignment a value that stood at or below it does not. */
  lemma OutOfTheCopy(
    h: Store, root: Ref, gamma: Doc, refs: seq<Ref>, overrides: seq<(Path, Doc)>, n: nat, dict: Dict, i: nat, p: Path,
    q: Path, other: Dict)
    requires AboutTo(h, root, gamma, refs, overrides, n, dict) && Stands(overrides, i, n)
    requires overrides[n].0 <= overrides[i].0
    requires other in h && LeadsTo(Next(h, refs, overrides, n, dict), root, p, other)
    ensures !LeadsTo(h, refs[i], q, other)
  {
    var path, at := overrides[n].0, overrides[i].0;
    assert Placed(h, root, refs, overrides, n, i) && Placed(h, root, refs, overrides, n, n);
    assert Apart(h, refs[i], refs[n]);
    PathIsParentAndKey(path);
    assert Misses(h, refs[n], dict);
    HitDetaches(h, root, Parent(path), dict, path[|path| - 1], refs[n], at, refs[i], p, q, other);
  }

  /** A value that stood at or below the assigned path falls out of the copy. */
  lemma NextFallsOut(
    h: Store, root: Ref, gamma: Doc, refs: seq<Ref>, overrides: seq<(Path, Doc)>, n: nat, dict: Dict, i: nat)
    requires AboutTo(h, root, gamma, refs, overrides, n, dict) && Stands(overrides, i, n)
    requires overrides[n].0 <= overrides[i].0
    ensures Apart(Next(h, refs, overrides, n, dict), root, refs[i])
  {
    var path := overrides[n].0;
    var h' := Next(h, refs, overrides, n, dict);
    NextOwnMissed(h, root, gamma, refs, overrides, n, dict, i);
    MissedSeesTheSame(h, refs[i], dict, path[|path| - 1], refs[n]);
    forall p: Path, q: Path, other | other in h' && LeadsTo(h', root, p, other)
      ensures !LeadsTo(h', refs[i], q, other)
    {
      OutOfTheCopy(h, root, gamma, refs, overrides, n, dict, i, p, q, other);
      assert At(h', refs[i], q) == At(h, refs[i], q);
    }
  }

  lemma NextStands(
    h: Store, root: Ref, gamma: Doc, refs: seq<Ref>, overrides: seq<(Path, Doc)>, n: nat, dict: Dict, i: nat)
    requires AboutTo(h, root, gamma, refs, overrides, n, dict) && i < |overrides| && Stands(overrides, i, n + 1)
    ensures At(Next(h, refs, overrides, n, dict), root, overrides[i].0) == Some(refs[i])
  {
    var path, at := overrides[n].0, overrides[i].0;
    assert Placed(h, root, refs, overrides, n, i) && Placed(h, root, refs, overrides, n, n);
    PathIsParentAndKey(path);
    assert Misses(h, refs[n], dict);
    WriteHits(h, root, Parent(path), dict, path[|path| - 1], refs[n], at);
    if i == n {
      assert at[|path|..] == [];
    }
  }

  lemma NextPlaced(
    h: Store, root: Ref, gamma: Doc, refs: seq<Ref>, overrides: seq<(Path, Doc)>, n: nat, dict: Dict, i: nat)
    requires AboutTo(h, root, gamma, refs, overrides, n, dict) && i < |overrides|
    ensures Placed(Next(h, refs, overrides, n, dict), root, refs, overrides, n + 1, i)
  {
    assert Placed(h, root, refs, overrides, n, i);
    if Stands(overrides, i, n + 1) {
      NextStands(h, root, gamma, refs, overrides, n, dict, i);
    } else if Stands(overrides, i, n) {
      NextFallsOut(h, root, gamma, refs, overrides, n, dict, i);
    } else {
      NextApart(h, root, gamma, refs, overrides, n, dict, i);
    }
  }

  /** A value apart from `s` stays apart from it, if what is assigned is apart from it too. */
  lemma NextApartFrom(
    h: Store, root: Ref, gamma: Doc, refs: seq<Ref>, overrides: seq<(Path, Doc)>, n: nat, dict: Dict, i: nat, s: Ref)
    requires AboutTo(h, root, gamma, refs, overrides, n, dict) && i < |refs|
    requires Apart(h, refs[i], s) && Apart(h, refs[n], s) && Misses(h, s, dict)
    ensures Apart(Next(h, refs, overrides, n, dict), refs[i], s)
  {
    var path := overrides[n].0;
    if Lands(overrides, i, n) {
      LandsAt(h, root, gamma, refs, overrides, n, dict, i);
      var rel := path[|overrides[i].0|..];
      assert OwnHolds(h, refs, overrides, n, i) && Apart(h, refs[i], refs[n]);
      HitStaysApart(h, refs[i], Parent(rel), dict, rel[|rel| - 1], refs[n], s);
    } else {
      NextOwnMissed(h, root, gamma, refs, overrides, n, dict, i);
      MissedSeesTheSame(h, refs[i], dict, path[|path| - 1], refs[n]);
      MissedSeesTheSame(h, s, dict, path[|path| - 1], refs[n]);
      BothSeeTheSame(h, Next(h, refs, overrides, n, dict), refs[i], s);
    }
  }

  lemma NextWaiting(
    h: Store, root: Ref, gamma: Doc, refs: seq<Ref>, overrides: seq<(Path, Doc)>, n: nat, dict: Dict, i: nat, j: nat)
    requires AboutTo(h, root, gamma, refs, overrides, n, dict) && i < |refs| && n < j < |refs| && i != j
    ensures Apart(Next(h, refs, overrides, n, dict), refs[i], refs[j])
  {
    assert Apart(h, refs[i], refs[j]) && Apart(h, refs[n], refs[j]);
    NextOwnMissed(h, root, gamma, refs, overrides, n, dict, j);
    NextApartFrom(h, root, gamma, refs, overrides, n, dict, i, refs[j]);
  }

  /** One assignment further. */
  lemma NextHalfway(h: Store, root: Ref, gamma: Doc, refs: seq<Ref>, overrides: seq<(Path, Doc)>, n: nat, dict: Dict)
    requires AboutTo(h, root, gamma, refs, overrides, n, dict)
    ensures Halfway(Next(h, refs, overrides, n, dict), root, gamma, refs, overrides, n + 1)
  {
    NextRoot(h, root, gamma, refs, overrides, n, dict);
    var h', m := Next(h, refs, overrides, n, dict), n + 1;
    forall i | 0 <= i < |refs|
      ensures Placed(h', root, refs, overrides, m, i) && OwnHolds(h', refs, overrides, m, i)
    {
      NextPlaced(h, root, gamma, refs, overrides, n, dict, i);
      NextOwn(h, root, gamma, refs, overrides, n, dict, i);
    }
    forall i, j | 0 <= i < |refs| && n + 1 <= j < |refs| && i != j
      ensures Apart(Next(h, refs, overrides, n, dict), refs[i], refs[j])
    {
      NextWaiting(h, root, gamma, refs, overrides, n, dict, i, j);
    }
  }

  // ---- the function ----

  lemma StartsHalfway(
    before: Store, made: Store, h: Store, gammaRef: Ref, gamma: Doc, refs: seq<Ref>, overrides: seq<(Path, Doc)>,
    root: Ref)
    requires Loaded(before, gammaRef, gamma, refs, overrides)
    requires Extends(before, h) && Extends(made, h) && before.Keys !! made.Keys
    requires Shows(made, root, gamma) && Tree(made, root)
    ensures Halfway(h, root, gamma, refs, overrides, 0)
    ensures Shows(h, gammaRef, gamma) && Apart(h, root, gammaRef)
    ensures forall i :: 0 <= i < |refs| ==> Apart(h, refs[i], gammaRef)
  {
    assert overrides[..0] == [];
    ShowsInLarger(made, h, root, gamma);
    ShowsInLarger(before, h, gammaRef, gamma);
    ApartInLarger(made, before, h, root, gamma, gammaRef, gamma);
    forall i | 0 <= i < |refs|
      ensures Placed(h, root, refs, overrides, 0, i) && OwnHolds(h, refs, overrides, 0, i)
      ensures Apart(h, refs[i], gammaRef)
    {
      ShowsInLarger(before, h, refs[i], overrides[i].1);
      ApartInLarger(made, before, h, root, gamma, refs[i], overrides[i].1);
      StillApartInLarger(before, h, gammaRef, gamma, refs[i], overrides[i].1);
      ApartIsSymmetric(h, gammaRef, refs[i]);
    }
    forall i, j | 0 <= i < |refs| && 0 <= j < |refs| && i != j
      ensures Apart(h, refs[i], refs[j])
    {
      StillApartInLarger(before, h, refs[i], overrides[i].1, refs[j], overrides[j].1);
    }
  }

  /** Gamma itself is never reached. */
  ghost predicate GammaSafe(h: Store, root: Ref, gammaRef: Ref, gamma: Doc, refs: seq<Ref>) {
    Shows(h, gammaRef, gamma) && Apart(h, root, gammaRef) && forall i :: 0 <= i < |refs| ==> Apart(h, refs[i], gammaRef)
  }

  lemma NextGammaSafe(
    h: Store, root: Ref, gammaRef: Ref, gamma: Doc, refs: seq<Ref>, overrides: seq<(Path, Doc)>, n: nat, dict: Dict)
    requires AboutTo(h, root, gamma, refs, overrides, n, dict) && GammaSafe(h, root, gammaRef, gamma, refs)
    ensures GammaSafe(Next(h, refs, overrides, n, dict), root, gammaRef, gamma, refs)
  {
    var path := overrides[n].0;
    var h' := Next(h, refs, overrides, n, dict);
    assert Placed(h, root, refs, overrides, n, n) && Misses(h, gammaRef, dict);
    HitStaysApart(h, root, Parent(path), dict, path[|path| - 1], refs[n], gammaRef);
    SameViewSameDoc(h, h', gammaRef, gamma);
    forall i | 0 <= i < |refs|
      ensures Apart(h', refs[i], gammaRef)
    {
      NextApartFrom(h, root, gamma, refs, overrides, n, dict, i, gammaRef);
    }
  }

  /** The document still shows what it was loaded with. */
  ghost predicate Unchanged(h: Store, gammaRef: Ref, gamma: Doc, refs: seq<Ref>, overrides: seq<(Path, Doc)>)
    requires |refs| == |overrides|
  {
    Shows(h, gammaRef, gamma) && forall i :: 0 <= i < |refs| ==> Shows(h, refs[i], overrides[i].1)
  }

  /** What was written inside each override value, if anything, left it as it was. */
  predicate Harmless(overrides: seq<(Path, Doc)>, n: nat)
    requires Named(overrides) && n <= |overrides|
  {
    forall i :: 0 <= i < |overrides| ==> Own(overrides, i, n) == Success(overrides[i].1)
  }

  lemma UnchangedExactly(
    h: Store, root: Ref, gammaRef: Ref, gamma: Doc, refs: seq<Ref>, overrides: seq<(Path, Doc)>, n: nat)
    requires Halfway(h, root, gamma, refs, overrides, n) && GammaSafe(h, root, gammaRef, gamma, refs)
    ensures Unchanged(h, gammaRef, gamma, refs, overrides) <==> Harmless(overrides, n)
  {
    forall i | 0 <= i < |refs|
      ensures Shows(h, refs[i], overrides[i].1) <==> Own(overrides, i, n) == Success(overrides[i].1)
    {
      assert OwnHolds(h, refs, overrides, n, i);
      if Shows(h, refs[i], overrides[i].1) {
        ShowsOnce(h, refs[i], overrides[i].1, Own(overrides, i, n).value);
      }
    }
  }

  lemma HalfwayFoundParents(
    h: Store, root: Ref, gamma: Doc, refs: seq<Ref>, overrides: seq<(Path, Doc)>, n: nat)
    requires Halfway(h, root, gamma, refs, overrides, n)
    ensures forall j :: 0 <= j < n ==> FindsItsParent(gamma, overrides, j)
    ensures forall i :: 0 <= i < |refs| ==> OwnHolds(h, refs, overrides, n, i)
  {
    FirstMaterialize(gamma, overrides, n);
  }

  /** The loop over the override items.  `done` assignments are made: all of them, or those before the first
      that does not find its parent. */
  method ApplyOverrides(
    root: Ref, paths: seq<Path>, refs: seq<Ref>,
    ghost gammaRef: Ref, ghost gamma: Doc, ghost overrides: seq<(Path, Doc)>,
    ghost dicts: set<Dict>)
    returns (ok: bool, ghost done: nat)
    requires Halfway(Snapshot(dicts), root, gamma, refs, overrides, 0)
    requires GammaSafe(Snapshot(dicts), root, gammaRef, gamma, refs)
    requires paths == Paths(overrides)
    modifies dicts
    ensures Halfway(Snapshot(dicts), root, gamma, refs, overrides, done)
    ensures GammaSafe(Snapshot(dicts), root, gammaRef, gamma, refs)
    ensures if ok then done == |overrides| else done < |overrides| && !FindsItsParent(gamma, overrides, done)
  {
    for n := 0 to |paths|
      invariant Halfway(Snapshot(dicts), root, gamma, refs, overrides, n)
      invariant GammaSafe(Snapshot(dicts), root, gammaRef, gamma, refs)
    {
      ghost var h := Snapshot(dicts);
      ghost var d := PutAll(gamma, overrides[..n]).value;
      ghost var spot: Option<Dict>;
      ok, spot := Assign(root, paths[n], refs[n], d, dicts);
      KindAfter(gamma, overrides, n, Parent(overrides[n].0));
      if !ok {
        return false, n;
      }
      assert AboutTo(h, root, gamma, refs, overrides, n, spot.value);
      NextHalfway(h, root, gamma, refs, overrides, n, spot.value);
      NextGammaSafe(h, root, gammaRef, gamma, refs, overrides, n, spot.value);
    }
    return true, |paths|;
  }

  /** `gamma_ablation`.  The result, where there is one, is the one computed on values, in dicts of which only
      override values belong to the document.  As many overrides are written as come before the first that does
      not find its parent, and the document is unchanged exactly when what those wrote inside its override values
      left each of them as it was. */
  method GammaAblation(
    gammaRef: Ref, paths: seq<Path>, refs: seq<Ref>, ghost gamma: Doc, ghost overrides: seq<(Path, Doc)>,
    ghost dicts: set<Dict>)
    returns (r: Result<Ref, ConfigError>, ghost done: nat, ghost made: set<Dict>)
    requires Loaded(Snapshot(dicts), gammaRef, gamma, refs, overrides) && paths == Paths(overrides)
    modifies dicts
    ensures fresh(made) && done <= |overrides|
    ensures r.Success? <==> PutAll(gamma, overrides).Success?
    ensures r.Success? ==> done == |overrides| && Shows(Snapshot(dicts + made), r.value, PutAll(gamma, overrides).value)
    ensures r.Failure? ==> done < |overrides| && !FindsItsParent(gamma, overrides, done)
    ensures forall j :: 0 <= j < done ==> FindsItsParent(gamma, overrides, j)
    ensures Shows(Snapshot(dicts + made), gammaRef, gamma)
    ensures forall i :: 0 <= i < |refs| ==>
      Own(overrides, i, done).Success? && Shows(Snapshot(dicts + made), refs[i], Own(overrides, i, done).value)
    ensures Unchanged(Snapshot(dicts + made), gammaRef, gamma, refs, overrides) <==> Harmless(overrides, done)
  {
    ghost var h := Snapshot(dicts);
    var root;
    root, made := DeepCopy(gammaRef, gamma, dicts);
    StartsHalfway(h, Snapshot(made), Snapshot(dicts + made), gammaRef, gamma, refs, overrides, root);
    var ok;
    ok, done := ApplyOverrides(root, paths, refs, gammaRef, gamma, overrides, dicts + made);
    UnchangedExactly(Snapshot(dicts + made), root, gammaRef, gamma, refs, overrides, done);
    HalfwayFoundParents(Snapshot(dicts + made), root, gamma, refs, overrides, done);
    MaterializesExactlyWhen(gamma, overrides);
    assert overrides[..|overrides|] == overrides;
    forall i | 0 <= i < |refs|
      ensures Own(overrides, i, done).Success? && Shows(Snapshot(dicts + made), refs[i], Own(overrides, i, done).value)
    {
      assert OwnHolds(Snapshot(dicts + made), refs, overrides, done, i);
    }
    r := if ok then Success(root) else Failure(NoSuchPath);
  }

  // ---- exactly when the document stays as it was ----

  lemma {:induction false} NothingInside(overrides: seq<(Path, Doc)>, i: nat, n: nat)
    requires Named(overrides) && n <= |overrides| && i < |overrides|
    requires forall k :: 0 <= k < n ==> !Lands(overrides, i, k)
    ensures Inside(overrides, i, n) == []
  {
    if n > 0 {
      NothingInside(overrides, i, n - 1);
    }
  }

  /** Prefix-free overrides never touch the document. */
  lemma PrefixFreeIsHarmless(overrides: seq<(Path, Doc)>, n: nat)
    requires Named(overrides) && PrefixFree(overrides) && n <= |overrides|
    ensures Harmless(overrides, n)
  {
    forall i | 0 <= i < |overrides|
      ensures Own(overrides, i, n) == Success(overrides[i].1)
    {
      forall k | 0 <= k < n
        ensures !Lands(overrides, i, k)
      {
        OnTheWayToParent(overrides[i].0, overrides[k].0);
      }
      NothingInside(overrides, i, n);
    }
  }

  lemma {:induction false} ResolveSplit(d: Doc, p: Path, q: Path)
    ensures Resolve(d, p + q) == if Resolve(d, p).Some? then Resolve(Resolve(d, p).value, q) else None
    decreases |p|
  {
    if p == [] {
      assert p + q == q;
    } else {
      assert (p + q)[1..] == p[1..] + q;
      if d.Node? && p[0] in d.fields {
        ResolveSplit(d.fields[p[0]], p[1..], q);
      }
    }
  }

  /** The value already holds what is written. */
  predicate Repeats(value: Doc, written: seq<(Path, Doc)>) {
    forall k :: 0 <= k < |written| ==> Resolve(value, written[k].0) == Some(written[k].1)
  }

  lemma RepeatingChangesNothing(value: Doc, written: seq<(Path, Doc)>)
    requires Named(written) && PutAll(value, written).Success? && Repeats(value, written)
    ensures PutAll(value, written) == Success(value)
  {
    var all := |written|;
    assert written[..all] == written;
    forall q: Path
      ensures KindAt(PutAll(value, written).value, q) == KindAt(value, q)
    {
      KindAfter(value, written, all, q);
      var g := Governing(written, all, q);
      if g.Some? {
        var p := written[g.value].0;
        assert q == p + q[|p|..];
        ResolveSplit(value, p, q[|p|..]);
      }
    }
    SameKindsSameDoc(PutAll(value, written).value, value);
  }

  lemma UnchangedOnlyIfRepeated(value: Doc, written: seq<(Path, Doc)>)
    requires Named(written) && PrefixFree(written) && PutAll(value, written) == Success(value)
    ensures Repeats(value, written)
  {
    forall k | 0 <= k < |written|
      ensures Resolve(value, written[k].0) == Some(written[k].1)
    {
      var q := written[k].0;
      assert Governing(written, |written|, q) == Some(k);
      AblationIsGoverned(value, written, q);
      assert q[|q|..] == [];
    }
  }

  /** Where the overrides written inside an override value do not lie on one another, the value stays as it was
      exactly when each of them writes what is there already. */
  lemma HarmlessExactlyWhenRepeating(overrides: seq<(Path, Doc)>, i: nat, n: nat)
    requires Named(overrides) && n <= |overrides| && i < |overrides|
    requires Own(overrides, i, n).Success? && PrefixFree(Inside(overrides, i, n))
    ensures Own(overrides, i, n) == Success(overrides[i].1) <==> Repeats(overrides[i].1, Inside(overrides, i, n))
  {
    if Repeats(overrides[i].1, Inside(overrides, i, n)) {
      RepeatingChangesNothing(overrides[i].1, Inside(overrides, i, n));
    }
    if Own(overrides, i, n) == Success(overrides[i].1) {
      UnchangedOnlyIfRepeated(overrides[i].1, Inside(overrides, i, n));
    }
  }

  /** An override below an earlier one is written into the document itself, by an ablation that passes validation
      and materializes. */
  lemma NestedOverrideWritesIntoTheDocument(gamma: Doc, outer: string, inner: string, was: Doc, now: Doc)
    requires Resolve(gamma, [outer, inner]).Some? && was != now
    ensures var overrides := [([outer], Node(map[inner := was])), ([outer, inner], now)];
      && Accepted(gamma, overrides) && PutAll(gamma, overrides).Success?
      && Own(overrides, 0, 2) == Success(Node(map[inner := now])) && !Harmless(overrides, 2)
  {
    var value := Node(map[inner := was]);
    var overrides := [([outer], value), ([outer, inner], now)];
    NestedMaterializes(gamma, outer, inner, value, now);
    assert Parent([outer, inner]) == [outer] && [outer, inner][1..] == [inner];
    assert !Lands(overrides, 0, 0) && Lands(overrides, 0, 1);
    assert Inside(overrides, 0, 1) == Inside(overrides, 0, 0) + [];
    assert Inside(overrides, 0, 2) == [] + [([inner], now)];
    assert [([inner], now)][..0] == [];
    assert PutAll(value, [([inner], now)]) == Put(value, [inner], now);
    assert map[inner := was][inner := now] == map[inner := now];
    assert Node(map[inner := now]).fields[inner] != value.fields[inner];
  }

  lemma NestedMaterializes(gamma: Doc, outer: string, inner: string, value: Doc, now: Doc)
    requires Resolve(gamma, [outer, inner]).Some? && value.Node?
    ensures var overrides := [([outer], value), ([outer, inner], now)];
      Accepted(gamma, overrides) && PutAll(gamma, overrides).Success?
  {
    var overrides := [([outer], value), ([outer, inner], now)];
    assert [outer, inner][1..] == [inner] && [outer][1..] == [] && [inner][1..] == [];
    assert Resolve(gamma, [outer]) == Some(gamma.fields[outer]);
    assert Parent([outer, inner]) == [outer] && Parent([outer]) == [] && [outer][|[outer]|..] == [];
    assert Governing(overrides, 1, [outer]) == Some(0) && Governing(overrides, 0, []) == None;
    assert FindsItsParent(gamma, overrides, 0) && FindsItsParent(gamma, overrides, 1);
    MaterializesExactlyWhen(gamma, overrides);
  }
}
