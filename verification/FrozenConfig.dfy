/** Materializing a matched ablation of the frozen configuration by path overrides
    (src/harness/authorizer/frozen_config.py). */
module FrozenConfig {
  import opened Wrappers

  /** A JSON document: an object, or anything that is not one. */
  datatype Doc = Leaf(value: int) | Node(fields: map<string, Doc>)

  type Path = seq<string>

  datatype ConfigError = NotDerivedFromGamma | UndeclaredDifference | NoSuchPath | NotAnObject

  datatype Ablation = Ablation(derivedFrom: string, differsIn: seq<Path>, overrides: seq<(Path, Doc)>)

  function Resolve(node: Doc, path: Path): (r: Option<Doc>)
    decreases |path|
  {
    if path == [] then Some(node)
    else if !node.Node? || path[0] !in node.fields then None
    else Resolve(node.fields[path[0]], path[1..])
  }

  /** Walk to the parent and assign the last key. */
  function Put(node: Doc, path: Path, value: Doc): (r: Result<Doc, ConfigError>)
    requires path != []
    decreases |path|
  {
    if !node.Node? then Failure(NotAnObject)
    else if |path| == 1 then Success(Node(node.fields[path[0] := value]))
    else if path[0] !in node.fields then Failure(NoSuchPath)
    else
      var child :- Put(node.fields[path[0]], path[1..], value);
      Success(Node(node.fields[path[0] := child]))
  }

  predicate Named(overrides: seq<(Path, Doc)>) {
    forall i :: 0 <= i < |overrides| ==> overrides[i].0 != []
  }

  function PutAll(node: Doc, overrides: seq<(Path, Doc)>): (r: Result<Doc, ConfigError>)
    requires Named(overrides)
    decreases |overrides|
  {
    if overrides == [] then Success(node)
    else
      var n := |overrides| - 1;
      var before :- PutAll(node, overrides[..n]);
      Put(before, overrides[n].0, overrides[n].1)
  }

  function Paths(overrides: seq<(Path, Doc)>): seq<Path> {
    seq(|overrides|, i requires 0 <= i < |overrides| => overrides[i].0)
  }

  /** `_validate_ablations` for one ablation. */
  method ValidateAblation(gamma: Doc, spec: Ablation) returns (r: Result<bool, ConfigError>)
    ensures r.Success? <==>
      && spec.derivedFrom == "gamma"
      && multiset(Paths(spec.overrides)) == multiset(spec.differsIn)
      && forall i :: 0 <= i < |spec.overrides| ==> Resolve(gamma, spec.overrides[i].0).Some?
  {
    if spec.derivedFrom != "gamma" {
      return Failure(NotDerivedFromGamma);
    }
    if multiset(Paths(spec.overrides)) != multiset(spec.differsIn) {
      return Failure(UndeclaredDifference);
    }
    for n := 0 to |spec.overrides|
      invariant forall i :: 0 <= i < n ==> Resolve(gamma, spec.overrides[i].0).Some?
    {
      if Resolve(gamma, spec.overrides[n].0).None? {
        return Failure(NoSuchPath);
      }
    }
    r := Success(true);
  }

  // ---- one assignment ----

  /** What a path leads to, down to the kind of thing. */
  datatype Kind = Absent | Scalar(value: int) | Object

  function KindOf(d: Option<Doc>): Kind {
    match d
    case None => Absent
    case Some(Leaf(v)) => Scalar(v)
    case Some(Node(_)) => Object
  }

  function KindAt(node: Doc, path: Path): Kind {
    KindOf(Resolve(node, path))
  }

  function Parent(path: Path): Path
    requires path != []
  {
    path[..|path| - 1]
  }

  lemma {:induction false} PrefixTails(p: Path, q: Path)
    requires p != [] && q != [] && p[0] == q[0]
    ensures p <= q <==> p[1..] <= q[1..]
    ensures p <= q ==> q[|p|..] == q[1..][|p[1..]|..]
  {
    assert p == [p[0]] + p[1..] && q == [q[0]] + q[1..];
  }

  /** A path can be assigned exactly when its parent is an object. */
  lemma {:induction false} PutSucceedsExactly(node: Doc, path: Path, value: Doc)
    requires path != []
    ensures Put(node, path, value).Success? <==> KindAt(node, Parent(path)) == Object
    decreases |path|
  {
    if |path| == 1 {
      assert Parent(path) == [];
    } else if node.Node? && path[0] in node.fields {
      PutSucceedsExactly(node.fields[path[0]], path[1..], value);
      assert Parent(path)[1..] == Parent(path[1..]);
    }
  }

  /** Below the assigned path everything is the value's; elsewhere nothing changes its kind. */
  lemma {:induction false} PutKind(node: Doc, path: Path, value: Doc, q: Path)
    requires path != [] && Put(node, path, value).Success?
    ensures KindAt(Put(node, path, value).value, q) == if path <= q then KindAt(value, q[|path|..]) else KindAt(node, q)
    decreases |path|
  {
    if q != [] && q[0] == path[0] {
      PrefixTails(path, q);
      if |path| > 1 {
        PutKind(node.fields[path[0]], path[1..], value, q[1..]);
      } else {
        assert path[1..] == [];
      }
    }
  }

  /** And nothing changes at all, save for the objects on the way. */
  lemma {:induction false} PutResolves(node: Doc, path: Path, value: Doc, q: Path)
    requires path != [] && Put(node, path, value).Success?
    requires path <= q || !(q <= path)
    ensures Resolve(Put(node, path, value).value, q)
      == if path <= q then Resolve(value, q[|path|..]) else Resolve(node, q)
    decreases |path|
  {
    if q != [] && q[0] == path[0] {
      PrefixTails(path, q);
      PrefixTails(q, path);
      if |path| > 1 {
        PutResolves(node.fields[path[0]], path[1..], value, q[1..]);
      } else {
        assert path[1..] == [];
      }
    }
  }

  // ---- the overrides one after the other ----

  /** `gamma_ablation`, on values: apply the overrides one after the other. */
  method MaterializeAblation(gamma: Doc, overrides: seq<(Path, Doc)>) returns (r: Result<Doc, ConfigError>)
    requires Named(overrides)
    ensures r == PutAll(gamma, overrides)
  {
    var ablated := gamma;
    for n := 0 to |overrides|
      invariant PutAll(gamma, overrides[..n]) == Success(ablated)
    {
      assert overrides[..n + 1][..n] == overrides[..n];
      var next := Put(ablated, overrides[n].0, overrides[n].1);
      if next.Failure? {
        PutAllFailsOnce(gamma, overrides, n + 1);
        return next;
      }
      ablated := next.value;
    }
    assert overrides[..|overrides|] == overrides;
    r := Success(ablated);
  }

  lemma {:induction false} PutAllFailsOnce(gamma: Doc, overrides: seq<(Path, Doc)>, n: nat)
    requires Named(overrides) && n <= |overrides| && PutAll(gamma, overrides[..n]).Failure?
    ensures PutAll(gamma, overrides) == PutAll(gamma, overrides[..n])
    decreases |overrides|
  {
    if n < |overrides| {
      var front := overrides[..|overrides| - 1];
      assert front[..n] == overrides[..n];
      PutAllFailsOnce(gamma, front, n);
    } else {
      assert overrides[..n] == overrides;
    }
  }

  /** The last of the first `j` overrides whose path lies on, or at the end of, the way to `q`: it alone says
      what is found there. */
  function Governing(overrides: seq<(Path, Doc)>, j: nat, q: Path): (r: Option<nat>)
    requires j <= |overrides|
    ensures r.Some? ==> r.value < j && overrides[r.value].0 <= q
    ensures r.Some? ==> forall k :: r.value < k < j ==> !(overrides[k].0 <= q)
    ensures r.None? ==> forall k :: 0 <= k < j ==> !(overrides[k].0 <= q)
  {
    if j == 0 then None
    else if overrides[j - 1].0 <= q then Some(j - 1)
    else Governing(overrides, j - 1, q)
  }

  /** What is found at `q` after the first `j` overrides, read off the inputs. */
  function Governed(gamma: Doc, overrides: seq<(Path, Doc)>, j: nat, q: Path): Option<Doc>
    requires j <= |overrides|
  {
    match Governing(overrides, j, q)
    case None => Resolve(gamma, q)
    case Some(i) => Resolve(overrides[i].1, q[|overrides[i].0|..])
  }

  lemma {:induction false} KindAfter(gamma: Doc, overrides: seq<(Path, Doc)>, j: nat, q: Path)
    requires Named(overrides) && j <= |overrides| && PutAll(gamma, overrides[..j]).Success?
    ensures KindAt(PutAll(gamma, overrides[..j]).value, q) == KindOf(Governed(gamma, overrides, j, q))
  {
    if j > 0 {
      assert overrides[..j][..j - 1] == overrides[..j - 1];
      KindAfter(gamma, overrides, j - 1, q);
      PutKind(PutAll(gamma, overrides[..j - 1]).value, overrides[j - 1].0, overrides[j - 1].1, q);
    }
  }

  /** The `j`-th override finds an object to write into: in the value of the last earlier override above it,
      or in gamma if there is none. */
  predicate FindsItsParent(gamma: Doc, overrides: seq<(Path, Doc)>, j: nat)
    requires Named(overrides) && j < |overrides|
  {
    KindOf(Governed(gamma, overrides, j, Parent(overrides[j].0))) == Object
  }

  lemma NextMaterializes(gamma: Doc, overrides: seq<(Path, Doc)>, n: nat)
    requires Named(overrides) && n < |overrides|
    ensures PutAll(gamma, overrides[..n + 1]).Success?
      <==> PutAll(gamma, overrides[..n]).Success? && FindsItsParent(gamma, overrides, n)
  {
    assert overrides[..n + 1][..n] == overrides[..n];
    if PutAll(gamma, overrides[..n]).Success? {
      KindAfter(gamma, overrides, n, Parent(overrides[n].0));
      PutSucceedsExactly(PutAll(gamma, overrides[..n]).value, overrides[n].0, overrides[n].1);
    }
  }

  lemma {:induction false} FirstMaterialize(gamma: Doc, overrides: seq<(Path, Doc)>, n: nat)
    requires Named(overrides) && n <= |overrides|
    ensures PutAll(gamma, overrides[..n]).Success? <==> forall j :: 0 <= j < n ==> FindsItsParent(gamma, overrides, j)
  {
    if n > 0 {
      FirstMaterialize(gamma, overrides, n - 1);
      NextMaterializes(gamma, overrides, n - 1);
    }
  }

  /** Exactly when an ablation materializes, nested overrides and all: each override must find its parent. */
  lemma MaterializesExactlyWhen(gamma: Doc, overrides: seq<(Path, Doc)>)
    requires Named(overrides)
    ensures PutAll(gamma, overrides).Success?
      <==> forall j :: 0 <= j < |overrides| ==> FindsItsParent(gamma, overrides, j)
  {
    FirstMaterialize(gamma, overrides, |overrides|);
    assert overrides[..|overrides|] == overrides;
  }

  /** Nothing written at or after `j` lies strictly below `q`. */
  predicate Undisturbed(overrides: seq<(Path, Doc)>, j: nat, n: nat, q: Path)
    requires n <= |overrides|
  {
    forall k :: j <= k < n ==> !(q <= overrides[k].0 && q != overrides[k].0)
  }

  lemma {:induction false} FirstGoverned(gamma: Doc, overrides: seq<(Path, Doc)>, n: nat, q: Path)
    requires Named(overrides) && n <= |overrides| && PutAll(gamma, overrides[..n]).Success?
    requires var g := Governing(overrides, n, q); Undisturbed(overrides, if g.Some? then g.value else 0, n, q)
    ensures Resolve(PutAll(gamma, overrides[..n]).value, q) == Governed(gamma, overrides, n, q)
  {
    if n > 0 {
      assert overrides[..n][..n - 1] == overrides[..n - 1];
      PutResolves(PutAll(gamma, overrides[..n - 1]).value, overrides[n - 1].0, overrides[n - 1].1, q);
      if !(overrides[n - 1].0 <= q) {
        FirstGoverned(gamma, overrides, n - 1, q);
      }
    }
  }

  /** What a materialized ablation holds at a path below which nothing was written since it was last set. */
  lemma AblationIsGoverned(gamma: Doc, overrides: seq<(Path, Doc)>, q: Path)
    requires Named(overrides) && PutAll(gamma, overrides).Success?
    requires var g := Governing(overrides, |overrides|, q);
      Undisturbed(overrides, if g.Some? then g.value else 0, |overrides|, q)
    ensures Resolve(PutAll(gamma, overrides).value, q) == Governed(gamma, overrides, |overrides|, q)
  {
    assert overrides[..|overrides|] == overrides;
    FirstGoverned(gamma, overrides, |overrides|, q);
  }

  // ---- accepted, prefix-free ablations ----

  /** Neither path lies on the other. */
  predicate Incomparable(p: Path, q: Path) {
    !(p <= q) && !(q <= p)
  }

  predicate PrefixFree(overrides: seq<(Path, Doc)>) {
    forall i, j :: 0 <= i < |overrides| && 0 <= j < |overrides| && i != j ==>
      Incomparable(overrides[i].0, overrides[j].0)
  }

  predicate Accepted(gamma: Doc, overrides: seq<(Path, Doc)>) {
    Named(overrides) && forall i :: 0 <= i < |overrides| ==> Resolve(gamma, overrides[i].0).Some?
  }

  lemma {:induction false} ParentOfExisting(node: Doc, path: Path)
    requires path != [] && Resolve(node, path).Some?
    ensures KindAt(node, Parent(path)) == Object
    decreases |path|
  {
    if |path| > 1 {
      ParentOfExisting(node.fields[path[0]], path[1..]);
      assert Parent(path)[1..] == Parent(path[1..]);
    }
  }

  /** In an accepted ablation only an override with an earlier one above it can miss its parent. */
  lemma AcceptedFindsItsParent(gamma: Doc, overrides: seq<(Path, Doc)>, j: nat)
    requires Accepted(gamma, overrides) && j < |overrides|
    ensures Governing(overrides, j, Parent(overrides[j].0)).None? ==> FindsItsParent(gamma, overrides, j)
  {
    ParentOfExisting(gamma, overrides[j].0);
  }

  lemma OnTheWayToParent(p: Path, q: Path)
    requires q != []
    ensures p <= Parent(q) <==> p <= q && p != q
  {
    if p <= q && p != q {
      assert p == Parent(q)[..|p|];
    }
  }

  lemma PrefixFreeIsUngoverned(overrides: seq<(Path, Doc)>, j: nat)
    requires Named(overrides) && PrefixFree(overrides) && j < |overrides|
    ensures Governing(overrides, j, Parent(overrides[j].0)).None?
  {
    forall k | 0 <= k < j
      ensures !(overrides[k].0 <= Parent(overrides[j].0))
    {
      OnTheWayToParent(overrides[k].0, overrides[j].0);
    }
  }

  /** Materialization of an accepted, prefix-free ablation never fails, puts every value in place, and
      differs from the source nowhere else. */
  lemma AblationDiffersExactlyThere(gamma: Doc, overrides: seq<(Path, Doc)>)
    requires Accepted(gamma, overrides) && PrefixFree(overrides)
    ensures PutAll(gamma, overrides).Success?
    ensures forall i :: 0 <= i < |overrides| ==>
      Resolve(PutAll(gamma, overrides).value, overrides[i].0) == Some(overrides[i].1)
    ensures forall q :: (forall i :: 0 <= i < |overrides| ==> Incomparable(overrides[i].0, q)) ==>
      Resolve(PutAll(gamma, overrides).value, q) == Resolve(gamma, q)
  {
    forall j | 0 <= j < |overrides|
      ensures FindsItsParent(gamma, overrides, j)
    {
      PrefixFreeIsUngoverned(overrides, j);
      AcceptedFindsItsParent(gamma, overrides, j);
    }
    MaterializesExactlyWhen(gamma, overrides);
    forall i | 0 <= i < |overrides|
      ensures Resolve(PutAll(gamma, overrides).value, overrides[i].0) == Some(overrides[i].1)
    {
      var q := overrides[i].0;
      assert Governing(overrides, |overrides|, q) == Some(i);
      AblationIsGoverned(gamma, overrides, q);
      assert q[|q|..] == [];
    }
    forall q | forall i :: 0 <= i < |overrides| ==> Incomparable(overrides[i].0, q)
      ensures Resolve(PutAll(gamma, overrides).value, q) == Resolve(gamma, q)
    {
      AblationIsGoverned(gamma, overrides, q);
    }
  }

  /** Validation does not look at this: an accepted ablation whose first override is no object fails at a
      second one just below it, and succeeds in the other order. */
  lemma NestedOverridesCanFail(gamma: Doc, outer: string, inner: string, value: Doc, other: Doc)
    requires Resolve(gamma, [outer, inner]).Some? && !value.Node?
    ensures var overrides := [([outer], value), ([outer, inner], other)];
      Accepted(gamma, overrides) && PutAll(gamma, overrides).Failure?
    ensures var overrides := [([outer, inner], other), ([outer], value)];
      Accepted(gamma, overrides) && PutAll(gamma, overrides).Success?
  {
    assert [outer, inner][1..] == [inner] && [outer][1..] == [] && [inner][1..] == [];
    assert Resolve(gamma, [outer]) == Some(gamma.fields[outer]);
    var there, back := [([outer], value), ([outer, inner], other)], [([outer, inner], other), ([outer], value)];
    assert Parent([outer, inner]) == [outer] && Parent([outer]) == [] && [outer][|[outer]|..] == [];
    assert Governing(there, 1, [outer]) == Some(0);
    assert !FindsItsParent(gamma, there, 1);
    MaterializesExactlyWhen(gamma, there);
    assert Governing(back, 1, []) == None;
    assert FindsItsParent(gamma, back, 0) && FindsItsParent(gamma, back, 1);
    MaterializesExactlyWhen(gamma, back);
  }
}
