/** JSON documents as Python holds them: dicts that refer to one another.  What a graph of dicts shows as a
    document, and what one assignment does to everything that can be reached from anywhere. */
module ObjectGraph {
  import opened Wrappers
  import opened FrozenConfig

  /** A value in memory: a reference to a dict, or anything that is not one. */
  datatype Ref = Atom(value: int) | Obj(dict: Dict)

  class Dict {
    var fields: map<string, Ref>

    constructor ()
      ensures fields == map[]
    {
      fields := map[];
    }
  }

  /** The contents of some dicts at one moment. */
  type Store = map<Dict, map<string, Ref>>

  ghost function Snapshot(dicts: set<Dict>): (h: Store)
    reads dicts
    ensures h.Keys == dicts && forall d :: d in dicts ==> h[d] == d.fields
  {
    map d | d in dicts :: d.fields
  }

  ghost function Step(h: Store, r: Option<Ref>, key: string): Option<Ref> {
    if r.Some? && r.value.Obj? && r.value.dict in h && key in h[r.value.dict] then Some(h[r.value.dict][key]) else None
  }

  /** Where a path leads from a reference. */
  ghost function At(h: Store, r: Ref, p: Path): Option<Ref>
    decreases |p|
  {
    if p == [] then Some(r) else Step(h, At(h, r, Parent(p)), p[|p| - 1])
  }

  ghost predicate Matches(h: Store, r: Option<Ref>, kind: Kind) {
    match kind
    case Absent => r == None
    case Scalar(v) => r == Some(Atom(v))
    case Object => r.Some? && r.value.Obj? && r.value.dict in h
  }

  /** The reference stands for the document. */
  ghost predicate Shows(h: Store, r: Ref, d: Doc) {
    forall p: Path :: Matches(h, At(h, r, p), KindAt(d, p))
  }

  ghost predicate LeadsTo(h: Store, r: Ref, p: Path, dict: Dict) {
    At(h, r, p) == Some(Obj(dict))
  }

  /** Every dict is reached on one path only. */
  ghost predicate Tree(h: Store, r: Ref) {
    forall p: Path, q: Path, dict ::
      dict in h && LeadsTo(h, r, p, dict) && LeadsTo(h, r, q, dict) ==> p == q
  }

  /** No dict is reached from both. */
  ghost predicate Apart(h: Store, r: Ref, s: Ref) {
    forall p: Path, q: Path, dict :: dict in h ==> !(LeadsTo(h, r, p, dict) && LeadsTo(h, s, q, dict))
  }

  lemma {:induction false} AtSplit(h: Store, r: Ref, a: Path, b: Path)
    ensures At(h, r, a + b) == if At(h, r, a).Some? then At(h, At(h, r, a).value, b) else None
    decreases |b|
  {
    if b == [] {
      assert a + b == a;
    } else {
      assert Parent(a + b) == a + Parent(b);
      AtSplit(h, r, a, Parent(b));
    }
  }

  /** What hangs below a path of a tree is reached below that path only. */
  lemma ReachedBelowOnly(h: Store, root: Ref, at: Path, r: Ref, p: Path, q: Path, dict: Dict)
    requires Tree(h, root) && At(h, root, at) == Some(r) && dict in h && LeadsTo(h, root, p, dict)
    ensures LeadsTo(h, r, q, dict) ==> p == at + q
  {
    AtSplit(h, root, at, q);
    assert LeadsTo(h, r, q, dict) ==> LeadsTo(h, root, at + q, dict);
  }

  lemma ReachedIsStored(h: Store, r: Ref, d: Doc, p: Path, dict: Dict)
    requires Shows(h, r, d) && LeadsTo(h, r, p, dict)
    ensures dict in h
  {
    assert Matches(h, At(h, r, p), KindAt(d, p));
  }

  /** A reference stands for one document only. */
  lemma ShowsOnce(h: Store, r: Ref, d: Doc, e: Doc)
    requires Shows(h, r, d) && Shows(h, r, e)
    ensures d == e
  {
    forall p: Path
      ensures KindAt(d, p) == KindAt(e, p)
    {
      assert Matches(h, At(h, r, p), KindAt(d, p)) && Matches(h, At(h, r, p), KindAt(e, p));
    }
    SameKindsSameDoc(d, e);
  }

  lemma KindOfField(d: Doc, key: string)
    requires d.Node?
    ensures KindAt(d, [key]) == if key in d.fields then KindOf(Some(d.fields[key])) else Absent
  {
    assert [key][1..] == [];
    if key in d.fields {
      assert Resolve(d.fields[key], [key][1..]) == Some(d.fields[key]);
    }
  }

  lemma {:induction false} SameKindsSameDoc(d: Doc, e: Doc)
    requires forall p: Path :: KindAt(d, p) == KindAt(e, p)
    ensures d == e
    decreases d
  {
    assert KindAt(d, []) == KindAt(e, []);
    if d.Node? {
      forall key: string
        ensures key in d.fields <==> key in e.fields
      {
        assert KindAt(d, [key]) == KindAt(e, [key]);
        KindOfField(d, key);
        KindOfField(e, key);
      }
      forall key | key in d.fields
        ensures d.fields[key] == e.fields[key]
      {
        forall p: Path
          ensures KindAt(d.fields[key], p) == KindAt(e.fields[key], p)
        {
          assert ([key] + p)[1..] == p;
          assert KindAt(d, [key] + p) == KindAt(e, [key] + p);
        }
        SameKindsSameDoc(d.fields[key], e.fields[key]);
      }
      assert d.fields == e.fields;
    }
  }

  // ---- one assignment, seen from anywhere ----

  ghost function Written(h: Store, dict: Dict, key: string, w: Ref): Store
    requires dict in h
  {
    h[dict := h[dict][key := w]]
  }

  ghost predicate Misses(h: Store, r: Ref, dict: Dict) {
    forall p: Path :: !LeadsTo(h, r, p, dict)
  }

  /** What does not reach the dict sees nothing. */
  lemma {:induction false} WriteMisses(h: Store, r: Ref, dict: Dict, key: string, w: Ref, p: Path)
    requires dict in h && Misses(h, r, dict)
    ensures At(Written(h, dict, key, w), r, p) == At(h, r, p)
    decreases |p|
  {
    if p != [] {
      WriteMisses(h, r, dict, key, w, Parent(p));
      assert !LeadsTo(h, r, Parent(p), dict);
    }
  }

  /** What reaches it on one path sees the new value there, and nothing else. */
  lemma {:induction false} WriteHits(h: Store, r: Ref, q: Path, dict: Dict, key: string, w: Ref, p: Path)
    requires dict in h && Tree(h, r) && LeadsTo(h, r, q, dict) && Misses(h, w, dict)
    ensures At(Written(h, dict, key, w), r, p) == if q + [key] <= p then At(h, w, p[|q| + 1..]) else At(h, r, p)
    decreases |p|
  {
    if p != [] {
      WriteHits(h, r, q, dict, key, w, Parent(p));
      var spot := q + [key];
      if p == spot {
        assert Parent(p) == q && p[|q| + 1..] == [];
      } else if spot <= p {
        assert spot <= Parent(p) by {
          OnTheWayToParent(spot, p);
        }
        assert Parent(p)[|q| + 1..] == Parent(p[|q| + 1..]);
        assert !LeadsTo(h, w, Parent(p)[|q| + 1..], dict);
      } else {
        OnTheWayToParent(spot, p);
        assert p == Parent(p) + [p[|p| - 1]];
        if LeadsTo(h, r, Parent(p), dict) {
          assert Parent(p) == q;
        }
      }
    }
  }

  ghost predicate SeesTheSame(h: Store, h': Store, r: Ref) {
    forall p: Path :: At(h', r, p) == At(h, r, p)
  }

  lemma SameViewSameDoc(h: Store, h': Store, r: Ref, d: Doc)
    requires h'.Keys == h.Keys && SeesTheSame(h, h', r)
    ensures Shows(h, r, d) ==> Shows(h', r, d)
    ensures Tree(h, r) ==> Tree(h', r)
  {
    if Shows(h, r, d) {
      forall p: Path
        ensures Matches(h', At(h', r, p), KindAt(d, p))
      {
        assert Matches(h, At(h, r, p), KindAt(d, p)) && At(h', r, p) == At(h, r, p);
      }
    }
    if Tree(h, r) {
      forall p: Path, q: Path, dict | dict in h' && LeadsTo(h', r, p, dict) && LeadsTo(h', r, q, dict)
        ensures p == q
      {
        assert At(h', r, p) == At(h, r, p) && At(h', r, q) == At(h, r, q);
        assert LeadsTo(h, r, p, dict) && LeadsTo(h, r, q, dict);
      }
    }
  }

  lemma MissedSeesTheSame(h: Store, r: Ref, dict: Dict, key: string, w: Ref)
    requires dict in h && Misses(h, r, dict)
    ensures SeesTheSame(h, Written(h, dict, key, w), r)
  {
    forall p: Path
      ensures At(Written(h, dict, key, w), r, p) == At(h, r, p)
    {
      WriteMisses(h, r, dict, key, w, p);
    }
  }

  /** What the write hits then shows the document with the path assigned, and is still a tree. */
  lemma HitShows(h: Store, r: Ref, d: Doc, q: Path, dict: Dict, key: string, w: Ref, value: Doc)
    requires Shows(h, r, d) && Tree(h, r) && LeadsTo(h, r, q, dict) && dict in h
    requires Shows(h, w, value) && Apart(h, r, w)
    ensures Put(d, q + [key], value).Success?
    ensures Shows(Written(h, dict, key, w), r, Put(d, q + [key], value).value)
  {
    assert Misses(h, w, dict);
    assert Parent(q + [key]) == q && Matches(h, At(h, r, q), KindAt(d, q));
    PutSucceedsExactly(d, q + [key], value);
    var h' := Written(h, dict, key, w);
    var d' := Put(d, q + [key], value).value;
    forall p: Path
      ensures Matches(h', At(h', r, p), KindAt(d', p))
    {
      WriteHits(h, r, q, dict, key, w, p);
      PutKind(d, q + [key], value, p);
      assert Matches(h, At(h, r, p), KindAt(d, p));
      if q + [key] <= p {
        assert Matches(h, At(h, w, p[|q| + 1..]), KindAt(value, p[|q| + 1..]));
      }
    }
  }

  /** Where a dict seen through the written graph was before: in the tree, or in what was put there. */
  lemma HitOrigin(h: Store, r: Ref, q: Path, dict: Dict, key: string, w: Ref, p: Path, other: Dict)
    requires dict in h && Tree(h, r) && LeadsTo(h, r, q, dict) && Misses(h, w, dict)
    requires LeadsTo(Written(h, dict, key, w), r, p, other)
    ensures if q + [key] <= p then LeadsTo(h, w, p[|q| + 1..], other) else LeadsTo(h, r, p, other)
  {
    WriteHits(h, r, q, dict, key, w, p);
  }

  lemma SamePathBelow(spot: Path, p: Path, p': Path)
    requires spot <= p && spot <= p' && p[|spot|..] == p'[|spot|..]
    ensures p == p'
  {
    assert p == spot + p[|spot|..] && p' == spot + p'[|spot|..];
  }

  lemma HitStaysTree(h: Store, r: Ref, q: Path, dict: Dict, key: string, w: Ref)
    requires dict in h && Tree(h, r) && Tree(h, w) && LeadsTo(h, r, q, dict) && Apart(h, r, w)
    ensures Tree(Written(h, dict, key, w), r)
  {
    assert Misses(h, w, dict);
    var h' := Written(h, dict, key, w);
    forall p: Path, p': Path, other | other in h' && LeadsTo(h', r, p, other) && LeadsTo(h', r, p', other)
      ensures p == p'
    {
      HitOrigin(h, r, q, dict, key, w, p, other);
      HitOrigin(h, r, q, dict, key, w, p', other);
      if q + [key] <= p && q + [key] <= p' {
        SamePathBelow(q + [key], p, p');
      }
    }
  }

  /** What hung at or below the assigned path is reached from the tree no more. */
  lemma HitDetaches(
    h: Store, root: Ref, q: Path, dict: Dict, key: string, w: Ref, at: Path, r: Ref, p: Path, p': Path, other: Dict)
    requires dict in h && Tree(h, root) && LeadsTo(h, root, q, dict) && Misses(h, w, dict)
    requires At(h, root, at) == Some(r) && q + [key] <= at && Apart(h, r, w)
    requires other in h && LeadsTo(Written(h, dict, key, w), root, p, other)
    ensures !LeadsTo(h, r, p', other)
  {
    HitOrigin(h, root, q, dict, key, w, p, other);
    if !(q + [key] <= p) {
      ReachedBelowOnly(h, root, at, r, p, p', other);
      assert at <= at + p';
    }
  }

  /** Something apart from the tree and from what was put there stays apart from it. */
  lemma HitStaysApart(h: Store, r: Ref, q: Path, dict: Dict, key: string, w: Ref, s: Ref)
    requires dict in h && Tree(h, r) && LeadsTo(h, r, q, dict) && Apart(h, r, w)
    requires Apart(h, r, s) && Apart(h, w, s)
    ensures Apart(Written(h, dict, key, w), r, s) && SeesTheSame(h, Written(h, dict, key, w), s)
  {
    assert Misses(h, w, dict) && Misses(h, s, dict);
    var h' := Written(h, dict, key, w);
    MissedSeesTheSame(h, s, dict, key, w);
    forall p: Path, p': Path, other | other in h' && LeadsTo(h', r, p, other)
      ensures !LeadsTo(h', s, p', other)
    {
      HitOrigin(h, r, q, dict, key, w, p, other);
      assert At(h', s, p') == At(h, s, p');
      if q + [key] <= p {
        assert !(LeadsTo(h, w, p[|q| + 1..], other) && LeadsTo(h, s, p', other));
      } else {
        assert !(LeadsTo(h, r, p, other) && LeadsTo(h, s, p', other));
      }
    }
  }

  lemma BothSeeTheSame(h: Store, h': Store, r: Ref, s: Ref)
    requires h'.Keys == h.Keys && SeesTheSame(h, h', r) && SeesTheSame(h, h', s) && Apart(h, r, s)
    ensures Apart(h', r, s)
  {
    forall p: Path, q: Path, dict | dict in h'
      ensures !(LeadsTo(h', r, p, dict) && LeadsTo(h', s, q, dict))
    {
      assert At(h', r, p) == At(h, r, p) && At(h', s, q) == At(h, s, q);
      assert !(LeadsTo(h, r, p, dict) && LeadsTo(h, s, q, dict));
    }
  }

  // ---- a larger store ----

  ghost predicate Extends(h: Store, larger: Store) {
    forall d :: d in h ==> d in larger && larger[d] == h[d]
  }

  lemma {:induction false} AtInLarger(h: Store, larger: Store, r: Ref, d: Doc, p: Path)
    requires Extends(h, larger) && Shows(h, r, d)
    ensures At(larger, r, p) == At(h, r, p)
    decreases |p|
  {
    if p != [] {
      AtInLarger(h, larger, r, d, Parent(p));
      assert Matches(h, At(h, r, Parent(p)), KindAt(d, Parent(p)));
    }
  }

  /** A document is the same document, and the same tree, among more dicts, and reaches none of them. */
  lemma ShowsInLarger(h: Store, larger: Store, r: Ref, d: Doc)
    requires Extends(h, larger) && Shows(h, r, d)
    ensures Shows(larger, r, d) && (Tree(h, r) ==> Tree(larger, r))
    ensures forall p: Path, dict :: dict in larger && LeadsTo(larger, r, p, dict) ==> dict in h
  {
    forall p: Path
      ensures At(larger, r, p) == At(h, r, p)
      ensures Matches(larger, At(larger, r, p), KindAt(d, p))
    {
      AtInLarger(h, larger, r, d, p);
      assert Matches(h, At(h, r, p), KindAt(d, p));
    }
    forall p: Path, dict | dict in larger && LeadsTo(larger, r, p, dict)
      ensures dict in h && LeadsTo(h, r, p, dict)
    {
      assert Matches(h, At(h, r, p), KindAt(d, p)) && At(larger, r, p) == At(h, r, p);
    }
    if Tree(h, r) {
      forall p: Path, q: Path, dict | dict in larger && LeadsTo(larger, r, p, dict) && LeadsTo(larger, r, q, dict)
        ensures p == q
      {
        assert LeadsTo(h, r, p, dict) && LeadsTo(h, r, q, dict);
      }
    }
  }

  lemma ApartInLarger(h: Store, g: Store, larger: Store, r: Ref, d: Doc, s: Ref, e: Doc)
    requires Extends(h, larger) && Extends(g, larger) && Shows(h, r, d) && Shows(g, s, e)
    requires h.Keys !! g.Keys
    ensures Apart(larger, r, s)
  {
    ShowsInLarger(h, larger, r, d);
    ShowsInLarger(g, larger, s, e);
  }

  lemma StillApartInLarger(h: Store, larger: Store, r: Ref, d: Doc, s: Ref, e: Doc)
    requires Extends(h, larger) && Shows(h, r, d) && Shows(h, s, e) && Apart(h, r, s)
    ensures Apart(larger, r, s)
  {
    forall p: Path, q: Path, dict | dict in larger && LeadsTo(larger, r, p, dict)
      ensures !LeadsTo(larger, s, q, dict)
    {
      AtInLarger(h, larger, r, d, p);
      AtInLarger(h, larger, s, e, q);
      ReachedIsStored(h, r, d, p, dict);
      assert !(LeadsTo(h, r, p, dict) && LeadsTo(h, s, q, dict));
    }
  }

  // ---- a dict and its fields ----

  /** A field of a dict shows the field of the document. */
  lemma FieldShows(h: Store, dict: Dict, d: Doc, key: string)
    requires Shows(h, Obj(dict), d) && dict in h
    ensures d.Node? && (key in d.fields <==> key in h[dict])
    ensures key in h[dict] ==> Shows(h, h[dict][key], d.fields[key])
  {
    assert Matches(h, At(h, Obj(dict), []), KindAt(d, []));
    KindOfField(d, key);
    assert Parent([key]) == [] && At(h, Obj(dict), [key]) == Step(h, Some(Obj(dict)), key);
    assert Matches(h, At(h, Obj(dict), [key]), KindAt(d, [key]));
    if key in h[dict] {
      forall p: Path
        ensures Matches(h, At(h, h[dict][key], p), KindAt(d.fields[key], p))
      {
        AtSplit(h, Obj(dict), [key], p);
        assert ([key] + p)[1..] == p;
        assert Matches(h, At(h, Obj(dict), [key] + p), KindAt(d, [key] + p));
      }
    }
  }

  lemma AtomShows(h: Store, value: int, p: Path)
    ensures Matches(h, At(h, Atom(value), p), KindAt(Leaf(value), p))
    decreases |p|
  {
    if p != [] {
      AtomShows(h, value, Parent(p));
    }
  }

  lemma AtField(h: Store, dict: Dict, p: Path)
    requires dict in h && p != []
    ensures At(h, Obj(dict), p) == if p[0] in h[dict] then At(h, h[dict][p[0]], p[1..]) else None
  {
    AtSplit(h, Obj(dict), [p[0]], p[1..]);
    assert [p[0]] + p[1..] == p && Parent([p[0]]) == [];
    assert At(h, Obj(dict), [p[0]]) == Step(h, Some(Obj(dict)), p[0]);
  }

  /** Fields that show those of a document, each a tree in dicts of its own. */
  ghost predicate Copied(fields: map<string, Ref>, parts: map<string, Store>, shown: map<string, Doc>) {
    && fields.Keys == parts.Keys && parts.Keys <= shown.Keys
    && (forall k :: k in parts ==> Shows(parts[k], fields[k], shown[k]) && Tree(parts[k], fields[k]))
    && (forall k, l :: k in parts && l in parts && k != l ==> parts[k].Keys !! parts[l].Keys)
  }

  lemma OneMoreCopied(
    fields: map<string, Ref>, parts: map<string, Store>, h: Store, shown: map<string, Doc>, key: string, child: Ref,
    part: Store)
    requires Copied(fields, parts, shown) && key in shown && key !in parts
    requires Shows(part, child, shown[key]) && Tree(part, child)
    requires Within(parts, h) && h.Keys !! part.Keys
    ensures Copied(fields[key := child], parts[key := part], shown)
  {
  }

  ghost predicate Within(parts: map<string, Store>, h: Store) {
    forall k :: k in parts ==> Extends(parts[k], h)
  }

  lemma OneMoreWithin(parts: map<string, Store>, h: Store, key: string, part: Store, larger: Store)
    requires Within(parts, h) && Extends(h, larger) && Extends(part, larger)
    ensures Within(parts[key := part], larger)
  {
  }

  /** All fields but the `rest` are copied. */
  ghost predicate CopiedBut(
    fields: map<string, Ref>, parts: map<string, Store>, h: Store, shown: map<string, Doc>, rest: set<string>)
  {
    rest <= shown.Keys && parts.Keys == shown.Keys - rest && Copied(fields, parts, shown) && Within(parts, h)
  }

  lemma OneMoreField(
    fields: map<string, Ref>, parts: map<string, Store>, h: Store, shown: map<string, Doc>, rest: set<string>,
    key: string, child: Ref, part: Store, larger: Store)
    requires CopiedBut(fields, parts, h, shown, rest) && key in rest
    requires Shows(part, child, shown[key]) && Tree(part, child)
    requires h.Keys !! part.Keys && Extends(h, larger) && Extends(part, larger)
    ensures CopiedBut(fields[key := child], parts[key := part], larger, shown, rest - {key})
  {
    OneMoreCopied(fields, parts, h, shown, key, child, part);
    OneMoreWithin(parts, h, key, part, larger);
  }

  lemma NoFieldLeft(h: Store, dict: Dict, fields: map<string, Ref>, parts: map<string, Store>, shown: map<string, Doc>)
    requires CopiedBut(fields, parts, h, shown, {}) && dict !in h
    ensures Parts(h[dict := fields], dict, shown, parts)
  {
  }

  /** A dict with such fields, outside all of their dicts. */
  ghost predicate Parts(h: Store, dict: Dict, fields: map<string, Doc>, parts: map<string, Store>) {
    && dict in h && Copied(h[dict], parts, fields) && parts.Keys == fields.Keys
    && Within(parts, h) && forall k :: k in parts ==> dict !in parts[k]
  }

  lemma BuiltShows(h: Store, dict: Dict, fields: map<string, Doc>, parts: map<string, Store>)
    requires Parts(h, dict, fields, parts)
    ensures Shows(h, Obj(dict), Node(fields))
  {
    forall p: Path
      ensures Matches(h, At(h, Obj(dict), p), KindAt(Node(fields), p))
    {
      if p != [] {
        AtField(h, dict, p);
        if p[0] in fields {
          ShowsInLarger(parts[p[0]], h, h[dict][p[0]], fields[p[0]]);
          assert Matches(h, At(h, h[dict][p[0]], p[1..]), KindAt(fields[p[0]], p[1..]));
        }
      }
    }
  }

  /** Which part a dict of the built graph belongs to. */
  lemma BuiltOrigin(h: Store, dict: Dict, fields: map<string, Doc>, parts: map<string, Store>, p: Path, other: Dict)
    requires Parts(h, dict, fields, parts) && other in h && LeadsTo(h, Obj(dict), p, other)
    ensures if p == [] then other == dict
      else p[0] in parts && other in parts[p[0]] && LeadsTo(h, h[dict][p[0]], p[1..], other)
  {
    if p != [] {
      AtField(h, dict, p);
      if p[0] in fields {
        ShowsInLarger(parts[p[0]], h, h[dict][p[0]], fields[p[0]]);
        assert LeadsTo(h, h[dict][p[0]], p[1..], other);
      }
    }
  }

  lemma BuiltIsTree(h: Store, dict: Dict, fields: map<string, Doc>, parts: map<string, Store>)
    requires Parts(h, dict, fields, parts)
    ensures Tree(h, Obj(dict))
  {
    forall p: Path, q: Path, other | other in h && LeadsTo(h, Obj(dict), p, other) && LeadsTo(h, Obj(dict), q, other)
      ensures p == q
    {
      BuiltOrigin(h, dict, fields, parts, p, other);
      BuiltOrigin(h, dict, fields, parts, q, other);
      if p != [] && q != [] {
        ShowsInLarger(parts[p[0]], h, h[dict][p[0]], fields[p[0]]);
        assert p == [p[0]] + p[1..] && q == [q[0]] + q[1..];
      }
    }
  }

  lemma AtomIsShown(value: int)
    ensures Shows(map[], Atom(value), Leaf(value)) && Tree(map[], Atom(value))
  {
    forall p: Path
      ensures Matches(map[], At(map[], Atom(value), p), KindAt(Leaf(value), p))
    {
      AtomShows(map[], value, p);
    }
  }

  lemma FieldsOfShown(h: Store, dict: Dict, d: Doc)
    requires Shows(h, Obj(dict), d)
    ensures dict in h && d.Node? && h[dict].Keys == d.fields.Keys
    ensures forall key :: key in d.fields ==> Shows(h, h[dict][key], d.fields[key])
  {
    assert Matches(h, At(h, Obj(dict), []), KindAt(d, []));
    forall key: string
      ensures key in d.fields <==> key in h[dict]
      ensures key in d.fields ==> Shows(h, h[dict][key], d.fields[key])
    {
      FieldShows(h, dict, d, key);
    }
  }

  /** `copy.deepcopy` of a loaded document: the same document in new dicts. */
  method DeepCopy(r: Ref, ghost d: Doc, ghost dicts: set<Dict>) returns (c: Ref, ghost made: set<Dict>)
    requires Shows(Snapshot(dicts), r, d)
    ensures fresh(made) && Shows(Snapshot(made), c, d) && Tree(Snapshot(made), c)
    decreases d, 1
  {
    assert Matches(Snapshot(dicts), At(Snapshot(dicts), r, []), KindAt(d, []));
    match r
    case Atom(value) =>
      c, made := r, {};
      AtomIsShown(value);
      assert Snapshot(made) == map[];
    case Obj(dict) =>
      FieldsOfShown(Snapshot(dicts), dict, d);
      ghost var parts: map<string, Store>;
      var copy;
      copy, made, parts := CopyFields(dict, d, dicts);
      c := Obj(copy);
      BuiltShows(Snapshot(made), copy, d.fields, parts);
      BuiltIsTree(Snapshot(made), copy, d.fields, parts);
  }

  /** Copy one field; the dicts in `dicts` and those already in `made` stay as they are. */
  method CopyField(copy: Dict, key: string, value: Ref, ghost d: Doc, ghost dicts: set<Dict>, ghost made: set<Dict>)
    returns (child: Ref, ghost part: Store, ghost made': set<Dict>)
    requires Shows(Snapshot(dicts), value, d) && copy !in dicts && copy !in made
    modifies copy
    ensures copy.fields == old(copy.fields)[key := child]
    ensures Snapshot(dicts) == old(Snapshot(dicts))
    ensures made <= made' && fresh(made' - made) && copy !in made'
    ensures Shows(part, child, d) && Tree(part, child)
    ensures old(Snapshot(made)).Keys !! part.Keys
    ensures Extends(old(Snapshot(made)), Snapshot(made')) && Extends(part, Snapshot(made'))
    decreases d, 2
  {
    ghost var more;
    child, more := DeepCopy(value, d, dicts);
    part, made' := Snapshot(more), made + more;
    copy.fields := copy.fields[key := child];
  }

  method CopyFields(dict: Dict, ghost d: Doc, ghost dicts: set<Dict>)
    returns (copy: Dict, ghost made: set<Dict>, ghost parts: map<string, Store>)
    requires dict in dicts && d.Node? && dict.fields.Keys == d.fields.Keys
    requires forall key :: key in d.fields ==> Shows(Snapshot(dicts), dict.fields[key], d.fields[key])
    ensures fresh(made) && Parts(Snapshot(made), copy, d.fields, parts)
    decreases d, 0
  {
    ghost var h := Snapshot(dicts);
    copy := new Dict();
    made, parts := {}, map[];
    var rest := dict.fields.Keys;
    while rest != {}
      invariant CopiedBut(copy.fields, parts, Snapshot(made), d.fields, rest)
      invariant Snapshot(dicts) == h
      invariant fresh(made) && copy !in made
      modifies copy
    {
      var key :| key in rest;
      ghost var before, store, part := copy.fields, Snapshot(made), map[];
      var child;
      child, part, made := CopyField(copy, key, dict.fields[key], d.fields[key], dicts, made);
      OneMoreField(before, parts, store, d.fields, rest, key, child, part, Snapshot(made));
      parts, rest := parts[key := part], rest - {key};
    }
    NoFieldLeft(Snapshot(made), copy, copy.fields, parts, d.fields);
    ghost var store := Snapshot(made);
    made := made + {copy};
    assert Snapshot(made) == store[copy := copy.fields];
  }

  /** Walk to the parent and assign the last key: `node = node[key]` over all keys but the last. */
  method Assign(root: Ref, path: Path, value: Ref, ghost d: Doc, ghost dicts: set<Dict>)
    returns (ok: bool, ghost spot: Option<Dict>)
    requires path != [] && Shows(Snapshot(dicts), root, d)
    modifies dicts
    ensures ok <==> spot.Some?
    ensures ok <==> KindAt(d, Parent(path)) == Object
    ensures ok ==>
      && spot.value in dicts && LeadsTo(old(Snapshot(dicts)), root, Parent(path), spot.value)
      && Snapshot(dicts) == Written(old(Snapshot(dicts)), spot.value, path[|path| - 1], value)
    ensures !ok ==> Snapshot(dicts) == old(Snapshot(dicts))
  {
    ghost var h := Snapshot(dicts);
    var node := root;
    for n := 0 to |path| - 1
      invariant At(h, root, path[..n]) == Some(node)
      invariant Snapshot(dicts) == h
    {
      assert Matches(h, At(h, root, path[..n]), KindAt(d, path[..n]));
      assert Parent(path[..n + 1]) == path[..n];
      if !node.Obj? || path[n] !in node.dict.fields {
        NothingBeyond(h, root, path[..n + 1], Parent(path));
        assert Matches(h, At(h, root, Parent(path)), KindAt(d, Parent(path)));
        return false, None;
      }
      node := node.dict.fields[path[n]];
    }
    assert path[..|path| - 1] == Parent(path);
    assert Matches(h, At(h, root, Parent(path)), KindAt(d, Parent(path)));
    if !node.Obj? {
      return false, None;
    }
    node.dict.fields := node.dict.fields[path[|path| - 1] := value];
    assert Snapshot(dicts) == Written(h, node.dict, path[|path| - 1], value);
    return true, Some(node.dict);
  }

  lemma NothingBeyond(h: Store, r: Ref, p: Path, q: Path)
    requires p <= q && At(h, r, p) == None
    ensures At(h, r, q) == None
  {
    AtSplit(h, r, p, q[|p|..]);
    assert p + q[|p|..] == q;
  }
}
