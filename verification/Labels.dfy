/** The ingestion-time tag directory (src/harness/policy/label_directory.py), which fills the tag
    fields of the effect rows that F4 reads. */
module Labels {
  import opened Wrappers
  import opened Ordering

  datatype LabelledValue = LabelledValue(valueId: string, tag: string)

  /** `payload_digest`, abstract; `None` where it is not defined over the value. */
  type Digester<!V> = V -> Option<string>

  type Directory = map<string, LabelledValue>

  datatype Observation = Observation(digest: Option<string>, valueId: Option<string>, labels: set<string>)

  datatype LabelError = LabelOutsideOrder | Unhashable

  /** What a scenario declares: values with their ids and labels, a later equal value replacing an
      earlier one. */
  function FromValues<V>(digester: Digester<V>, values: seq<(string, V, string)>): (r: Result<Directory, LabelError>)
    decreases |values|
  {
    if values == [] then Success(map[])
    else
      var last := values[|values| - 1];
      var rest :- FromValues(digester, values[..|values| - 1]);
      if digester(last.1).None? then Failure(Unhashable)
      else Success(rest[digester(last.1).value := LabelledValue(last.0, last.2)])
  }

  predicate DistinctIds(d: Directory) {
    forall x, y :: x in d && y in d && d[x].valueId == d[y].valueId ==> x == y
  }

  /** Ids are the keys of the declaring dict, so a directory built from one never shares an id. */
  lemma {:induction false} FromValuesHasDistinctIds<V>(digester: Digester<V>, values: seq<(string, V, string)>)
    requires forall i, j :: 0 <= i < j < |values| ==> values[i].0 != values[j].0
    requires FromValues(digester, values).Success?
    ensures DistinctIds(FromValues(digester, values).value)
    ensures forall x :: x in FromValues(digester, values).value ==>
      exists i :: 0 <= i < |values| && values[i].0 == FromValues(digester, values).value[x].valueId
    decreases |values|
  {
    if values != [] {
      var front := values[..|values| - 1];
      FromValuesHasDistinctIds(digester, front);
      var d := FromValues(digester, values).value;
      var rest := FromValues(digester, front).value;
      forall x | x in d
        ensures exists i :: 0 <= i < |values| && values[i].0 == d[x].valueId
      {
        if x in rest && d[x] == rest[x] {
          var i :| 0 <= i < |front| && front[i].0 == rest[x].valueId;
          assert values[i].0 == d[x].valueId;
        } else {
          assert values[|values| - 1].0 == d[x].valueId;
        }
      }
    }
  }

  /** The digests of the argument values that the directory knows. */
  ghost function Found<V>(digester: Digester<V>, d: Directory, arguments: seq<V>): set<string> {
    set v | v in arguments && digester(v).Some? && digester(v).value in d :: digester(v).value
  }

  function IndexOf(order: seq<string>, tag: string): nat
    requires tag in order
  {
    if order[0] == tag then 0 else 1 + IndexOf(order[1..], tag)
  }

  lemma {:induction false} IndexOfInjective(order: seq<string>, a: string, b: string)
    requires a in order && b in order && IndexOf(order, a) == IndexOf(order, b)
    ensures a == b
  {
    if order[0] != a {
      IndexOfInjective(order[1..], a, b);
    }
  }

  /** `y` ranks at least as high as `x`: by the policy's tag order and then by id when there is an
      order, by smaller id when there is none. */
  predicate Outranks(order: seq<string>, y: LabelledValue, x: LabelledValue)
    requires order != [] ==> x.tag in order && y.tag in order
  {
    if order == [] then Leq(y.valueId, x.valueId)
    else
      IndexOf(order, x.tag) < IndexOf(order, y.tag)
      || (IndexOf(order, x.tag) == IndexOf(order, y.tag) && Leq(x.valueId, y.valueId))
  }

  /** What `observe` promises about its result. */
  ghost predicate Observes<V>(
    digester: Digester<V>, d: Directory, arguments: seq<V>, order: seq<string>, r: Result<Observation, LabelError>)
  {
    var found := Found(digester, d, arguments);
    if found == {} then r == Success(Observation(None, None, {}))
    else if order != [] && exists g :: g in found && d[g].tag !in order then r == Failure(LabelOutsideOrder)
    else
      && r.Success?
      && r.value.digest.Some? && r.value.digest.value in found
      && r.value.valueId == Some(d[r.value.digest.value].valueId)
      && r.value.labels == (set g | g in found :: d[g].tag)
      && forall g :: g in found ==> Outranks(order, d[r.value.digest.value], d[g])
  }

  method Observe<V>(digester: Digester<V>, d: Directory, arguments: seq<V>, order: seq<string>)
    returns (r: Result<Observation, LabelError>)
    ensures Observes(digester, d, arguments, order, r)
  {
    var found: seq<string> := [];
    for n := 0 to |arguments|
      invariant (set g | g in found) == Found(digester, d, arguments[..n])
    {
      assert arguments[..n + 1] == arguments[..n] + [arguments[n]];
      var digest := digester(arguments[n]);
      if digest.Some? && digest.value in d {
        found := found + [digest.value];
      }
      FoundAppend(digester, d, arguments[..n], arguments[n]);
    }
    assert arguments[..|arguments|] == arguments;
    assert forall g :: g in found <==> g in (set h | h in found);
    assert forall g :: g in found <==> g in Found(digester, d, arguments);
    if found == [] {
      return Success(Observation(None, None, {}));
    }
    assert found[0] in found;
    var labels := set g | g in found :: d[g].tag;
    if order != [] && exists g :: g in found && d[g].tag !in order {
      return Failure(LabelOutsideOrder);
    }
    assert forall i :: 0 <= i < |found| ==> found[i] in found;
    var best := found[0];
    LeqTotal(d[best].valueId, d[best].valueId);
    for n := 1 to |found|
      invariant best in found
      invariant forall i :: 0 <= i < n ==> Outranks(order, d[best], d[found[i]])
    {
      OutranksIsTotal(order, d[found[n]], d[best]);
      if !Outranks(order, d[best], d[found[n]]) {
        forall i | 0 <= i < n
          ensures Outranks(order, d[found[n]], d[found[i]])
        {
          OutranksTransitive(order, d[found[n]], d[best], d[found[i]]);
        }
        best := found[n];
      }
    }
    r := Success(Observation(Some(best), Some(d[best].valueId), labels));
  }

  lemma FoundAppend<V>(digester: Digester<V>, d: Directory, arguments: seq<V>, last: V)
    ensures Found(digester, d, arguments + [last]) ==
      Found(digester, d, arguments)
      + (if digester(last).Some? && digester(last).value in d then {digester(last).value} else {})
  {
  }

  lemma OutranksIsTotal(order: seq<string>, x: LabelledValue, y: LabelledValue)
    requires order != [] ==> x.tag in order && y.tag in order
    ensures Outranks(order, x, y) || Outranks(order, y, x)
    ensures Outranks(order, x, x)
    ensures Outranks(order, x, y) && Outranks(order, y, x) ==> x.valueId == y.valueId
  {
    LeqTotal(x.valueId, y.valueId);
    LeqTotal(x.valueId, x.valueId);
  }

  lemma OutranksTransitive(order: seq<string>, x: LabelledValue, y: LabelledValue, z: LabelledValue)
    requires order != [] ==> x.tag in order && y.tag in order && z.tag in order
    requires Outranks(order, x, y) && Outranks(order, y, z)
    ensures Outranks(order, x, z)
  {
    if order == [] {
      LeqTransitive(x.valueId, y.valueId, z.valueId);
    } else if IndexOf(order, x.tag) == IndexOf(order, y.tag) == IndexOf(order, z.tag) {
      LeqTransitive(z.valueId, y.valueId, x.valueId);
    }
  }

  /** Renaming fields, reordering them or repeating a value cannot change what an effect is recorded as
      touching: the observation is a function of the set of argument values. */
  lemma ObservationDependsOnTheValuesAlone<V>(
    digester: Digester<V>, d: Directory, a: seq<V>, b: seq<V>, order: seq<string>,
    ra: Result<Observation, LabelError>, rb: Result<Observation, LabelError>)
    requires DistinctIds(d)
    requires forall v :: v in a <==> v in b
    requires Observes(digester, d, a, order, ra) && Observes(digester, d, b, order, rb)
    ensures ra == rb
  {
    assert Found(digester, d, a) == Found(digester, d, b);
    if ra.Success? && ra.value.digest.Some? {
      var x, y := ra.value.digest.value, rb.value.digest.value;
      assert Outranks(order, d[x], d[y]) && Outranks(order, d[y], d[x]);
      OutranksIsTotal(order, d[x], d[y]);
    }
  }

  /** Carrying more values never hides a tag. */
  lemma MoreValuesTouchMoreLabels<V>(
    digester: Digester<V>, d: Directory, a: seq<V>, b: seq<V>, order: seq<string>,
    ra: Result<Observation, LabelError>, rb: Result<Observation, LabelError>)
    requires forall v :: v in a ==> v in b
    requires Observes(digester, d, a, order, ra) && Observes(digester, d, b, order, rb)
    requires ra.Success? && rb.Success?
    ensures ra.value.labels <= rb.value.labels
  {
    assert Found(digester, d, a) <= Found(digester, d, b);
  }

  /** The value has the digest, and no later one does. */
  predicate DeclaresLast<V>(digester: Digester<V>, values: seq<(string, V, string)>, i: nat, x: string) {
    && i < |values| && digester(values[i].1) == Some(x)
    && forall j :: i < j < |values| ==> digester(values[j].1) != Some(x)
  }

  /** A directory knows a digest exactly if some declared value has it, and then under the last such value's id and
      tag. */
  lemma {:induction false} DirectoryExactly<V>(digester: Digester<V>, values: seq<(string, V, string)>, x: string)
    requires FromValues(digester, values).Success?
    ensures var d := FromValues(digester, values).value;
      && (x in d <==> exists i: nat :: DeclaresLast(digester, values, i, x))
      && forall i: nat :: DeclaresLast(digester, values, i, x) ==>
        x in d && d[x] == LabelledValue(values[i].0, values[i].2)
    decreases |values|
  {
    if values != [] {
      var n := |values| - 1;
      var front := values[..n];
      DirectoryExactly(digester, front, x);
      if digester(values[n].1) == Some(x) {
        assert DeclaresLast(digester, values, n, x);
        assert forall i: nat :: DeclaresLast(digester, values, i, x) ==> i == n;
      } else {
        forall i: nat
          ensures DeclaresLast(digester, values, i, x) <==> DeclaresLast(digester, front, i, x)
        {
          assert i < n ==> values[i] == front[i];
          if DeclaresLast(digester, front, i, x) {
            assert forall j :: i < j < n ==> values[j] == front[j];
          }
        }
      }
    }
  }

  /** It cannot be built exactly if some value has no digest. */
  lemma {:induction false} DirectoryBuiltExactly<V>(digester: Digester<V>, values: seq<(string, V, string)>)
    ensures FromValues(digester, values).Success? <==> forall i :: 0 <= i < |values| ==> digester(values[i].1).Some?
    decreases |values|
  {
    if values != [] {
      DirectoryBuiltExactly(digester, values[..|values| - 1]);
    }
  }

  /** The first place of the tag in the order. */
  predicate FirstAt(order: seq<string>, i: nat, tag: string) {
    i < |order| && order[i] == tag && tag !in order[..i]
  }

  lemma {:induction false} IndexIsFirst(order: seq<string>, tag: string)
    requires tag in order
    ensures FirstAt(order, IndexOf(order, tag), tag)
  {
    if order[0] != tag {
      IndexIsFirst(order[1..], tag);
      var i := IndexOf(order[1..], tag);
      assert order[..i + 1] == [order[0]] + order[1..][..i];
    }
  }

  lemma FirstIsUnique(order: seq<string>, i: nat, j: nat, tag: string)
    requires FirstAt(order, i, tag) && FirstAt(order, j, tag)
    ensures i == j
  {
    assert forall k :: 0 <= k < j ==> order[k] in order[..j];
    assert forall k :: 0 <= k < i ==> order[k] in order[..i];
  }

  /** With an order the governing value has the tag that comes last in it, and of those the greatest id; without one it
      has the smallest id of all. */
  lemma GovernsExactly<V>(
    digester: Digester<V>, d: Directory, arguments: seq<V>, order: seq<string>, r: Result<Observation, LabelError>,
    g: string, i: nat, j: nat)
    requires Observes(digester, d, arguments, order, r) && r.Success? && g in Found(digester, d, arguments)
    ensures r.value.digest.Some? && r.value.digest.value in d
    ensures var x, y := d[g], d[r.value.digest.value];
      && r.value.valueId == Some(y.valueId)
      && (order == [] ==> Leq(y.valueId, x.valueId))
      && (order != [] && FirstAt(order, i, x.tag) && FirstAt(order, j, y.tag) ==>
            i < j || (i == j && Leq(x.valueId, y.valueId)))
  {
    if order != [] {
      var x, y := d[g], d[r.value.digest.value];
      IndexIsFirst(order, x.tag);
      IndexIsFirst(order, y.tag);
      if FirstAt(order, i, x.tag) && FirstAt(order, j, y.tag) {
        FirstIsUnique(order, i, IndexOf(order, x.tag), x.tag);
        FirstIsUnique(order, j, IndexOf(order, y.tag), y.tag);
      }
    }
  }
}
