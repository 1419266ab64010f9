/** Families of scenarios and the cells of the result matrix (src/harness/matrix_grouping.py, and the
    family rule of src/harness/campaign.py). */
module Matrix {
  import opened Wrappers

  const ARMS := [
    "B0", "B1", "B2-broad-noexchange", "B2-exchange-broad", "B2-exchange-task", "B2-exchange-task-DPoP", "B-cap", "B3",
    "B3+"]

  const LADDER := {"F1", "F2", "F3"}
  const CONFIGURATION := {"F4", "F5"}

  datatype MatrixError = UnknownFamily | UnknownArm | NoConfiguration | SpuriousConfiguration

  /** `subcase.split(":")`. */
  function Parts(s: string): (r: seq<string>)
    ensures |r| > 0
  {
    if s == "" then [""]
    else
      var rest := Parts(s[1..]);
      if s[0] == ':' then [""] + rest else [[s[0]] + rest[0]] + rest[1..]
  }

  predicate IsFamily(s: string) {
    s == "F1" || s == "F2" || s == "F3" || s == "F4" || s == "F5"
  }

  predicate NamesFamily(part: string) {
    |part| >= 2 && IsFamily(part[..2])
  }

  /** `_family_of`. */
  method FamilyLoop(subcase: string) returns (family: string)
    ensures family == FamilyOf(subcase)
  {
    var parts := Parts(subcase);
    if IsFamily(parts[0]) {
      FamilyHead(parts);
      return parts[0];
    }
    for n := 0 to |parts|
      invariant FirstFamily(parts) == FirstFamily(parts[n..])
    {
      assert parts[n..][1..] == parts[n + 1..];
      if NamesFamily(parts[n]) {
        return parts[n][..2];
      }
    }
    return "F1";
  }

  /** The family of a scenario: that named by the first part of its subcase to begin with one. */
  function FamilyOf(subcase: string): (r: string)
    ensures r in LADDER + CONFIGURATION
  {
    FirstFamily(Parts(subcase))
  }

  function FirstFamily(parts: seq<string>): (r: string)
    ensures IsFamily(r)
  {
    if parts == [] then "F1"
    else if NamesFamily(parts[0]) then parts[0][..2]
    else FirstFamily(parts[1..])
  }

  lemma FamilyHead(parts: seq<string>)
    requires parts != [] && IsFamily(parts[0])
    ensures FirstFamily(parts) == parts[0]
  {
    assert parts[0][..2] == parts[0];
  }

  datatype Cell = Cell(family: string, arm: string, admitted: bool, monitorAttached: Option<bool>)

  /** `Cell.__post_init__`: why the cell may not be recorded, if it may not. */
  function Refusal(c: Cell): Option<MatrixError> {
    if c.family !in LADDER + CONFIGURATION then Some(UnknownFamily)
    else if c.arm !in ARMS then Some(UnknownArm)
    else if c.family in CONFIGURATION && c.monitorAttached.None? then Some(NoConfiguration)
    else if c.family in LADDER && c.monitorAttached.Some? then Some(SpuriousConfiguration)
    else None
  }

  function Families(rows: seq<Cell>): set<string> {
    set c | c in rows :: c.family
  }

  function Configurations(rows: seq<Cell>): set<Option<bool>> {
    set c | c in rows :: c.monitorAttached
  }

  /** `comparison_is_sound`, less its message. */
  predicate ComparisonIsSound(rows: seq<Cell>) {
    if rows == [] then false
    else if Families(rows) - CONFIGURATION != {} then Families(rows) * CONFIGURATION == {}
    else |Configurations(rows)| == 1
  }

  lemma SingletonByEquality<T>(s: set<T>, x: T)
    requires x in s
    ensures |s| == 1 <==> forall y :: y in s ==> y == x
  {
    if |s| == 1 {
      assert |s - {x}| == 0;
    }
    if forall y :: y in s ==> y == x {
      assert s == {x};
    }
  }

  lemma SomeLadder(rows: seq<Cell>)
    ensures Families(rows) - CONFIGURATION != {} <==> exists c :: c in rows && c.family !in CONFIGURATION
  {
    if Families(rows) - CONFIGURATION != {} {
      var f :| f in Families(rows) - CONFIGURATION;
      var c :| c in rows && c.family == f;
    }
    if c :| c in rows && c.family !in CONFIGURATION {
      assert c.family in Families(rows) - CONFIGURATION;
    }
  }

  lemma NoConfigurationFamily(rows: seq<Cell>)
    ensures Families(rows) * CONFIGURATION == {} <==> forall c :: c in rows ==> c.family !in CONFIGURATION
  {
    if c :| c in rows && c.family in CONFIGURATION {
      assert c.family in Families(rows) * CONFIGURATION;
    }
    if Families(rows) * CONFIGURATION != {} {
      var f :| f in Families(rows) * CONFIGURATION;
      var c :| c in rows && c.family == f;
    }
  }

  lemma OneConfiguration(rows: seq<Cell>)
    requires rows != []
    ensures |Configurations(rows)| == 1 <==> forall c :: c in rows ==> c.monitorAttached == rows[0].monitorAttached
  {
    assert rows[0] in rows;
    assert rows[0].monitorAttached in Configurations(rows);
    SingletonByEquality(Configurations(rows), rows[0].monitorAttached);
    forall c | c in rows
      ensures c.monitorAttached in Configurations(rows)
    {
    }
  }

  lemma ConfigurationMarksTheFamily(c: Cell)
    requires Refusal(c) == None
    ensures c.monitorAttached.Some? <==> c.family in CONFIGURATION
  {
  }

  predicate SameConfiguration(rows: seq<Cell>) {
    rows != [] && forall c :: c in rows ==> c.monitorAttached == rows[0].monitorAttached
  }

  /** Among recordable cells the two ways of grouping need no separate rule: a comparison is sound exactly
      when every cell in it was measured under the same configuration. */
  lemma SoundExactlyUnderOneConfiguration(rows: seq<Cell>)
    requires forall c :: c in rows ==> Refusal(c) == None
    ensures ComparisonIsSound(rows) <==> SameConfiguration(rows)
  {
    if rows != [] {
      SomeLadder(rows);
      NoConfigurationFamily(rows);
      OneConfiguration(rows);
      forall c | c in rows
        ensures c.monitorAttached.Some? <==> c.family in CONFIGURATION
      {
        ConfigurationMarksTheFamily(c);
      }
      assert rows[0] in rows;
    }
  }

  // ---- families and refusals, spelt out ----

  /** Some part of the subcase, where parts are separated by colons, begins with a family at this place. */
  predicate FamilyAt(s: string, i: nat) {
    i + 2 <= |s| && (i == 0 || s[i - 1] == ':') && s[i..i + 2] in {"F1", "F2", "F3", "F4", "F5"}
  }

  /** The first part runs up to the first colon, and the others are the parts of what follows it. */
  lemma {:induction false} PartsOf(s: string)
    ensures var head := Parts(s)[0];
      && |head| <= |s| && head == s[..|head|] && ':' !in head
      && (|head| == |s| ==> Parts(s) == [head])
      && (|head| < |s| ==> s[|head|] == ':' && Parts(s) == [head] + Parts(s[|head| + 1..]))
  {
    if s != "" {
      PartsOf(s[1..]);
      var rest := Parts(s[1..]);
      if s[0] != ':' {
        var head := [s[0]] + rest[0];
        assert Parts(s)[0] == head && s[..|head|] == [s[0]] + s[1..][..|rest[0]|];
        if |rest[0]| < |s[1..]| {
          assert s[1..][|rest[0]| + 1..] == s[|head| + 1..];
        }
      }
    }
  }

  predicate NoFamilyBefore(s: string, i: nat) {
    forall j :: 0 <= j < i ==> !FamilyAt(s, j)
  }

  /** The family is the one the first part to begin with one begins with, and F1 if none does. */
  ghost predicate FamilyIsFirst(s: string, family: string) {
    && (NoFamilyBefore(s, |s|) ==> family == "F1")
    && forall i :: 0 <= i < |s| && FamilyAt(s, i) && NoFamilyBefore(s, i) ==> family == s[i..i + 2]
  }

  lemma FamilyInTail(s: string, tail: string, n: nat, family: string)
    requires 0 < n <= |s| && tail == s[n..] && s[n - 1] == ':'
    requires NoFamilyBefore(s, n) && FamilyIsFirst(tail, family)
    ensures FamilyIsFirst(s, family)
  {
    forall i | n <= i < |s|
      ensures FamilyAt(tail, i - n) <==> FamilyAt(s, i)
      ensures FamilyAt(s, i) ==> tail[i - n..i - n + 2] == s[i..i + 2]
    {
      if i + 2 <= |s| {
        assert tail[i - n..i - n + 2] == s[i..i + 2];
      }
    }
    forall j | 0 <= j < |tail|
      ensures FamilyAt(tail, j) <==> FamilyAt(s, n + j)
    {
      assert FamilyAt(tail, n + j - n) <==> FamilyAt(s, n + j);
    }
  }

  /** No place within the first part but its beginning counts. */
  lemma NoneInsideHead(s: string, head: string)
    requires head == Parts(s)[0]
    ensures forall i :: 0 < i <= |head| ==> !FamilyAt(s, i)
  {
    PartsOf(s);
    forall i | 0 < i <= |head|
      ensures !FamilyAt(s, i)
    {
      assert head[i - 1] == s[i - 1] && head[i - 1] in head;
    }
  }

  lemma FamilyAtTheStart(s: string, family: string)
    requires FamilyAt(s, 0) && family == s[..2]
    ensures FamilyIsFirst(s, family)
  {
    assert s[0..0 + 2] == s[..2];
  }

  lemma OnlyPart(head: string)
    requires !NamesFamily(head)
    ensures FirstFamily([head]) == "F1"
  {
    assert [head][1..] == [] && FirstFamily([]) == "F1";
  }

  lemma LaterPart(head: string, parts: seq<string>)
    requires !NamesFamily(head)
    ensures FirstFamily([head] + parts) == FirstFamily(parts)
  {
    assert ([head] + parts)[1..] == parts;
  }

  lemma {:induction false} FamilyExactly(s: string)
    ensures FamilyIsFirst(s, FamilyOf(s))
    decreases |s|
  {
    PartsOf(s);
    FamilyOfFirst(s);
    var head := Parts(s)[0];
    NoneInsideHead(s, head);
    if NamesFamily(head) {
      FamilyAtTheStart(s, FamilyOf(s));
    } else if |head| < |s| {
      var tail := s[|head| + 1..];
      FamilyExactly(tail);
      LaterPart(head, Parts(tail));
      FamilyInTail(s, tail, |head| + 1, FamilyOf(tail));
    } else {
      OnlyPart(head);
    }
  }

  lemma FamilyOfFirst(s: string)
    ensures FamilyAt(s, 0) <==> NamesFamily(Parts(s)[0])
    ensures FamilyAt(s, 0) ==> FamilyOf(s) == s[..2] == Parts(s)[0][..2]
  {
    PartsOf(s);
    var head := Parts(s)[0];
    assert FamilyAt(s, 0) ==> s[0] == s[..2][0] == 'F' && s[1] == s[..2][1] != ':';
    if |head| >= 2 {
      assert head[..2] == s[..2] == s[0..0 + 2];
    }
  }

  /** Why a cell is refused: the first of four reasons, and none for a recordable one. */
  lemma RefusedForTheFirstReason(c: Cell)
    ensures var known := c.family in {"F1", "F2", "F3", "F4", "F5"};
      var onLadder := c.arm in {"B0", "B1", "B2-broad-noexchange", "B2-exchange-broad", "B2-exchange-task",
                                "B2-exchange-task-DPoP", "B-cap", "B3", "B3+"};
      var configured := c.family in {"F4", "F5"};
      && (Refusal(c) == Some(UnknownFamily) <==> !known)
      && (Refusal(c) == Some(UnknownArm) <==> known && !onLadder)
      && (Refusal(c) == Some(NoConfiguration) <==> known && onLadder && configured && c.monitorAttached == None)
      && (Refusal(c) == Some(SpuriousConfiguration) <==>
            known && onLadder && !configured && c.monitorAttached != None)
  {
  }
}
