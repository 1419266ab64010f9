/** The campaign loop (src/harness/campaign.py): every scenario against every arm, each pair scored or
    recorded as unscorable. */
module Campaign {
  import opened Wrappers
  import opened Sequences
  import opened Scoring
  import Matrix
  import Clock
  import Scores

  /** One entry of the dict of arms. */
  datatype Factory = Factory(arm: string, setup: Clock.Setup)

  /** How a run ends: with a record, with a `RunnerError`, or with any other exception. */
  datatype Ending<+T> = Completed(value: T) | Incomplete(why: string) | Broken(why: string)

  /** What a run comes to: what its arm calls itself, which need not be its key, and what it left behind. */
  datatype Deed = Deed(arm: string, evidence: Evidence)

  /** A completed run, with the epoch it observed. */
  datatype Run = Run(arm: string, iat: int, evidence: Evidence)

  /** Everything outside the loop.  The wall clock may read anything at each cell, a run may do anything, and
      the harness's own checks may find anything at the instant they are made for.  All of them may raise. */
  datatype Environment = Environment(
    corpus: map<string, Sealed>,
    clock: (string, string) -> int,
    mint: (string, int) -> Result<Clock.Artifacts, string>,
    behave: (string, string, int) -> Ending<Deed>,
    judge: (Evidence, int) -> Result<Judgement, string>,
    delta: int,
    monitorAttached: Option<bool>,
    ledgerBacked: bool,
    artifactInstant: Option<int>
  )

  datatype Disposition = NotApplicable | Refused(reason: Clock.Refusal) | DidNotComplete(why: string)

  datatype Unscorable = Unscorable(scenario: string, arm: string, reason: Disposition)

  datatype CampaignError =
    | ConfigurationNeeded
    | NoSuchScenario(scenario: string)
    | UnknownFault(scenario: string)
    | MintingBroke(why: string)
    | RunBroke(why: string)
    | JudgingBroke(why: string)
    | NotScorable(cause: Scores.ScoreError)
    | NotRecordable(reason: Matrix.MatrixError)

  datatype Table = Table(cells: seq<Verdict>, unscorable: seq<Unscorable>)

  /** What becomes of one pair; a pair that raises ends the campaign. */
  datatype Outcome =
    | Scored(cell: Verdict)
    | Unscored(entry: Unscorable)
    | Raised(scenario: string, arm: string, error: CampaignError)

  const FAULTS := [
    "none", "invalid_credential", "unauthenticated_caller", "audience_mismatch", "wrong_registered_holder",
    "stolen_AT_key_substitution"]

  ghost predicate Arms(factories: seq<Factory>) {
    forall f :: f in factories ==> Clock.IsDict(f.setup)
  }

  /** `run_scenario` observes at the instant it is handed, or at its own reading of the clock. */
  function RunScenario(env: Environment, scenario: string, arm: string, now: Option<int>): (r: Ending<Run>) {
    var epoch := if now.Some? then now.value else env.clock(scenario, arm);
    match env.behave(scenario, arm, epoch)
    case Completed(deed) => Completed(Run(deed.arm, epoch, deed.evidence))
    case Incomplete(why) => Incomplete(why)
    case Broken(why) => Broken(why)
  }

  function MintedAt(env: Environment, instant: int): int {
    if env.artifactInstant.Some? then env.artifactInstant.value else instant
  }

  /** The cell that is checked, not the one that is recorded: it carries the arm's key, and its configuration is
      narrowed to the families that have one. */
  function CellOf(v: Verdict, arm: string): Matrix.Cell {
    Matrix.Cell(v.family, arm, v.forwarded, if v.family in Matrix.CONFIGURATION then v.monitorAttached else None)
  }

  /** Score a completed run at the epoch it observed, and check the cell. */
  function Judged(env: Environment, scenario: string, arm: string, run: Run): Outcome
    requires scenario in env.corpus
  {
    var record := env.corpus[scenario];
    match env.judge(run.evidence, run.iat)
    case Failure(why) => Raised(scenario, arm, JudgingBroke(why))
    case Success(j) =>
      match ScoreCell(scenario, run.arm, Matrix.FamilyOf(record.subcase), env.monitorAttached, env.ledgerBacked,
                      record, run.evidence, j)
      case Failure(e) => Raised(scenario, arm, NotScorable(e))
      case Success(v) =>
        match Matrix.Refusal(CellOf(v, arm))
        case Some(reason) => Raised(scenario, arm, NotRecordable(reason))
        case None => Scored(v)
  }

  /** What becomes of one pair. */
  function OutcomeOf(env: Environment, scenario: string, f: Factory): Outcome
    requires scenario in env.corpus && Clock.IsDict(f.setup)
  {
    if f.arm in env.corpus[scenario].notApplicable then Unscored(Unscorable(scenario, f.arm, NotApplicable))
    else
      var instant := env.clock(scenario, f.arm);
      match env.mint(scenario, MintedAt(env, instant))
      case Failure(why) => Raised(scenario, f.arm, MintingBroke(why))
      case Success(artifacts) =>
        match Clock.ClockRefusal(artifacts, f.setup, instant, env.delta)
        case Some(reason) => Unscored(Unscorable(scenario, f.arm, Refused(reason)))
        case None =>
          match RunScenario(env, scenario, f.arm, Some(instant))
          case Incomplete(why) => Unscored(Unscorable(scenario, f.arm, DidNotComplete(why)))
          case Broken(why) => Raised(scenario, f.arm, RunBroke(why))
          case Completed(run) => Judged(env, scenario, f.arm, run)
  }

  /** One outcome enters the table, unless it is an exception. */
  function Enter(table: Table, o: Outcome): (r: Result<Table, CampaignError>) {
    match o
    case Unscored(entry) => Success(table.(unscorable := table.unscorable + [entry]))
    case Scored(cell) => Success(table.(cells := table.cells + [cell]))
    case Raised(_, _, error) => Failure(error)
  }

  function Row(env: Environment, scenario: string, factories: seq<Factory>, table: Table)
    : (r: Result<Table, CampaignError>)
    requires scenario in env.corpus && Arms(factories)
    decreases |factories|
  {
    if factories == [] then Success(table)
    else
      var n := |factories| - 1;
      var before :- Row(env, scenario, factories[..n], table);
      Enter(before, OutcomeOf(env, scenario, factories[n]))
  }

  /** The documents of a scenario can be read and its fault is known. */
  predicate Readable(env: Environment, scenario: string) {
    scenario in env.corpus && env.corpus[scenario].reference.credentialFault in FAULTS
  }

  function Rows(env: Environment, scenarios: seq<string>, factories: seq<Factory>): (r: Result<Table, CampaignError>)
    requires Arms(factories)
    decreases |scenarios|
  {
    if scenarios == [] then Success(Table([], []))
    else
      var n := |scenarios| - 1;
      var before :- Rows(env, scenarios[..n], factories);
      if scenarios[n] !in env.corpus then Failure(NoSuchScenario(scenarios[n]))
      else if env.corpus[scenarios[n]].reference.credentialFault !in FAULTS then Failure(UnknownFault(scenarios[n]))
      else Row(env, scenarios[n], factories, before)
  }

  predicate InConfigurationFamily(env: Environment, scenario: string) {
    scenario in env.corpus && Matrix.FamilyOf(env.corpus[scenario].subcase) in Matrix.CONFIGURATION
  }

  /** `check_configuration_families`. */
  predicate NeedsConfiguration(env: Environment, scenarios: seq<string>) {
    env.monitorAttached.None? && exists scenario :: scenario in scenarios && InConfigurationFamily(env, scenario)
  }

  function Campaign(env: Environment, scenarios: seq<string>, factories: seq<Factory>)
    : (r: Result<Table, CampaignError>)
    requires Arms(factories)
  {
    if NeedsConfiguration(env, scenarios) then Failure(ConfigurationNeeded) else Rows(env, scenarios, factories)
  }

  // ---- the loops ----

  method RunCell(env: Environment, scenario: string, family: string, notApplicable: set<string>, f: Factory)
    returns (o: Outcome)
    requires scenario in env.corpus && Clock.IsDict(f.setup)
    requires family == Matrix.FamilyOf(env.corpus[scenario].subcase)
    requires notApplicable == env.corpus[scenario].notApplicable
    ensures o == OutcomeOf(env, scenario, f)
  {
    if f.arm in notApplicable {
      return Unscored(Unscorable(scenario, f.arm, NotApplicable));
    }
    var instant := env.clock(scenario, f.arm);
    var artifacts := env.mint(scenario, if env.artifactInstant.None? then instant else env.artifactInstant.value);
    if artifacts.Failure? {
      return Raised(scenario, f.arm, MintingBroke(artifacts.error));
    }
    var refusal := Clock.ClockRefusalLoop(artifacts.value, f.setup, instant, env.delta);
    if refusal.Some? {
      return Unscored(Unscorable(scenario, f.arm, Refused(refusal.value)));
    }
    var ending := RunScenario(env, scenario, f.arm, Some(instant));
    match ending
    case Incomplete(why) => o := Unscored(Unscorable(scenario, f.arm, DidNotComplete(why)));
    case Broken(why) => o := Raised(scenario, f.arm, RunBroke(why));
    case Completed(run) => o := JudgeRun(env, scenario, family, f.arm, run);
  }

  method JudgeRun(env: Environment, scenario: string, family: string, arm: string, run: Run) returns (o: Outcome)
    requires scenario in env.corpus && family == Matrix.FamilyOf(env.corpus[scenario].subcase)
    ensures o == Judged(env, scenario, arm, run)
  {
    var judgement := env.judge(run.evidence, run.iat);
    if judgement.Failure? {
      return Raised(scenario, arm, JudgingBroke(judgement.error));
    }
    var verdict := ScoreCell(scenario, run.arm, family, env.monitorAttached, env.ledgerBacked, env.corpus[scenario],
                             run.evidence, judgement.value);
    if verdict.Failure? {
      return Raised(scenario, arm, NotScorable(verdict.error));
    }
    var cell := CellOf(verdict.value, arm);
    if Matrix.Refusal(cell).Some? {
      return Raised(scenario, arm, NotRecordable(Matrix.Refusal(cell).value));
    }
    o := Scored(verdict.value);
  }

  lemma RowFailsOnce(env: Environment, scenario: string, factories: seq<Factory>, table: Table, n: nat)
    requires scenario in env.corpus && Arms(factories) && n <= |factories|
    requires Arms(factories[..n]) && Row(env, scenario, factories[..n], table).Failure?
    ensures Row(env, scenario, factories, table) == Row(env, scenario, factories[..n], table)
    decreases |factories|
  {
    if n < |factories| {
      assert factories[..|factories| - 1][..n] == factories[..n];
      RowFailsOnce(env, scenario, factories[..|factories| - 1], table, n);
    } else {
      assert factories[..n] == factories;
    }
  }

  lemma RowStep(
    env: Environment, scenario: string, upTo: seq<Factory>, front: seq<Factory>, last: Factory, table: Table)
    requires scenario in env.corpus && Arms(upTo) && upTo == front + [last]
    ensures Arms(front) && Clock.IsDict(last.setup)
    ensures Row(env, scenario, upTo, table) ==
      match Row(env, scenario, front, table)
      case Failure(error) => Failure(error)
      case Success(before) => Enter(before, OutcomeOf(env, scenario, last))
  {
    assert upTo[..|upTo| - 1] == front && upTo[|upTo| - 1] == last;
    assert forall f :: f in front ==> f in upTo;
  }

  method RowLoop(env: Environment, scenario: string, factories: seq<Factory>, table: Table)
    returns (r: Result<Table, CampaignError>)
    requires scenario in env.corpus && Arms(factories)
    ensures r == Row(env, scenario, factories, table)
  {
    var cells, unscorable := table.cells, table.unscorable;
    var family := Matrix.FamilyLoop(env.corpus[scenario].subcase);
    for n := 0 to |factories|
      invariant Row(env, scenario, factories[..n], table) == Success(Table(cells, unscorable))
    {
      var o := RunCell(env, scenario, family, env.corpus[scenario].notApplicable, factories[n]);
      RowStep(env, scenario, factories[..n + 1], factories[..n], factories[n], table);
      match o
      case Unscored(entry) => unscorable := unscorable + [entry];
      case Scored(cell) => cells := cells + [cell];
      case Raised(_, _, error) =>
        RowFailsOnce(env, scenario, factories, table, n + 1);
        return Failure(error);
    }
    assert factories[..|factories|] == factories;
    r := Success(Table(cells, unscorable));
  }

  lemma RowsFailOnce(env: Environment, scenarios: seq<string>, factories: seq<Factory>, n: nat)
    requires Arms(factories) && n <= |scenarios|
    requires Rows(env, scenarios[..n], factories).Failure?
    ensures Rows(env, scenarios, factories) == Rows(env, scenarios[..n], factories)
    decreases |scenarios|
  {
    if n < |scenarios| {
      assert scenarios[..|scenarios| - 1][..n] == scenarios[..n];
      RowsFailOnce(env, scenarios[..|scenarios| - 1], factories, n);
    } else {
      assert scenarios[..n] == scenarios;
    }
  }

  method RunCampaign(env: Environment, scenarios: seq<string>, factories: seq<Factory>)
    returns (r: Result<Table, CampaignError>)
    requires Arms(factories)
    ensures r == Campaign(env, scenarios, factories)
  {
    if NeedsConfiguration(env, scenarios) {
      return Failure(ConfigurationNeeded);
    }
    var table := Table([], []);
    for n := 0 to |scenarios|
      invariant Rows(env, scenarios[..n], factories) == Success(table)
    {
      assert scenarios[..n + 1][..n] == scenarios[..n];
      if scenarios[n] !in env.corpus {
        RowsFailOnce(env, scenarios, factories, n + 1);
        return Failure(NoSuchScenario(scenarios[n]));
      }
      if env.corpus[scenarios[n]].reference.credentialFault !in FAULTS {
        RowsFailOnce(env, scenarios, factories, n + 1);
        return Failure(UnknownFault(scenarios[n]));
      }
      var row := RowLoop(env, scenarios[n], factories, table);
      if row.Failure? {
        RowsFailOnce(env, scenarios, factories, n + 1);
        return row;
      }
      table := row.value;
    }
    assert scenarios[..|scenarios|] == scenarios;
    r := Success(table);
  }

  // ---- what the loops tabulate ----

  datatype Pair = Pair(scenario: string, arm: string)

  function PairOfCell(v: Verdict): Pair {
    Pair(v.scenario, v.arm)
  }

  function PairOfEntry(entry: Unscorable): Pair {
    Pair(entry.scenario, entry.arm)
  }

  function RowPairs(scenario: string, factories: seq<Factory>): (r: seq<Pair>)
    ensures |r| == |factories|
  {
    seq(|factories|, i requires 0 <= i < |factories| => Pair(scenario, factories[i].arm))
  }

  function AllPairs(scenarios: seq<string>, factories: seq<Factory>): (r: seq<Pair>)
    decreases |scenarios|
  {
    if scenarios == [] then []
    else AllPairs(scenarios[..|scenarios| - 1], factories) + RowPairs(scenarios[|scenarios| - 1], factories)
  }

  function PairOf(o: Outcome): Pair {
    match o
    case Scored(cell) => PairOfCell(cell)
    case Unscored(entry) => PairOfEntry(entry)
    case Raised(scenario, arm, _) => Pair(scenario, arm)
  }

  function RowOutcomes(env: Environment, scenario: string, factories: seq<Factory>): (r: seq<Outcome>)
    requires scenario in env.corpus && Arms(factories)
    ensures |r| == |factories|
  {
    seq(|factories|, i requires 0 <= i < |factories| => OutcomeOf(env, scenario, factories[i]))
  }

  /** What becomes of every pair, in the order the loops come to them. */
  function AllOutcomes(env: Environment, scenarios: seq<string>, factories: seq<Factory>): (r: seq<Outcome>)
    requires Arms(factories) && forall s :: s in scenarios ==> s in env.corpus
    decreases |scenarios|
  {
    if scenarios == [] then []
    else
      var n := |scenarios| - 1;
      AllOutcomes(env, scenarios[..n], factories) + RowOutcomes(env, scenarios[n], factories)
  }

  function CellsOf(outcomes: seq<Outcome>): (r: seq<Verdict>)
    decreases |outcomes|
  {
    if outcomes == [] then []
    else
      var n := |outcomes| - 1;
      CellsOf(outcomes[..n]) + (if outcomes[n].Scored? then [outcomes[n].cell] else [])
  }

  function EntriesOf(outcomes: seq<Outcome>): (r: seq<Unscorable>)
    decreases |outcomes|
  {
    if outcomes == [] then []
    else
      var n := |outcomes| - 1;
      EntriesOf(outcomes[..n]) + (if outcomes[n].Unscored? then [outcomes[n].entry] else [])
  }

  function Tabulate(outcomes: seq<Outcome>): Table {
    Table(CellsOf(outcomes), EntriesOf(outcomes))
  }

  lemma CellsAppend(outcomes: seq<Outcome>, o: Outcome)
    ensures CellsOf(outcomes + [o]) == if o.Scored? then CellsOf(outcomes) + [o.cell] else CellsOf(outcomes)
    ensures EntriesOf(outcomes + [o]) == if o.Unscored? then EntriesOf(outcomes) + [o.entry] else EntriesOf(outcomes)
  {
    assert (outcomes + [o])[..|outcomes|] == outcomes;
  }

  lemma TabulateAppend(outcomes: seq<Outcome>, o: Outcome)
    requires Enter(Tabulate(outcomes), o).Success?
    ensures Enter(Tabulate(outcomes), o) == Success(Tabulate(outcomes + [o]))
  {
    CellsAppend(outcomes, o);
  }

  /** The table holds what it held before and the outcomes of this row, none of which raised. */
  ghost predicate RowTabulated(
    env: Environment, scenario: string, factories: seq<Factory>, before: seq<Outcome>, table: Table)
    requires scenario in env.corpus && Arms(factories)
  {
    var all := before + RowOutcomes(env, scenario, factories);
    table == Tabulate(all) && NoneRaised(all)
  }

  lemma RowTabulatesOne(
    env: Environment, scenario: string, front: seq<Factory>, f: Factory, factories: seq<Factory>,
    before: seq<Outcome>, table: Table)
    requires scenario in env.corpus && Arms(factories) && Arms(front) && factories == front + [f]
    requires Clock.IsDict(f.setup)
    requires RowTabulated(env, scenario, front, before, table) && Enter(table, OutcomeOf(env, scenario, f)).Success?
    ensures RowTabulated(env, scenario, factories, before, Enter(table, OutcomeOf(env, scenario, f)).value)
  {
    var done := before + RowOutcomes(env, scenario, front);
    TabulateAppend(done, OutcomeOf(env, scenario, f));
    assert before + RowOutcomes(env, scenario, factories) == done + [OutcomeOf(env, scenario, f)];
  }

  lemma RowStartsTabulated(env: Environment, scenario: string, before: seq<Outcome>)
    requires scenario in env.corpus && NoneRaised(before)
    ensures RowTabulated(env, scenario, [], before, Tabulate(before))
  {
    assert before + RowOutcomes(env, scenario, []) == before;
  }

  lemma {:induction false} RowTabulates(
    env: Environment, scenario: string, factories: seq<Factory>, before: seq<Outcome>)
    requires scenario in env.corpus && Arms(factories) && Row(env, scenario, factories, Tabulate(before)).Success?
    requires NoneRaised(before)
    ensures RowTabulated(env, scenario, factories, before, Row(env, scenario, factories, Tabulate(before)).value)
    decreases |factories|
  {
    if factories == [] {
      RowStartsTabulated(env, scenario, before);
    } else {
      var front, last := factories[..|factories| - 1], factories[|factories| - 1];
      RowStep(env, scenario, factories, front, last, Tabulate(before));
      RowTabulates(env, scenario, front, before);
      RowTabulatesOne(env, scenario, front, last, factories, before, Row(env, scenario, front, Tabulate(before)).value);
    }
  }

  ghost predicate InCorpus(env: Environment, scenarios: seq<string>) {
    forall s :: s in scenarios ==> s in env.corpus
  }

  ghost predicate Tabulated(env: Environment, scenarios: seq<string>, factories: seq<Factory>, table: Table)
    requires Arms(factories)
  {
    && InCorpus(env, scenarios)
    && table == Tabulate(AllOutcomes(env, scenarios, factories))
    && NoneRaised(AllOutcomes(env, scenarios, factories))
  }

  lemma OneMoreRow(
    env: Environment, front: seq<string>, last: string, scenarios: seq<string>, factories: seq<Factory>,
    before: Table)
    requires Arms(factories) && last in env.corpus && scenarios == front + [last]
    requires Tabulated(env, front, factories, before) && Row(env, last, factories, before).Success?
    ensures Tabulated(env, scenarios, factories, Row(env, last, factories, before).value)
  {
    RowTabulates(env, last, factories, AllOutcomes(env, front, factories));
    assert scenarios[..|front|] == front;
  }

  lemma {:induction false} RowsAreTabulated(env: Environment, scenarios: seq<string>, factories: seq<Factory>)
    requires Arms(factories) && Rows(env, scenarios, factories).Success?
    ensures Tabulated(env, scenarios, factories, Rows(env, scenarios, factories).value)
    decreases |scenarios|
  {
    if scenarios != [] {
      var n := |scenarios| - 1;
      RowsAreTabulated(env, scenarios[..n], factories);
      OneMoreRow(env, scenarios[..n], scenarios[n], scenarios, factories, Rows(env, scenarios[..n], factories).value);
    }
  }

  /** The nested loops tabulate the outcomes of the whole product, in order. */
  lemma RowsTabulate(env: Environment, scenarios: seq<string>, factories: seq<Factory>)
    requires Arms(factories) && Rows(env, scenarios, factories).Success?
    ensures forall s :: s in scenarios ==> s in env.corpus
    ensures Rows(env, scenarios, factories).value == Tabulate(AllOutcomes(env, scenarios, factories))
    ensures NoneRaised(AllOutcomes(env, scenarios, factories))
  {
    RowsAreTabulated(env, scenarios, factories);
  }

  // ---- the table partitions the matrix ----

  /** Every pair the table accounts for, as often as it does. */
  function Accounted(table: Table): multiset<Pair> {
    multiset(Map(PairOfCell, table.cells)) + multiset(Map(PairOfEntry, table.unscorable))
  }

  ghost predicate NoneRaised(outcomes: seq<Outcome>) {
    forall i :: 0 <= i < |outcomes| ==> !outcomes[i].Raised?
  }

  lemma TabulatedPairsStep(front: seq<Outcome>, o: Outcome)
    requires !o.Raised?
    ensures Accounted(Tabulate(front + [o])) == Accounted(Tabulate(front)) + multiset{PairOf(o)}
  {
    CellsAppend(front, o);
    match o
    case Scored(cell) => MapAppend(PairOfCell, CellsOf(front), cell);
    case Unscored(entry) => MapAppend(PairOfEntry, EntriesOf(front), entry);
  }

  lemma TabulatedPairsLift(front: seq<Outcome>, o: Outcome)
    requires !o.Raised? && Accounted(Tabulate(front)) == multiset(Map(PairOf, front))
    ensures Accounted(Tabulate(front + [o])) == multiset(Map(PairOf, front + [o]))
  {
    TabulatedPairsStep(front, o);
    MapAppend(PairOf, front, o);
  }

  lemma {:induction false} TabulatedPairs(outcomes: seq<Outcome>)
    requires NoneRaised(outcomes)
    ensures Accounted(Tabulate(outcomes)) == multiset(Map(PairOf, outcomes))
    decreases |outcomes|
  {
    if outcomes != [] {
      var front, o := outcomes[..|outcomes| - 1], outcomes[|outcomes| - 1];
      TabulatedPairs(front);
      TabulatedPairsLift(front, o);
      assert outcomes == front + [o];
    }
  }

  /** Every completed run of the arm is recorded under its key. */
  ghost predicate CalledByItsKey(env: Environment, f: Factory) {
    forall s, t :: env.behave(s, f.arm, t).Completed? ==> env.behave(s, f.arm, t).value.arm == f.arm
  }

  ghost predicate AllCalledByTheirKeys(env: Environment, factories: seq<Factory>) {
    forall f :: f in factories ==> CalledByItsKey(env, f)
  }

  lemma OutcomeIsOfItsPair(env: Environment, scenario: string, f: Factory)
    requires scenario in env.corpus && Clock.IsDict(f.setup) && CalledByItsKey(env, f)
    ensures PairOf(OutcomeOf(env, scenario, f)) == Pair(scenario, f.arm)
  {
    if OutcomeOf(env, scenario, f).Scored? {
      ScoredOutcome(env, scenario, f, OutcomeOf(env, scenario, f).cell);
    }
  }

  lemma PairsOfRow(env: Environment, scenario: string, factories: seq<Factory>)
    requires Arms(factories) && scenario in env.corpus && AllCalledByTheirKeys(env, factories)
    ensures Map(PairOf, RowOutcomes(env, scenario, factories)) == RowPairs(scenario, factories)
  {
    forall i | 0 <= i < |factories|
      ensures PairOf(OutcomeOf(env, scenario, factories[i])) == Pair(scenario, factories[i].arm)
    {
      OutcomeIsOfItsPair(env, scenario, factories[i]);
    }
  }

  lemma {:induction false} PairsOfAllOutcomes(env: Environment, scenarios: seq<string>, factories: seq<Factory>)
    requires Arms(factories) && AllCalledByTheirKeys(env, factories) && InCorpus(env, scenarios)
    ensures Map(PairOf, AllOutcomes(env, scenarios, factories)) == AllPairs(scenarios, factories)
    decreases |scenarios|
  {
    if scenarios != [] {
      var n := |scenarios| - 1;
      PairsOfAllOutcomes(env, scenarios[..n], factories);
      PairsOfRow(env, scenarios[n], factories);
      MapConcat(PairOf, AllOutcomes(env, scenarios[..n], factories), RowOutcomes(env, scenarios[n], factories));
    }
  }

  /** No pair is lost, none is invented and none is counted twice: where every arm calls itself by its key, what
      the table accounts for is exactly the product of scenarios and arms. */
  lemma TablePartitionsTheMatrix(env: Environment, scenarios: seq<string>, factories: seq<Factory>)
    requires Arms(factories) && Rows(env, scenarios, factories).Success? && AllCalledByTheirKeys(env, factories)
    ensures Accounted(Rows(env, scenarios, factories).value) == multiset(AllPairs(scenarios, factories))
  {
    RowsTabulate(env, scenarios, factories);
    TabulatedPairs(AllOutcomes(env, scenarios, factories));
    PairsOfAllOutcomes(env, scenarios, factories);
  }

  ghost predicate Distinct<T>(s: seq<T>) {
    forall i, j :: 0 <= i < j < |s| ==> s[i] != s[j]
  }

  ghost predicate DistinctArms(factories: seq<Factory>) {
    forall i, j :: 0 <= i < j < |factories| ==> factories[i].arm != factories[j].arm
  }

  lemma {:induction false} DistinctOnce<T>(s: seq<T>, x: T)
    requires Distinct(s)
    ensures multiset(s)[x] == if x in s then 1 else 0
    decreases |s|
  {
    if s != [] {
      var front, last := s[..|s| - 1], s[|s| - 1];
      assert s == front + [last];
      DistinctOnce(front, x);
      assert last !in front;
    }
  }

  lemma {:induction false} PairsAreDistinct(scenarios: seq<string>, factories: seq<Factory>)
    requires Distinct(scenarios) && DistinctArms(factories)
    ensures Distinct(AllPairs(scenarios, factories))
    ensures forall p :: p in AllPairs(scenarios, factories) ==> p.scenario in scenarios
    ensures forall s, f :: s in scenarios && f in factories ==> Pair(s, f.arm) in AllPairs(scenarios, factories)
    decreases |scenarios|
  {
    if scenarios != [] {
      var front, last := scenarios[..|scenarios| - 1], scenarios[|scenarios| - 1];
      assert scenarios == front + [last];
      PairsAreDistinct(front, factories);
      var before, row := AllPairs(front, factories), RowPairs(last, factories);
      assert last !in front;
      forall i, j | 0 <= i < j < |before + row|
        ensures (before + row)[i] != (before + row)[j]
      {
        if i < |before| <= j {
          assert (before + row)[i] == before[i] && before[i] in before;
          assert (before + row)[j].scenario == last;
        }
      }
      forall s, f | s in scenarios && f in factories
        ensures Pair(s, f.arm) in before + row
      {
        if s == last {
          var i :| 0 <= i < |factories| && factories[i] == f;
          assert row[i] == Pair(s, f.arm);
        }
      }
    }
  }

  /** Each pair lands in exactly one of the two lists, once. */
  lemma EveryPairExactlyOnce(
    env: Environment, scenarios: seq<string>, factories: seq<Factory>, scenario: string, f: Factory)
    requires Arms(factories) && Rows(env, scenarios, factories).Success? && AllCalledByTheirKeys(env, factories)
    requires Distinct(scenarios) && DistinctArms(factories) && scenario in scenarios && f in factories
    ensures Accounted(Rows(env, scenarios, factories).value)[Pair(scenario, f.arm)] == 1
  {
    TablePartitionsTheMatrix(env, scenarios, factories);
    PairsAreDistinct(scenarios, factories);
    DistinctOnce(AllPairs(scenarios, factories), Pair(scenario, f.arm));
  }

  /** What a scenario's own row of outcomes is recorded under. */
  function Recorded(env: Environment, scenario: string, factories: seq<Factory>): multiset<Pair>
    requires Arms(factories) && scenario in env.corpus
  {
    multiset(Map(PairOf, RowOutcomes(env, scenario, factories)))
  }

  lemma OutcomeIsOfItsScenario(env: Environment, scenario: string, f: Factory)
    requires scenario in env.corpus && Clock.IsDict(f.setup)
    ensures PairOf(OutcomeOf(env, scenario, f)).scenario == scenario
  {
    if OutcomeOf(env, scenario, f).Scored? {
      ScoredOutcome(env, scenario, f, OutcomeOf(env, scenario, f).cell);
    }
  }

  lemma RowRecordsItsScenario(env: Environment, scenario: string, factories: seq<Factory>, p: Pair)
    requires Arms(factories) && scenario in env.corpus && p.scenario != scenario
    ensures Recorded(env, scenario, factories)[p] == 0
  {
    var row := RowOutcomes(env, scenario, factories);
    forall i | 0 <= i < |row|
      ensures PairOf(row[i]).scenario == scenario
    {
      OutcomeIsOfItsScenario(env, scenario, factories[i]);
    }
    assert p !in Map(PairOf, row);
  }

  lemma {:induction false} AbsentScenario(env: Environment, scenarios: seq<string>, factories: seq<Factory>, p: Pair)
    requires Arms(factories) && InCorpus(env, scenarios) && p.scenario !in scenarios
    ensures multiset(Map(PairOf, AllOutcomes(env, scenarios, factories)))[p] == 0
    decreases |scenarios|
  {
    if scenarios != [] {
      var n := |scenarios| - 1;
      AbsentScenario(env, scenarios[..n], factories, p);
      RowRecordsItsScenario(env, scenarios[n], factories, p);
      MapConcat(PairOf, AllOutcomes(env, scenarios[..n], factories), RowOutcomes(env, scenarios[n], factories));
    }
  }

  lemma {:induction false} OnlyItsOwnRow(env: Environment, scenarios: seq<string>, factories: seq<Factory>, p: Pair)
    requires Arms(factories) && InCorpus(env, scenarios) && Distinct(scenarios) && p.scenario in scenarios
    ensures multiset(Map(PairOf, AllOutcomes(env, scenarios, factories)))[p]
      == Recorded(env, p.scenario, factories)[p]
    decreases |scenarios|
  {
    var n := |scenarios| - 1;
    var front, last := scenarios[..n], scenarios[n];
    assert scenarios == front + [last];
    MapConcat(PairOf, AllOutcomes(env, front, factories), RowOutcomes(env, last, factories));
    if p.scenario == last {
      assert last !in front;
      AbsentScenario(env, front, factories, p);
    } else {
      OnlyItsOwnRow(env, front, factories, p);
      RowRecordsItsScenario(env, last, factories, p);
    }
  }

  /** Whatever the arms call themselves, the table accounts for a pair as often as the scenario's row records an
      outcome under its name. */
  lemma AccountedAsRecorded(env: Environment, scenarios: seq<string>, factories: seq<Factory>, p: Pair)
    requires Arms(factories) && Rows(env, scenarios, factories).Success?
    requires Distinct(scenarios) && p.scenario in scenarios
    ensures p.scenario in env.corpus
    ensures Accounted(Rows(env, scenarios, factories).value)[p] == Recorded(env, p.scenario, factories)[p]
  {
    RowsTabulate(env, scenarios, factories);
    TabulatedPairs(AllOutcomes(env, scenarios, factories));
    OnlyItsOwnRow(env, scenarios, factories, p);
  }

  /** An arm filed under a key that is not its name: once it is scored, its pair is in neither list. */
  lemma MisfiledArmIsLost(
    env: Environment, scenarios: seq<string>, factories: seq<Factory>, scenario: string, f: Factory)
    requires Arms(factories) && Rows(env, scenarios, factories).Success?
    requires Distinct(scenarios) && DistinctArms(factories) && scenario in scenarios && f in factories
    requires scenario in env.corpus && OutcomeOf(env, scenario, f).Scored?
    requires OutcomeOf(env, scenario, f).cell.arm != f.arm
    requires forall g :: g in factories && g != f ==> CalledByItsKey(env, g)
    ensures Accounted(Rows(env, scenarios, factories).value)[Pair(scenario, f.arm)] == 0
  {
    var row, p := RowOutcomes(env, scenario, factories), Pair(scenario, f.arm);
    AccountedAsRecorded(env, scenarios, factories, p);
    forall i | 0 <= i < |row|
      ensures PairOf(row[i]) != p
    {
      var g := factories[i];
      assert g in factories;
      if g != f {
        OutcomeIsOfItsPair(env, scenario, g);
        var j :| 0 <= j < |factories| && factories[j] == f;
        assert g.arm != f.arm;
      }
    }
    assert p !in Map(PairOf, row);
  }

  // ---- what is in the table ----

  /** The outcome is in the list it belongs to. */
  predicate Tabled(table: Table, o: Outcome) {
    match o
    case Scored(cell) => cell in table.cells
    case Unscored(entry) => entry in table.unscorable
    case Raised(_, _, _) => false
  }

  ghost predicate ArisesIn(env: Environment, scenarios: seq<string>, factories: seq<Factory>, o: Outcome)
    requires Arms(factories)
  {
    exists s, f :: s in scenarios && s in env.corpus && f in factories && OutcomeOf(env, s, f) == o
  }

  lemma {:induction false} TabulatedMembers(outcomes: seq<Outcome>, o: Outcome)
    ensures Tabled(Tabulate(outcomes), o) <==> o in outcomes && !o.Raised?
    decreases |outcomes|
  {
    if outcomes != [] {
      var front, last := outcomes[..|outcomes| - 1], outcomes[|outcomes| - 1];
      TabulatedMembers(front, o);
      assert outcomes == front + [last];
    }
  }

  lemma RowArises(env: Environment, scenario: string, factories: seq<Factory>, o: Outcome)
    requires Arms(factories) && scenario in env.corpus
    ensures o in RowOutcomes(env, scenario, factories)
      <==> exists f :: f in factories && OutcomeOf(env, scenario, f) == o
  {
    var row := RowOutcomes(env, scenario, factories);
    assert forall i :: 0 <= i < |factories| ==> factories[i] in factories;
    if o in row {
      var i :| 0 <= i < |row| && row[i] == o;
      assert OutcomeOf(env, scenario, factories[i]) == o;
    }
    if f :| f in factories && OutcomeOf(env, scenario, f) == o {
      var i :| 0 <= i < |factories| && factories[i] == f;
      assert row[i] == o;
    }
  }

  lemma ArisesInOneMore(
    env: Environment, front: seq<string>, last: string, scenarios: seq<string>, factories: seq<Factory>, o: Outcome)
    requires Arms(factories) && last in env.corpus && scenarios == front + [last]
    ensures ArisesIn(env, scenarios, factories, o)
      <==> ArisesIn(env, front, factories, o) || o in RowOutcomes(env, last, factories)
  {
    RowArises(env, last, factories, o);
    if ArisesIn(env, front, factories, o) {
      var s, f :| s in front && s in env.corpus && f in factories && OutcomeOf(env, s, f) == o;
      assert s in scenarios;
    }
    assert last in scenarios;
  }

  lemma {:induction false} AllOutcomesArise(
    env: Environment, scenarios: seq<string>, factories: seq<Factory>, o: Outcome)
    requires Arms(factories) && forall s :: s in scenarios ==> s in env.corpus
    ensures o in AllOutcomes(env, scenarios, factories) <==> ArisesIn(env, scenarios, factories, o)
    decreases |scenarios|
  {
    if scenarios != [] {
      var n := |scenarios| - 1;
      AllOutcomesArise(env, scenarios[..n], factories, o);
      ArisesInOneMore(env, scenarios[..n], scenarios[n], scenarios, factories, o);
    }
  }

  /** The table holds exactly the outcomes of its pairs. */
  lemma TableHoldsTheOutcomes(env: Environment, scenarios: seq<string>, factories: seq<Factory>, o: Outcome)
    requires Arms(factories) && Rows(env, scenarios, factories).Success?
    ensures Tabled(Rows(env, scenarios, factories).value, o) <==> ArisesIn(env, scenarios, factories, o)
  {
    RowsTabulate(env, scenarios, factories);
    assert o in AllOutcomes(env, scenarios, factories) ==> !o.Raised?;
    TabulatedMembers(AllOutcomes(env, scenarios, factories), o);
    AllOutcomesArise(env, scenarios, factories, o);
  }

  /** The row is what the oracle's quantities come to on the evidence of a run made, and judged, at the
      instant. */
  ghost predicate ScoredAt(env: Environment, v: Verdict, f: Factory, t: int)
    requires v.scenario in env.corpus
  {
    var record := env.corpus[v.scenario];
    env.behave(v.scenario, f.arm, t).Completed?
    && var deed := env.behave(v.scenario, f.arm, t).value;
      env.judge(deed.evidence, t).Success?
      && ScoreCell(v.scenario, deed.arm, Matrix.FamilyOf(record.subcase), env.monitorAttached, env.ledgerBacked,
                   record, deed.evidence, env.judge(deed.evidence, t).value) == Success(v)
      && v.arm == deed.arm
  }

  /** The arm applies, and at the one reading of the clock for its cell every credential of the arm is in force,
      every artifact it carried is fresh, and the run was made and judged. */
  ghost predicate Covered(env: Environment, v: Verdict, f: Factory)
    requires v.scenario in env.corpus
  {
    var t := env.clock(v.scenario, f.arm);
    var artifacts := env.mint(v.scenario, MintedAt(env, t));
    && f.arm !in env.corpus[v.scenario].notApplicable
    && Clock.AllInForce(f.setup.names, f.setup.values, t)
    && artifacts.Success? && Clock.ArtifactsFresh(artifacts.value, t, env.delta)
    && ScoredAt(env, v, f, t)
  }

  lemma ScoredOutcome(env: Environment, scenario: string, f: Factory, v: Verdict)
    requires scenario in env.corpus && Clock.IsDict(f.setup) && OutcomeOf(env, scenario, f) == Scored(v)
    ensures v.scenario == scenario && Covered(env, v, f)
    ensures v.family == Matrix.FamilyOf(env.corpus[scenario].subcase) && v.monitorAttached == env.monitorAttached
    ensures Matrix.Refusal(CellOf(v, f.arm)) == None
  {
    var t := env.clock(scenario, f.arm);
    var deed := env.behave(scenario, f.arm, t).value;
    ScoredUnderItsName(scenario, deed.arm, Matrix.FamilyOf(env.corpus[scenario].subcase), env.monitorAttached,
                       env.ledgerBacked, env.corpus[scenario], deed.evidence, env.judge(deed.evidence, t).value);
    Clock.ScorableExactlyWhen(env.mint(scenario, MintedAt(env, t)).value, f.setup, t, env.delta);
  }

  /** A cell is scored only where every credential of its arm is in force, and every artifact it carried is
      fresh, at the very instant the run is made and judged at.  It records the campaign's configuration, and
      the cell that was checked carried that configuration exactly if its family has one. */
  lemma ScoredCellsAreCovered(env: Environment, scenarios: seq<string>, factories: seq<Factory>, v: Verdict)
    requires Arms(factories) && Campaign(env, scenarios, factories).Success?
    requires v in Campaign(env, scenarios, factories).value.cells
    ensures v.scenario in scenarios && v.scenario in env.corpus
    ensures exists f :: f in factories && Covered(env, v, f)
    ensures v.monitorAttached == env.monitorAttached
    ensures forall arm :: CellOf(v, arm).monitorAttached.Some? <==> v.family in Matrix.CONFIGURATION
    ensures forall arm :: CellOf(v, arm).monitorAttached.Some? ==> CellOf(v, arm).monitorAttached == v.monitorAttached
  {
    TableHoldsTheOutcomes(env, scenarios, factories, Scored(v));
    var s, f :| s in scenarios && s in env.corpus && f in factories && OutcomeOf(env, s, f) == Scored(v);
    ScoredOutcome(env, s, f, v);
    Matrix.ConfigurationMarksTheFamily(CellOf(v, f.arm));
  }

  // ---- when the campaign raises ----

  /** A completed run is judged that cannot be scored or recorded: the checks of the harness break, its arm is off
      the ladder, or its evidence or sealed record meets a guard. */
  predicate CannotBeJudged(env: Environment, scenario: string, arm: string, e: Evidence, t: int)
    requires scenario in env.corpus
  {
    || env.judge(e, t).Failure?
    || arm !in Matrix.ARMS
    || MeetsAGuard(Matrix.FamilyOf(env.corpus[scenario].subcase), env.ledgerBacked, env.corpus[scenario], e)
  }

  /** A pair that ends the campaign: its artifacts cannot be minted, or the clock lets it run and the run breaks or
      cannot be judged. */
  ghost predicate CannotStand(env: Environment, scenario: string, f: Factory)
    requires scenario in env.corpus && Clock.IsDict(f.setup)
  {
    var t := env.clock(scenario, f.arm);
    var artifacts := env.mint(scenario, MintedAt(env, t));
    f.arm !in env.corpus[scenario].notApplicable
    && (artifacts.Success? ==>
          Clock.AllInForce(f.setup.names, f.setup.values, t) && Clock.ArtifactsFresh(artifacts.value, t, env.delta)
          && match env.behave(scenario, f.arm, t)
             case Incomplete(_) => false
             case Broken(_) => true
             case Completed(deed) => CannotBeJudged(env, scenario, f.arm, deed.evidence, t))
  }

  /** A cell made by the campaign can only be refused for its arm. */
  lemma RefusedExactlyForTheArm(env: Environment, scenario: string, arm: string, v: Verdict)
    requires scenario in env.corpus && v.family == Matrix.FamilyOf(env.corpus[scenario].subcase)
    requires v.monitorAttached == env.monitorAttached
    requires env.monitorAttached.Some? || !InConfigurationFamily(env, scenario)
    ensures Matrix.Refusal(CellOf(v, arm)) == if arm in Matrix.ARMS then None else Some(Matrix.UnknownArm)
  {
  }

  lemma JudgedRaisesExactly(env: Environment, scenario: string, arm: string, run: Run)
    requires scenario in env.corpus
    requires env.monitorAttached.Some? || !InConfigurationFamily(env, scenario)
    ensures Judged(env, scenario, arm, run).Raised? <==> CannotBeJudged(env, scenario, arm, run.evidence, run.iat)
  {
    var record := env.corpus[scenario];
    var family := Matrix.FamilyOf(record.subcase);
    var judgement := env.judge(run.evidence, run.iat);
    if judgement.Success? {
      var e, j := run.evidence, judgement.value;
      RaisesExactlyOnAGuard(scenario, run.arm, family, env.monitorAttached, env.ledgerBacked, record, e, j);
      var r := ScoreCell(scenario, run.arm, family, env.monitorAttached, env.ledgerBacked, record, e, j);
      if r.Success? {
        ScoredUnderItsName(scenario, run.arm, family, env.monitorAttached, env.ledgerBacked, record, e, j);
        RefusedExactlyForTheArm(env, scenario, arm, r.value);
      }
    }
  }

  lemma RaisedExactly(env: Environment, scenario: string, f: Factory)
    requires scenario in env.corpus && Clock.IsDict(f.setup)
    requires env.monitorAttached.Some? || !InConfigurationFamily(env, scenario)
    ensures OutcomeOf(env, scenario, f).Raised? <==> CannotStand(env, scenario, f)
  {
    var t := env.clock(scenario, f.arm);
    var artifacts := env.mint(scenario, MintedAt(env, t));
    if artifacts.Success? {
      Clock.ScorableExactlyWhen(artifacts.value, f.setup, t, env.delta);
      var ending := env.behave(scenario, f.arm, t);
      if ending.Completed? {
        JudgedRaisesExactly(env, scenario, f.arm, Run(ending.value.arm, t, ending.value.evidence));
      }
    }
  }

  ghost predicate RowCannotStand(env: Environment, scenario: string, factories: seq<Factory>)
    requires scenario in env.corpus && Arms(factories)
  {
    exists f :: f in factories && CannotStand(env, scenario, f)
  }

  lemma {:induction false} RowRaises(env: Environment, scenario: string, factories: seq<Factory>, table: Table)
    requires scenario in env.corpus && Arms(factories)
    requires env.monitorAttached.Some? || !InConfigurationFamily(env, scenario)
    ensures Row(env, scenario, factories, table).Failure? <==> RowCannotStand(env, scenario, factories)
    decreases |factories|
  {
    if factories != [] {
      var front, f := factories[..|factories| - 1], factories[|factories| - 1];
      RowRaises(env, scenario, front, table);
      assert factories == front + [f];
      assert f in factories;
      if Row(env, scenario, front, table).Success? {
        RaisedExactly(env, scenario, f);
      } else {
        var g :| g in front && CannotStand(env, scenario, g);
        assert g in factories;
      }
    }
  }

  /** A scenario that ends the campaign: it cannot be read, or one of its pairs cannot stand. */
  ghost predicate EndsTheCampaign(env: Environment, scenario: string, factories: seq<Factory>)
    requires Arms(factories)
  {
    !Readable(env, scenario) || RowCannotStand(env, scenario, factories)
  }

  ghost predicate SomeEnds(env: Environment, scenarios: seq<string>, factories: seq<Factory>)
    requires Arms(factories)
  {
    exists s :: s in scenarios && EndsTheCampaign(env, s, factories)
  }

  lemma {:induction false} RowsRaise(env: Environment, scenarios: seq<string>, factories: seq<Factory>)
    requires Arms(factories) && !NeedsConfiguration(env, scenarios)
    ensures Rows(env, scenarios, factories).Failure? <==> SomeEnds(env, scenarios, factories)
    decreases |scenarios|
  {
    if scenarios != [] {
      var front, last := scenarios[..|scenarios| - 1], scenarios[|scenarios| - 1];
      assert scenarios == front + [last];
      assert last in scenarios;
      assert forall s :: s in front ==> s in scenarios;
      RowsRaise(env, front, factories);
      if Rows(env, front, factories).Success? {
        if Readable(env, last) {
          RowRaises(env, last, factories, Rows(env, front, factories).value);
        }
      } else {
        var s :| s in front && EndsTheCampaign(env, s, factories);
        assert s in scenarios;
      }
    }
  }

  /** A scenario that needs to be told whether the monitor is attached. */
  ghost predicate IsConfigured(env: Environment, s: string) {
    s in env.corpus && Matrix.FamilyOf(env.corpus[s].subcase) in {"F4", "F5"}
  }

  /** The scenario has no record, or its record names a fault nobody knows. */
  ghost predicate Unreadable(env: Environment, s: string) {
    s !in env.corpus
    || env.corpus[s].reference.credentialFault !in {
         "none", "invalid_credential", "unauthenticated_caller", "audience_mismatch", "wrong_registered_holder",
         "stolen_AT_key_substitution"}
  }

  /** Past the other preconditions, a campaign ends without a table exactly when its configuration is missing, a
      scenario cannot be read, or a pair comes up that cannot stand: minting its artifacts breaks, or the clock
      lets it run and the run breaks other than by a `RunnerError`, the harness's checks break, its arm is off the
      ladder, its mediation record is ambiguous, its sealed record says nothing of benignness, or its context
      binding cannot be judged. */
  lemma FailsExactly(env: Environment, scenarios: seq<string>, factories: seq<Factory>)
    requires Arms(factories)
    ensures Campaign(env, scenarios, factories).Failure? <==>
      || (env.monitorAttached == None && exists s :: s in scenarios && IsConfigured(env, s))
      || (exists s :: s in scenarios && Unreadable(env, s))
      || (exists s, f :: s in scenarios && s in env.corpus && f in factories && CannotStand(env, s, f))
    ensures Campaign(env, scenarios, factories).Failure?
      <==> NeedsConfiguration(env, scenarios) || SomeEnds(env, scenarios, factories)
  {
    forall s
      ensures IsConfigured(env, s) <==> InConfigurationFamily(env, s)
      ensures Unreadable(env, s) <==> !Readable(env, s)
    {
    }
    if !NeedsConfiguration(env, scenarios) {
      RowsRaise(env, scenarios, factories);
    }
    if SomeEnds(env, scenarios, factories) {
      var s :| s in scenarios && EndsTheCampaign(env, s, factories);
      if Readable(env, s) {
        var f :| f in factories && CannotStand(env, s, f);
      }
    }
    if s, f :| s in scenarios && s in env.corpus && f in factories && CannotStand(env, s, f) {
      assert EndsTheCampaign(env, s, factories);
    }
    if s :| s in scenarios && Unreadable(env, s) {
      assert EndsTheCampaign(env, s, factories);
    }
  }

  /** A run that breaks ends a campaign in which nothing else is wrong; the same run left incomplete does not. */
  lemma BrokenRunEndsTheCampaign(env: Environment, scenario: string, f: Factory)
    requires Clock.IsDict(f.setup) && Readable(env, scenario) && !NeedsConfiguration(env, [scenario])
    requires var t := env.clock(scenario, f.arm);
      var artifacts := env.mint(scenario, MintedAt(env, t));
      && f.arm !in env.corpus[scenario].notApplicable
      && Clock.AllInForce(f.setup.names, f.setup.values, t)
      && artifacts.Success? && Clock.ArtifactsFresh(artifacts.value, t, env.delta)
      && !env.behave(scenario, f.arm, t).Completed?
    ensures Campaign(env, [scenario], [f]).Failure?
      <==> env.behave(scenario, f.arm, env.clock(scenario, f.arm)).Broken?
  {
    FailsExactly(env, [scenario], [f]);
    assert scenario in [scenario] && f in [f];
    if SomeEnds(env, [scenario], [f]) {
      var s :| s in [scenario] && EndsTheCampaign(env, s, [f]);
      var g :| g in [f] && CannotStand(env, scenario, g);
    } else {
      assert !CannotStand(env, scenario, f);
    }
  }

  // ---- which list a pair lands in ----

  /** At the one reading of the clock for the cell: the arm applies, minting succeeds, and every credential is in
      force and every artifact fresh. */
  ghost predicate MayRun(env: Environment, scenario: string, f: Factory)
    requires scenario in env.corpus
  {
    var t := env.clock(scenario, f.arm);
    var artifacts := env.mint(scenario, MintedAt(env, t));
    && f.arm !in env.corpus[scenario].notApplicable
    && artifacts.Success?
    && Clock.AllInForce(f.setup.names, f.setup.values, t)
    && Clock.ArtifactsFresh(artifacts.value, t, env.delta)
  }

  lemma CoveredIsScored(env: Environment, f: Factory, v: Verdict)
    requires v.scenario in env.corpus && Clock.IsDict(f.setup) && Covered(env, v, f)
    requires !OutcomeOf(env, v.scenario, f).Raised?
    ensures OutcomeOf(env, v.scenario, f) == Scored(v)
  {
    var t := env.clock(v.scenario, f.arm);
    Clock.ScorableExactlyWhen(env.mint(v.scenario, MintedAt(env, t)).value, f.setup, t, env.delta);
  }

  lemma TableRaisesNothing(env: Environment, scenarios: seq<string>, factories: seq<Factory>, s: string, f: Factory)
    requires Arms(factories) && Campaign(env, scenarios, factories).Success?
    requires s in scenarios && f in factories
    ensures s in env.corpus && !CannotStand(env, s, f)
    ensures env.monitorAttached.Some? || !InConfigurationFamily(env, s)
    ensures !OutcomeOf(env, s, f).Raised?
  {
    FailsExactly(env, scenarios, factories);
    assert !EndsTheCampaign(env, s, factories);
    RaisedExactly(env, s, f);
  }

  /** The cells of the table are exactly the verdicts of the pairs that may run and whose run completed, whatever
      the verdicts say. */
  lemma CellsExactly(env: Environment, scenarios: seq<string>, factories: seq<Factory>, v: Verdict)
    requires Arms(factories) && Campaign(env, scenarios, factories).Success?
    ensures v in Campaign(env, scenarios, factories).value.cells
      <==> v.scenario in scenarios && v.scenario in env.corpus && exists f :: f in factories && Covered(env, v, f)
  {
    if v in Campaign(env, scenarios, factories).value.cells {
      ScoredCellsAreCovered(env, scenarios, factories, v);
    } else if v.scenario in scenarios && v.scenario in env.corpus {
      forall f | f in factories
        ensures !Covered(env, v, f)
      {
        TableRaisesNothing(env, scenarios, factories, v.scenario, f);
        TableHoldsTheOutcomes(env, scenarios, factories, Scored(v));
        if Covered(env, v, f) {
          CoveredIsScored(env, f, v);
        }
      }
    }
  }

  /** A pair that may run and whose run completes is scored, and its verdict is in the table. */
  lemma CompletedRunsAreScored(env: Environment, scenarios: seq<string>, factories: seq<Factory>, s: string, f: Factory)
    requires Arms(factories) && Campaign(env, scenarios, factories).Success?
    requires s in scenarios && f in factories && s in env.corpus && MayRun(env, s, f)
    requires env.behave(s, f.arm, env.clock(s, f.arm)).Completed?
    ensures var t := env.clock(s, f.arm);
      var deed := env.behave(s, f.arm, t).value;
      && env.judge(deed.evidence, t).Success?
      && var verdict := ScoreCell(s, deed.arm, Matrix.FamilyOf(env.corpus[s].subcase), env.monitorAttached,
                                  env.ledgerBacked, env.corpus[s], deed.evidence, env.judge(deed.evidence, t).value);
        verdict.Success? && verdict.value in Campaign(env, scenarios, factories).value.cells
  {
    TableRaisesNothing(env, scenarios, factories, s, f);
    var t := env.clock(s, f.arm);
    var deed := env.behave(s, f.arm, t).value;
    var j := env.judge(deed.evidence, t).value;
    var record := env.corpus[s];
    var family := Matrix.FamilyOf(record.subcase);
    RaisesExactlyOnAGuard(s, deed.arm, family, env.monitorAttached, env.ledgerBacked, record, deed.evidence, j);
    ScoredUnderItsName(s, deed.arm, family, env.monitorAttached, env.ledgerBacked, record, deed.evidence, j);
    var v := ScoreCell(s, deed.arm, family, env.monitorAttached, env.ledgerBacked, record, deed.evidence, j).value;
    assert Covered(env, v, f);
    CellsExactly(env, scenarios, factories, v);
  }

  lemma EntryIsOfItsPair(
    env: Environment, scenarios: seq<string>, factories: seq<Factory>, s: string, f: Factory, reason: Disposition)
    requires Arms(factories) && DistinctArms(factories) && Campaign(env, scenarios, factories).Success?
    requires s in scenarios && f in factories && s in env.corpus
    ensures Unscorable(s, f.arm, reason) in Campaign(env, scenarios, factories).value.unscorable
      <==> OutcomeOf(env, s, f) == Unscored(Unscorable(s, f.arm, reason))
  {
    var o := Unscored(Unscorable(s, f.arm, reason));
    TableHoldsTheOutcomes(env, scenarios, factories, o);
    if ArisesIn(env, scenarios, factories, o) {
      var s', g :| s' in scenarios && s' in env.corpus && g in factories && OutcomeOf(env, s', g) == o;
      EntryNamesItsPair(env, s', g, o.entry);
      SameArmSameFactory(factories, f, g);
    }
  }

  lemma EntryNamesItsPair(env: Environment, scenario: string, f: Factory, entry: Unscorable)
    requires scenario in env.corpus && Clock.IsDict(f.setup) && OutcomeOf(env, scenario, f) == Unscored(entry)
    ensures entry.scenario == scenario && entry.arm == f.arm
  {
  }

  lemma SameArmSameFactory(factories: seq<Factory>, f: Factory, g: Factory)
    requires DistinctArms(factories) && f in factories && g in factories && f.arm == g.arm
    ensures f == g
  {
    var i :| 0 <= i < |factories| && factories[i] == f;
    var j :| 0 <= j < |factories| && factories[j] == g;
    assert i == j;
  }

  lemma WhyUnscored(env: Environment, s: string, f: Factory)
    requires s in env.corpus && Clock.IsDict(f.setup) && !OutcomeOf(env, s, f).Raised?
    ensures var o := OutcomeOf(env, s, f);
      var t := env.clock(s, f.arm);
      && (o == Unscored(Unscorable(s, f.arm, NotApplicable)) <==> f.arm in env.corpus[s].notApplicable)
      && ((exists reason :: o == Unscored(Unscorable(s, f.arm, Refused(reason))))
            <==> f.arm !in env.corpus[s].notApplicable && !MayRun(env, s, f))
      && forall why :: o == Unscored(Unscorable(s, f.arm, DidNotComplete(why)))
            <==> MayRun(env, s, f) && env.behave(s, f.arm, t) == Incomplete(why)
  {
    var t := env.clock(s, f.arm);
    var artifacts := env.mint(s, MintedAt(env, t));
    if artifacts.Success? {
      Clock.ScorableExactlyWhen(artifacts.value, f.setup, t, env.delta);
      var refusal := Clock.ClockRefusal(artifacts.value, f.setup, t, env.delta);
      if f.arm !in env.corpus[s].notApplicable && refusal.Some? {
        assert OutcomeOf(env, s, f) == Unscored(Unscorable(s, f.arm, Refused(refusal.value)));
      }
    }
  }

  /** The unscorable list says of each pair why it was not scored: the arm does not apply, the clock refuses it, or
      it may run and its run ended in a `RunnerError`. */
  lemma EntriesExactly(env: Environment, scenarios: seq<string>, factories: seq<Factory>, s: string, f: Factory)
    requires Arms(factories) && DistinctArms(factories) && Campaign(env, scenarios, factories).Success?
    requires s in scenarios && f in factories && s in env.corpus
    ensures var entries := Campaign(env, scenarios, factories).value.unscorable;
      && (Unscorable(s, f.arm, NotApplicable) in entries <==> f.arm in env.corpus[s].notApplicable)
      && ((exists reason :: Unscorable(s, f.arm, Refused(reason)) in entries)
            <==> f.arm !in env.corpus[s].notApplicable && !MayRun(env, s, f))
      && forall why :: Unscorable(s, f.arm, DidNotComplete(why)) in entries
            <==> MayRun(env, s, f) && env.behave(s, f.arm, env.clock(s, f.arm)) == Incomplete(why)
  {
    TableRaisesNothing(env, scenarios, factories, s, f);
    WhyUnscored(env, s, f);
    forall reason {
      EntryIsOfItsPair(env, scenarios, factories, s, f, reason);
    }
  }

  // ---- which error ends a campaign ----

  /** What a pair that cannot stand raises: the first thing that goes wrong with it. */
  ghost predicate RaisedFor(env: Environment, s: string, f: Factory, error: CampaignError)
    requires s in env.corpus
  {
    var t := env.clock(s, f.arm);
    match env.mint(s, MintedAt(env, t))
    case Failure(why) => error == MintingBroke(why)
    case Success(_) =>
      match env.behave(s, f.arm, t)
      case Incomplete(_) => false
      case Broken(why) => error == RunBroke(why)
      case Completed(deed) =>
        match env.judge(deed.evidence, t)
        case Failure(why) => error == JudgingBroke(why)
        case Success(_) =>
          if MeetsAGuard(Matrix.FamilyOf(env.corpus[s].subcase), env.ledgerBacked, env.corpus[s], deed.evidence)
          then error.NotScorable? else error == NotRecordable(Matrix.UnknownArm)
  }

  lemma JudgedError(env: Environment, s: string, arm: string, run: Run)
    requires s in env.corpus && Judged(env, s, arm, run).Raised?
    requires env.monitorAttached.Some? || !InConfigurationFamily(env, s)
    ensures var o, judgement := Judged(env, s, arm, run), env.judge(run.evidence, run.iat);
      && o.scenario == s && o.arm == arm
      && (judgement.Failure? ==> o.error == JudgingBroke(judgement.error))
      && (judgement.Success? ==>
            if MeetsAGuard(Matrix.FamilyOf(env.corpus[s].subcase), env.ledgerBacked, env.corpus[s], run.evidence)
            then o.error.NotScorable? else o.error == NotRecordable(Matrix.UnknownArm))
  {
    var record := env.corpus[s];
    var family := Matrix.FamilyOf(record.subcase);
    var judgement := env.judge(run.evidence, run.iat);
    if judgement.Success? {
      var e, j := run.evidence, judgement.value;
      RaisesExactlyOnAGuard(s, run.arm, family, env.monitorAttached, env.ledgerBacked, record, e, j);
      var r := ScoreCell(s, run.arm, family, env.monitorAttached, env.ledgerBacked, record, e, j);
      if r.Success? {
        ScoredUnderItsName(s, run.arm, family, env.monitorAttached, env.ledgerBacked, record, e, j);
        RefusedExactlyForTheArm(env, s, arm, r.value);
      }
    }
  }

  lemma WhyRaised(env: Environment, s: string, f: Factory)
    requires s in env.corpus && Clock.IsDict(f.setup) && OutcomeOf(env, s, f).Raised?
    requires env.monitorAttached.Some? || !InConfigurationFamily(env, s)
    ensures var o := OutcomeOf(env, s, f);
      o.scenario == s && o.arm == f.arm && RaisedFor(env, s, f, o.error)
  {
    var t := env.clock(s, f.arm);
    if env.mint(s, MintedAt(env, t)).Success? && env.behave(s, f.arm, t).Completed? {
      var deed := env.behave(s, f.arm, t).value;
      JudgedError(env, s, f.arm, Run(deed.arm, t, deed.evidence));
    }
  }

  /** The first arm of the scenario that cannot stand raises the error. */
  ghost predicate FirstRaises(env: Environment, s: string, factories: seq<Factory>, k: nat, error: CampaignError)
    requires s in env.corpus && Arms(factories)
  {
    && k < |factories| && factories[k] in factories
    && CannotStand(env, s, factories[k]) && RaisedFor(env, s, factories[k], error)
    && forall j :: 0 <= j < k ==> factories[j] in factories && !CannotStand(env, s, factories[j])
  }

  lemma {:induction false} RowErrorExactly(env: Environment, s: string, factories: seq<Factory>, table: Table)
    returns (k: nat)
    requires s in env.corpus && Arms(factories) && Row(env, s, factories, table).Failure?
    requires env.monitorAttached.Some? || !InConfigurationFamily(env, s)
    ensures FirstRaises(env, s, factories, k, Row(env, s, factories, table).error)
    decreases |factories|
  {
    var n := |factories| - 1;
    var front, last := factories[..n], factories[n];
    RowStep(env, s, factories, front, last, table);
    assert forall j :: 0 <= j < n ==> front[j] == factories[j] && factories[j] in factories;
    if Row(env, s, front, table).Failure? {
      k := RowErrorExactly(env, s, front, table);
    } else {
      k := n;
      RowRaises(env, s, front, table);
      assert forall j :: 0 <= j < n ==> front[j] in front;
      RaisedExactly(env, s, last);
      WhyRaised(env, s, last);
    }
  }

  /** The first scenario that ends the campaign decides its error. */
  ghost predicate FirstEnds(
    env: Environment, scenarios: seq<string>, factories: seq<Factory>, i: nat, error: CampaignError)
    requires Arms(factories)
  {
    && i < |scenarios|
    && (forall j :: 0 <= j < i ==> !EndsTheCampaign(env, scenarios[j], factories))
    && var s := scenarios[i];
      if s !in env.corpus then error == NoSuchScenario(s)
      else if Unreadable(env, s) then error == UnknownFault(s)
      else exists k :: FirstRaises(env, s, factories, k, error)
  }

  lemma {:induction false} RowsErrorExactly(env: Environment, scenarios: seq<string>, factories: seq<Factory>)
    returns (i: nat)
    requires Arms(factories) && Rows(env, scenarios, factories).Failure? && !NeedsConfiguration(env, scenarios)
    ensures FirstEnds(env, scenarios, factories, i, Rows(env, scenarios, factories).error)
    decreases |scenarios|
  {
    var n := |scenarios| - 1;
    var front, last := scenarios[..n], scenarios[n];
    assert forall j :: 0 <= j < n ==> front[j] == scenarios[j] && front[j] in front && front[j] in scenarios;
    assert last in scenarios;
    if Rows(env, front, factories).Failure? {
      i := RowsErrorExactly(env, front, factories);
    } else {
      i := n;
      RowsRaise(env, front, factories);
      if Readable(env, last) {
        var k := RowErrorExactly(env, last, factories, Rows(env, front, factories).value);
      }
    }
  }

  /** A campaign that ends without a table ends with the error of what came first: the missing configuration, or else of
      the first scenario that ends it, and there of the first arm. */
  lemma ErrorExactly(env: Environment, scenarios: seq<string>, factories: seq<Factory>) returns (i: nat)
    requires Arms(factories) && Campaign(env, scenarios, factories).Failure?
    ensures var error := Campaign(env, scenarios, factories).error;
      if NeedsConfiguration(env, scenarios) then error == ConfigurationNeeded
      else FirstEnds(env, scenarios, factories, i, error)
  {
    i := 0;
    if !NeedsConfiguration(env, scenarios) {
      i := RowsErrorExactly(env, scenarios, factories);
    }
  }
}
