/**
 What one set of product signals amounts to: the counts behind the twelve measures, stated
 on the set alone, without any order of archives, installs or signals.
 */
module Cohort {
  import opened Outcomes
  import opened Collections
  import opened Signals
  import opened Wilson
  import opened Measures
  import Reading

  datatype Habit = ReturnsWithinAWeek | UsesAgentOnTwoDays | Listens | KeepsArtifact

  ghost function Group(signals: set<Signal>, install: string): set<Signal> {
    set s | s in signals && s.install == install
  }

  ghost function Installs(signals: set<Signal>): set<string> {
    set s | s in signals :: s.install
  }

  ghost predicate Contains(signals: set<Signal>, name: Name, outcome: Option<Outcome>) {
    exists s :: s in signals && Has(s, name, outcome)
  }

  ghost function Evaluated(signals: set<Signal>): set<string> {
    set s | s in signals && s.name == AppLaunch :: s.install
  }

  ghost function ActivationOf(signals: set<Signal>): Option<int> {
    if t :| IsActivation(signals, t) then Some(t) else None
  }

  ghost function LaunchDays(signals: set<Signal>, activated: int): set<int> {
    set s | s in signals && s.name == AppLaunch && Date(activated) <= Date(s.time) <= Date(activated) + 7
      :: Date(s.time)
  }

  ghost function AgentDays(signals: set<Signal>): set<int> {
    set s | s in signals && Has(s, AgentTurnCompleted, Some(Succeeded)) :: Date(s.time)
  }

  ghost predicate Shows(habit: Habit, signals: set<Signal>, activated: int) {
    match habit
    case ReturnsWithinAWeek => |LaunchDays(signals, activated)| >= 2
    case UsesAgentOnTwoDays => |AgentDays(signals)| >= 2
    case Listens => Contains(signals, Name.MeaningfulListening, Some(Succeeded))
    case KeepsArtifact => Contains(signals, NoteCreated, Some(Created)) || Contains(signals, ClipCreated, Some(Created))
  }

  ghost predicate IsActivated(signals: set<Signal>, install: string) {
    ActivationOf(Group(signals, install)).Some?
  }

  ghost predicate HasHabit(signals: set<Signal>, habit: Habit, install: string) {
    IsActivated(signals, install)
    && Shows(habit, Group(signals, install), ActivationOf(Group(signals, install)).value)
  }

  ghost predicate TranscriptApplies(signals: set<Signal>, install: string) {
    && Contains(Group(signals, install), TranscriptReady, Some(Ready))
    && Contains(Group(signals, install), Name.MeaningfulListening, Some(Succeeded))
  }

  ghost predicate UsesTranscript(signals: set<Signal>, install: string) {
    TranscriptApplies(signals, install) && Contains(Group(signals, install), TranscriptUsed, Some(Used))
  }

  ghost function ActivatedSet(signals: set<Signal>): set<string> {
    set i | i in Evaluated(signals) && IsActivated(signals, i)
  }

  ghost function InstallsWithHabit(signals: set<Signal>, habit: Habit): set<string> {
    set i | i in Evaluated(signals) && HasHabit(signals, habit, i)
  }

  ghost function TranscriptInstalls(signals: set<Signal>): set<string> {
    set i | i in Evaluated(signals) && TranscriptApplies(signals, i)
  }

  ghost function TranscriptUsers(signals: set<Signal>): set<string> {
    set i | i in Evaluated(signals) && UsesTranscript(signals, i)
  }

  /** The signals of evaluated installs. */
  ghost function Pool(signals: set<Signal>): set<Signal> {
    set s | s in signals && s.install in Evaluated(signals)
  }

  ghost function Events(pool: set<Signal>, name: Name, outcome: Option<Outcome>): set<Signal> {
    set s | s in pool && Has(s, name, outcome)
  }

  predicate IsCompletedRecall(s: Signal) {
    s.name == RecallGrounded && (s.outcome == Grounded || s.outcome == NoEvidence)
  }

  predicate IsFast(s: Signal) {
    s.latency.Some? && s.latency.value != Seconds5Plus
  }

  ghost function CompletedRecall(pool: set<Signal>): set<Signal> {
    set s | s in pool && IsCompletedRecall(s)
  }

  ghost function FastRecall(pool: set<Signal>): set<Signal> {
    set s | s in pool && IsCompletedRecall(s) && IsFast(s)
  }

  datatype InstallTally = InstallTally(
    installs: nat, activated: nat, returning: nat, agentUsing: nat, listening: nat, keeping: nat,
    applicable: nat, transcriptUsed: nat)

  datatype EventTally = EventTally(
    plays: nat, playsSucceeded: nat, resumes: nat, resumesSucceeded: nat,
    asked: nat, grounded: nat, citations: nat, completed: nat, fast: nat,
    launches: nat, uncleanDetected: nat)

  ghost function InstallTallyOf(signals: set<Signal>): InstallTally {
    InstallTally(
      |Evaluated(signals)|,
      |ActivatedSet(signals)|,
      |InstallsWithHabit(signals, ReturnsWithinAWeek)|,
      |InstallsWithHabit(signals, UsesAgentOnTwoDays)|,
      |InstallsWithHabit(signals, Listens)|,
      |InstallsWithHabit(signals, KeepsArtifact)|,
      |TranscriptInstalls(signals)|,
      |TranscriptUsers(signals)|)
  }

  ghost function EventTallyOf(pool: set<Signal>): EventTally {
    EventTally(
      |Events(pool, PlayStarted, None)|,
      |Events(pool, PlayStarted, Some(Succeeded))|,
      |Events(pool, ResumeAttempt, None)|,
      |Events(pool, ResumeAttempt, Some(Succeeded))|,
      |Events(pool, RecallAsked, Some(Started))|,
      |Events(pool, RecallGrounded, Some(Grounded))|,
      |Events(pool, RecallCitationOpened, Some(Opened))|,
      |CompletedRecall(pool)|,
      |FastRecall(pool)|,
      |Events(pool, AppLaunch, None)|,
      |Events(pool, UncleanTermination, Some(Detected))|)
  }

  function Smaller(a: int, b: int): int { if b < a then b else a }

  datatype Row = Row(key: Key, numerator: int, denominator: nat, evidence: Option<int>)

  /** The twelve measures: what each counts, out of what, and on how much evidence. */
  function RowsOf(t: InstallTally, e: EventTally): seq<Row> {
    [ Row(Activation, t.activated, t.installs, None),
      Row(RepeatUse, t.returning, t.activated, None),
      Row(Key.MeaningfulListening, t.listening, t.activated, None),
      Row(PlayReliability, e.playsSucceeded, e.plays, None),
      Row(ResumeReliability, e.resumesSucceeded, e.resumes, None),
      Row(TranscriptUtility, t.transcriptUsed, t.applicable, None),
      Row(GroundedRecall, e.grounded, e.asked, None),
      Row(CitationUse, e.citations, e.grounded, Some(e.asked)),
      Row(RetainedArtifact, t.keeping, t.activated, None),
      Row(AgentRepeatUse, t.agentUsing, t.activated, None),
      Row(RecallLatency, e.fast, e.completed, Some(e.asked)),
      Row(SessionIntegrity, e.launches - Smaller(e.uncleanDetected, e.launches), e.launches, None) ]
  }

  /** Build the rows in order; the first numerator that exceeds its denominator raises. */
  function Build(sqrt: real -> real, z: real, rows: seq<Row>): Result<seq<Measure>, Error>
    requires z > 0.0
  {
    if rows == [] then Ok([])
    else
      var row := rows[0];
      var first :- MeasureOf(sqrt, z, row.key, row.numerator, row.denominator, GateOf(row.key), row.evidence);
      var rest :- Build(sqrt, z, rows[1..]);
      Ok([first] + rest)
  }

  function MeasuresOf(sqrt: real -> real, z: real, t: InstallTally, e: EventTally): Result<seq<Measure>, Error>
    requires z > 0.0
  {
    Build(sqrt, z, RowsOf(t, e))
  }

  /** Without an error there is one measure for each row, in order. */
  lemma {:induction false} OneMeasureForEachRow(sqrt: real -> real, z: real, rows: seq<Row>)
    requires z > 0.0 && Build(sqrt, z, rows).Ok?
    ensures |Build(sqrt, z, rows).value| == |rows|
    ensures forall k :: 0 <= k < |rows| ==>
              var r := rows[k];
              MeasureOf(sqrt, z, r.key, r.numerator, r.denominator, GateOf(r.key), r.evidence)
                == Ok(Build(sqrt, z, rows).value[k])
  {
    hide MeasureOf, GateOf;
    if rows != [] {
      OneMeasureForEachRow(sqrt, z, rows[1..]);
    }
  }

  /** The row of the first error, or the number of rows. */
  ghost function FirstExcess(rows: seq<Row>): nat {
    if rows == [] || rows[0].numerator > rows[0].denominator then 0 else 1 + FirstExcess(rows[1..])
  }

  lemma {:induction false} BuildRaisesAtFirstExcess(sqrt: real -> real, z: real, rows: seq<Row>)
    requires z > 0.0
    ensures FirstExcess(rows) <= |rows|
    ensures Build(sqrt, z, rows).Ok? <==> FirstExcess(rows) == |rows|
    ensures FirstExcess(rows) < |rows| ==>
              Build(sqrt, z, rows) == Err(NumeratorExceedsDenominator(rows[FirstExcess(rows)].key))
  {
    hide Bounds, GateOf, StatusOf, Estimate;
    if rows != [] {
      BuildRaisesAtFirstExcess(sqrt, z, rows[1..]);
    }
  }

  lemma {:induction false} FirstExcessIs(rows: seq<Row>, n: nat)
    requires n <= |rows| && (forall k :: 0 <= k < n ==> rows[k].numerator <= rows[k].denominator)
    requires n == |rows| || rows[n].numerator > rows[n].denominator
    ensures FirstExcess(rows) == n
  {
    if n > 0 {
      FirstExcessIs(rows[1..], n - 1);
    }
  }

  // ----- Which guards can fire -----

  /** Every numerator but two counts a part of what its denominator counts. */
  lemma TallyInclusions(signals: set<Signal>)
    ensures
      var t, e := InstallTallyOf(signals), EventTallyOf(Pool(signals));
      && t.activated <= t.installs
      && t.returning <= t.activated && t.agentUsing <= t.activated
      && t.listening <= t.activated && t.keeping <= t.activated
      && t.transcriptUsed <= t.applicable
      && e.playsSucceeded <= e.plays && e.resumesSucceeded <= e.resumes && e.fast <= e.completed
  {
    var pool := Pool(signals);
    SubsetCardinality(ActivatedSet(signals), Evaluated(signals));
    SubsetCardinality(InstallsWithHabit(signals, ReturnsWithinAWeek), ActivatedSet(signals));
    SubsetCardinality(InstallsWithHabit(signals, UsesAgentOnTwoDays), ActivatedSet(signals));
    SubsetCardinality(InstallsWithHabit(signals, Listens), ActivatedSet(signals));
    SubsetCardinality(InstallsWithHabit(signals, KeepsArtifact), ActivatedSet(signals));
    SubsetCardinality(TranscriptUsers(signals), TranscriptInstalls(signals));
    SubsetCardinality(Events(pool, PlayStarted, Some(Succeeded)), Events(pool, PlayStarted, None));
    SubsetCardinality(Events(pool, ResumeAttempt, Some(Succeeded)), Events(pool, ResumeAttempt, None));
    SubsetCardinality(FastRecall(pool), CompletedRecall(pool));
  }

  /** Building the measures of a set of signals raises exactly when more recalls were grounded
      than asked, or more citations opened than recalls grounded, and it names that measure. */
  lemma OnlyTwoGuardsCanFire(sqrt: real -> real, z: real, signals: set<Signal>)
    requires z > 0.0
    ensures
      var e := EventTallyOf(Pool(signals));
      var r := MeasuresOf(sqrt, z, InstallTallyOf(signals), e);
      && (r.Err? <==> e.grounded > e.asked || e.citations > e.grounded)
      && (r.Err? ==> r.error == NumeratorExceedsDenominator(
                       if e.grounded > e.asked then GroundedRecall else CitationUse))
  {
    hide Build;
    TallyInclusions(signals);
    var t, e := InstallTallyOf(signals), EventTallyOf(Pool(signals));
    hide InstallTallyOf, EventTallyOf;
    BuildRaisesAtFirstExcess(sqrt, z, RowsOf(t, e));
    FirstExcessIs(RowsOf(t, e), if e.grounded > e.asked then 6 else if e.citations > e.grounded then 7 else 12);
  }

  // ----- What the rows count -----

  lemma SameActivation(signals: set<Signal>, install: string)
    ensures IsActivated(signals, install) <==> Reading.Activates(signals, install)
    ensures IsActivated(signals, install) ==>
              forall t :: Reading.ActivatesAt(signals, install, t) <==> t == ActivationOf(Group(signals, install)).value
  {
    hide IsActivation;
    var own := Group(signals, install);
    assert own == set s | s in signals && s.install == install;
    if t :| IsActivation(own, t) {
      assert Reading.ActivatesAt(signals, install, t);
      forall t, t' | IsActivation(own, t) && IsActivation(own, t') ensures t == t' {
        ActivationIsUnique(own, t, t');
      }
    }
  }

  lemma InGroup(signals: set<Signal>, install: string, s: Signal)
    ensures s in Group(signals, install) <==> s in signals && s.install == install
  {}

  lemma SameReturns(signals: set<Signal>, install: string)
    ensures HasHabit(signals, ReturnsWithinAWeek, install) <==>
            Reading.Activates(signals, install) && Reading.Returns(signals, install)
  {
    hide IsActivation, ActivationOf, Group, LaunchDays, AgentDays, Contains, Reading.ActivatesAt, Reading.ReturnsAfter,
      Reading.Activates;
    SameActivation(signals, install);
    if IsActivated(signals, install) {
      var t := ActivationOf(Group(signals, install)).value;
      LaunchDaysRead(signals, install, t);
      ReturnsAtActivation(signals, install, t);
    }
  }

  lemma ReturnsAtActivation(signals: set<Signal>, install: string, t: int)
    requires forall u :: Reading.ActivatesAt(signals, install, u) <==> u == t
    ensures Reading.Returns(signals, install) <==> Reading.ReturnsAfter(signals, install, t)
  {
    hide Reading.ActivatesAt, Reading.ReturnsAfter;
    assert Reading.ActivatesAt(signals, install, t);
  }

  lemma LaunchDaysRead(signals: set<Signal>, install: string, t: int)
    ensures |LaunchDays(Group(signals, install), t)| >= 2 <==> Reading.ReturnsAfter(signals, install, t)
  {
    var own := Group(signals, install);
    var days := LaunchDays(own, t);
    TwoElements(days);
    if x, y :| x in days && y in days && x != y {
      var a :| a in own && a.name == AppLaunch && Date(a.time) == x && Date(t) <= x <= Date(t) + 7;
      var b :| b in own && b.name == AppLaunch && Date(b.time) == y && Date(t) <= y <= Date(t) + 7;
      LaunchDay(signals, install, t, a);
      LaunchDay(signals, install, t, b);
      hide Group, LaunchDays, Date, Reading.Day;
      assert Reading.Day(a.time) != Reading.Day(b.time);
    }
    if Reading.ReturnsAfter(signals, install, t) {
      var a, b :|
        && a in signals && b in signals && a.install == b.install == install && a.name == b.name == AppLaunch
        && Reading.Day(a.time) != Reading.Day(b.time)
        && Reading.Day(t) <= Reading.Day(a.time) <= Reading.Day(t) + 7
        && Reading.Day(t) <= Reading.Day(b.time) <= Reading.Day(t) + 7;
      LaunchDay(signals, install, t, a);
      LaunchDay(signals, install, t, b);
      hide Group, LaunchDays, Date, Reading.Day;
      assert Date(a.time) in days && Date(b.time) in days;
    }
  }

  lemma LaunchDay(signals: set<Signal>, install: string, t: int, s: Signal)
    ensures Date(s.time) == Reading.Day(s.time) && Date(t) == Reading.Day(t)
    ensures s in Group(signals, install) <==> s in signals && s.install == install
    ensures s in Group(signals, install) && s.name == AppLaunch && Date(t) <= Date(s.time) <= Date(t) + 7 ==>
              Date(s.time) in LaunchDays(Group(signals, install), t)
  {}

  lemma SameAgentReturns(signals: set<Signal>, install: string)
    ensures HasHabit(signals, UsesAgentOnTwoDays, install) <==>
            Reading.Activates(signals, install) && Reading.ReturnsToAgent(signals, install)
  {
    hide IsActivation, ActivationOf, Group, LaunchDays, AgentDays, Contains, Reading.Activates, Reading.ReturnsToAgent;
    SameActivation(signals, install);
    AgentDaysRead(signals, install);
  }

  lemma AgentDaysRead(signals: set<Signal>, install: string)
    ensures |AgentDays(Group(signals, install))| >= 2 <==> Reading.ReturnsToAgent(signals, install)
  {
    var own := Group(signals, install);
    var days := AgentDays(own);
    TwoElements(days);
    hide Group, Has, Reports;
    if x, y :| x in days && y in days && x != y {
      var a :| a in own && Has(a, AgentTurnCompleted, Some(Succeeded)) && Date(a.time) == x;
      var b :| b in own && Has(b, AgentTurnCompleted, Some(Succeeded)) && Date(b.time) == y;
      InGroup(signals, install, a);
      InGroup(signals, install, b);
      HasReports(a, AgentTurnCompleted, Succeeded);
      HasReports(b, AgentTurnCompleted, Succeeded);
      assert Reading.Day(a.time) != Reading.Day(b.time);
    }
    if a, b :|
      && a in signals && b in signals && a.install == b.install == install
      && Reports(a, AgentTurnCompleted, Succeeded) && Reports(b, AgentTurnCompleted, Succeeded)
      && Reading.Day(a.time) != Reading.Day(b.time)
    {
      InGroup(signals, install, a);
      InGroup(signals, install, b);
      HasReports(a, AgentTurnCompleted, Succeeded);
      HasReports(b, AgentTurnCompleted, Succeeded);
      assert Date(a.time) in days && Date(b.time) in days;
    }
  }

  lemma SameShows(signals: set<Signal>, install: string, name: Name, outcome: Outcome)
    ensures Contains(Group(signals, install), name, Some(outcome)) <==> Reading.Shows(signals, install, name, outcome)
  {
    hide Group, Has, Reports;
    forall s: Signal
      ensures s in Group(signals, install) && Has(s, name, Some(outcome)) <==>
              s in signals && s.install == install && Reports(s, name, outcome)
    {
      InGroup(signals, install, s);
      HasReports(s, name, outcome);
    }
  }

  lemma SameContents(signals: set<Signal>, install: string)
    ensures HasHabit(signals, Listens, install) <==>
            Reading.Activates(signals, install)
            && Reading.Shows(signals, install, Name.MeaningfulListening, Succeeded)
    ensures HasHabit(signals, KeepsArtifact, install) <==>
            Reading.Activates(signals, install)
            && (Reading.Shows(signals, install, NoteCreated, Created)
                || Reading.Shows(signals, install, ClipCreated, Created))
  {
    SameActivation(signals, install);
    SameShows(signals, install, Name.MeaningfulListening, Succeeded);
    SameShows(signals, install, NoteCreated, Created);
    SameShows(signals, install, ClipCreated, Created);
    hide Group, LaunchDays, AgentDays, ActivationOf, Contains, Reading.Shows, Reading.Activates;
  }

  lemma SameTranscripts(signals: set<Signal>, install: string)
    ensures TranscriptApplies(signals, install) <==> Reading.CouldUseTranscript(signals, install)
    ensures UsesTranscript(signals, install) <==>
            Reading.CouldUseTranscript(signals, install) && Reading.Shows(signals, install, TranscriptUsed, Used)
  {
    SameShows(signals, install, TranscriptReady, Ready);
    SameShows(signals, install, Name.MeaningfulListening, Succeeded);
    SameShows(signals, install, TranscriptUsed, Used);
    hide Group, Contains, Reading.Shows;
  }

  lemma InstallTallyReads(signals: set<Signal>)
    ensures
      var t := InstallTallyOf(signals);
      && t.installs == Reading.Denominator(signals, Activation)
      && t.activated == Reading.Numerator(signals, Activation)
      && t.returning == Reading.Numerator(signals, RepeatUse)
      && t.agentUsing == Reading.Numerator(signals, AgentRepeatUse)
      && t.listening == Reading.Numerator(signals, Key.MeaningfulListening)
      && t.keeping == Reading.Numerator(signals, RetainedArtifact)
      && t.applicable == Reading.Denominator(signals, TranscriptUtility)
      && t.transcriptUsed == Reading.Numerator(signals, TranscriptUtility)
  {
    hide HasHabit, IsActivated, TranscriptApplies, UsesTranscript, Reading.Activates, Reading.Shows, Reading.Returns,
      Reading.ReturnsToAgent, Reading.CouldUseTranscript;
    assert Reading.Launched(signals) == Evaluated(signals);
    ActivatedSetReads(signals);
    HabitSetsRead(signals);
    TranscriptSetsRead(signals);
  }

  lemma ActivatedSetReads(signals: set<Signal>)
    ensures ActivatedSet(signals) == set i | i in Reading.Launched(signals) && Reading.Activates(signals, i)
  {
    hide IsActivated, Reading.Activates;
    forall i ensures IsActivated(signals, i) <==> Reading.Activates(signals, i) {
      SameActivation(signals, i);
    }
  }

  lemma HabitSetsRead(signals: set<Signal>)
    ensures InstallsWithHabit(signals, ReturnsWithinAWeek)
         == set i | i in Reading.Launched(signals) && Reading.Activates(signals, i) && Reading.Returns(signals, i)
    ensures InstallsWithHabit(signals, UsesAgentOnTwoDays)
         == set i | i in Reading.Launched(signals) && Reading.Activates(signals, i)
                    && Reading.ReturnsToAgent(signals, i)
    ensures InstallsWithHabit(signals, Listens)
         == set i | i in Reading.Launched(signals) && Reading.Activates(signals, i)
                    && Reading.Shows(signals, i, Name.MeaningfulListening, Succeeded)
    ensures InstallsWithHabit(signals, KeepsArtifact)
         == set i | i in Reading.Launched(signals) && Reading.Activates(signals, i)
                    && (Reading.Shows(signals, i, NoteCreated, Created)
                        || Reading.Shows(signals, i, ClipCreated, Created))
  {
    hide HasHabit, Reading.Activates, Reading.Shows, Reading.Returns, Reading.ReturnsToAgent;
    forall i
      ensures HasHabit(signals, ReturnsWithinAWeek, i) <==> Reading.Activates(signals, i) && Reading.Returns(signals, i)
    {
      SameReturns(signals, i);
    }
    forall i
      ensures HasHabit(signals, UsesAgentOnTwoDays, i) <==>
              Reading.Activates(signals, i) && Reading.ReturnsToAgent(signals, i)
    {
      SameAgentReturns(signals, i);
    }
    forall i
      ensures HasHabit(signals, Listens, i) <==>
              Reading.Activates(signals, i) && Reading.Shows(signals, i, Name.MeaningfulListening, Succeeded)
      ensures HasHabit(signals, KeepsArtifact, i) <==>
              Reading.Activates(signals, i)
              && (Reading.Shows(signals, i, NoteCreated, Created) || Reading.Shows(signals, i, ClipCreated, Created))
    {
      SameContents(signals, i);
    }
  }

  lemma TranscriptSetsRead(signals: set<Signal>)
    ensures TranscriptInstalls(signals)
         == set i | i in Reading.Launched(signals) && Reading.CouldUseTranscript(signals, i)
    ensures TranscriptUsers(signals)
         == set i | i in Reading.Launched(signals) && Reading.CouldUseTranscript(signals, i)
                    && Reading.Shows(signals, i, TranscriptUsed, Used)
  {
    hide TranscriptApplies, UsesTranscript, Reading.CouldUseTranscript, Reading.Shows;
    forall i
      ensures TranscriptApplies(signals, i) <==> Reading.CouldUseTranscript(signals, i)
      ensures UsesTranscript(signals, i) <==>
              Reading.CouldUseTranscript(signals, i) && Reading.Shows(signals, i, TranscriptUsed, Used)
    {
      SameTranscripts(signals, i);
    }
  }

  lemma EventsRead(signals: set<Signal>, name: Name, outcome: Outcome)
    ensures Events(Pool(signals), name, None) == Reading.Named(signals, name)
    ensures Events(Pool(signals), name, Some(outcome)) == Reading.Ending(signals, name, outcome)
  {
    assert Reading.Launched(signals) == Evaluated(signals);
    hide Evaluated, Reports;
    forall s: Signal ensures Has(s, name, Some(outcome)) <==> Reports(s, name, outcome) {
      HasReports(s, name, outcome);
    }
  }

  lemma RecallsRead(signals: set<Signal>)
    ensures CompletedRecall(Pool(signals)) == Reading.AnsweredRecalls(signals)
    ensures FastRecall(Pool(signals)) == Reading.RecallsUnderFiveSeconds(signals)
  {
    assert Reading.Launched(signals) == Evaluated(signals);
    hide Evaluated;
    forall s: Signal ensures IsFast(s) <==> s.latency in Reading.FAST {
      FastRead(s);
    }
    hide IsFast;
  }

  lemma FastRead(s: Signal)
    ensures IsFast(s) <==> s.latency in Reading.FAST
  {}

  lemma EventTallyReads(signals: set<Signal>)
    ensures
      var e := EventTallyOf(Pool(signals));
      && e.plays == Reading.Denominator(signals, PlayReliability)
      && e.playsSucceeded == Reading.Numerator(signals, PlayReliability)
      && e.resumes == Reading.Denominator(signals, ResumeReliability)
      && e.resumesSucceeded == Reading.Numerator(signals, ResumeReliability)
      && e.asked == Reading.Denominator(signals, GroundedRecall)
      && e.grounded == Reading.Numerator(signals, GroundedRecall) == Reading.Denominator(signals, CitationUse)
      && e.citations == Reading.Numerator(signals, CitationUse)
      && e.completed == Reading.Denominator(signals, RecallLatency)
      && e.fast == Reading.Numerator(signals, RecallLatency)
      && e.launches == Reading.Denominator(signals, SessionIntegrity)
      && Reading.Numerator(signals, SessionIntegrity) == e.launches - Smaller(e.uncleanDetected, e.launches)
  {
    EventsRead(signals, PlayStarted, Succeeded);
    EventsRead(signals, ResumeAttempt, Succeeded);
    EventsRead(signals, RecallAsked, Started);
    EventsRead(signals, RecallGrounded, Grounded);
    EventsRead(signals, RecallCitationOpened, Opened);
    EventsRead(signals, AppLaunch, Detected);
    EventsRead(signals, UncleanTermination, Detected);
    RecallsRead(signals);
    hide Events, Pool, CompletedRecall, FastRecall, Reading.Named, Reading.Ending, Reading.AnsweredRecalls,
      Reading.RecallsUnderFiveSeconds;
  }

  /** Each row of the table holds the counts of its measure. */
  lemma RowsRead(signals: set<Signal>, k: nat)
    requires k < |Reading.KEYS|
    ensures |RowsOf(InstallTallyOf(signals), EventTallyOf(Pool(signals)))| == |Reading.KEYS|
    ensures
      var row := RowsOf(InstallTallyOf(signals), EventTallyOf(Pool(signals)))[k];
      && row.key == Reading.KEYS[k]
      && row.numerator == Reading.Numerator(signals, row.key) >= 0
      && row.denominator == Reading.Denominator(signals, row.key)
      && (if row.evidence.None? then row.denominator else row.evidence.value) == Reading.Sample(signals, row.key)
  {
    InstallTallyReads(signals);
    EventTallyReads(signals);
    SharedDenominators(signals);
    hide InstallTallyOf, EventTallyOf, Reading.Numerator, Reading.Denominator;
  }

  lemma SharedDenominators(signals: set<Signal>)
    ensures forall key :: key in {RepeatUse, Key.MeaningfulListening, RetainedArtifact, AgentRepeatUse} ==>
              Reading.Denominator(signals, key) == Reading.Numerator(signals, Activation)
    ensures Reading.Sample(signals, CitationUse) == Reading.Denominator(signals, GroundedRecall)
    ensures Reading.Sample(signals, RecallLatency) == Reading.Denominator(signals, GroundedRecall)
  {}
}
