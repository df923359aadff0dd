/**
 The product-proof evaluator: merging archives by signal id, grouping by install, counting,
 and one verdict. Python dictionaries keep insertion order, so each is a list of distinct
 keys and a map. Every method is proved against the order-free reading in Cohort.
 */
module Evaluator {
  import opened Outcomes
  import opened Collections
  import opened Signals
  import opened Wilson
  import opened Measures
  import opened Cohort

  // ----- Counting installs -----

  /** `installs` lists the groups of `signals` for the distinct installs `ids`. */
  ghost predicate AreGroups(signals: set<Signal>, ids: seq<string>, installs: seq<seq<Signal>>) {
    && |ids| == |installs| && Distinct(ids)
    && forall k :: 0 <= k < |ids| ==> Distinct(installs[k]) && Elements(installs[k]) == Group(signals, ids[k])
  }

  /** They are all the evaluated installs. */
  ghost predicate AreEvaluatedGroups(signals: set<Signal>, ids: seq<string>, installs: seq<seq<Signal>>) {
    AreGroups(signals, ids, installs) && Elements(ids) == Evaluated(signals)
  }

  ghost predicate AreActivations(signals: set<Signal>, ids: seq<string>, activations: seq<int>) {
    && |ids| == |activations|
    && forall k :: 0 <= k < |ids| ==> ActivationOf(Group(signals, ids[k])) == Some(activations[k])
  }

  lemma AppendGroup(signals: set<Signal>, ids: seq<string>, installs: seq<seq<Signal>>,
                    id: string, install: seq<Signal>)
    ensures AreGroups(signals, [], [])
    ensures
      AreGroups(signals, ids, installs) && id !in ids && Distinct(install) && Elements(install) == Group(signals, id)
      ==> AreGroups(signals, ids + [id], installs + [install])
  {}

  lemma NewId(ids: seq<string>, k: nat)
    requires Distinct(ids) && k < |ids|
    ensures ids[k] !in ids[..k]
  {}

  lemma ActivationOfGroup(signals: seq<Signal>)
    ensures ActivationTime(signals) == ActivationOf(Elements(signals))
  {
    if t :| IsActivation(Elements(signals), t) {
      ActivationIsLeast(signals, t);
      ActivationIsLeast(signals, ActivationOf(Elements(signals)).value);
    } else if ActivationTime(signals).Some? {
      ActivationIsLeast(signals, ActivationTime(signals).value);
    }
  }

  method ActivatedInstalls(ghost signals: set<Signal>, ghost ids: seq<string>, installs: seq<seq<Signal>>)
    returns (activated: seq<seq<Signal>>, activations: seq<int>, ghost activatedIds: seq<string>)
    requires AreGroups(signals, ids, installs)
    ensures |activated| == |activations| == CountIf(ids, Activates(signals))
    ensures AreGroups(signals, activatedIds, activated)
    ensures AreActivations(signals, activatedIds, activations)
    ensures forall i :: i in activatedIds <==> i in ids && IsActivated(signals, i)
  {
    hide ActivationOf, ActivationTime, Group, Elements, Distinct;
    activated, activations, activatedIds := [], [], [];
    AppendGroup(signals, [], [], "", []);
    for k := 0 to |installs|
      invariant |activated| == |activations| == CountIf(ids[..k], Activates(signals))
      invariant AreGroups(signals, activatedIds, activated)
      invariant AreActivations(signals, activatedIds, activations)
      invariant forall i :: i in activatedIds <==> i in ids[..k] && IsActivated(signals, i)
    {
      assert ids[..k + 1][..k] == ids[..k];
      NewId(ids, k);
      ActivationOfGroup(installs[k]);
      match ActivationTime(installs[k])
      case None =>
      case Some(t) =>
        AppendGroup(signals, activatedIds, activated, ids[k], installs[k]);
        activated := activated + [installs[k]];
        activations := activations + [t];
        activatedIds := activatedIds + [ids[k]];
    }
    assert ids[..|ids|] == ids;
  }

  lemma MatchingIsContains(signals: seq<Signal>, name: Name, outcome: Option<Outcome>)
    ensures Matching(signals, name, outcome) != [] <==> Contains(Elements(signals), name, outcome)
  {
    var found := Matching(signals, name, outcome);
    MatchingMembers(signals, name, outcome);
    if found != [] {
      assert found[0] in Elements(signals);
    }
    if s :| s in Elements(signals) && Has(s, name, outcome) {
      assert s in found;
    }
  }

  ghost function CountHabit(habit: Habit, installs: seq<seq<Signal>>, activations: seq<int>): nat
    requires |installs| == |activations|
  {
    if installs == [] then 0
    else
      var last := |installs| - 1;
      CountHabit(habit, installs[..last], activations[..last])
      + if Shows(habit, Elements(installs[last]), activations[last]) then 1 else 0
  }

  lemma DaysOfMatching(signals: seq<Signal>, at: int)
    ensures
      (set s | s in Matching(signals, AppLaunch, None) && Date(at) <= Date(s.time) <= Date(at) + 7 :: Date(s.time))
      == LaunchDays(Elements(signals), at)
    ensures
      (set s | s in Matching(signals, AgentTurnCompleted, Some(Succeeded)) :: Date(s.time))
      == AgentDays(Elements(signals))
  {
    MatchingMembers(signals, AppLaunch, None);
    MatchingMembers(signals, AgentTurnCompleted, Some(Succeeded));
  }

  /** One turn of the counting loop: which habits one activated install shows. */
  method Habits(signals: seq<Signal>, at: int)
    returns (repeats: bool, agentRepeat: bool, meaningful: bool, retained: bool)
    ensures repeats == Shows(ReturnsWithinAWeek, Elements(signals), at)
    ensures agentRepeat == Shows(UsesAgentOnTwoDays, Elements(signals), at)
    ensures meaningful == Shows(Listens, Elements(signals), at)
    ensures retained == Shows(KeepsArtifact, Elements(signals), at)
  {
    hide Matching, Elements, Contains, LaunchDays, AgentDays, Has;
    DaysOfMatching(signals, at);
    var firstDay := Date(at);
    var lastDay := firstDay + 7;
    var launches := Matching(signals, AppLaunch, None);
    var launchDays := set s | s in launches && firstDay <= Date(s.time) <= lastDay :: Date(s.time);
    repeats := |launchDays| >= 2;
    var turns := Matching(signals, AgentTurnCompleted, Some(Succeeded));
    var agentDays := set s | s in turns :: Date(s.time);
    agentRepeat := |agentDays| >= 2;
    MatchingIsContains(signals, Name.MeaningfulListening, Some(Succeeded));
    meaningful := Matching(signals, Name.MeaningfulListening, Some(Succeeded)) != [];
    MatchingIsContains(signals, NoteCreated, Some(Created));
    MatchingIsContains(signals, ClipCreated, Some(Created));
    retained :=
      Matching(signals, NoteCreated, Some(Created)) != [] || Matching(signals, ClipCreated, Some(Created)) != [];
  }

  /** The four counters of the activated installs. */
  method InstallCounts(activated: seq<seq<Signal>>, activations: seq<int>)
    returns (repeats: nat, agentRepeat: nat, meaningful: nat, retained: nat)
    requires |activated| == |activations|
    ensures repeats == CountHabit(ReturnsWithinAWeek, activated, activations)
    ensures agentRepeat == CountHabit(UsesAgentOnTwoDays, activated, activations)
    ensures meaningful == CountHabit(Listens, activated, activations)
    ensures retained == CountHabit(KeepsArtifact, activated, activations)
  {
    hide Shows;
    repeats, agentRepeat, meaningful, retained := 0, 0, 0, 0;
    for k := 0 to |activated|
      invariant repeats == CountHabit(ReturnsWithinAWeek, activated[..k], activations[..k])
      invariant agentRepeat == CountHabit(UsesAgentOnTwoDays, activated[..k], activations[..k])
      invariant meaningful == CountHabit(Listens, activated[..k], activations[..k])
      invariant retained == CountHabit(KeepsArtifact, activated[..k], activations[..k])
    {
      assert activated[..k + 1][..k] == activated[..k] && activations[..k + 1][..k] == activations[..k];
      var r, a, m, t := Habits(activated[k], activations[k]);
      repeats := repeats + if r then 1 else 0;
      agentRepeat := agentRepeat + if a then 1 else 0;
      meaningful := meaningful + if m then 1 else 0;
      retained := retained + if t then 1 else 0;
    }
    assert activated[..|activated|] == activated && activations[..|activations|] == activations;
  }

  lemma {:induction false} HabitCount(
    signals: set<Signal>, habit: Habit, ids: seq<string>, installs: seq<seq<Signal>>, activations: seq<int>)
    requires AreGroups(signals, ids, installs) && AreActivations(signals, ids, activations)
    ensures CountHabit(habit, installs, activations) == CountIf(ids, Habitual(signals, habit))
  {
    hide Shows, ActivationOf, Group, Elements;
    if installs != [] {
      var last := |installs| - 1;
      HabitCount(signals, habit, ids[..last], installs[..last], activations[..last]);
      assert Elements(installs[last]) == Group(signals, ids[last]);
    }
  }

  ghost function Activates(signals: set<Signal>): string -> bool {
    i => IsActivated(signals, i)
  }

  ghost function Habitual(signals: set<Signal>, habit: Habit): string -> bool {
    i => HasHabit(signals, habit, i)
  }

  ghost function Applies(signals: set<Signal>): string -> bool {
    i => TranscriptApplies(signals, i)
  }

  ghost function Uses(signals: set<Signal>): string -> bool {
    i => UsesTranscript(signals, i)
  }

  /** Counting over lists of the right installs gives the cardinalities on the set. */
  lemma InstallCardinalities(signals: set<Signal>, ids: seq<string>, activatedIds: seq<string>, habit: Habit)
    requires Distinct(ids) && Elements(ids) == Evaluated(signals)
    requires Distinct(activatedIds)
    requires forall i :: i in activatedIds <==> i in ids && IsActivated(signals, i)
    ensures |ids| == |Evaluated(signals)|
    ensures CountIf(ids, Activates(signals)) == |ActivatedSet(signals)|
    ensures CountIf(activatedIds, Habitual(signals, habit)) == |InstallsWithHabit(signals, habit)|
    ensures CountIf(ids, Applies(signals)) == |TranscriptInstalls(signals)|
    ensures CountIf(ids, Uses(signals)) == |TranscriptUsers(signals)|
  {
    hide Evaluated, TranscriptApplies, UsesTranscript, Shows, ActivationOf;
    DistinctCardinality(ids);
    assert forall i :: i in ids <==> i in Elements(ids);
    CountIfIsCardinality(ids, Activates(signals));
    CountIfIsCardinality(activatedIds, Habitual(signals, habit));
    CountIfIsCardinality(ids, Applies(signals));
    CountIfIsCardinality(ids, Uses(signals));
    assert Selected(ids, Activates(signals)) == ActivatedSet(signals);
    assert Selected(activatedIds, Habitual(signals, habit)) == InstallsWithHabit(signals, habit);
    assert Selected(ids, Applies(signals)) == TranscriptInstalls(signals);
    assert Selected(ids, Uses(signals)) == TranscriptUsers(signals);
  }

  // ----- Counting signals -----

  function Flatten(installs: seq<seq<Signal>>): seq<Signal> {
    if installs == [] then [] else Flatten(installs[..|installs| - 1]) + installs[|installs| - 1]
  }

  /** Grouping and flattening again loses and repeats nothing. */
  lemma {:induction false} FlattenGroups(signals: set<Signal>, ids: seq<string>, installs: seq<seq<Signal>>)
    requires AreGroups(signals, ids, installs)
    ensures Distinct(Flatten(installs))
    ensures Elements(Flatten(installs)) == set s | s in signals && s.install in ids
  {
    if installs != [] {
      var last := |installs| - 1;
      FlattenGroups(signals, ids[..last], installs[..last]);
      NewId(ids, last);
      var before := Flatten(installs[..last]);
      assert forall s :: s in before <==> s in Elements(before);
      assert forall s :: s in installs[last] <==> s in Elements(installs[last]);
      assert forall s :: s in installs[last] ==> s.install == ids[last];
      assert forall s :: s in Flatten(installs) <==> s in before || s in installs[last];
      DistinctConcat(before, installs[last]);
    }
  }

  lemma EventCount(pool: set<Signal>, signals: seq<Signal>, name: Name, outcome: Option<Outcome>)
    requires Distinct(signals) && Elements(signals) == pool
    ensures |Matching(signals, name, outcome)| == |Events(pool, name, outcome)|
  {
    MatchingCardinality(signals, name, outcome);
    assert (set s | s in signals && Has(s, name, outcome)) == Events(pool, name, outcome);
  }

  method RecallCounts(signals: seq<Signal>) returns (completed: nat, fast: nat)
    requires Distinct(signals)
    ensures completed == |CompletedRecall(Elements(signals))|
    ensures fast == |FastRecall(Elements(signals))|
  {
    completed, fast := 0, 0;
    ghost var q := (s: Signal) => IsCompletedRecall(s) && IsFast(s);
    for k := 0 to |signals|
      invariant completed == CountIf(signals[..k], IsCompletedRecall)
      invariant fast == CountIf(signals[..k], q)
    {
      assert signals[..k + 1][..k] == signals[..k];
      if IsCompletedRecall(signals[k]) {
        completed := completed + 1;
        fast := fast + if IsFast(signals[k]) then 1 else 0;
      }
    }
    assert signals[..|signals|] == signals;
    CountIfIsCardinality(signals, IsCompletedRecall);
    CountIfIsCardinality(signals, q);
    assert Selected(signals, IsCompletedRecall) == CompletedRecall(Elements(signals));
    assert Selected(signals, q) == FastRecall(Elements(signals));
  }

  method TranscriptCounts(ghost signals: set<Signal>, ghost ids: seq<string>, installs: seq<seq<Signal>>)
    returns (applicable: nat, used: nat)
    requires AreGroups(signals, ids, installs)
    ensures applicable == CountIf(ids, Applies(signals))
    ensures used == CountIf(ids, Uses(signals))
  {
    hide Matching, Contains, Elements, Group;
    applicable, used := 0, 0;
    for k := 0 to |installs|
      invariant applicable == CountIf(ids[..k], Applies(signals))
      invariant used == CountIf(ids[..k], Uses(signals))
    {
      assert ids[..k + 1][..k] == ids[..k];
      MatchingIsContains(installs[k], TranscriptReady, Some(Ready));
      MatchingIsContains(installs[k], Name.MeaningfulListening, Some(Succeeded));
      MatchingIsContains(installs[k], TranscriptUsed, Some(Used));
      if Matching(installs[k], TranscriptReady, Some(Ready)) != []
         && Matching(installs[k], Name.MeaningfulListening, Some(Succeeded)) != [] {
        applicable := applicable + 1;
        used := used + if Matching(installs[k], TranscriptUsed, Some(Used)) != [] then 1 else 0;
      }
    }
    assert ids[..|ids|] == ids;
  }

  /** The counts of installs, over the list of evaluated installs. */
  method CountInstalls(ghost signals: set<Signal>, ghost ids: seq<string>, installs: seq<seq<Signal>>)
    returns (t: InstallTally)
    requires AreEvaluatedGroups(signals, ids, installs)
    ensures t == InstallTallyOf(signals)
  {
    hide Shows, ActivationOf, Group, Elements, Distinct, TranscriptApplies, UsesTranscript, Evaluated, CountHabit,
      CountIf;
    var activated, activations, activatedIds := ActivatedInstalls(signals, ids, installs);
    var repeats, agentRepeat, meaningful, retained := InstallCounts(activated, activations);
    forall habit: Habit
      ensures CountHabit(habit, activated, activations) == |InstallsWithHabit(signals, habit)|
    {
      HabitCount(signals, habit, activatedIds, activated, activations);
      InstallCardinalities(signals, ids, activatedIds, habit);
    }
    InstallCardinalities(signals, ids, activatedIds, Listens);
    var applicable, used := TranscriptCounts(signals, ids, installs);
    t := InstallTally(|installs|, |activated|, repeats, agentRepeat, meaningful, retained, applicable, used);
  }

  /** The counts of signals, over the flattened list of evaluated installs. */
  method CountEvents(ghost signals: set<Signal>, ghost ids: seq<string>, installs: seq<seq<Signal>>)
    returns (e: EventTally)
    requires AreEvaluatedGroups(signals, ids, installs)
    ensures e == EventTallyOf(Pool(signals))
  {
    var flat := Flatten(installs);
    FlattenGroups(signals, ids, installs);
    ghost var pool := Pool(signals);
    assert Elements(flat) == pool by {
      assert forall i :: i in ids <==> i in Elements(ids);
    }
    hide AreEvaluatedGroups, Flatten, Matching, Events, Distinct, Elements, Pool;
    var completed, fast := RecallCounts(flat);
    EventCount(pool, flat, PlayStarted, None);
    EventCount(pool, flat, PlayStarted, Some(Succeeded));
    EventCount(pool, flat, ResumeAttempt, None);
    EventCount(pool, flat, ResumeAttempt, Some(Succeeded));
    EventCount(pool, flat, RecallAsked, Some(Started));
    EventCount(pool, flat, RecallGrounded, Some(Grounded));
    EventCount(pool, flat, RecallCitationOpened, Some(Opened));
    EventCount(pool, flat, AppLaunch, None);
    EventCount(pool, flat, UncleanTermination, Some(Detected));
    e := EventTally(
      |Matching(flat, PlayStarted, None)|, |Matching(flat, PlayStarted, Some(Succeeded))|,
      |Matching(flat, ResumeAttempt, None)|, |Matching(flat, ResumeAttempt, Some(Succeeded))|,
      |Matching(flat, RecallAsked, Some(Started))|, |Matching(flat, RecallGrounded, Some(Grounded))|,
      |Matching(flat, RecallCitationOpened, Some(Opened))|, completed, fast,
      |Matching(flat, AppLaunch, None)|, |Matching(flat, UncleanTermination, Some(Detected))|);
  }

  lemma MeasuresRead(sqrt: real -> real, z: real, signals: set<Signal>)
    requires IsSquareRoot(sqrt) && z > 0.0
    ensures
      match MeasuresOf(sqrt, z, InstallTallyOf(signals), EventTallyOf(Pool(signals)))
      case Ok(measures) => Reading.AreMeasured(z, signals, measures)
      case Err(e) => Reading.IsFirstExcess(signals, e.key)
  {
    var rows := RowsOf(InstallTallyOf(signals), EventTallyOf(Pool(signals)));
    hide MeasureOf, RowsOf, InstallTallyOf, EventTallyOf, Pool, Reading.Numerator, Reading.Denominator, Reading.Sample,
      IsExact, GateOf;
    RowsRead(signals, 0);
    forall k: nat | k < |rows|
      ensures rows[k].key == Reading.KEYS[k]
      ensures rows[k].numerator == Reading.Numerator(signals, rows[k].key)
      ensures rows[k].denominator == Reading.Denominator(signals, rows[k].key)
    {
      RowsRead(signals, k);
    }
    match Build(sqrt, z, rows)
    case Ok(measures) =>
      OneMeasureForEachRow(sqrt, z, rows);
      forall k: nat | k < |rows|
        ensures measures[k].key == Reading.KEYS[k] && Reading.IsMeasured(z, signals, measures[k])
      {
        RowsRead(signals, k);
        var row := rows[k];
        MeasureIsExact(sqrt, z, row.key, row.numerator, row.denominator, row.evidence);
        KeyOfExact(z, row.key, row.numerator, row.denominator, Reading.Sample(signals, row.key), measures[k]);
      }
    case Err(e) =>
      BuildRaisesAtFirstExcess(sqrt, z, rows);
      ExcessIsFirst(rows);
      assert Reading.KEYS[FirstExcess(rows)] == e.key;
      assert forall j :: 0 <= j < FirstExcess(rows) ==> rows[j].key == Reading.KEYS[j];
  }

  lemma KeyOfExact(z: real, key: Key, n: int, d: int, sample: int, m: Measure)
    requires z > 0.0 && d >= 0 && IsExact(z, key, n, d, sample, m)
    ensures m.key == key
  {}

  lemma {:induction false} ExcessIsFirst(rows: seq<Row>)
    ensures FirstExcess(rows) <= |rows|
    ensures forall j :: 0 <= j < FirstExcess(rows) ==> rows[j].numerator <= rows[j].denominator
    ensures FirstExcess(rows) < |rows| ==> rows[FirstExcess(rows)].numerator > rows[FirstExcess(rows)].denominator
  {
    if rows != [] && rows[0].numerator <= rows[0].denominator {
      ExcessIsFirst(rows[1..]);
      forall j | 0 <= j < FirstExcess(rows) ensures rows[j].numerator <= rows[j].denominator {
        if j > 0 {
          assert rows[j] == rows[1..][j - 1];
        }
      }
    }
  }

  /** The twelve measures of the evaluated installs: what `Reading` writes out, or the first
      measure that counts more successes than trials. */
  method BuildMeasures(sqrt: real -> real, z: real, ghost signals: set<Signal>, ghost ids: seq<string>,
                       installs: seq<seq<Signal>>)
    returns (r: Result<seq<Measure>, Error>)
    requires z > 0.0 && AreEvaluatedGroups(signals, ids, installs)
    ensures r == MeasuresOf(sqrt, z, InstallTallyOf(signals), EventTallyOf(Pool(signals)))
    ensures IsSquareRoot(sqrt) ==>
              match r
              case Ok(measures) => Reading.AreMeasured(z, signals, measures)
              case Err(e) => Reading.IsFirstExcess(signals, e.key)
  {
    hide AreEvaluatedGroups, InstallTallyOf, EventTallyOf, Pool, MeasuresOf, Reading.AreMeasured, Reading.IsFirstExcess;
    var t := CountInstalls(signals, ids, installs);
    var e := CountEvents(signals, ids, installs);
    r := MeasuresOf(sqrt, z, t, e);
    if IsSquareRoot(sqrt) {
      MeasuresRead(sqrt, z, signals);
    }
  }

  // ----- Archives -----

  /** An exported archive after field validation: whether every field and row is approved,
      the declared number of signals, and the normalised signals. */
  datatype Archive = Archive(approved: bool, declared: int, signals: seq<Signal>)

  datatype Failure =
    | InvalidArchive(index: nat)
    | ConflictingSignal(id: string)
    | InvalidMeasure(error: Error)

  predicate IsValid(a: Archive) {
    && a.approved
    && a.declared == |a.signals|
    && forall s, t :: s in a.signals && t in a.signals ==> s.install == t.install
  }

  function SignalsFromArchive(a: Archive): Option<seq<Signal>> {
    if !a.approved then None
    else if a.declared != |a.signals| then None
    else if |set s | s in a.signals :: s.install| > 1 then None
    else Some(a.signals)
  }

  lemma ArchiveChecks(a: Archive)
    ensures SignalsFromArchive(a) == if IsValid(a) then Some(a.signals) else None
  {
    var installs := set s | s in a.signals :: s.install;
    if |installs| <= 1 {
      forall s, t | s in a.signals && t in a.signals ensures s.install == t.install {
        SubsetCardinality({s.install, t.install}, installs);
      }
    } else {
      var i :| i in installs;
      assert |installs - {i}| >= 1;
      var j :| j in installs - {i};
    }
  }

  ghost function SignalsOf(archives: seq<Archive>): set<Signal> {
    set a, s | a in archives && s in a.signals :: s
  }

  ghost predicate ConflictFree(signals: set<Signal>) {
    forall s, t :: s in signals && t in signals && s.id == t.id ==> s == t
  }

  /** `unique`, with its keys in insertion order, is the merge of `signals` by id. */
  ghost predicate IsMerge(signals: set<Signal>, order: seq<string>, unique: map<string, Signal>) {
    && Distinct(order) && Elements(order) == unique.Keys
    && (forall i :: i in unique ==> unique[i].id == i && unique[i] in signals)
    && (forall s :: s in signals ==> s.id in unique && unique[s.id] == s)
  }

  lemma MergeIsConflictFree(signals: set<Signal>, order: seq<string>, unique: map<string, Signal>)
    requires IsMerge(signals, order, unique)
    ensures ConflictFree(signals)
    ensures |unique| == |signals| == |order|
    ensures unique.Values == signals
  {
    DistinctCardinality(order);
    var ids := set s | s in signals :: s.id;
    assert ids == unique.Keys;
    InjectiveIds(signals);
  }

  lemma {:induction false} InjectiveIds(signals: set<Signal>)
    requires ConflictFree(signals)
    ensures |set s | s in signals :: s.id| == |signals|
  {
    if signals == {} {
      assert (set s | s in signals :: s.id) == {};
    } else {
      var x :| x in signals;
      var rest := signals - {x};
      InjectiveIds(rest);
      assert (set s | s in signals :: s.id) == (set s | s in rest :: s.id) + {x.id};
      assert x.id !in (set s | s in rest :: s.id);
    }
  }

  lemma AddToMerge(signals: set<Signal>, order: seq<string>, unique: map<string, Signal>, s: Signal)
    requires IsMerge(signals, order, unique)
    requires s.id in unique ==> unique[s.id] == s
    ensures IsMerge(signals + {s}, if s.id in unique then order else order + [s.id], unique[s.id := s])
  {
    assert forall i :: i in order <==> i in Elements(order);
    if s.id !in unique {
      AppendNew(order, s.id);
    }
  }

  // ----- Merging -----

  /** Merge one archive into the signals seen so far. */
  method MergeArchive(ghost seen: set<Signal>, order: seq<string>, unique: map<string, Signal>, signals: seq<Signal>)
    returns (order': seq<string>, unique': map<string, Signal>, conflict: Option<string>)
    requires IsMerge(seen, order, unique)
    ensures conflict.None? ==> IsMerge(seen + Elements(signals), order', unique')
    ensures conflict.Some? ==>
              exists s, t :: s in seen + Elements(signals) && t in signals && s.id == t.id == conflict.value && s != t
  {
    hide IsMerge, Elements;
    order', unique', conflict := order, unique, None;
    ghost var merged := seen;
    SeenSoFar(seen, signals);
    for k := 0 to |signals|
      invariant merged == seen + Elements(signals[..k])
      invariant IsMerge(merged, order', unique')
    {
      var s := signals[k];
      SeenNext(seen, signals, k);
      MergedUnder(merged, order', unique', s.id);
      if s.id in unique' && unique'[s.id] != s {
        assert unique'[s.id] in seen + Elements(signals);
        return order', unique', Some(s.id);
      }
      AddToMerge(merged, order', unique', s);
      merged := merged + {s};
      order' := if s.id in unique' then order' else order' + [s.id];
      unique' := unique'[s.id := s];
    }
    assert signals[..|signals|] == signals;
  }

  lemma SeenSoFar(seen: set<Signal>, signals: seq<Signal>)
    ensures seen + Elements(signals[..0]) == seen
  {}

  lemma SeenNext(seen: set<Signal>, signals: seq<Signal>, k: nat)
    requires k < |signals|
    ensures seen + Elements(signals[..k + 1]) == seen + Elements(signals[..k]) + {signals[k]}
    ensures seen + Elements(signals[..k]) <= seen + Elements(signals)
  {
    assert signals[..k + 1] == signals[..k] + [signals[k]];
  }

  lemma MergedUnder(signals: set<Signal>, order: seq<string>, unique: map<string, Signal>, id: string)
    requires IsMerge(signals, order, unique)
    ensures id in unique ==> unique[id].id == id && unique[id] in signals
  {}

  /** Every archive is valid, and no two different signals share an id. */
  ghost predicate AreMergeable(archives: seq<Archive>) {
    (forall a :: a in archives ==> IsValid(a)) && ConflictFree(SignalsOf(archives))
  }

  /** Archive `k` is the first one that spoils the merge, and what it spoils it with. */
  ghost predicate SpoilsMerge(archives: seq<Archive>, k: nat, failure: Failure) {
    && k < |archives| && AreMergeable(archives[..k])
    && match failure
       case InvalidArchive(index) => index == k && !IsValid(archives[k])
       case ConflictingSignal(id) =>
         && IsValid(archives[k])
         && exists s, t :: s in SignalsOf(archives[..k + 1]) && t in archives[k].signals
                           && s.id == t.id == id && s != t
       case InvalidMeasure(_) => false
  }

  /** Merge every archive in turn, stopping at the first invalid or conflicting one. */
  method MergeAll(archives: seq<Archive>)
    returns (order: seq<string>, unique: map<string, Signal>, failure: Option<Failure>)
    ensures failure.None? ==> IsMerge(SignalsOf(archives), order, unique)
    ensures failure.None? <==> AreMergeable(archives)
    ensures failure.Some? ==> exists k :: SpoilsMerge(archives, k, failure.value)
  {
    order, unique, failure := [], map[], None;
    assert SignalsOf(archives[..0]) == {};
    hide IsValid, ConflictFree, Distinct;
    for k := 0 to |archives|
      invariant IsMerge(SignalsOf(archives[..k]), order, unique)
      invariant forall a :: a in archives[..k] ==> IsValid(a)
    {
      ArchiveChecks(archives[k]);
      SignalsOfPrefix(archives, k);
      MergeIsConflictFree(SignalsOf(archives[..k]), order, unique);
      match SignalsFromArchive(archives[k])
      case None =>
        assert SpoilsMerge(archives, k, InvalidArchive(k));
        return order, unique, Some(InvalidArchive(k));
      case Some(signals) =>
        ghost var seen := SignalsOf(archives[..k]);
        var conflict;
        order, unique, conflict := MergeArchive(seen, order, unique, signals);
        if conflict.Some? {
          ghost var s, t :| s in seen + Elements(signals) && t in signals && s.id == t.id == conflict.value && s != t;
          assert SpoilsMerge(archives, k, ConflictingSignal(conflict.value));
          return order, unique, Some(ConflictingSignal(conflict.value));
        }
    }
    assert archives[..|archives|] == archives;
    MergeIsConflictFree(SignalsOf(archives), order, unique);
  }

  /** Archives can be merged or one of them is the first to spoil the merge: exactly one of
      the two, and only one archive in only one of the two ways. */
  lemma MergeableOrSpoiled(archives: seq<Archive>)
    ensures AreMergeable(archives) <==> !exists k, f :: SpoilsMerge(archives, k, f)
    ensures forall k, f, k', f' :: SpoilsMerge(archives, k, f) && SpoilsMerge(archives, k', f') ==>
              k == k' && (f.InvalidArchive? <==> f'.InvalidArchive?)
  {
    hide AreMergeable, SpoilsMerge;
    if !AreMergeable(archives) {
      var k, f := FirstSpoiler(archives);
    }
    forall k, f | SpoilsMerge(archives, k, f) ensures !AreMergeable(archives) {
      SpoiledOnce(archives, k, f, k, f);
    }
    forall k, f, k', f' | SpoilsMerge(archives, k, f) && SpoilsMerge(archives, k', f')
      ensures k == k' && (f.InvalidArchive? <==> f'.InvalidArchive?)
    {
      SpoiledOnce(archives, k, f, k', f');
    }
  }

  lemma {:induction false} FirstSpoiler(archives: seq<Archive>) returns (k: nat, f: Failure)
    requires !AreMergeable(archives)
    ensures SpoilsMerge(archives, k, f)
  {
    if archives == [] {
      assert false;
    }
    var last := |archives| - 1;
    var before := archives[..last];
    if !AreMergeable(before) {
      k, f := FirstSpoiler(before);
      assert archives[..k] == before[..k] && archives[..k + 1] == before[..k + 1];
    } else {
      k, f := LastSpoils(archives);
    }
  }

  lemma LastSpoils(archives: seq<Archive>) returns (k: nat, f: Failure)
    requires archives != [] && AreMergeable(archives[..|archives| - 1]) && !AreMergeable(archives)
    ensures SpoilsMerge(archives, k, f)
  {
    hide IsValid;
    k := |archives| - 1;
    SignalsOfPrefix(archives, k);
    assert archives[..k + 1] == archives;
    if !IsValid(archives[k]) {
      f := InvalidArchive(k);
    } else {
      var s, t :| s in SignalsOf(archives) && t in SignalsOf(archives) && s.id == t.id && s != t;
      assert s in archives[k].signals || t in archives[k].signals;
      f := ConflictingSignal(s.id);
    }
  }

  lemma SpoiledOnce(archives: seq<Archive>, k: nat, f: Failure, k': nat, f': Failure)
    requires SpoilsMerge(archives, k, f)
    ensures !AreMergeable(archives)
    ensures SpoilsMerge(archives, k', f') ==> k == k' && (f.InvalidArchive? <==> f'.InvalidArchive?)
  {
    assert archives[..|archives|] == archives;
    NotMergeableFrom(archives, k, f, |archives|);
    if SpoilsMerge(archives, k', f') {
      if k < k' {
        NotMergeableFrom(archives, k, f, k');
      } else if k' < k {
        NotMergeableFrom(archives, k', f', k);
      }
    }
  }

  lemma NotMergeableFrom(archives: seq<Archive>, k: nat, f: Failure, n: nat)
    requires SpoilsMerge(archives, k, f) && k < n <= |archives|
    ensures !AreMergeable(archives[..n])
  {
    hide IsValid;
    assert archives[k] in archives[..n];
    if f.ConflictingSignal? {
      SignalsOfPrefix(archives[..n], k);
      assert archives[..n][..k + 1] == archives[..k + 1] && archives[..n][k] == archives[k];
      var s, t :| s in SignalsOf(archives[..k + 1]) && t in archives[k].signals && s.id == t.id == f.id && s != t;
      assert t in SignalsOf(archives[..k + 1]);
    }
  }

  lemma SignalsOfPrefix(archives: seq<Archive>, k: nat)
    requires k < |archives|
    ensures SignalsOf(archives[..k + 1]) == SignalsOf(archives[..k]) + Elements(archives[k].signals)
    ensures SignalsOf(archives[..k + 1]) <= SignalsOf(archives)
  {
    assert archives[..k + 1] == archives[..k] + [archives[k]];
    forall s | s in Elements(archives[k].signals) ensures s in SignalsOf(archives[..k + 1]) {
      assert archives[k] in archives[..k + 1];
    }
    forall s | s in SignalsOf(archives[..k]) ensures s in SignalsOf(archives[..k + 1]) {
      var a :| a in archives[..k] && s in a.signals;
      assert a in archives[..k + 1];
    }
  }

  // ----- Grouping -----

  ghost predicate AreInstallGroups(signals: set<Signal>, order: seq<string>, grouped: map<string, seq<Signal>>) {
    && Distinct(order) && Elements(order) == grouped.Keys == Installs(signals)
    && forall i :: i in grouped ==> Distinct(grouped[i]) && Elements(grouped[i]) == Group(signals, i)
  }

  lemma AddToGroups(signals: set<Signal>, order: seq<string>, grouped: map<string, seq<Signal>>, s: Signal)
    requires AreInstallGroups(signals, order, grouped) && s !in signals
    ensures
      var members := if s.install in grouped then grouped[s.install] else [];
      AreInstallGroups(signals + {s}, if s.install in grouped then order else order + [s.install],
                       grouped[s.install := members + [s]])
  {
    var members := if s.install in grouped then grouped[s.install] else [];
    assert forall i :: i in order <==> i in Elements(order);
    assert forall t :: t in members <==> t in Elements(members);
    GroupsWith(signals, s);
    hide Group, Installs, Elements, Distinct;
    if s.install !in grouped {
      AppendNew(order, s.install);
      NoSignals<Signal>();
    }
    assert Elements(members) == Group(signals, s.install);
    NotInGroup(signals, s);
    AppendNew(members, s);
  }

  lemma NoSignals<T(!new)>()
    ensures Distinct<T>([]) && Elements<T>([]) == {}
  {}

  lemma NotInGroup(signals: set<Signal>, s: Signal)
    requires s !in signals
    ensures forall i :: s !in Group(signals, i)
  {}

  /** How one more signal changes the groups. */
  lemma GroupsWith(signals: set<Signal>, s: Signal)
    ensures Installs(signals + {s}) == Installs(signals) + {s.install}
    ensures Group(signals + {s}, s.install) == Group(signals, s.install) + {s}
    ensures forall i :: i != s.install ==> Group(signals + {s}, i) == Group(signals, i)
    ensures s.install !in Installs(signals) ==> Group(signals, s.install) == {}
  {
    if s.install !in Installs(signals) {
      forall t | t in signals ensures t.install != s.install {
        assert t.install in Installs(signals);
      }
    }
  }

  /** Group the merged signals by install, in merge order. */
  method GroupByInstall(ghost signals: set<Signal>, order: seq<string>, unique: map<string, Signal>)
    returns (installOrder: seq<string>, grouped: map<string, seq<Signal>>)
    requires IsMerge(signals, order, unique)
    ensures AreInstallGroups(signals, installOrder, grouped)
  {
    installOrder, grouped := [], map[];
    ghost var seen: set<Signal> := {};
    for k := 0 to |order|
      invariant seen == MergedPrefix(order, unique, k)
      invariant AreInstallGroups(seen, installOrder, grouped)
    {
      assert order[k] in Elements(order);
      NextMerged(signals, order, unique, k);
      hide IsMerge, MergedPrefix, AreInstallGroups, Elements;
      var s := unique[order[k]];
      AddToGroups(seen, installOrder, grouped, s);
      seen := seen + {s};
      var members := if s.install in grouped then grouped[s.install] else [];
      installOrder := if s.install in grouped then installOrder else installOrder + [s.install];
      grouped := grouped[s.install := members + [s]];
    }
    AllMerged(signals, order, unique);
  }

  ghost function MergedPrefix(order: seq<string>, unique: map<string, Signal>, k: nat): set<Signal>
    requires k <= |order|
  {
    set i | i in order[..k] && i in unique :: unique[i]
  }

  lemma NextMerged(signals: set<Signal>, order: seq<string>, unique: map<string, Signal>, k: nat)
    requires IsMerge(signals, order, unique) && k < |order|
    ensures order[k] in unique
    ensures unique[order[k]] !in MergedPrefix(order, unique, k)
    ensures MergedPrefix(order, unique, k + 1) == MergedPrefix(order, unique, k) + {unique[order[k]]}
  {
    assert order[k] in Elements(order);
    NewId(order, k);
    assert order[..k + 1] == order[..k] + [order[k]];
    assert forall i :: i in order[..k] && i in unique ==> unique[i].id == i;
  }

  lemma AllMerged(signals: set<Signal>, order: seq<string>, unique: map<string, Signal>)
    requires IsMerge(signals, order, unique)
    ensures MergedPrefix(order, unique, |order|) == signals
  {
    assert order[..|order|] == order;
    forall s | s in signals ensures s in MergedPrefix(order, unique, |order|) {
      assert s.id in Elements(order);
    }
  }

  /** Keep the installs with a launch. */
  method LaunchedInstalls(ghost signals: set<Signal>, order: seq<string>, grouped: map<string, seq<Signal>>)
    returns (installs: seq<seq<Signal>>)
    requires AreInstallGroups(signals, order, grouped)
    ensures exists ids :: AreEvaluatedGroups(signals, ids, installs)
  {
    installs := [];
    ghost var ids: seq<string> := [];
    hide Matching, Contains;
    for k := 0 to |order|
      invariant forall i :: i in order ==> i in grouped
      invariant AreGroups(signals, ids, installs)
      invariant forall i :: i in ids <==> i in order[..k] && Contains(Group(signals, i), AppLaunch, None)
    {
      assert order[k] in Elements(order);
      var members := grouped[order[k]];
      MatchingIsContains(members, AppLaunch, None);
      NewId(order, k);
      if Matching(members, AppLaunch, None) != [] {
        AppendGroup(signals, ids, installs, order[k], members);
        installs := installs + [members];
        ids := ids + [order[k]];
      }
    }
    assert order[..|order|] == order;
    EvaluatedAreLaunched(signals, order, ids);
    assert AreEvaluatedGroups(signals, ids, installs);
  }

  lemma EvaluatedAreLaunched(signals: set<Signal>, order: seq<string>, ids: seq<string>)
    requires Elements(order) == Installs(signals)
    requires forall i :: i in ids <==> i in order && Contains(Group(signals, i), AppLaunch, None)
    ensures Elements(ids) == Evaluated(signals)
  {
    forall i ensures i in Elements(ids) <==> i in Evaluated(signals) {
      if i in Evaluated(signals) {
        var s :| s in signals && s.name == AppLaunch && s.install == i;
        assert s in Group(signals, i);
        assert i in Elements(order);
      }
      if i in Elements(ids) {
        var s :| s in Group(signals, i) && Has(s, AppLaunch, None);
      }
    }
  }

  // ----- The report -----

  datatype Verdict = StopDataLoss | StopThresholdsNotMet | NotEnoughEvidence | ThresholdsMet

  datatype Report = Report(
    sourceArchives: nat, uniqueSignals: nat, evaluatedInstalls: nat, ignoredInstalls: nat,
    measures: seq<Measure>, dataLoss: nat, verdict: Verdict)

  function VerdictOf(measures: seq<Measure>, dataLoss: nat): Verdict {
    var statuses := set m | m in measures :: m.status;
    if dataLoss > 0 then StopDataLoss
    else if MissesThreshold in statuses then StopThresholdsNotMet
    else if InsufficientEvidence in statuses then NotEnoughEvidence
    else ThresholdsMet
  }

  /** What a report says of the merged signals, written out; `archives` is their number. */
  ghost predicate IsReport(z: real, signals: set<Signal>, archives: nat, report: Report)
    requires z > 0.0
  {
    && report.sourceArchives == archives
    && report.uniqueSignals == |signals|
    && report.evaluatedInstalls == |Reading.Launched(signals)|
    && report.ignoredInstalls == |Ignored(signals)|
    && Reading.AreMeasured(z, signals, report.measures)
    && report.dataLoss == |DataLossSignals(signals)|
    && IsVerdict(report.measures, report.dataLoss, report.verdict)
  }

  /** The installs without a launch. */
  ghost function Ignored(signals: set<Signal>): set<string> {
    set s | s in signals && s.install !in Reading.Launched(signals) :: s.install
  }

  ghost function DataLossSignals(signals: set<Signal>): set<Signal> {
    set s | s in signals && Reports(s, DataLossEvidence, Detected)
  }

  /** Data loss comes first, then a missed threshold, then missing evidence. */
  ghost predicate IsVerdict(measures: seq<Measure>, dataLoss: nat, verdict: Verdict) {
    match verdict
    case StopDataLoss => dataLoss > 0
    case StopThresholdsNotMet => dataLoss == 0 && exists m :: m in measures && m.status == MissesThreshold
    case NotEnoughEvidence =>
      && dataLoss == 0 && (forall m :: m in measures ==> m.status != MissesThreshold)
      && exists m :: m in measures && m.status == InsufficientEvidence
    case ThresholdsMet => dataLoss == 0 && forall m :: m in measures ==> m.status == Passes
  }

  lemma VerdictReads(measures: seq<Measure>, dataLoss: nat)
    ensures IsVerdict(measures, dataLoss, VerdictOf(measures, dataLoss))
  {
    var statuses := set m | m in measures :: m.status;
    assert forall m :: m in measures ==> m.status in statuses;
  }

  lemma IgnoredAreTheRest(signals: set<Signal>)
    ensures |Ignored(signals)| == |Installs(signals)| - |Evaluated(signals)|
    ensures Reading.Launched(signals) == Evaluated(signals)
  {
    var all, launched := Installs(signals), Evaluated(signals);
    assert Reading.Launched(signals) == launched <= all;
    hide Evaluated, Reading.Launched;
    assert Ignored(signals) == all - launched;
  }

  lemma DataLossReads(signals: set<Signal>)
    ensures DataLoss(signals) == |DataLossSignals(signals)|
  {
    hide Reports;
    forall s: Signal ensures Has(s, DataLossEvidence, Some(Detected)) <==> Reports(s, DataLossEvidence, Detected) {
      HasReports(s, DataLossEvidence, Detected);
    }
    assert Events(signals, DataLossEvidence, Some(Detected)) == DataLossSignals(signals);
  }

  /** The report of a set of signals says that. */
  lemma ReportReads(sqrt: real -> real, z: real, signals: set<Signal>, archives: nat)
    requires IsSquareRoot(sqrt) && z > 0.0 && MeasuresOfSignals(sqrt, z, signals).Ok?
    ensures IsReport(z, signals, archives, ReportOf(sqrt, z, signals, archives))
  {
    MeasuresRead(sqrt, z, signals);
    IgnoredAreTheRest(signals);
    DataLossReads(signals);
    var measures := MeasuresOfSignals(sqrt, z, signals).value;
    VerdictReads(measures, DataLoss(signals));
    hide VerdictOf, IsVerdict, DataLoss, DataLossSignals, Ignored, Installs, Evaluated, Reading.AreMeasured, MeasuresOf;
  }

  ghost function MeasuresOfSignals(sqrt: real -> real, z: real, signals: set<Signal>): Result<seq<Measure>, Error>
    requires z > 0.0
  {
    MeasuresOf(sqrt, z, InstallTallyOf(signals), EventTallyOf(Pool(signals)))
  }

  ghost function DataLoss(signals: set<Signal>): nat {
    |Events(signals, DataLossEvidence, Some(Detected))|
  }

  /** The report as a function of the set of signals and the number of archives. */
  ghost function ReportOf(sqrt: real -> real, z: real, signals: set<Signal>, archives: nat): Report
    requires z > 0.0 && MeasuresOfSignals(sqrt, z, signals).Ok?
  {
    var measures := MeasuresOfSignals(sqrt, z, signals).value;
    SubsetCardinality(Evaluated(signals), Installs(signals));
    Report(archives, |signals|, |Evaluated(signals)|, |Installs(signals)| - |Evaluated(signals)|,
           measures, DataLoss(signals), VerdictOf(measures, DataLoss(signals)))
  }

  /** What the evaluator returns, read off the set of all signals: nothing when it raises. */
  ghost function AnalysisOf(sqrt: real -> real, z: real, archives: seq<Archive>): Option<Report>
    requires z > 0.0
  {
    var signals := SignalsOf(archives);
    if AreMergeable(archives) && MeasuresOfSignals(sqrt, z, signals).Ok?
    then Some(ReportOf(sqrt, z, signals, |archives|))
    else None
  }

  /** The evaluator returns the report of the set of all signals. It raises for the first
      archive that is invalid or holds a signal differing from another with its id, and for a
      guard of a measure exactly when there is no such archive. */
  method Analyze(sqrt: real -> real, z: real, archives: seq<Archive>) returns (r: Result<Report, Failure>)
    requires z > 0.0
    ensures r.Ok? <==> AnalysisOf(sqrt, z, archives).Some?
    ensures r.Ok? ==> AnalysisOf(sqrt, z, archives) == Some(r.value)
    ensures r.Err? ==>
              match r.error
              case InvalidArchive(k) => SpoilsMerge(archives, k, r.error)
              case ConflictingSignal(_) => exists k :: SpoilsMerge(archives, k, r.error)
              case InvalidMeasure(e) =>
                AreMergeable(archives) && MeasuresOfSignals(sqrt, z, SignalsOf(archives)) == Err(e)
    ensures IsSquareRoot(sqrt) && r.Ok? ==> IsReport(z, SignalsOf(archives), |archives|, r.value)
    ensures IsSquareRoot(sqrt) && r.Err? && r.error.InvalidMeasure? ==>
              Reading.IsFirstExcess(SignalsOf(archives), r.error.error.key)
  {
    hide IsReport, Reading.AreMeasured, Reading.IsFirstExcess;
    hide IsMerge, AreInstallGroups, AreEvaluatedGroups, MeasuresOf, VerdictOf, Matching, Events, SignalsOf,
      ConflictFree, InstallTallyOf, EventTallyOf, Pool, Evaluated, Installs, IsValid, Distinct, Elements;
    var order, unique, failure := MergeAll(archives);
    if failure.Some? {
      ghost var k :| SpoilsMerge(archives, k, failure.value);
      return Err(failure.value);
    }
    ghost var signals := SignalsOf(archives);
    MergeIsConflictFree(signals, order, unique);
    var installOrder, grouped := GroupByInstall(signals, order, unique);
    var installs := LaunchedInstalls(signals, installOrder, grouped);
    ghost var ids :| AreEvaluatedGroups(signals, ids, installs);
    var measures := BuildMeasures(sqrt, z, signals, ids, installs);
    if measures.Err? {
      return Err(InvalidMeasure(measures.error));
    }
    var values := UniqueValues(signals, order, unique);
    EventCount(signals, values, DataLossEvidence, Some(Detected));
    var dataLoss := |Matching(values, DataLossEvidence, Some(Detected))|;
    GroupCounts(signals, installOrder, grouped, ids, installs);
    r := Ok(Report(|archives|, |unique|, |installs|, |grouped| - |installs|,
                   measures.value, dataLoss, VerdictOf(measures.value, dataLoss)));
    if IsSquareRoot(sqrt) {
      ReportReads(sqrt, z, signals, |archives|);
    }
  }

  lemma GroupCounts(signals: set<Signal>, order: seq<string>, grouped: map<string, seq<Signal>>,
                    ids: seq<string>, installs: seq<seq<Signal>>)
    requires AreInstallGroups(signals, order, grouped) && AreEvaluatedGroups(signals, ids, installs)
    ensures |grouped| == |Installs(signals)| && |installs| == |Evaluated(signals)| <= |Installs(signals)|
  {
    DistinctCardinality(ids);
    assert |grouped| == |grouped.Keys|;
    SubsetCardinality(Evaluated(signals), Installs(signals));
  }

  /** The values of the merge, in insertion order. */
  method UniqueValues(ghost signals: set<Signal>, order: seq<string>, unique: map<string, Signal>)
    returns (values: seq<Signal>)
    requires IsMerge(signals, order, unique)
    ensures Distinct(values) && Elements(values) == signals
  {
    assert forall i :: i in order ==> i in Elements(order);
    values := seq(|order|, k requires 0 <= k < |order| => unique[order[k]]);
    forall s | s in signals ensures s in values {
      assert s.id in Elements(order);
      var k :| 0 <= k < |order| && order[k] == s.id;
      assert values[k] == s;
    }
    forall j, k | 0 <= j < k < |values| ensures values[j] != values[k] {
      assert values[j].id == order[j] && values[k].id == order[k];
    }
  }

  // ----- Main results about the report -----

  /** Reordering or repeating archives, or splitting the same signals over other valid
      archives, changes nothing but the number of archives: both analyses raise, or both
      report the same measures, counts, data loss and verdict. */
  lemma ReportIgnoresOrder(sqrt: real -> real, z: real, a: seq<Archive>, b: seq<Archive>)
    requires z > 0.0
    requires Elements(a) == Elements(b)
             || (SignalsOf(a) == SignalsOf(b) && forall x :: x in a || x in b ==> IsValid(x))
    ensures
      match AnalysisOf(sqrt, z, a)
      case None => AnalysisOf(sqrt, z, b) == None
      case Some(report) => AnalysisOf(sqrt, z, b) == Some(report.(sourceArchives := |b|))
  {
    hide MeasuresOfSignals, ReportOf, ConflictFree, IsValid;
    if Elements(a) == Elements(b) {
      assert forall x :: x in a <==> x in Elements(a);
      assert forall x :: x in b <==> x in Elements(b);
      assert SignalsOf(a) == SignalsOf(b);
    }
    ReportOfSameSignals(sqrt, z, SignalsOf(a), |a|, |b|);
  }

  lemma ReportOfSameSignals(sqrt: real -> real, z: real, signals: set<Signal>, m: nat, n: nat)
    requires z > 0.0
    ensures MeasuresOfSignals(sqrt, z, signals).Ok? ==>
              ReportOf(sqrt, z, signals, n) == ReportOf(sqrt, z, signals, m).(sourceArchives := n)
  {}

  ghost function TotalSize(groups: seq<seq<Signal>>): nat {
    if groups == [] then 0 else TotalSize(groups[..|groups| - 1]) + |groups[|groups| - 1]|
  }

  lemma {:induction false} FlattenSize(groups: seq<seq<Signal>>)
    ensures |Flatten(groups)| == TotalSize(groups)
  {
    if groups != [] {
      FlattenSize(groups[..|groups| - 1]);
    }
  }

  lemma {:induction false} InstallsOfArchives(archives: seq<Archive>)
    requires forall a :: a in archives ==> IsValid(a)
    ensures |Installs(SignalsOf(archives))| <= |archives|
  {
    if archives == [] {
      assert Installs(SignalsOf(archives)) == {};
    } else {
      var last := |archives| - 1;
      var before := archives[..last];
      InstallsOfArchives(before);
      assert archives[..last + 1] == archives;
      SignalsOfPrefix(archives, last);
      var own := set s | s in archives[last].signals :: s.install;
      assert Installs(SignalsOf(archives)) == Installs(SignalsOf(before)) + own;
      ArchiveChecks(archives[last]);
      assert |own| <= 1;
    }
  }

  /** Nothing is lost or counted twice between the archives and the report: the unique signals
      are the distinct ids, the evaluated and ignored installs are all installs, at most one
      for each archive, and any grouping by install has as many signals as the merge. */
  lemma Conservation(sqrt: real -> real, z: real, archives: seq<Archive>, ids: seq<string>, groups: seq<seq<Signal>>)
    requires z > 0.0 && AnalysisOf(sqrt, z, archives).Some?
    requires AreGroups(SignalsOf(archives), ids, groups) && Elements(ids) == Installs(SignalsOf(archives))
    ensures
      var report, signals := AnalysisOf(sqrt, z, archives).value, SignalsOf(archives);
      && report.uniqueSignals == |set s | s in signals :: s.id| == TotalSize(groups)
      && report.evaluatedInstalls + report.ignoredInstalls == |Installs(signals)| == |groups|
      && |Installs(signals)| <= report.sourceArchives
  {
    var signals := SignalsOf(archives);
    hide MeasuresOfSignals, VerdictOf, DataLoss, Group, SignalsOf, IsValid;
    InjectiveIds(signals);
    InstallsOfArchives(archives);
    FlattenGroups(signals, ids, groups);
    FlattenSize(groups);
    DistinctCardinality(Flatten(groups));
    DistinctCardinality(ids);
    assert forall i :: i in ids <==> i in Elements(ids);
    assert Elements(Flatten(groups)) == signals;
    SubsetCardinality(Evaluated(signals), Installs(signals));
  }

  // ----- The report is determined by its reading -----

  lemma OneVerdict(measures: seq<Measure>, dataLoss: nat, a: Verdict, b: Verdict)
    requires IsVerdict(measures, dataLoss, a) && IsVerdict(measures, dataLoss, b)
    requires measures != []
    ensures a == b
  {
    assert measures[0] in measures;
  }

  /** Only one report says what the signals amount to, so the square root does not matter. */
  lemma ReportIsDetermined(z: real, signals: set<Signal>, archives: nat, a: Report, b: Report)
    requires z > 0.0 && IsReport(z, signals, archives, a) && IsReport(z, signals, archives, b)
    ensures a == b
  {
    hide IsVerdict, IsExact, Reading.Numerator, Reading.Denominator, Reading.Sample, Ignored, DataLossSignals;
    assert a.measures == b.measures by {
      forall k | 0 <= k < |Reading.KEYS| ensures a.measures[k] == b.measures[k] {
        var key := Reading.KEYS[k];
        ExactIsUnique(z, key, Reading.Numerator(signals, key), Reading.Denominator(signals, key),
                      Reading.Sample(signals, key), a.measures[k], b.measures[k]);
      }
    }
    OneVerdict(a.measures, a.dataLoss, a.verdict, b.verdict);
  }

  /** The verdict, read off the counts: data loss, or a measure whose counts miss its
      thresholds, or all twelve passing. */
  lemma VerdictFromCounts(sqrt: real -> real, z: real, archives: seq<Archive>)
    requires IsSquareRoot(sqrt) && z > 0.0 && AnalysisOf(sqrt, z, archives).Some?
    ensures
      var signals, verdict := SignalsOf(archives), AnalysisOf(sqrt, z, archives).value.verdict;
      var safe := forall s :: s in signals ==> !Reports(s, DataLossEvidence, Detected);
      && (verdict == StopDataLoss <==> !safe)
      && (verdict == StopThresholdsNotMet <==>
          safe && exists key :: Reading.Deserved(z, signals, key) == MissesThreshold)
      && (verdict == ThresholdsMet <==> safe && forall key :: Reading.Deserved(z, signals, key) == Passes)
  {
    ReportReads(sqrt, z, SignalsOf(archives), |archives|);
    ReportVerdict(z, SignalsOf(archives), |archives|, ReportOf(sqrt, z, SignalsOf(archives), |archives|));
    hide IsReport, ReportOf, MeasuresOfSignals, SignalsOf, AreMergeable, Reading.Deserved, Reports;
  }

  lemma ReportVerdict(z: real, signals: set<Signal>, archives: nat, report: Report)
    requires z > 0.0 && IsReport(z, signals, archives, report)
    ensures
      var safe := forall s :: s in signals ==> !Reports(s, DataLossEvidence, Detected);
      && (report.verdict == StopDataLoss <==> !safe)
      && (report.verdict == StopThresholdsNotMet <==>
          safe && exists key :: Reading.Deserved(z, signals, key) == MissesThreshold)
      && (report.verdict == ThresholdsMet <==> safe && forall key :: Reading.Deserved(z, signals, key) == Passes)
  {
    hide Reading.AreMeasured, Reading.Deserved, Reports, DataLossSignals, Ignored, Reading.Launched;
    StatusesAreDeserved(z, signals, report.measures);
    NoDataLoss(signals);
    KeyIsMeasured(z, signals, report.measures, Activation);
  }

  lemma NoDataLoss(signals: set<Signal>)
    ensures |DataLossSignals(signals)| == 0 <==> forall s :: s in signals ==> !Reports(s, DataLossEvidence, Detected)
  {
    hide Reports;
    if s :| s in signals && Reports(s, DataLossEvidence, Detected) {
      assert s in DataLossSignals(signals);
    } else {
      assert DataLossSignals(signals) == {};
    }
  }

  lemma StatusesAreDeserved(z: real, signals: set<Signal>, measures: seq<Measure>)
    requires z > 0.0 && Reading.AreMeasured(z, signals, measures)
    ensures (exists m :: m in measures && m.status == MissesThreshold) <==>
            exists key :: Reading.Deserved(z, signals, key) == MissesThreshold
    ensures (forall m :: m in measures ==> m.status == Passes) <==>
            forall key :: Reading.Deserved(z, signals, key) == Passes
  {
    hide Reading.AreMeasured, Reading.Deserved;
    forall m | m in measures ensures m.status == Reading.Deserved(z, signals, m.key) {
      StatusIsDeserved(z, signals, measures, m);
    }
    forall key | true
      ensures exists m :: m in measures && m.key == key && m.status == Reading.Deserved(z, signals, key)
    {
      KeyIsMeasured(z, signals, measures, key);
    }
  }

  lemma StatusIsDeserved(z: real, signals: set<Signal>, measures: seq<Measure>, m: Measure)
    requires z > 0.0 && Reading.AreMeasured(z, signals, measures) && m in measures
    ensures m.status == Reading.Deserved(z, signals, m.key)
  {
    hide ExactStatus, GateOf, Reading.Numerator, Reading.Denominator, Reading.Sample;
    var k :| 0 <= k < |measures| && measures[k] == m;
    assert Reading.IsMeasured(z, signals, measures[k]);
  }

  lemma KeyIsMeasured(z: real, signals: set<Signal>, measures: seq<Measure>, key: Key)
    requires z > 0.0 && Reading.AreMeasured(z, signals, measures)
    ensures exists m :: m in measures && m.key == key
  {
    hide Reading.IsMeasured;
    var k := PositionOf(key);
    assert measures[k] in measures && measures[k].key == key;
  }

  ghost function PositionOf(key: Key): (k: nat)
    ensures k < |Reading.KEYS| && Reading.KEYS[k] == key
  {
    match key
    case Activation => 0
    case RepeatUse => 1
    case MeaningfulListening => 2
    case PlayReliability => 3
    case ResumeReliability => 4
    case TranscriptUtility => 5
    case GroundedRecall => 6
    case CitationUse => 7
    case RetainedArtifact => 8
    case AgentRepeatUse => 9
    case RecallLatency => 10
    case SessionIntegrity => 11
  }
}
