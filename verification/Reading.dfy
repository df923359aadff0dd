/**
 What a cohort report must say, written out over the signals: which installs and signals each
 measure counts, out of which, and on how much evidence. Nothing here is taken from the way
 the evaluator counts.
 */
module Reading {
  import opened Measures
  import opened Outcomes
  import opened Signals
  import opened Wilson

  /** The measures in the order of the report. */
  const KEYS: seq<Key> :=
    [ Activation, RepeatUse, Key.MeaningfulListening, PlayReliability, ResumeReliability, TranscriptUtility,
      GroundedRecall, CitationUse, RetainedArtifact, AgentRepeatUse, RecallLatency, SessionIntegrity ]

  /** The calendar day of an instant given in microseconds. */
  function Day(time: int): int {
    time / 86_400_000_000
  }

  // ----- Installs -----

  ghost function Launched(signals: set<Signal>): set<string> {
    set s | s in signals && s.name == AppLaunch :: s.install
  }

  /** `t` is the least instant within a day of the first launch of the install by which it has
      created a subscription and succeeded to play. */
  ghost predicate ActivatesAt(signals: set<Signal>, install: string, t: int) {
    IsActivation((set s | s in signals && s.install == install), t)
  }

  ghost predicate Activates(signals: set<Signal>, install: string) {
    exists t :: ActivatesAt(signals, install, t)
  }

  ghost predicate Shows(signals: set<Signal>, install: string, name: Name, outcome: Outcome) {
    exists s :: s in signals && s.install == install && Reports(s, name, outcome)
  }

  /** Two launches on different days, from the day of `t` to a week after it. */
  ghost predicate ReturnsAfter(signals: set<Signal>, install: string, t: int) {
    exists a, b ::
      && a in signals && b in signals && a.install == b.install == install && a.name == b.name == AppLaunch
      && Day(a.time) != Day(b.time)
      && Day(t) <= Day(a.time) <= Day(t) + 7 && Day(t) <= Day(b.time) <= Day(t) + 7
  }

  ghost predicate Returns(signals: set<Signal>, install: string) {
    exists t :: ActivatesAt(signals, install, t) && ReturnsAfter(signals, install, t)
  }

  /** Two successful agent turns on different days. */
  ghost predicate ReturnsToAgent(signals: set<Signal>, install: string) {
    exists a, b ::
      && a in signals && b in signals && a.install == b.install == install
      && Reports(a, AgentTurnCompleted, Succeeded) && Reports(b, AgentTurnCompleted, Succeeded)
      && Day(a.time) != Day(b.time)
  }

  /** A ready transcript and meaningful listening. */
  ghost predicate CouldUseTranscript(signals: set<Signal>, install: string) {
    && Shows(signals, install, TranscriptReady, Ready)
    && Shows(signals, install, Name.MeaningfulListening, Succeeded)
  }

  // ----- Signals of installs that have launched -----

  ghost function Named(signals: set<Signal>, name: Name): set<Signal> {
    set s | s in signals && s.install in Launched(signals) && s.name == name
  }

  ghost function Ending(signals: set<Signal>, name: Name, outcome: Outcome): set<Signal> {
    set s | s in signals && s.install in Launched(signals) && Reports(s, name, outcome)
  }

  ghost function AnsweredRecalls(signals: set<Signal>): set<Signal> {
    Ending(signals, RecallGrounded, Grounded) + Ending(signals, RecallGrounded, NoEvidence)
  }

  ghost function RecallsUnderFiveSeconds(signals: set<Signal>): set<Signal> {
    set s | s in AnsweredRecalls(signals) && s.latency in FAST
  }

  const FAST: set<Option<Latency>> :=
    {Some(Under250Milliseconds), Some(Milliseconds250To749), Some(Milliseconds750To1999), Some(Seconds2To4)}

  // ----- The counts of each measure -----

  ghost function Numerator(signals: set<Signal>, key: Key): int {
    match key
    case Activation => |set i | i in Launched(signals) && Activates(signals, i)|
    case RepeatUse => |set i | i in Launched(signals) && Activates(signals, i) && Returns(signals, i)|
    case MeaningfulListening =>
      |set i | i in Launched(signals) && Activates(signals, i)
               && Shows(signals, i, Name.MeaningfulListening, Succeeded)|
    case PlayReliability => |Ending(signals, PlayStarted, Succeeded)|
    case ResumeReliability => |Ending(signals, ResumeAttempt, Succeeded)|
    case TranscriptUtility =>
      |set i | i in Launched(signals) && CouldUseTranscript(signals, i) && Shows(signals, i, TranscriptUsed, Used)|
    case GroundedRecall => |Ending(signals, RecallGrounded, Grounded)|
    case CitationUse => |Ending(signals, RecallCitationOpened, Opened)|
    case RetainedArtifact =>
      |set i | i in Launched(signals) && Activates(signals, i)
               && (Shows(signals, i, NoteCreated, Created) || Shows(signals, i, ClipCreated, Created))|
    case AgentRepeatUse => |set i | i in Launched(signals) && Activates(signals, i) && ReturnsToAgent(signals, i)|
    case RecallLatency => |RecallsUnderFiveSeconds(signals)|
    case SessionIntegrity =>
      var launches, unclean := |Named(signals, AppLaunch)|, |Ending(signals, UncleanTermination, Detected)|;
      if unclean < launches then launches - unclean else 0
  }

  ghost function Denominator(signals: set<Signal>, key: Key): nat {
    match key
    case Activation => |Launched(signals)|
    case RepeatUse | MeaningfulListening | RetainedArtifact | AgentRepeatUse =>
      |set i | i in Launched(signals) && Activates(signals, i)|
    case PlayReliability => |Named(signals, PlayStarted)|
    case ResumeReliability => |Named(signals, ResumeAttempt)|
    case TranscriptUtility => |set i | i in Launched(signals) && CouldUseTranscript(signals, i)|
    case GroundedRecall => |Ending(signals, RecallAsked, Started)|
    case CitationUse => |Ending(signals, RecallGrounded, Grounded)|
    case RecallLatency => |AnsweredRecalls(signals)|
    case SessionIntegrity => |Named(signals, AppLaunch)|
  }

  /** Citations and recall latencies are judged on the recalls asked. */
  ghost function Sample(signals: set<Signal>, key: Key): nat {
    if key == CitationUse || key == RecallLatency then |Ending(signals, RecallAsked, Started)|
    else Denominator(signals, key)
  }

  // ----- Measures and verdict -----

  /** The measure holds these counts, exactly. */
  ghost predicate IsMeasured(z: real, signals: set<Signal>, m: Measure)
    requires z > 0.0
  {
    && Numerator(signals, m.key) <= Denominator(signals, m.key)
    && IsExact(z, m.key, Numerator(signals, m.key), Denominator(signals, m.key), Sample(signals, m.key), m)
  }

  /** The twelve measures of the signals, in order. */
  ghost predicate AreMeasured(z: real, signals: set<Signal>, measures: seq<Measure>)
    requires z > 0.0
  {
    && |measures| == |KEYS|
    && forall k :: 0 <= k < |KEYS| ==> measures[k].key == KEYS[k] && IsMeasured(z, signals, measures[k])
  }

  /** The status that the counts of a measure deserve. */
  ghost function Deserved(z: real, signals: set<Signal>, key: Key): Status
    requires z > 0.0
  {
    ExactStatus(GateOf(key), Square(z), Numerator(signals, key), Denominator(signals, key), Sample(signals, key))
  }

  /** More successes than trials are counted for this measure, and for none before it. */
  ghost predicate IsFirstExcess(signals: set<Signal>, key: Key) {
    exists k ::
      && 0 <= k < |KEYS| && KEYS[k] == key && Numerator(signals, key) > Denominator(signals, key)
      && forall j :: 0 <= j < k ==> Numerator(signals, KEYS[j]) <= Denominator(signals, KEYS[j])
  }
}
