/**
 Product signals and the activation of one install.

 Times are microseconds of coordinated universal time, so a calendar day is a quotient.
 */
module Signals {
  import opened Outcomes
  import opened Collections

  datatype Name =
    | AppLaunch | FirstSubscription | PlayStarted | MeaningfulListening | ResumeAttempt
    | PlaybackError | TranscriptReady | TranscriptUsed | RecallAsked | RecallGrounded
    | RecallCitationOpened | RecallShadowParity | NoteCreated | ClipCreated
    | AgentTurnCompleted | UncleanTermination | DataLossEvidence

  datatype Outcome =
    | Started | Succeeded | Failed | Created | Ready | Used | Grounded | NoEvidence | Opened
    | Detected | Cancelled | Matched | Mismatched

  datatype Latency =
    | Under250Milliseconds | Milliseconds250To749 | Milliseconds750To1999 | Seconds2To4 | Seconds5Plus

  datatype Signal = Signal(
    id: string, install: string, time: int, name: Name, outcome: Outcome,
    latency: Option<Latency>, failure: Option<string>, revision: Option<int>)

  const DAY: int := 86_400_000_000

  function Date(time: int): int {
    time / DAY
  }

  predicate Has(s: Signal, name: Name, outcome: Option<Outcome>) {
    s.name == name && (outcome.None? || s.outcome == outcome.value)
  }

  /** The signal has this name and this outcome. */
  ghost predicate Reports(s: Signal, name: Name, outcome: Outcome) {
    s.name == name && s.outcome == outcome
  }

  lemma HasReports(s: Signal, name: Name, outcome: Outcome)
    ensures Has(s, name, Some(outcome)) <==> Reports(s, name, outcome)
  {}

  function Matching(signals: seq<Signal>, name: Name, outcome: Option<Outcome>): seq<Signal> {
    if signals == [] then []
    else
      var rest := Matching(signals[1..], name, outcome);
      if Has(signals[0], name, outcome) then [signals[0]] + rest else rest
  }

  lemma {:induction false} MatchingMembers(signals: seq<Signal>, name: Name, outcome: Option<Outcome>)
    ensures forall s :: s in Matching(signals, name, outcome) <==> s in signals && Has(s, name, outcome)
  {
    if signals != [] {
      MatchingMembers(signals[1..], name, outcome);
      assert signals == [signals[0]] + signals[1..];
    }
  }

  lemma {:induction false} MatchingKeepsDistinct(signals: seq<Signal>, name: Name, outcome: Option<Outcome>)
    requires Distinct(signals)
    ensures Distinct(Matching(signals, name, outcome))
  {
    if signals != [] {
      MatchingKeepsDistinct(signals[1..], name, outcome);
      MatchingMembers(signals[1..], name, outcome);
      assert signals[0] !in signals[1..];
    }
  }

  /** The number of matching signals is the cardinality of the set of them. */
  lemma MatchingCardinality(signals: seq<Signal>, name: Name, outcome: Option<Outcome>)
    requires Distinct(signals)
    ensures |Matching(signals, name, outcome)| == |set s | s in signals && Has(s, name, outcome)|
  {
    MatchingKeepsDistinct(signals, name, outcome);
    MatchingMembers(signals, name, outcome);
    DistinctCardinality(Matching(signals, name, outcome));
    assert Elements(Matching(signals, name, outcome)) == set s | s in signals && Has(s, name, outcome);
  }

  // ----- Activation -----

  function Earliest(signals: seq<Signal>): int
    requires signals != []
  {
    if |signals| == 1 then signals[0].time
    else
      var rest := Earliest(signals[1..]);
      if signals[0].time < rest then signals[0].time else rest
  }

  lemma {:induction false} EarliestIsLeast(signals: seq<Signal>)
    requires signals != []
    ensures exists s :: s in signals && s.time == Earliest(signals)
    ensures forall s :: s in signals ==> Earliest(signals) <= s.time
  {
    if |signals| > 1 {
      EarliestIsLeast(signals[1..]);
      assert signals == [signals[0]] + signals[1..];
      if signals[0].time >= Earliest(signals[1..]) {
        var s :| s in signals[1..] && s.time == Earliest(signals[1..]);
        assert s in signals;
      } else {
        assert signals[0] in signals;
      }
    } else {
      assert signals[0] in signals;
    }
  }

  function Within(signals: seq<Signal>, first: int, last: int): seq<Signal> {
    if signals == [] then []
    else
      var rest := Within(signals[1..], first, last);
      if first <= signals[0].time <= last then [signals[0]] + rest else rest
  }

  lemma {:induction false} WithinMembers(signals: seq<Signal>, first: int, last: int)
    ensures forall s :: s in Within(signals, first, last) <==> s in signals && first <= s.time <= last
  {
    if signals != [] {
      WithinMembers(signals[1..], first, last);
      assert signals == [signals[0]] + signals[1..];
    }
  }

  function ActivationTime(signals: seq<Signal>): Option<int> {
    var launches := Matching(signals, AppLaunch, None);
    if launches == [] then None
    else
      var first := Earliest(launches);
      var deadline := first + DAY;
      var subscriptions := Within(Matching(signals, FirstSubscription, Some(Created)), first, deadline);
      var plays := Within(Matching(signals, PlayStarted, Some(Succeeded)), first, deadline);
      if subscriptions != [] && plays != [] then
        var subscribed, played := Earliest(subscriptions), Earliest(plays);
        Some(if subscribed < played then played else subscribed)
      else None
  }

  ghost predicate IsFirstLaunch(signals: set<Signal>, first: int) {
    && (exists s :: s in signals && s.name == AppLaunch && s.time == first)
    && (forall s :: s in signals && s.name == AppLaunch ==> first <= s.time)
  }

  /** Within a day of the first launch and by `t`, such a signal has occurred. */
  ghost predicate OccursBy(signals: set<Signal>, name: Name, outcome: Outcome, first: int, t: int) {
    exists s :: s in signals && Reports(s, name, outcome) && first <= s.time <= t && s.time <= first + DAY
  }

  ghost predicate ActivatedBy(signals: set<Signal>, first: int, t: int) {
    && OccursBy(signals, FirstSubscription, Created, first, t)
    && OccursBy(signals, PlayStarted, Succeeded, first, t)
  }

  /** `t` is the least instant by which both a subscription and a play have occurred. */
  ghost predicate IsActivation(signals: set<Signal>, t: int) {
    exists first ::
      && IsFirstLaunch(signals, first)
      && ActivatedBy(signals, first, t)
      && forall t' :: t' < t ==> !ActivatedBy(signals, first, t')
  }

  lemma FirstLaunchIsEarliest(signals: seq<Signal>, first: int)
    requires IsFirstLaunch(Elements(signals), first)
    ensures Matching(signals, AppLaunch, None) != []
    ensures Earliest(Matching(signals, AppLaunch, None)) == first
  {
    hide Matching, Earliest;
    var launches := Matching(signals, AppLaunch, None);
    MatchingMembers(signals, AppLaunch, None);
    var s :| s in signals && s.name == AppLaunch && s.time == first;
    assert s in launches;
    EarliestIsLeast(launches);
  }

  lemma EarliestOccurrence(signals: seq<Signal>, name: Name, outcome: Outcome, first: int, t: int)
    ensures
      var window := Within(Matching(signals, name, Some(outcome)), first, first + DAY);
      OccursBy(Elements(signals), name, outcome, first, t) <==> window != [] && Earliest(window) <= t
  {
    hide Matching, Earliest, Within;
    var matching := Matching(signals, name, Some(outcome));
    var window := Within(matching, first, first + DAY);
    MatchingMembers(signals, name, Some(outcome));
    WithinMembers(matching, first, first + DAY);
    if window != [] {
      EarliestIsLeast(window);
    }
    if OccursBy(Elements(signals), name, outcome, first, t) {
      var s :| s in signals && Has(s, name, Some(outcome)) && first <= s.time <= t && s.time <= first + DAY;
      assert s in matching;
      assert s in window;
    }
    if window != [] && Earliest(window) <= t {
      var s :| s in window && s.time == Earliest(window);
      assert s in Elements(signals);
    }
  }

  lemma ActivatedByFrom(signals: seq<Signal>, first: int, t: int)
    requires IsFirstLaunch(Elements(signals), first)
    ensures ActivatedBy(Elements(signals), first, t) <==>
            ActivationTime(signals).Some? && ActivationTime(signals).value <= t
  {
    hide OccursBy, Matching, Within, Earliest, IsFirstLaunch, Has;
    FirstLaunchIsEarliest(signals, first);
    EarliestOccurrence(signals, FirstSubscription, Created, first, t);
    EarliestOccurrence(signals, PlayStarted, Succeeded, first, t);
  }

  /** The computed activation is the least instant of the declarative reading, for any order
      of the signals. */
  lemma ActivationIsLeast(signals: seq<Signal>, t: int)
    ensures ActivationTime(signals) == Some(t) <==> IsActivation(Elements(signals), t)
  {
    if ActivationTime(signals) == Some(t) {
      var launches := Matching(signals, AppLaunch, None);
      var first := Earliest(launches);
      hide Matching, Earliest, Within;
      MatchingMembers(signals, AppLaunch, None);
      EarliestIsLeast(launches);
      assert IsFirstLaunch(Elements(signals), first) by {
        var s :| s in launches && s.time == first;
        assert s in Elements(signals);
        forall l | l in Elements(signals) && l.name == AppLaunch ensures first <= l.time {
          assert l in launches;
        }
      }
      ActivatedByFrom(signals, first, t);
      forall t' | t' < t ensures !ActivatedBy(Elements(signals), first, t') {
        ActivatedByFrom(signals, first, t');
      }
    }
    if IsActivation(Elements(signals), t) {
      var first :|
        && IsFirstLaunch(Elements(signals), first)
        && ActivatedBy(Elements(signals), first, t)
        && forall t' :: t' < t ==> !ActivatedBy(Elements(signals), first, t');
      ActivatedByFrom(signals, first, t);
      ActivatedByFrom(signals, first, ActivationTime(signals).value);
    }
  }

  /** There is only one such instant. */
  lemma ActivationIsUnique(signals: set<Signal>, t: int, t': int)
    requires IsActivation(signals, t) && IsActivation(signals, t')
    ensures t == t'
  {
    hide ActivatedBy;
    var first :| IsFirstLaunch(signals, first) && ActivatedBy(signals, first, t)
                 && forall u :: u < t ==> !ActivatedBy(signals, first, u);
    var first' :| IsFirstLaunch(signals, first') && ActivatedBy(signals, first', t')
                  && forall u :: u < t' ==> !ActivatedBy(signals, first', u);
    assert first == first';
  }

  lemma ActivationIgnoresOrder(a: seq<Signal>, b: seq<Signal>)
    requires Elements(a) == Elements(b)
    ensures ActivationTime(a) == ActivationTime(b)
  {
    if ActivationTime(a).Some? {
      ActivationIsLeast(a, ActivationTime(a).value);
      ActivationIsLeast(b, ActivationTime(a).value);
    }
    if ActivationTime(b).Some? {
      ActivationIsLeast(b, ActivationTime(b).value);
      ActivationIsLeast(a, ActivationTime(b).value);
    }
  }

  /** Further signals never remove or delay an activation, as long as every further launch
      follows an old one. */
  lemma MoreSignalsActivateNoLater(a: seq<Signal>, b: seq<Signal>)
    requires ActivationTime(a).Some?
    requires Elements(a) <= Elements(b)
    requires forall s :: s in b && s !in a && s.name == AppLaunch ==>
               exists l :: l in a && l.name == AppLaunch && l.time <= s.time
    ensures ActivationTime(b).Some? && ActivationTime(b).value <= ActivationTime(a).value
  {
    var t := ActivationTime(a).value;
    ActivationIsLeast(a, t);
    var first :| IsFirstLaunch(Elements(a), first) && ActivatedBy(Elements(a), first, t);
    assert IsFirstLaunch(Elements(b), first) by {
      var l :| l in Elements(a) && l.name == AppLaunch && l.time == first;
      assert l in Elements(b);
    }
    OccurrenceSurvives(Elements(a), Elements(b), FirstSubscription, Created, first, t);
    OccurrenceSurvives(Elements(a), Elements(b), PlayStarted, Succeeded, first, t);
    ActivatedByFrom(b, first, t);
  }

  lemma OccurrenceSurvives(a: set<Signal>, b: set<Signal>, name: Name, outcome: Outcome, first: int, t: int)
    requires a <= b && OccursBy(a, name, outcome, first, t)
    ensures OccursBy(b, name, outcome, first, t)
  {
    var s :| s in a && Has(s, name, Some(outcome)) && first <= s.time <= t && s.time <= first + DAY;
    assert s in b;
  }

  /** The condition on launches is needed. A launch before all others moves the window to its
      own day: the install stays activated exactly when a subscription and a play fall into
      that day, and then it is activated no later than before. */
  lemma EarlierLaunchMovesTheWindow(signals: seq<Signal>, earlier: Signal)
    requires earlier.name == AppLaunch
    requires forall s :: s in signals && s.name == AppLaunch ==> earlier.time <= s.time
    ensures ActivationTime(signals + [earlier]).Some? <==>
            && (exists s :: s in signals && Has(s, FirstSubscription, Some(Created))
                            && earlier.time <= s.time <= earlier.time + DAY)
            && (exists s :: s in signals && Has(s, PlayStarted, Some(Succeeded))
                            && earlier.time <= s.time <= earlier.time + DAY)
    ensures ActivationTime(signals).Some? && ActivationTime(signals + [earlier]).Some? ==>
              ActivationTime(signals + [earlier]).value <= ActivationTime(signals).value
  {
    var all, last := signals + [earlier], earlier.time + DAY;
    hide ActivationTime, Matching, Within, Earliest;
    assert earlier in Elements(all);
    assert IsFirstLaunch(Elements(all), earlier.time);
    ActivatedByFrom(all, earlier.time, last);
    InWindow(signals, earlier, FirstSubscription, Created);
    InWindow(signals, earlier, PlayStarted, Succeeded);
    if ActivationTime(all).Some? {
      var t := ActivationTime(all).value;
      ActivatedByFrom(all, earlier.time, t);
      assert OccursBy(Elements(all), FirstSubscription, Created, earlier.time, last);
      assert OccursBy(Elements(all), PlayStarted, Succeeded, earlier.time, last);
      if ActivationTime(signals).Some? {
        SurvivesNoLater(signals, earlier);
      }
    }
  }

  lemma SurvivesNoLater(signals: seq<Signal>, earlier: Signal)
    requires earlier.name == AppLaunch
    requires forall s :: s in signals && s.name == AppLaunch ==> earlier.time <= s.time
    requires ActivationTime(signals).Some?
    requires ActivatedBy(Elements(signals + [earlier]), earlier.time, earlier.time + DAY)
    ensures ActivatedBy(Elements(signals + [earlier]), earlier.time, ActivationTime(signals).value)
    ensures IsFirstLaunch(Elements(signals + [earlier]), earlier.time) ==>
              ActivationTime(signals + [earlier]).Some?
              && ActivationTime(signals + [earlier]).value <= ActivationTime(signals).value
  {
    var all, t := signals + [earlier], ActivationTime(signals).value;
    ActivationIsLeast(signals, t);
    hide ActivationTime;
    var first :| IsFirstLaunch(Elements(signals), first) && ActivatedBy(Elements(signals), first, t);
    OccursEarlier(Elements(signals), Elements(all), FirstSubscription, Created, earlier.time, first, t);
    OccursEarlier(Elements(signals), Elements(all), PlayStarted, Succeeded, earlier.time, first, t);
    if IsFirstLaunch(Elements(all), earlier.time) {
      ActivatedByFrom(all, earlier.time, t);
    }
  }

  /** What has occurred by `t` in a later window has occurred by `t` in an earlier one, if it
      occurs there at all. */
  lemma OccursEarlier(a: set<Signal>, b: set<Signal>, name: Name, outcome: Outcome, first': int, first: int, t: int)
    requires a <= b && first' <= first && OccursBy(a, name, outcome, first, t)
    requires OccursBy(b, name, outcome, first', first' + DAY)
    ensures OccursBy(b, name, outcome, first', t)
  {
    var s :| s in a && Has(s, name, Some(outcome)) && first <= s.time <= t && s.time <= first + DAY;
    var s' :| s' in b && Has(s', name, Some(outcome)) && first' <= s'.time <= first' + DAY;
    assert s in b;
    if s.time < s'.time {
      assert s.time <= first' + DAY;
    }
  }

  lemma InWindow(signals: seq<Signal>, earlier: Signal, name: Name, outcome: Outcome)
    requires earlier.name != name
    ensures OccursBy(Elements(signals + [earlier]), name, outcome, earlier.time, earlier.time + DAY) <==>
            exists s :: s in signals && Has(s, name, Some(outcome))
                        && earlier.time <= s.time <= earlier.time + DAY
  {
    var all := Elements(signals + [earlier]);
    hide Reports, Has;
    if OccursBy(all, name, outcome, earlier.time, earlier.time + DAY) {
      var s :| s in all && Reports(s, name, outcome) && earlier.time <= s.time <= earlier.time + DAY;
      HasReports(s, name, outcome);
      ReportedName(s, name, outcome);
      assert s in signals;
    }
    if s :| s in signals && Has(s, name, Some(outcome)) && earlier.time <= s.time <= earlier.time + DAY {
      HasReports(s, name, outcome);
      assert s in all;
    }
  }

  lemma ReportedName(s: Signal, name: Name, outcome: Outcome)
    requires Reports(s, name, outcome)
    ensures s.name == name
  {}

  /** So a launch that is earlier by however little can remove an activation: here the play
      comes at the end of the first day. */
  lemma EarlierLaunchRemovesActivation(launch: Signal, subscribe: Signal, play: Signal, earlier: Signal)
    requires launch.name == AppLaunch && launch.time == 0
    requires Has(subscribe, FirstSubscription, Some(Created)) && subscribe.time == 1
    requires Has(play, PlayStarted, Some(Succeeded)) && play.time == DAY
    requires earlier.name == AppLaunch && earlier.time < 0
    ensures ActivationTime([launch, subscribe, play]) == Some(DAY)
    ensures ActivationTime([launch, subscribe, play] + [earlier]) == None
  {
    hide ActivationTime, Matching, Within, Earliest;
    ActivatedAtDeadline(launch, subscribe, play);
    EarlierLaunchMovesTheWindow([launch, subscribe, play], earlier);
  }

  lemma ActivatedAtDeadline(launch: Signal, subscribe: Signal, play: Signal)
    requires launch.name == AppLaunch && launch.time == 0
    requires Has(subscribe, FirstSubscription, Some(Created)) && subscribe.time == 1
    requires Has(play, PlayStarted, Some(Succeeded)) && play.time == DAY
    ensures ActivationTime([launch, subscribe, play]) == Some(DAY)
  {
    var signals := [launch, subscribe, play];
    hide ActivationTime, Matching, Within, Earliest;
    assert launch in Elements(signals) && subscribe in Elements(signals) && play in Elements(signals);
    assert IsFirstLaunch(Elements(signals), 0);
    assert ActivatedBy(Elements(signals), 0, DAY);
    ActivatedByFrom(signals, 0, DAY);
    assert !OccursBy(Elements(signals), PlayStarted, Succeeded, 0, DAY - 1);
    ActivatedByFrom(signals, 0, DAY - 1);
  }
}
