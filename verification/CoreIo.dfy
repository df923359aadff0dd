/**
 The main-actor I/O ratchet: a line-by-line scan that reports calls into the shared core
 outside actors and nonisolated declarations, and a baseline the counts must equal.

 Whether a line declares an actor, a function or contains calls is given by three pattern
 matchers on the line; braces are counted in the text of the line.
 */
module CoreIo {
  import opened Counters
  import opened Outcomes

  datatype Declaration = Declaration(name: string, nonisolated: bool)

  datatype Rules = Rules(
    isActor: string -> bool,
    declaration: string -> Option<Declaration>,
    calls: string -> seq<string>)

  datatype Key = Key(file: string, symbol: string, operation: string)

  datatype Finding = Finding(key: Key, line: nat)

  function Occurrences(line: string, c: char): nat {
    if line == "" then 0 else Occurrences(line[..|line| - 1], c) + if line[|line| - 1] == c then 1 else 0
  }

  function Braces(line: string): int {
    Occurrences(line, '{') - Occurrences(line, '}')
  }

  lemma {:induction false} OccurrencesCount(line: string, c: char)
    ensures Occurrences(line, c) == multiset(line)[c]
  {
    if line != "" {
      OccurrencesCount(line[..|line| - 1], c);
      assert line == line[..|line| - 1] + [line[|line| - 1]];
    }
  }

  ghost function Text(lines: seq<string>, k: nat): string
    requires k <= |lines|
  {
    if k == 0 then "" else Text(lines, k - 1) + lines[k - 1]
  }

  /** The depth at the start of a line is what the text before it opens minus what it closes. */
  lemma {:induction false} DepthCounts(lines: seq<string>, k: nat)
    requires k <= |lines|
    ensures DepthBefore(lines, k) == multiset(Text(lines, k))['{'] as int - multiset(Text(lines, k))['}'] as int
  {
    if k > 0 {
      DepthCounts(lines, k - 1);
      OccurrencesCount(lines[k - 1], '{');
      OccurrencesCount(lines[k - 1], '}');
    }
  }

  /** The brace depth at the start of line `k`. */
  function DepthBefore(lines: seq<string>, k: nat): int
    requires k <= |lines|
  {
    if k == 0 then 0 else DepthBefore(lines, k - 1) + Braces(lines[k - 1])
  }

  // ----- What is exempt -----

  /** The actor declared on line `j` is still open on line `k`: after every line from `j` on,
      the depth has stayed above the depth before line `j`. */
  ghost predicate IsOpen(rules: Rules, lines: seq<string>, j: nat, k: nat)
    requires k <= |lines|
  {
    && j <= k && j < |lines| && rules.isActor(lines[j])
    && forall i :: j < i <= k ==> DepthBefore(lines, i) > DepthBefore(lines, j)
  }

  /** Some actor is open on line `k`. */
  ghost predicate InActor(rules: Rules, lines: seq<string>, k: nat)
    requires k < |lines|
  {
    exists j :: IsOpen(rules, lines, j, k)
  }

  /** Line `d` holds the last declaration at or before line `k`. */
  ghost predicate IsLastDeclaration(rules: Rules, lines: seq<string>, d: int, k: int)
    requires k < |lines|
  {
    0 <= d <= k && rules.declaration(lines[d]).Some? && forall e :: d < e <= k ==> rules.declaration(lines[e]).None?
  }

  ghost predicate IsUndeclared(rules: Rules, lines: seq<string>, k: int)
    requires k < |lines|
  {
    forall e :: 0 <= e <= k ==> rules.declaration(lines[e]).None?
  }

  /** Line `k` belongs to this symbol. */
  ghost predicate IsUnder(rules: Rules, lines: seq<string>, k: int, name: string)
    requires k < |lines|
  {
    || (IsUndeclared(rules, lines, k) && name == "<file>")
    || exists d :: IsLastDeclaration(rules, lines, d, k) && rules.declaration(lines[d]).value.name == name
  }

  /** The calls of line `k` are exempt: an actor is open there, or the last declaration is
      nonisolated. */
  ghost predicate IsExempt(rules: Rules, lines: seq<string>, k: nat)
    requires k < |lines|
  {
    || InActor(rules, lines, k)
    || exists d :: IsLastDeclaration(rules, lines, d, k) && rules.declaration(lines[d]).value.nonisolated
  }

  /** A call, by its line and its position among the calls of the line. */
  datatype Call = Call(line: nat, position: nat)

  ghost predicate IsCall(rules: Rules, lines: seq<string>, c: Call, n: int) {
    c.line < n && c.line < |lines| && c.position < |rules.calls(lines[c.line])|
  }

  ghost predicate IsEarlier(a: Call, b: Call) {
    a.line < b.line || (a.line == b.line && a.position < b.position)
  }

  ghost predicate Reports(rules: Rules, file: string, lines: seq<string>, f: Finding, c: Call)
    requires IsCall(rules, lines, c, |lines|)
  {
    && f.key.file == file && f.key.operation == rules.calls(lines[c.line])[c.position]
    && f.line == c.line + 1 && IsUnder(rules, lines, c.line, f.key.symbol)
  }

  /** The findings report the listed calls one by one; these are exactly the calls on the first
      `n` lines that are not exempt, each once, in order of line and position. */
  ghost predicate AreReported(rules: Rules, file: string, lines: seq<string>, n: int, results: seq<Finding>,
                              calls: seq<Call>) {
    && |results| == |calls|
    && (forall x :: 0 <= x < |calls| ==>
          IsCall(rules, lines, calls[x], n) && Reports(rules, file, lines, results[x], calls[x]))
    && (forall x, y :: 0 <= x < y < |calls| ==> IsEarlier(calls[x], calls[y]))
    && (forall c :: c in calls <==> IsCall(rules, lines, c, n) && !IsExempt(rules, lines, c.line))
  }

  // ----- The one-integer tracker -----

  /** At the start of line `k` the tracker holds the body depth of the outermost open actor,
      and holds nothing exactly when no earlier actor is open. */
  ghost predicate Tracks(rules: Rules, lines: seq<string>, k: nat, bodyDepth: Option<int>)
    requires k <= |lines|
  {
    match bodyDepth
    case None => forall j :: 0 <= j < k ==> !IsOpen(rules, lines, j, k)
    case Some(depth) =>
      exists j :: 0 <= j < k && IsOpen(rules, lines, j, k) && depth == DepthBefore(lines, j) + 1
             && forall i :: 0 <= i < j ==> !IsOpen(rules, lines, i, j)
  }

  /** An actor that is open later was open before. */
  lemma OpenBefore(rules: Rules, lines: seq<string>, j: nat, i: nat, k: nat)
    requires j <= i <= k <= |lines| && IsOpen(rules, lines, j, k)
    ensures IsOpen(rules, lines, j, i)
  {}

  lemma TracksLine(rules: Rules, lines: seq<string>, k: nat, bodyDepth: Option<int>)
    requires k < |lines| && Tracks(rules, lines, k, bodyDepth)
    ensures bodyDepth.Some? || rules.isActor(lines[k]) <==> InActor(rules, lines, k)
    ensures bodyDepth.Some? ==> bodyDepth.value <= DepthBefore(lines, k)
  {
    if bodyDepth.None? && rules.isActor(lines[k]) {
      assert IsOpen(rules, lines, k, k);
    }
  }

  lemma TracksNext(rules: Rules, lines: seq<string>, k: nat, before: Option<int>, during: Option<int>)
    requires k < |lines| && Tracks(rules, lines, k, before)
    requires during == if before.None? && rules.isActor(lines[k]) then Some(DepthBefore(lines, k) + 1) else before
    ensures
      var closes := during.Some? && DepthBefore(lines, k + 1) < during.value;
      Tracks(rules, lines, k + 1, if closes then None else during)
  {
    hide DepthBefore;
    var n := k + 1;
    var next := DepthBefore(lines, n);
    if during.None? {
      forall j | 0 <= j < n ensures !IsOpen(rules, lines, j, n) {
        if j < k && IsOpen(rules, lines, j, n) {
          OpenBefore(rules, lines, j, k, n);
        }
      }
    } else {
      var j := if before.None? then k else Outermost(rules, lines, k, before.value);
      if next < during.value {
        forall i | 0 <= i < n ensures !IsOpen(rules, lines, i, n) {
          if IsOpen(rules, lines, i, n) && i < j {
            OpenBefore(rules, lines, i, j, n);
          }
        }
      } else {
        assert IsOpen(rules, lines, j, n);
      }
    }
  }

  ghost function Outermost(rules: Rules, lines: seq<string>, k: nat, depth: int): (j: nat)
    requires k <= |lines| && Tracks(rules, lines, k, Some(depth))
    ensures j < k && IsOpen(rules, lines, j, k) && depth == DepthBefore(lines, j) + 1
    ensures forall i :: 0 <= i < j ==> !IsOpen(rules, lines, i, j)
  {
    var j :| 0 <= j < k && IsOpen(rules, lines, j, k) && depth == DepthBefore(lines, j) + 1
             && forall i :: 0 <= i < j ==> !IsOpen(rules, lines, i, j);
    j
  }

  /** An actor is open on the line after its declaration exactly when that line opens more
      braces than it closes; otherwise it is never open again and exempts nothing. */
  lemma ActorNeedsItsBrace(rules: Rules, lines: seq<string>, j: nat)
    requires j < |lines| && rules.isActor(lines[j])
    ensures IsOpen(rules, lines, j, j + 1) <==> Braces(lines[j]) > 0
    ensures Braces(lines[j]) <= 0 ==> forall k :: j < k <= |lines| ==> !IsOpen(rules, lines, j, k)
  {
    hide Braces;
    assert DepthBefore(lines, j + 1) == DepthBefore(lines, j) + Braces(lines[j]);
  }

  /** What the scan knows about the last declaration after `k` lines. */
  ghost predicate KnowsSymbol(rules: Rules, lines: seq<string>, k: int, symbol: string, nonisolated: bool)
    requires k < |lines|
  {
    || (IsUndeclared(rules, lines, k) && symbol == "<file>" && !nonisolated)
    || exists d ::
         IsLastDeclaration(rules, lines, d, k) && rules.declaration(lines[d]).value == Declaration(symbol, nonisolated)
  }

  lemma NextSymbol(rules: Rules, lines: seq<string>, k: nat, symbol: string, nonisolated: bool)
    requires k < |lines| && KnowsSymbol(rules, lines, k - 1, symbol, nonisolated)
    ensures
      match rules.declaration(lines[k])
      case None => KnowsSymbol(rules, lines, k, symbol, nonisolated)
      case Some(d) => KnowsSymbol(rules, lines, k, d.name, d.nonisolated)
  {
    var declared := rules.declaration(lines[k]);
    if declared.Some? {
      assert IsLastDeclaration(rules, lines, k, k);
    } else if !IsUndeclared(rules, lines, k - 1) {
      var d :| IsLastDeclaration(rules, lines, d, k - 1)
               && rules.declaration(lines[d]).value == Declaration(symbol, nonisolated);
      assert IsLastDeclaration(rules, lines, d, k);
    }
  }

  lemma SymbolKnown(rules: Rules, lines: seq<string>, k: nat, symbol: string, nonisolated: bool)
    requires k < |lines| && KnowsSymbol(rules, lines, k, symbol, nonisolated)
    ensures IsUnder(rules, lines, k, symbol)
    ensures IsExempt(rules, lines, k) <==> InActor(rules, lines, k) || nonisolated
  {
    hide InActor;
    forall d, e | IsLastDeclaration(rules, lines, d, k) && IsLastDeclaration(rules, lines, e, k) ensures d == e {}
  }

  lemma NoCallYet(rules: Rules, file: string, lines: seq<string>)
    ensures AreReported(rules, file, lines, 0, [], [])
  {}

  lemma SkipLine(rules: Rules, file: string, lines: seq<string>, k: nat, results: seq<Finding>, calls: seq<Call>)
    requires k < |lines| && AreReported(rules, file, lines, k, results, calls) && IsExempt(rules, lines, k)
    ensures AreReported(rules, file, lines, k + 1, results, calls)
  {
    hide IsExempt, Reports;
  }

  /** The findings of one line, behind those of the lines before it. */
  lemma AddLine(rules: Rules, file: string, lines: seq<string>, k: nat, results: seq<Finding>, calls: seq<Call>,
                symbol: string)
    requires k < |lines| && AreReported(rules, file, lines, k, results, calls)
    requires !IsExempt(rules, lines, k) && IsUnder(rules, lines, k, symbol)
    ensures AreReported(rules, file, lines, k + 1, results + Report(file, symbol, rules.calls(lines[k]), k + 1),
                        calls + CallsOf(k, |rules.calls(lines[k])|))
  {
    hide IsExempt, IsUnder;
    var more, found := CallsOf(k, |rules.calls(lines[k])|), Report(file, symbol, rules.calls(lines[k]), k + 1);
    var all := calls + more;
    assert forall c :: c in calls ==> c.line < k;
    forall c ensures c in all <==> IsCall(rules, lines, c, k + 1) && !IsExempt(rules, lines, c.line) {
      if c.line == k && c.position < |more| {
        assert more[c.position] == c;
      }
    }
    forall x | 0 <= x < |all|
      ensures IsCall(rules, lines, all[x], k + 1) && Reports(rules, file, lines, (results + found)[x], all[x])
    {
      if x >= |calls| {
        assert all[x] == Call(k, x - |calls|);
      }
    }
    forall x, y | 0 <= x < y < |all| ensures IsEarlier(all[x], all[y]) {
      if x < |calls| <= y {
        assert all[x] in calls;
      }
    }
  }

  ghost function CallsOf(line: nat, n: nat): seq<Call> {
    seq(n, p requires 0 <= p < n => Call(line, p))
  }

  function Report(file: string, symbol: string, operations: seq<string>, line: nat): seq<Finding> {
    seq(|operations|, p requires 0 <= p < |operations| => Finding(Key(file, symbol, operations[p]), line))
  }

  /** The scan, with the single integer of the source, reports exactly the calls that are in
      no open actor and under no nonisolated declaration, each once and in order, under the
      last declared symbol. */
  method Findings(rules: Rules, file: string, lines: seq<string>) returns (results: seq<Finding>)
    ensures exists calls :: AreReported(rules, file, lines, |lines|, results, calls)
  {
    hide AreReported, KnowsSymbol, IsExempt, IsUnder, InActor, Tracks;
    var currentSymbol, currentNonisolated := "<file>", false;
    var braceDepth := 0;
    var actorBodyDepth: Option<int> := None;
    results := [];
    ghost var calls: seq<Call> := [];
    NoCallYet(rules, file, lines);
    StartOfFile(rules, lines);
    for k := 0 to |lines|
      invariant braceDepth == DepthBefore(lines, k)
      invariant KnowsSymbol(rules, lines, k - 1, currentSymbol, currentNonisolated)
      invariant Tracks(rules, lines, k, actorBodyDepth)
      invariant actorBodyDepth.Some? ==> actorBodyDepth.value <= braceDepth
      invariant AreReported(rules, file, lines, k, results, calls)
    {
      var line := lines[k];
      ghost var before := actorBodyDepth;
      TracksLine(rules, lines, k, before);
      if actorBodyDepth.None? && rules.isActor(line) {
        actorBodyDepth := Some(braceDepth + 1);
      }
      TracksNext(rules, lines, k, before, actorBodyDepth);
      NextSymbol(rules, lines, k, currentSymbol, currentNonisolated);
      var declaration := rules.declaration(line);
      if declaration.Some? {
        currentSymbol, currentNonisolated := declaration.value.name, declaration.value.nonisolated;
      }
      SymbolKnown(rules, lines, k, currentSymbol, currentNonisolated);
      if !currentNonisolated && actorBodyDepth.None? {
        AddLine(rules, file, lines, k, results, calls, currentSymbol);
        results := results + Report(file, currentSymbol, rules.calls(line), k + 1);
        calls := calls + CallsOf(k, |rules.calls(line)|);
      } else {
        SkipLine(rules, file, lines, k, results, calls);
      }
      braceDepth := braceDepth + Braces(line);
      if actorBodyDepth.Some? && braceDepth < actorBodyDepth.value {
        actorBodyDepth := None;
      }
    }
  }

  lemma StartOfFile(rules: Rules, lines: seq<string>)
    ensures KnowsSymbol(rules, lines, -1, "<file>", false)
    ensures Tracks(rules, lines, 0, None)
  {}

  // ----- The ratchet -----

  ghost function CountOf(findings: seq<Finding>, key: Key): nat {
    if findings == [] then 0
    else CountOf(findings[..|findings| - 1], key) + if findings[|findings| - 1].key == key then 1 else 0
  }

  /** The positions of the findings with a key. */
  ghost function PositionsOf(findings: seq<Finding>, key: Key): set<int> {
    set i | 0 <= i < |findings| && findings[i].key == key
  }

  lemma {:induction false} CountIsPositions(findings: seq<Finding>, key: Key)
    ensures CountOf(findings, key) == |PositionsOf(findings, key)|
  {
    if findings != [] {
      var last := |findings| - 1;
      CountIsPositions(findings[..last], key);
      assert PositionsOf(findings, key)
          == PositionsOf(findings[..last], key) + if findings[last].key == key then {last} else {};
    }
  }

  method CurrentCounts(findings: seq<Finding>) returns (counts: map<Key, nat>)
    ensures forall key :: Get(counts, key) == |PositionsOf(findings, key)|
  {
    counts := map[];
    for k := 0 to |findings|
      invariant forall key :: Get(counts, key) == CountOf(findings[..k], key)
    {
      assert findings[..k + 1][..k] == findings[..k];
      counts := counts[findings[k].key := Get(counts, findings[k].key) + 1];
    }
    assert findings[..|findings|] == findings;
    forall key ensures CountOf(findings, key) == |PositionsOf(findings, key)| {
      CountIsPositions(findings, key);
    }
  }

  datatype Drift = Exceeds(key: Key, current: nat, allowed: nat) | Improved(key: Key, current: nat, allowed: nat)

  ghost predicate Drifts(counts: map<Key, nat>, baseline: map<Key, nat>, e: Drift) {
    && e.current == Get(counts, e.key) && e.allowed == Get(baseline, e.key)
    && (if e.Exceeds? then e.current > e.allowed else e.current < e.allowed)
  }

  /** The ratchet reports every key whose count differs from its baseline, in either
      direction, exactly once, and nothing else. */
  method Ratchet(counts: map<Key, nat>, baseline: map<Key, nat>) returns (errors: seq<Drift>)
    ensures forall e :: e in errors ==> Drifts(counts, baseline, e)
    ensures forall key :: Get(counts, key) != Get(baseline, key) <==> exists e :: e in errors && e.key == key
    ensures forall i, j :: 0 <= i < j < |errors| ==> errors[i].key != errors[j].key
  {
    errors := [];
    var pending := counts.Keys + baseline.Keys;
    while pending != {}
      invariant forall e :: e in errors ==> Drifts(counts, baseline, e) && e.key !in pending
      invariant forall key :: key !in pending && Get(counts, key) != Get(baseline, key) ==>
                  exists e :: e in errors && e.key == key
      invariant forall i, j :: 0 <= i < j < |errors| ==> errors[i].key != errors[j].key
      decreases pending
    {
      var key :| key in pending;
      var current, allowed := Get(counts, key), Get(baseline, key);
      pending := pending - {key};
      ghost var before := errors;
      if current > allowed {
        errors := errors + [Exceeds(key, current, allowed)];
        assert errors[|before|].key == key;
      } else if current < allowed {
        errors := errors + [Improved(key, current, allowed)];
        assert errors[|before|].key == key;
      }
      assert forall e :: e in before ==> e in errors;
    }
  }
}
