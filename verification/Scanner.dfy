/**
 The scanners of the architecture checkers: comment blanking, comment deletion, and masking
 of strings and comments.

 Each regular expression is a pattern with a hand-written matcher; a substitution replaces
 the leftmost matches from left to right. `Matches` gives the meaning of the patterns
 without any scanning order.
 */
module Scanner {
  import opened Outcomes

  /** BlockComment, LineComment: the two expressions of the chapter checker.
      Comment: what the one-pass scanner treats as a comment.
      Ignored: the alternation of strings and comments of the business-logic scan. */
  datatype Pattern = BlockComment | LineComment | Comment | Ignored

  predicate Pair(s: string, i: int, a: char, b: char) {
    0 <= i && i + 1 < |s| && s[i] == a && s[i + 1] == b
  }

  predicate Triple(s: string, i: int) {
    0 <= i && i + 2 < |s| && s[i] == '"' && s[i + 1] == '"' && s[i + 2] == '"'
  }

  // ----- Where matches end -----

  /** The first block-comment closer at or after `i`. */
  function CloseAt(s: string, i: nat): (r: Option<nat>)
    ensures r.Some? ==> i <= r.value && Pair(s, r.value, '*', '/')
    ensures r.Some? ==> forall j :: i <= j < r.value ==> !Pair(s, j, '*', '/')
    ensures r.None? ==> forall j :: i <= j ==> !Pair(s, j, '*', '/')
    decreases |s| - i
  {
    if i >= |s| then None
    else if Pair(s, i, '*', '/') then Some(i)
    else CloseAt(s, i + 1)
  }

  /** The first `"""` at or after `i`. */
  function TripleAt(s: string, i: nat): (r: Option<nat>)
    ensures r.Some? ==> i <= r.value && Triple(s, r.value)
    ensures r.Some? ==> forall j :: i <= j < r.value ==> !Triple(s, j)
    ensures r.None? ==> forall j :: i <= j ==> !Triple(s, j)
    decreases |s| - i
  {
    if i >= |s| then None
    else if Triple(s, i) then Some(i)
    else TripleAt(s, i + 1)
  }

  /** The end of the line that contains `i`. */
  function LineEnd(s: string, i: nat): (r: nat)
    requires i <= |s|
    ensures i <= r <= |s|
    ensures forall j :: i <= j < r ==> s[j] != '\n'
    ensures r == |s| || s[r] == '\n'
    decreases |s| - i
  {
    if i == |s| || s[i] == '\n' then i else LineEnd(s, i + 1)
  }

  /** The unescaped closing quote at or after `i`; a backslash escapes any next character. */
  function QuoteAt(s: string, i: nat): (r: Option<nat>)
    ensures r.Some? ==> i <= r.value < |s| && s[r.value] == '"'
    decreases |s| - i
  {
    if i >= |s| then None
    else if s[i] == '"' then Some(i)
    else if s[i] == '\\' then QuoteAt(s, i + 2)
    else QuoteAt(s, i + 1)
  }

  function BlockEnd(s: string, i: nat): nat {
    if Pair(s, i, '/', '*') && CloseAt(s, i + 2).Some? then CloseAt(s, i + 2).value + 2 else i
  }

  function LineCommentEnd(s: string, i: nat): nat {
    if Pair(s, i, '/', '/') then LineEnd(s, i) else i
  }

  function StringEnd(s: string, i: nat): nat {
    if i < |s| && s[i] == '"' && QuoteAt(s, i + 1).Some? then QuoteAt(s, i + 1).value + 1 else i
  }

  function TripleEnd(s: string, i: nat): nat {
    if Triple(s, i) && TripleAt(s, i + 3).Some? then TripleAt(s, i + 3).value + 3 else i
  }

  /** The end of the match that begins at `i`, or `i` when none begins there. */
  function MatchEnd(p: Pattern, s: string, i: nat): (e: nat)
    requires i < |s|
    ensures i <= e <= |s|
  {
    match p
    case BlockComment => BlockEnd(s, i)
    case LineComment => LineCommentEnd(s, i)
    case Comment =>
      if Pair(s, i, '/', '*') then (if CloseAt(s, i + 2).Some? then CloseAt(s, i + 2).value + 2 else |s|)
      else LineCommentEnd(s, i)
    case Ignored =>
      if TripleEnd(s, i) > i then TripleEnd(s, i)
      else if StringEnd(s, i) > i then StringEnd(s, i)
      else if BlockEnd(s, i) > i then BlockEnd(s, i)
      else LineCommentEnd(s, i)
  }

  // ----- Substitution -----

  function Blank(c: char): char { if c == '\n' then '\n' else ' ' }

  function Blanks(s: string): (r: string)
    ensures |r| == |s| && forall k :: 0 <= k < |s| ==> r[k] == Blank(s[k])
  {
    seq(|s|, k requires 0 <= k < |s| => Blank(s[k]))
  }

  /** Replace every match from `i` on by blanks, keeping newlines. */
  function Mask(p: Pattern, s: string, i: nat): (r: string)
    requires i <= |s|
    ensures |r| == |s| - i
    decreases |s| - i
  {
    if i == |s| then ""
    else
      var e := MatchEnd(p, s, i);
      if e > i then Blanks(s[i..e]) + Mask(p, s, e) else [s[i]] + Mask(p, s, i + 1)
  }

  /** Replace every match from `i` on by nothing. */
  function Delete(p: Pattern, s: string, i: nat): string
    requires i <= |s|
    decreases |s| - i
  {
    if i == |s| then ""
    else
      var e := MatchEnd(p, s, i);
      if e > i then Delete(p, s, e) else [s[i]] + Delete(p, s, i + 1)
  }

  function StripComments(source: string): string { Mask(Comment, source, 0) }

  function StripCommentsTwoPass(source: string): string {
    Delete(LineComment, Delete(BlockComment, source, 0), 0)
  }

  function CodeOnly(source: string): string { Mask(Ignored, source, 0) }

  // ----- The meaning of the patterns -----

  ghost predicate IsBlock(s: string, i: int, e: int) {
    && Pair(s, i, '/', '*') && i + 4 <= e && Pair(s, e - 2, '*', '/')
    && forall j :: i + 2 <= j < e - 2 ==> !Pair(s, j, '*', '/')
  }

  ghost predicate IsUnclosedBlock(s: string, i: int, e: int) {
    Pair(s, i, '/', '*') && e == |s| && forall j :: i + 2 <= j ==> !Pair(s, j, '*', '/')
  }

  ghost predicate IsLine(s: string, i: int, e: int) {
    && Pair(s, i, '/', '/') && i < e <= |s|
    && (forall j :: i <= j < e ==> s[j] != '\n')
    && (e == |s| || s[e] == '\n')
  }

  /** `s[i..e]` is a run of escaped pairs and of characters other than quote and backslash. */
  ghost predicate IsStringBody(s: string, i: int, e: int)
    decreases e - i
  {
    0 <= i <= e <= |s| &&
    (|| i == e
     || (i + 2 <= e && s[i] == '\\' && IsStringBody(s, i + 2, e))
     || (i + 1 <= e && s[i] != '\\' && s[i] != '"' && IsStringBody(s, i + 1, e)))
  }

  ghost predicate IsString(s: string, i: int, e: int) {
    0 <= i && i + 2 <= e <= |s| && s[i] == '"' && s[e - 1] == '"' && IsStringBody(s, i + 1, e - 1)
  }

  ghost predicate IsTriple(s: string, i: int, e: int) {
    && Triple(s, i) && i + 6 <= e && Triple(s, e - 3)
    && forall j :: i + 3 <= j < e - 3 ==> !Triple(s, j)
  }

  /** `s[i..e]` is a match; of the ignored alternatives, a triple-quoted string comes first. */
  ghost predicate Matches(p: Pattern, s: string, i: int, e: int) {
    match p
    case BlockComment => IsBlock(s, i, e)
    case LineComment => IsLine(s, i, e)
    case Comment => IsBlock(s, i, e) || IsUnclosedBlock(s, i, e) || IsLine(s, i, e)
    case Ignored =>
      || IsTriple(s, i, e)
      || ((forall t :: !IsTriple(s, i, t)) && (IsString(s, i, e) || IsBlock(s, i, e) || IsLine(s, i, e)))
  }

  lemma LineIsUnique(s: string, i: nat, e: nat)
    requires i < |s|
    ensures IsLine(s, i, e) <==> e > i && LineCommentEnd(s, i) == e
  {
    if IsLine(s, i, e) {
      var r := LineEnd(s, i);
      assert r <= e;
      assert r >= e;
    }
  }

  lemma BlockIsUnique(s: string, i: nat, e: nat)
    ensures IsBlock(s, i, e) <==> e > i && BlockEnd(s, i) == e
  {
    if IsBlock(s, i, e) {
      var r := CloseAt(s, i + 2);
      assert r.Some?;
      assert r.value == e - 2;
    }
  }

  lemma TripleIsUnique(s: string, i: nat, e: nat)
    ensures IsTriple(s, i, e) <==> e > i && TripleEnd(s, i) == e
  {
    if IsTriple(s, i, e) {
      var r := TripleAt(s, i + 3);
      assert r.Some?;
      assert r.value == e - 3;
    }
  }

  lemma {:induction false} BodyThenQuote(s: string, i: nat, e: nat)
    ensures e < |s| && s[e] == '"' && IsStringBody(s, i, e) <==> QuoteAt(s, i) == Some(e)
    decreases |s| - i
  {
    if i < |s| {
      if s[i] == '\\' {
        BodyThenQuote(s, i + 2, e);
      } else if s[i] != '"' {
        BodyThenQuote(s, i + 1, e);
      }
    }
  }

  lemma StringIsUnique(s: string, i: nat, e: nat)
    ensures IsString(s, i, e) <==> e > i && StringEnd(s, i) == e
  {
    if e >= 1 {
      BodyThenQuote(s, i + 1, e - 1);
    }
  }

  /** The matcher finds the one match that begins at a position, and finds none exactly when
      there is none. */
  lemma MatchEndIsTheMatch(p: Pattern, s: string, i: nat, e: nat)
    requires i < |s|
    ensures Matches(p, s, i, e) <==> e > i && MatchEnd(p, s, i) == e
  {
    LineIsUnique(s, i, e);
    BlockIsUnique(s, i, e);
    StringIsUnique(s, i, e);
    TripleIsUnique(s, i, e);
    if p == Ignored {
      forall t: int | IsTriple(s, i, t) ensures TripleEnd(s, i) == t {
        TripleIsUnique(s, i, t);
      }
      TripleIsUnique(s, i, TripleEnd(s, i));
    }
  }

  // ----- Substitutions replace the leftmost matches -----

  datatype Cut = Cut(start: nat, end: nat)

  ghost predicate InCut(cuts: seq<Cut>, k: int) {
    exists c :: c in cuts && c.start <= k < c.end
  }

  /** `cuts` are the leftmost non-overlapping matches at or after `i`: disjoint matches in
      order, and no match begins at a position between them. */
  ghost predicate AreLeftmost(p: Pattern, s: string, i: nat, cuts: seq<Cut>) {
    AreMatches(p, s, i, cuts) && AreOrdered(cuts) && NoneBetween(p, s, i, cuts)
  }

  ghost predicate AreMatches(p: Pattern, s: string, i: nat, cuts: seq<Cut>) {
    forall c :: c in cuts ==> i <= c.start < c.end <= |s| && Matches(p, s, c.start, c.end)
  }

  ghost predicate AreOrdered(cuts: seq<Cut>) {
    forall a, b :: 0 <= a < b < |cuts| ==> cuts[a].end <= cuts[b].start
  }

  ghost predicate NoneBetween(p: Pattern, s: string, i: nat, cuts: seq<Cut>) {
    forall k, e :: i <= k < |s| && !InCut(cuts, k) ==> !Matches(p, s, k, e)
  }

  /** The matches the substitution finds. */
  function Cuts(p: Pattern, s: string, i: nat): (r: seq<Cut>)
    requires i <= |s|
    ensures forall c :: c in r ==> i <= c.start < c.end <= |s|
    decreases |s| - i
  {
    if i == |s| then []
    else
      var e := MatchEnd(p, s, i);
      if e > i then [Cut(i, e)] + Cuts(p, s, e) else Cuts(p, s, i + 1)
  }

  lemma {:induction false} CutsAreLeftmost(p: Pattern, s: string, i: nat)
    requires i <= |s|
    ensures AreLeftmost(p, s, i, Cuts(p, s, i))
    decreases |s| - i
  {
    hide Matches, MatchEnd, AreLeftmost;
    if i == |s| {
      EmptyIsLeftmost(p, s);
    } else {
      var e := MatchEnd(p, s, i);
      if e > i {
        CutsAreLeftmost(p, s, e);
        PrependCut(p, s, i, Cuts(p, s, e));
      } else {
        CutsAreLeftmost(p, s, i + 1);
        SkipCharacter(p, s, i, Cuts(p, s, i + 1));
      }
    }
  }

  lemma EmptyIsLeftmost(p: Pattern, s: string)
    ensures AreLeftmost(p, s, |s|, [])
  {}

  lemma SameMatch(p: Pattern, s: string, i: nat, e: int)
    requires i < |s| && Matches(p, s, i, e)
    ensures e == MatchEnd(p, s, i) > i
  {
    MatchEndIsTheMatch(p, s, i, e);
  }

  lemma PrependCut(p: Pattern, s: string, i: nat, cuts: seq<Cut>)
    requires i < |s| && MatchEnd(p, s, i) > i && AreLeftmost(p, s, MatchEnd(p, s, i), cuts)
    ensures AreLeftmost(p, s, i, [Cut(i, MatchEnd(p, s, i))] + cuts)
  {
    var e := MatchEnd(p, s, i);
    MatchEndIsTheMatch(p, s, i, e);
    hide Matches, MatchEnd, NoneBetween, AreOrdered;
    MatchesFrom(p, s, i, e, cuts);
    OrderedAfter(Cut(i, e), cuts);
    NoneBetweenFrom(p, s, i, e, cuts);
  }

  lemma MatchesFrom(p: Pattern, s: string, i: nat, e: nat, cuts: seq<Cut>)
    requires i < e <= |s| && Matches(p, s, i, e) && AreMatches(p, s, e, cuts)
    ensures AreMatches(p, s, i, [Cut(i, e)] + cuts)
  {
    hide Matches;
  }

  lemma NoneBetweenFrom(p: Pattern, s: string, i: nat, e: nat, cuts: seq<Cut>)
    requires NoneBetween(p, s, e, cuts)
    ensures NoneBetween(p, s, i, [Cut(i, e)] + cuts)
  {
    hide Matches, InCut;
    forall k, x | i <= k < |s| && !InCut([Cut(i, e)] + cuts, k) ensures !Matches(p, s, k, x) {
      InCutOf(Cut(i, e), cuts, k);
    }
  }

  lemma OrderedAfter(c: Cut, rest: seq<Cut>)
    requires AreOrdered(rest) && forall d :: d in rest ==> c.end <= d.start
    ensures AreOrdered([c] + rest)
  {}

  lemma SkipCharacter(p: Pattern, s: string, i: nat, cuts: seq<Cut>)
    requires i < |s| && MatchEnd(p, s, i) == i && AreLeftmost(p, s, i + 1, cuts)
    ensures AreLeftmost(p, s, i, cuts)
  {
    forall x | Matches(p, s, i, x) ensures false {
      SameMatch(p, s, i, x);
    }
    hide Matches, MatchEnd;
  }

  /** A masked text is blank exactly inside the leftmost matches, whichever way they are
      given; newlines survive everywhere. */
  lemma {:induction false} MaskIsLeftmost(p: Pattern, s: string, i: nat, cuts: seq<Cut>, k: nat)
    requires i <= k < |s| && AreLeftmost(p, s, i, cuts)
    ensures Mask(p, s, i)[k - i] == if InCut(cuts, k) && s[k] != '\n' then ' ' else s[k]
    decreases |s| - i
  {
    hide MatchEnd, AreLeftmost, InCut, Mask;
    var e := MatchEnd(p, s, i);
    if e > i {
      FirstCut(p, s, i, cuts, k);
      MaskOfMatch(p, s, i, k);
      if k >= e {
        MaskIsLeftmost(p, s, e, cuts[1..], k);
      }
    } else {
      NoCutHere(p, s, i, cuts);
      MaskOfCode(p, s, i, k);
      if k > i {
        MaskIsLeftmost(p, s, i + 1, cuts, k);
      }
    }
  }

  lemma MaskUnfolds(p: Pattern, s: string, i: nat)
    requires i < |s|
    ensures MatchEnd(p, s, i) > i ==> Mask(p, s, i) == Blanks(s[i..MatchEnd(p, s, i)]) + Mask(p, s, MatchEnd(p, s, i))
    ensures MatchEnd(p, s, i) == i ==> Mask(p, s, i) == [s[i]] + Mask(p, s, i + 1)
  {
    hide MatchEnd, Blanks;
  }

  lemma MaskOfMatch(p: Pattern, s: string, i: nat, k: nat)
    requires i <= k < |s| && MatchEnd(p, s, i) > i
    ensures k < MatchEnd(p, s, i) ==> Mask(p, s, i)[k - i] == Blank(s[k])
    ensures MatchEnd(p, s, i) <= k ==> Mask(p, s, i)[k - i] == Mask(p, s, MatchEnd(p, s, i))[k - MatchEnd(p, s, i)]
  {
    hide MatchEnd, Blank, Mask, Blanks;
    MaskUnfolds(p, s, i);
    assert |Blanks(s[i..MatchEnd(p, s, i)])| == MatchEnd(p, s, i) - i;
  }

  lemma MaskOfCode(p: Pattern, s: string, i: nat, k: nat)
    requires i <= k < |s| && MatchEnd(p, s, i) == i
    ensures k == i ==> Mask(p, s, i)[0] == s[i]
    ensures k > i ==> Mask(p, s, i)[k - i] == Mask(p, s, i + 1)[k - i - 1]
  {
    hide MatchEnd, Mask;
    MaskUnfolds(p, s, i);
  }

  /** The first leftmost match is the one that begins here. */
  lemma FirstCut(p: Pattern, s: string, i: nat, cuts: seq<Cut>, k: nat)
    requires i < |s| && MatchEnd(p, s, i) > i && AreLeftmost(p, s, i, cuts)
    ensures cuts != [] && AreLeftmost(p, s, MatchEnd(p, s, i), cuts[1..])
    ensures i <= k < MatchEnd(p, s, i) ==> InCut(cuts, k)
    ensures MatchEnd(p, s, i) <= k ==> (InCut(cuts, k) <==> InCut(cuts[1..], k))
  {
    hide *;
    StartsHere(p, s, i, cuts);
    TailCuts(p, s, i, cuts);
    InCutOf(cuts[0], cuts[1..], k);
    assert cuts == [cuts[0]] + cuts[1..];
  }

  lemma StartsHere(p: Pattern, s: string, i: nat, cuts: seq<Cut>)
    requires i < |s| && MatchEnd(p, s, i) > i && AreLeftmost(p, s, i, cuts)
    ensures cuts != [] && cuts[0] == Cut(i, MatchEnd(p, s, i))
  {
    var e := MatchEnd(p, s, i);
    MatchEndIsTheMatch(p, s, i, e);
    hide MatchEnd, Matches;
    assert InCut(cuts, i);
    var c :| c in cuts && c.start <= i < c.end;
    SameMatch(p, s, i, c.end);
    FirstIsFirst(cuts, c, i);
  }

  lemma FirstIsFirst(cuts: seq<Cut>, c: Cut, i: nat)
    requires AreOrdered(cuts) && (forall d :: d in cuts ==> i <= d.start < d.end) && c in cuts && c.start == i
    ensures cuts[0] == c
  {
    var b :| 0 <= b < |cuts| && cuts[b] == c;
    assert cuts[0] in cuts;
    assert b == 0;
  }

  lemma InCutOf(c: Cut, rest: seq<Cut>, k: int)
    ensures InCut([c] + rest, k) <==> c.start <= k < c.end || InCut(rest, k)
  {
    if InCut(rest, k) {
      var d :| d in rest && d.start <= k < d.end;
      assert d in [c] + rest;
    }
    if c.start <= k < c.end {
      assert c in [c] + rest;
    }
  }

  lemma TailCuts(p: Pattern, s: string, i: nat, cuts: seq<Cut>)
    requires i < |s| && AreLeftmost(p, s, i, cuts) && cuts != [] && cuts[0].start == i
    ensures AreLeftmost(p, s, cuts[0].end, cuts[1..])
  {
    hide Matches, InCut;
    var first, rest := cuts[0], cuts[1..];
    assert cuts == [first] + rest;
    TailIsOrdered(cuts);
    assert AreMatches(p, s, first.end, rest) by {
      assert forall c :: c in rest ==> c in cuts;
    }
    forall k, x | first.end <= k < |s| && !InCut(rest, k) ensures !Matches(p, s, k, x) {
      InCutOf(first, rest, k);
    }
  }

  lemma TailIsOrdered(cuts: seq<Cut>)
    requires AreOrdered(cuts) && cuts != []
    ensures AreOrdered(cuts[1..])
    ensures forall c :: c in cuts[1..] ==> cuts[0].end <= c.start
  {
    forall c | c in cuts[1..] ensures cuts[0].end <= c.start {
      var b :| 0 <= b < |cuts[1..]| && cuts[1..][b] == c;
      assert cuts[b + 1] == c;
    }
  }

  lemma NoCutHere(p: Pattern, s: string, i: nat, cuts: seq<Cut>)
    requires i < |s| && MatchEnd(p, s, i) == i && AreLeftmost(p, s, i, cuts)
    ensures !InCut(cuts, i) && AreLeftmost(p, s, i + 1, cuts)
  {
    forall c | c in cuts ensures c.start != i {
      if c.start == i {
        SameMatch(p, s, i, c.end);
      }
    }
    hide Matches, MatchEnd;
  }

  /** The characters from `i` on that lie in no cut, in order. */
  ghost function Outside(s: string, cuts: seq<Cut>, i: nat): string
    requires i <= |s|
    decreases |s| - i
  {
    if i == |s| then "" else (if InCut(cuts, i) then "" else [s[i]]) + Outside(s, cuts, i + 1)
  }

  lemma {:induction false} SkipInside(s: string, cuts: seq<Cut>, i: nat, e: nat)
    requires i <= e <= |s| && forall k :: i <= k < e ==> InCut(cuts, k)
    ensures Outside(s, cuts, i) == Outside(s, cuts, e)
    decreases e - i
  {
    hide InCut;
    if i < e {
      SkipInside(s, cuts, i + 1, e);
    }
  }

  lemma {:induction false} SameOutside(s: string, cuts: seq<Cut>, other: seq<Cut>, i: nat)
    requires i <= |s| && forall k :: i <= k < |s| ==> (InCut(cuts, k) <==> InCut(other, k))
    ensures Outside(s, cuts, i) == Outside(s, other, i)
    decreases |s| - i
  {
    hide InCut;
    if i < |s| {
      SameOutside(s, cuts, other, i + 1);
    }
  }

  /** A deletion keeps exactly the characters outside the leftmost matches: the characters
      that masking with the same pattern leaves in place. */
  lemma {:induction false} DeleteIsLeftmost(p: Pattern, s: string, i: nat, cuts: seq<Cut>)
    requires i <= |s| && AreLeftmost(p, s, i, cuts)
    ensures Delete(p, s, i) == Outside(s, cuts, i)
    decreases |s| - i
  {
    hide MatchEnd, AreLeftmost, InCut;
    if i < |s| {
      var e := MatchEnd(p, s, i);
      if e > i {
        FirstCut(p, s, i, cuts, i);
        forall k: nat | i <= k < |s|
          ensures k < e ==> InCut(cuts, k)
          ensures e <= k ==> (InCut(cuts, k) <==> InCut(cuts[1..], k))
        {
          FirstCut(p, s, i, cuts, k);
        }
        DeleteIsLeftmost(p, s, e, cuts[1..]);
        SkipInside(s, cuts, i, e);
        SameOutside(s, cuts, cuts[1..], e);
      } else {
        NoCutHere(p, s, i, cuts);
        DeleteIsLeftmost(p, s, i + 1, cuts);
      }
    }
  }
}
