/**
 The business-logic scan masks string literals and comments before it searches for rules.
 Masking leaves nothing to mask, with unterminated and escaped quotes included.
 */
module Masking {
  import opened Comments
  import opened Outcomes
  import opened Scanner

  /** What one position of the masked text can be. */
  lemma {:induction false} MaskAt(s: string, i: nat, k: nat)
    requires i <= k < |s|
    ensures
      var m := Mask(Ignored, s, i)[k - i];
      || m == Blank(s[k])
      || (m == s[k] && MatchEnd(Ignored, s, k) == k)
    decreases |s| - i
  {
    hide MatchEnd, Mask, Blank;
    var e := MatchEnd(Ignored, s, i);
    if e > i {
      MaskOfMatch(Ignored, s, i, k);
      if k >= e {
        MaskAt(s, e, k);
      }
    } else {
      MaskOfCode(Ignored, s, i, k);
      if k > i {
        MaskAt(s, i + 1, k);
      }
    }
  }

  /** A backslash that is masked away is never followed by a quote or a backslash: no match
      ends with a backslash, except at the end of a line. */
  lemma {:induction false} AfterMaskedBackslash(s: string, i: nat, k: nat)
    requires i <= k && k + 1 < |s| && s[k] == '\\' && Mask(Ignored, s, i)[k - i] != '\\'
    ensures Mask(Ignored, s, i)[k + 1 - i] in {' ', '\n'}
    decreases |s| - i
  {
    var e := MatchEnd(Ignored, s, i);
    if e > i {
      MatchEndsWith(s, i, e);
      hide MatchEnd;
      if k >= e {
        AfterMaskedBackslash(s, e, k);
      } else if k == e - 1 {
        assert s[e] == '\n';
        NewlineStays(s, e);
      }
    } else {
      hide MatchEnd;
      AfterMaskedBackslash(s, i + 1, k);
    }
  }

  lemma MatchEndsWith(s: string, i: nat, e: nat)
    requires i < |s| && e == MatchEnd(Ignored, s, i) > i
    ensures s[e - 1] == '"' || s[e - 1] == '/' || e == |s| || s[e] == '\n'
  {}

  lemma NewlineStays(s: string, i: nat)
    requires i < |s| && s[i] == '\n'
    ensures Mask(Ignored, s, i)[0] == '\n'
  {}

  /** An unterminated quote stays unterminated in the masked text. */
  lemma {:induction false} StillUnterminated(s: string, j: nat)
    requires QuoteAt(s, j) == None
    ensures QuoteAt(CodeOnly(s), j) == None
    decreases |s| - j
  {
    hide Mask;
    var m := CodeOnly(s);
    if j < |s| {
      MaskAt(s, 0, j);
      if s[j] == '\\' {
        StillUnterminated(s, j + 2);
        if m[j] != '\\' && j + 1 < |s| {
          AfterMaskedBackslash(s, 0, j);
        }
      } else {
        StillUnterminated(s, j + 1);
      }
    }
  }

  /** Nothing begins to match at any position of the masked text. */
  lemma NothingIsLeft(s: string, k: nat)
    requires k < |s|
    ensures MatchEnd(Ignored, CodeOnly(s), k) == k
  {
    hide Mask;
    var m := CodeOnly(s);
    MaskAt(s, 0, k);
    if k + 1 < |s| {
      MaskAt(s, 0, k + 1);
    }
    if m[k] == '"' {
      assert QuoteAt(s, k + 1) == None;
      StillUnterminated(s, k + 1);
    } else if m[k] == '/' {
      NoCloserAppears(s, k + 2);
    }
  }

  lemma {:induction false} NoCloserAppears(s: string, i: nat)
    ensures CloseAt(s, i).None? ==> CloseAt(CodeOnly(s), i).None?
    decreases |s| - i
  {
    hide Mask;
    if i < |s| && CloseAt(s, i).None? {
      MaskAt(s, 0, i);
      if i + 1 < |s| {
        MaskAt(s, 0, i + 1);
      }
      NoCloserAppears(s, i + 1);
    }
  }

  lemma {:induction false} NothingToMask(s: string, i: nat)
    requires i <= |s| && forall k :: i <= k < |s| ==> MatchEnd(Ignored, s, k) == k
    ensures Mask(Ignored, s, i) == s[i..]
    decreases |s| - i
  {
    hide MatchEnd;
    if i < |s| {
      assert MatchEnd(Ignored, s, i) == i;
      NothingToMask(s, i + 1);
      assert s[i..] == [s[i]] + s[i + 1..];
    }
  }

  /** Masking twice is masking once. */
  lemma CodeOnlyIsIdempotent(s: string)
    ensures CodeOnly(CodeOnly(s)) == CodeOnly(s)
  {
    var m := CodeOnly(s);
    forall k | 0 <= k < |m| ensures MatchEnd(Ignored, m, k) == k {
      NothingIsLeft(s, k);
    }
    NothingToMask(m, 0);
    assert m[0..] == m;
  }

  // ----- Masking against the comment scanner, which knows no strings -----

  /** Position `k` lies in a string literal that masking from `i` on finds. */
  ghost predicate InString(s: string, i: nat, k: int)
    requires i <= |s|
  {
    exists c :: c in Cuts(Ignored, s, i) && s[c.start] == '"' && c.start <= k < c.end
  }

  /** No comment opener stands in a string literal. */
  ghost predicate StringsArePlain(s: string, i: nat)
    requires i <= |s|
  {
    forall k :: InString(s, i, k) ==> !HasOpener(s, k)
  }

  /** What a substitution from `i` on leaves at position `k`. */
  ghost function MaskedAt(p: Pattern, s: string, i: nat, k: nat): char
    requires i <= k < |s|
  {
    Mask(p, s, i)[k - i]
  }

  /** Outside string literals, blanking comments and masking leave the same text. */
  ghost predicate SameCode(s: string, i: nat)
    requires i <= |s|
  {
    forall k :: i <= k < |s| && !InString(s, i, k) ==> MaskedAt(Comment, s, i, k) == MaskedAt(Ignored, s, i, k)
  }

  lemma MaskedUnfolds(p: Pattern, s: string, i: nat, k: nat)
    requires i <= k < |s|
    ensures
      var e := MatchEnd(p, s, i);
      MaskedAt(p, s, i, k) ==
        if e > i then (if k < e then Blank(s[k]) else MaskedAt(p, s, e, k))
        else if k == i then s[i] else MaskedAt(p, s, i + 1, k)
  {
    hide MatchEnd, Mask, Blank;
    if MatchEnd(p, s, i) > i {
      MaskOfMatch(p, s, i, k);
    } else {
      MaskOfCode(p, s, i, k);
    }
  }

  lemma InStringUnfolds(s: string, i: nat, k: int)
    requires i < |s|
    ensures
      var e := MatchEnd(Ignored, s, i);
      InString(s, i, k) <==>
        (e > i && s[i] == '"' && i <= k < e) || InString(s, if e > i then e else i + 1, k)
  {
    var e := MatchEnd(Ignored, s, i);
    hide MatchEnd;
    if e > i {
      var rest := Cuts(Ignored, s, e);
      assert Cuts(Ignored, s, i) == [Cut(i, e)] + rest;
      assert forall c :: c in [Cut(i, e)] + rest <==> c == Cut(i, e) || c in rest;
    }
  }

  lemma StringLater(s: string, i: nat, k: int)
    requires i <= |s| && InString(s, i, k)
    ensures i <= k < |s|
  {}

  lemma NoOpenerNoMatch(s: string, i: nat)
    requires i < |s| && !HasOpener(s, i)
    ensures MatchEnd(Comment, s, i) == i
  {}

  lemma CodeStep(s: string, i: nat, k: nat)
    requires i <= k < |s| && !HasOpener(s, i)
    ensures MaskedAt(Comment, s, i, k) == if k == i then s[i] else MaskedAt(Comment, s, i + 1, k)
  {
    NoOpenerNoMatch(s, i);
    hide *;
    MaskedUnfolds(Comment, s, i, k);
  }

  lemma {:induction false} CodeStretch(s: string, i: nat, e: nat, k: nat)
    requires i <= e <= |s| && i <= k < |s| && forall j :: i <= j < e ==> !HasOpener(s, j)
    ensures MaskedAt(Comment, s, i, k) == if k < e then s[k] else MaskedAt(Comment, s, e, k)
    decreases e - i
  {
    hide *;
    if i < e {
      CodeStep(s, i, k);
      if i < k {
        CodeStretch(s, i + 1, e, k);
      }
    }
  }

  lemma {:induction false} BlocksAfterStretch(s: string, i: nat, e: nat)
    requires i <= e <= |s| && forall j :: i <= j < e ==> !HasOpener(s, j)
    ensures EveryBlockCloses(s, i) <==> EveryBlockCloses(s, e)
    decreases e - i
  {
    if i < e {
      NoOpenerNoMatch(s, i);
      CutConditions(s, i);
      hide HasOpener, MatchEnd, EveryBlockCloses;
      BlocksAfterStretch(s, i + 1, e);
    }
  }

  /** Where the two patterns differ: at strings and at unclosed blocks. */
  lemma MatchesCompared(s: string, i: nat)
    requires i < |s|
    ensures
      var c, g := MatchEnd(Comment, s, i), MatchEnd(Ignored, s, i);
      if s[i] == '"' then c == i
      else if Pair(s, i, '/', '*') && CloseAt(s, i + 2).None? then g == i && c == |s| && IsUnclosedBlock(s, i, c)
      else g == c && (c > i ==> !IsUnclosedBlock(s, i, c))
  {}

  lemma AtString(s: string, i: nat)
    requires i < |s| && s[i] == '"' && MatchEnd(Ignored, s, i) > i && StringsArePlain(s, i)
    ensures
      var e := MatchEnd(Ignored, s, i);
      && StringsArePlain(s, e)
      && (SameCode(s, i) <==> SameCode(s, e)) && (EveryBlockCloses(s, i) <==> EveryBlockCloses(s, e))
  {
    var e := MatchEnd(Ignored, s, i);
    hide MatchEnd, InString, HasOpener, MaskedAt, EveryBlockCloses, SameCode;
    forall k ensures InString(s, i, k) <==> i <= k < e || InString(s, e, k) {
      InStringUnfolds(s, i, k);
    }
    BlocksAfterStretch(s, i, e);
    forall k | e <= k < |s| ensures MaskedAt(Comment, s, i, k) == MaskedAt(Comment, s, e, k) {
      CodeStretch(s, i, e, k);
    }
    forall k | e <= k < |s| ensures MaskedAt(Ignored, s, i, k) == MaskedAt(Ignored, s, e, k) {
      MaskedUnfolds(Ignored, s, i, k);
    }
    SameBySteps(s, i, e);
  }

  /** Where the masks differ nowhere before `e`, all is decided from `e` on. */
  lemma SameBySteps(s: string, i: nat, e: nat)
    requires i <= e <= |s|
    requires forall k :: e <= k < |s| ==> (InString(s, i, k) <==> InString(s, e, k))
    requires forall k :: e <= k < |s| ==> MaskedAt(Comment, s, i, k) == MaskedAt(Comment, s, e, k)
    requires forall k :: e <= k < |s| ==> MaskedAt(Ignored, s, i, k) == MaskedAt(Ignored, s, e, k)
    requires forall k :: i <= k < e && !InString(s, i, k) ==> MaskedAt(Comment, s, i, k) == MaskedAt(Ignored, s, i, k)
    ensures SameCode(s, i) <==> SameCode(s, e)
  {
    hide InString, MaskedAt;
    if SameCode(s, i) {
      forall k | e <= k < |s| && !InString(s, e, k) ensures MaskedAt(Comment, s, e, k) == MaskedAt(Ignored, s, e, k) {
        assert !InString(s, i, k);
      }
    }
  }

  lemma AtSameMatch(s: string, i: nat)
    requires i < |s| && MatchEnd(Ignored, s, i) == MatchEnd(Comment, s, i) && StringsArePlain(s, i)
    requires s[i] == '"' ==> MatchEnd(Ignored, s, i) == i
    requires !IsUnclosedBlock(s, i, MatchEnd(Comment, s, i)) || MatchEnd(Comment, s, i) == i
    ensures
      var e := MatchEnd(Ignored, s, i);
      var next := if e > i then e else i + 1;
      && StringsArePlain(s, next)
      && (SameCode(s, i) <==> SameCode(s, next)) && (EveryBlockCloses(s, i) <==> EveryBlockCloses(s, next))
  {
    var e := MatchEnd(Ignored, s, i);
    var next := if e > i then e else i + 1;
    hide MatchEnd, InString, HasOpener, MaskedAt, EveryBlockCloses, SameCode;
    CutConditions(s, i);
    forall k ensures InString(s, i, k) <==> InString(s, next, k) {
      InStringUnfolds(s, i, k);
    }
    forall p, k | (p == Comment || p == Ignored) && next <= k < |s|
      ensures MaskedAt(p, s, i, k) == MaskedAt(p, s, next, k)
    {
      MaskedUnfolds(p, s, i, k);
    }
    forall k | i <= k < next ensures MaskedAt(Comment, s, i, k) == MaskedAt(Ignored, s, i, k) {
      MaskedUnfolds(Comment, s, i, k);
      MaskedUnfolds(Ignored, s, i, k);
    }
    SameBySteps(s, i, next);
  }

  lemma AtUnclosedBlock(s: string, i: nat)
    requires i < |s| && s[i] == '/' && MatchEnd(Ignored, s, i) == i
    requires MatchEnd(Comment, s, i) == |s| && IsUnclosedBlock(s, i, |s|)
    ensures !SameCode(s, i) && !EveryBlockCloses(s, i)
  {
    hide MatchEnd, MaskedAt, InString, IsUnclosedBlock;
    CutConditions(s, i);
    MaskedUnfolds(Comment, s, i, i);
    MaskedUnfolds(Ignored, s, i, i);
    InStringUnfolds(s, i, i);
    if InString(s, i + 1, i) {
      StringLater(s, i + 1, i);
    }
    assert MaskedAt(Comment, s, i, i) != MaskedAt(Ignored, s, i, i);
  }

  lemma {:induction false} SameCodeFrom(s: string, i: nat)
    requires i <= |s| && StringsArePlain(s, i)
    ensures SameCode(s, i) <==> EveryBlockCloses(s, i)
    decreases |s| - i
  {
    hide StringsArePlain, SameCode, EveryBlockCloses, MatchEnd, IsUnclosedBlock, CloseAt;
    if i == |s| {
      NothingLeft(s);
      NothingToCompare(s);
    } else {
      MatchesCompared(s, i);
      var e := MatchEnd(Ignored, s, i);
      if s[i] == '"' && e > i {
        AtString(s, i);
        SameCodeFrom(s, e);
      } else if Pair(s, i, '/', '*') && CloseAt(s, i + 2).None? {
        AtUnclosedBlock(s, i);
      } else {
        AtSameMatch(s, i);
        SameCodeFrom(s, if e > i then e else i + 1);
      }
    }
  }

  lemma NothingToCompare(s: string)
    ensures SameCode(s, |s|)
  {}

  /** The comment scanner of the ratchet and the mask of the business-logic scan leave the same
      text outside string literals exactly when every block comment is closed, provided no
      string literal contains a comment opener. */
  lemma StripAgreesWithCodeOnly(s: string)
    requires StringsArePlain(s, 0)
    ensures EveryBlockCloses(s, 0) <==>
            forall k :: 0 <= k < |s| && !InString(s, 0, k) ==> Scanner.StripComments(s)[k] == CodeOnly(s)[k]
  {
    SameCodeFrom(s, 0);
    hide InString, EveryBlockCloses, Mask;
    if SameCode(s, 0) {
      forall k | 0 <= k < |s| && !InString(s, 0, k) ensures Scanner.StripComments(s)[k] == CodeOnly(s)[k] {
        assert MaskedAt(Comment, s, 0, k) == MaskedAt(Ignored, s, 0, k);
      }
    }
  }

  /** The proviso is needed: two slashes in a string hide the code behind it. */
  lemma SlashesInStringHideCode()
    ensures
      var s := "\"//\"f";
      Scanner.StripComments(s) == "\"    " && CodeOnly(s) == "    f"
  {
    var s := "\"//\"f";
    assert LineEnd(s, 1) == 5;
    assert MatchEnd(Comment, s, 0) == 0 && MatchEnd(Comment, s, 1) == 5;
    assert QuoteAt(s, 1) == Some(3);
    assert MatchEnd(Ignored, s, 0) == 4 && MatchEnd(Ignored, s, 4) == 4;
    hide MatchEnd;
    assert Blanks(s[1..5]) == "    " == Blanks(s[0..4]);
    assert Mask(Comment, s, 1) == Blanks(s[1..5]) + Mask(Comment, s, 5);
    assert Mask(Ignored, s, 4) == "f" + Mask(Ignored, s, 5);
  }
}
