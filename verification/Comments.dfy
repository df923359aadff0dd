/**
 The two comment strippers: a one-pass scanner that blanks comments in place, and two regular
 expression deletions for the same job.
 */
module Comments {
  import opened Outcomes
  import opened Scanner

  /** The end of the block comment that is open at `i`. */
  ghost function OpenEnd(s: string, i: nat): (e: nat)
    requires i <= |s|
    ensures i <= e <= |s|
  {
    if CloseAt(s, i).Some? then CloseAt(s, i).value + 2 else |s|
  }

  /** What blanking from inside a block comment leaves to do. */
  ghost function FromBlock(s: string, i: nat): string
    requires i <= |s|
  {
    Blanks(s[i..OpenEnd(s, i)]) + Mask(Comment, s, OpenEnd(s, i))
  }

  lemma BlanksOfConcat(a: string, b: string)
    ensures Blanks(a + b) == Blanks(a) + Blanks(b)
  {}

  lemma BlanksFromFirst(s: string, i: nat, e: nat)
    requires i < e <= |s|
    ensures Blanks(s[i..e]) == [Blank(s[i])] + Blanks(s[i + 1..e])
  {
    assert s[i..e] == [s[i]] + s[i + 1..e];
    BlanksOfConcat([s[i]], s[i + 1..e]);
  }

  lemma BlanksFromPair(s: string, i: nat, e: nat)
    requires i + 2 <= e <= |s| && s[i] != '\n' && s[i + 1] != '\n'
    ensures Blanks(s[i..e]) == "  " + Blanks(s[i + 2..e])
  {
    BlanksFromFirst(s, i, e);
    BlanksFromFirst(s, i + 1, e);
  }

  lemma BlockStep(s: string, i: nat)
    requires i < |s|
    ensures if Pair(s, i, '*', '/') then FromBlock(s, i) == "  " + Mask(Comment, s, i + 2)
            else FromBlock(s, i) == [Blank(s[i])] + FromBlock(s, i + 1)
  {
    hide Mask, Blanks;
    if Pair(s, i, '*', '/') {
      assert OpenEnd(s, i) == i + 2;
      BlanksFromPair(s, i, i + 2);
      assert Blanks(s[i + 2..i + 2]) == "";
    } else {
      assert OpenEnd(s, i) == OpenEnd(s, i + 1) > i;
      BlanksFromFirst(s, i, OpenEnd(s, i));
    }
  }

  lemma OpenStep(s: string, i: nat)
    requires Pair(s, i, '/', '*')
    ensures Mask(Comment, s, i) == "  " + FromBlock(s, i + 2)
  {
    var e := OpenEnd(s, i + 2);
    assert MatchEnd(Comment, s, i) == e;
    assert Mask(Comment, s, i) == Blanks(s[i..e]) + Mask(Comment, s, e);
    hide Mask, Blanks;
    BlanksFromPair(s, i, e);
  }

  lemma LineStep(s: string, i: nat)
    requires i < |s| && Pair(s, i, '/', '/')
    ensures Mask(Comment, s, i) == Blanks(s[i..LineEnd(s, i)]) + Mask(Comment, s, LineEnd(s, i))
  {
    assert LineEnd(s, i) > i;
  }

  lemma CodeStep(s: string, i: nat)
    requires i < |s| && !Pair(s, i, '/', '*') && !Pair(s, i, '/', '/')
    ensures Mask(Comment, s, i) == [s[i]] + Mask(Comment, s, i + 1)
  {}

  lemma AtEnd(s: string)
    ensures Mask(Comment, s, |s|) == "" && FromBlock(s, |s|) == ""
  {
    assert CloseAt(s, |s|) == None;
    assert Blanks(s[|s|..]) == "";
  }

  lemma Assoc(a: string, b: string, c: string)
    ensures a + (b + c) == (a + b) + c
  {}

  /** The one-pass scanner of both checkers. */
  method StripComments(source: string) returns (output: string)
    ensures output == Scanner.StripComments(source)
  {
    hide Mask, FromBlock, OpenEnd, CloseAt, LineEnd, Blanks, Blank, MatchEnd;
    output := "";
    var inBlock, index := false, 0;
    while index < |source|
      invariant index <= |source|
      invariant inBlock ==> output + FromBlock(source, index) == Mask(Comment, source, 0)
      invariant !inBlock ==> output + Mask(Comment, source, index) == Mask(Comment, source, 0)
    {
      if inBlock {
        BlockStep(source, index);
        if Pair(source, index, '*', '/') {
          Assoc(output, "  ", Mask(Comment, source, index + 2));
          inBlock := false;
          output := output + "  ";
          index := index + 2;
        } else {
          Assoc(output, [Blank(source[index])], FromBlock(source, index + 1));
          output := output + [Blank(source[index])];
          index := index + 1;
        }
      } else if Pair(source, index, '/', '*') {
        OpenStep(source, index);
        Assoc(output, "  ", FromBlock(source, index + 2));
        inBlock := true;
        output := output + "  ";
        index := index + 2;
      } else if Pair(source, index, '/', '/') {
        LineStep(source, index);
        ghost var start, before := index, output;
        BlanksUpTo(source, start, index);
        while index < |source| && source[index] != '\n'
          invariant start <= index <= LineEnd(source, start)
          invariant output == before + Blanks(source[start..index])
        {
          BlanksUpTo(source, start, index);
          Assoc(before, Blanks(source[start..index]), " ");
          output := output + " ";
          index := index + 1;
        }
        Assoc(before, Blanks(source[start..index]), Mask(Comment, source, index));
      } else {
        CodeStep(source, index);
        Assoc(output, [source[index]], Mask(Comment, source, index + 1));
        output := output + [source[index]];
        index := index + 1;
      }
    }
    AtEnd(source);
  }

  lemma BlanksUpTo(s: string, i: nat, j: nat)
    requires i <= j <= |s|
    ensures Blanks(s[i..i]) == ""
    ensures j < |s| ==> Blanks(s[i..j + 1]) == Blanks(s[i..j]) + [Blank(s[j])]
    ensures j < |s| && s[j] != '\n' ==> Blank(s[j]) == ' '
  {
    if j < |s| {
      assert s[i..j + 1] == s[i..j] + [s[j]];
      BlanksOfConcat(s[i..j], [s[j]]);
    }
  }

  // ----- Line numbers -----

  function CountNewlines(s: string, k: nat): nat
    requires k <= |s|
  {
    if k == 0 then 0 else CountNewlines(s, k - 1) + if s[k - 1] == '\n' then 1 else 0
  }

  /** The line a checker reports for a match at index `k` of the text it searched. */
  function LineNumber(code: string, k: nat): nat
    requires k <= |code|
  {
    CountNewlines(code, k) + 1
  }

  lemma MaskKeepsNewlines(p: Pattern, s: string, k: nat)
    requires k < |s|
    ensures Mask(p, s, 0)[k] == s[k] || Mask(p, s, 0)[k] == Blank(s[k])
    ensures Mask(p, s, 0)[k] == '\n' <==> s[k] == '\n'
  {
    hide AreLeftmost, InCut, Mask, Cuts;
    CutsAreLeftmost(p, s, 0);
    MaskIsLeftmost(p, s, 0, Cuts(p, s, 0), k);
  }

  /** A line number taken from the masked text is the line number in the source. */
  lemma {:induction false} LineNumbersSurvive(p: Pattern, s: string, k: nat)
    requires k <= |s|
    ensures LineNumber(Mask(p, s, 0), k) == LineNumber(s, k) == multiset(s[..k])['\n'] + 1
  {
    if k > 0 {
      LineNumbersSurvive(p, s, k - 1);
      MaskKeepsNewlines(p, s, k - 1);
      assert s[..k] == s[..k - 1] + [s[k - 1]];
    } else {
      assert s[..k] == "";
    }
  }

  // ----- Blanking leaves no comment behind -----

  ghost predicate HasOpener(s: string, k: int) {
    Pair(s, k, '/', '*') || Pair(s, k, '/', '/')
  }

  lemma NoOpenerInBlanks(blanks: string, rest: string, k: nat)
    requires forall j :: 0 <= j < |blanks| ==> blanks[j] != '/'
    requires k >= |blanks| ==> !HasOpener(rest, k - |blanks|)
    ensures !HasOpener(blanks + rest, k)
  {}

  lemma NoOpenerAtCode(c: char, rest: string, k: nat)
    requires k > 0 ==> !HasOpener(rest, k - 1)
    requires c == '/' && rest != "" ==> rest[0] != '/' && rest[0] != '*'
    ensures !HasOpener([c] + rest, k)
  {}

  /** No comment opener is left, not even one that blanking has pushed together. */
  lemma {:induction false} NoOpenerIsLeft(s: string, i: nat, k: nat)
    requires i <= |s|
    ensures !HasOpener(Mask(Comment, s, i), k)
    decreases |s| - i
  {
    if i < |s| {
      var e := MatchEnd(Comment, s, i);
      MaskUnfolds(Comment, s, i);
      hide Mask;
      if e > i {
        hide MatchEnd, HasOpener;
        if k >= e - i {
          NoOpenerIsLeft(s, e, k - (e - i));
        }
        NoOpenerInBlanks(Blanks(s[i..e]), Mask(Comment, s, e), k);
      } else {
        if i + 1 < |s| {
          FirstOfMask(s, i + 1);
        }
        assert !HasOpener(s, i);
        assert s[i] == '/' && i + 1 < |s| ==> s[i + 1] != '/' && s[i + 1] != '*';
        hide MatchEnd, HasOpener;
        if k > 0 {
          NoOpenerIsLeft(s, i + 1, k - 1);
        }
        NoOpenerAtCode(s[i], Mask(Comment, s, i + 1), k);
      }
    }
  }

  lemma FirstOfMask(s: string, i: nat)
    requires i < |s|
    ensures Mask(Comment, s, i)[0] == s[i] || Mask(Comment, s, i)[0] == Blank(s[i])
  {}

  lemma {:induction false} NothingToBlank(s: string, i: nat)
    requires i <= |s| && forall k :: !HasOpener(s, k)
    ensures Mask(Comment, s, i) == s[i..]
    decreases |s| - i
  {
    if i < |s| {
      assert !HasOpener(s, i);
      NothingToBlank(s, i + 1);
      assert s[i..] == [s[i]] + s[i + 1..];
    }
  }

  /** Blanking a second time changes nothing. */
  lemma StripIsIdempotent(s: string)
    ensures Scanner.StripComments(Scanner.StripComments(s)) == Scanner.StripComments(s)
  {
    var code := Mask(Comment, s, 0);
    forall k: int ensures !HasOpener(code, k) {
      if k >= 0 {
        NoOpenerIsLeft(s, 0, k);
      }
    }
    NothingToBlank(code, 0);
    assert code[0..] == code;
  }

  // ----- One pass against two passes -----

  /** Every block comment that the one-pass scanner opens from `i` on is closed. */
  ghost predicate EveryBlockCloses(s: string, i: nat)
    requires i <= |s|
  {
    forall c :: c in Cuts(Comment, s, i) ==> !IsUnclosedBlock(s, c.start, c.end)
  }

  /** Every block that the first pass deletes from the line comment on lies past its two
      slashes and ends within it, or begins after it. */
  ghost predicate BlocksStayInside(s: string, i: nat, e: nat)
    requires i <= |s|
  {
    forall b :: b in Cuts(BlockComment, s, i) && b.start < e ==> i + 2 <= b.start && b.end <= e
  }

  /** That holds of every line comment of the one-pass scanner. */
  ghost predicate LineCommentsAreHarmless(s: string, i: nat)
    requires i <= |s|
  {
    forall c :: c in Cuts(Comment, s, i) && IsLine(s, c.start, c.end) ==> BlocksStayInside(s, c.start, c.end)
  }

  /** A line comment is harmless if each block opener in it is past the two slashes and has a
      closer in the line, or has no closer anywhere; above all if there is no opener. */
  lemma HarmlessOpeners(s: string, i: nat, e: nat)
    requires IsLine(s, i, e)
    requires forall k :: i < k < e && Pair(s, k, '/', '*') ==>
               || (forall j :: k + 2 <= j ==> !Pair(s, j, '*', '/'))
               || (i + 2 <= k && exists j :: k + 2 <= j <= e - 2 && Pair(s, j, '*', '/'))
    ensures BlocksStayInside(s, i, e)
  {
    CutsAreLeftmost(BlockComment, s, i);
    forall b | b in Cuts(BlockComment, s, i) && b.start < e ensures i + 2 <= b.start && b.end <= e {
      assert IsBlock(s, b.start, b.end);
      assert Pair(s, b.end - 2, '*', '/');
    }
  }

  lemma CutConditions(s: string, i: nat)
    requires i < |s|
    ensures
      var e := MatchEnd(Comment, s, i);
      && (EveryBlockCloses(s, i) <==>
          (e > i ==> !IsUnclosedBlock(s, i, e)) && EveryBlockCloses(s, if e > i then e else i + 1))
      && (LineCommentsAreHarmless(s, i) ==>
          && (e > i && IsLine(s, i, e) ==> BlocksStayInside(s, i, e))
          && LineCommentsAreHarmless(s, if e > i then e else i + 1))
  {
    hide IsLine, IsUnclosedBlock, Pair, BlocksStayInside;
    var e := MatchEnd(Comment, s, i);
    hide MatchEnd;
    if e > i {
      var rest := Cuts(Comment, s, e);
      assert Cuts(Comment, s, i) == [Cut(i, e)] + rest;
      assert Cut(i, e) in [Cut(i, e)] + rest;
      assert forall c :: c in [Cut(i, e)] + rest <==> c == Cut(i, e) || c in rest;
    }
  }

  lemma Unfold(p: Pattern, s: string, i: nat)
    requires i < |s|
    ensures MatchEnd(p, s, i) == i ==> Delete(p, s, i) == [s[i]] + Delete(p, s, i + 1)
    ensures MatchEnd(p, s, i) > i ==> Delete(p, s, i) == Delete(p, s, MatchEnd(p, s, i))
  {
    hide MatchEnd;
  }

  lemma CutsUnfold(p: Pattern, s: string, i: nat)
    requires i < |s|
    ensures MatchEnd(p, s, i) == i ==> Cuts(p, s, i) == Cuts(p, s, i + 1)
    ensures MatchEnd(p, s, i) > i ==>
              var e := MatchEnd(p, s, i);
              && Cut(i, e) in Cuts(p, s, i)
              && forall c :: c in Cuts(p, s, e) ==> c in Cuts(p, s, i)
  {
    hide MatchEnd;
  }

  ghost predicate BlocksEndBy(s: string, i: nat, e: nat)
    requires i <= |s|
  {
    forall b :: b in Cuts(BlockComment, s, i) && b.start < e ==> b.end <= e
  }

  lemma NextBlock(s: string, i: nat, e: nat)
    requires i < e <= |s| && BlocksEndBy(s, i, e)
    ensures
      var m := MatchEnd(BlockComment, s, i);
      m <= e && BlocksEndBy(s, if m > i then m else i + 1, e)
  {
    CutsUnfold(BlockComment, s, i);
    hide MatchEnd, Cuts;
  }

  /** The first pass leaves one line of a line whose blocks end within it. */
  lemma {:induction false} DeleteBlocksWithin(s: string, i: nat, e: nat) returns (left: string)
    requires i <= e <= |s| && BlocksEndBy(s, i, e)
    requires forall k :: i <= k < e ==> s[k] != '\n'
    ensures Delete(BlockComment, s, i) == left + Delete(BlockComment, s, e)
    ensures '\n' !in left
    decreases e - i
  {
    hide MatchEnd, Delete, BlocksEndBy;
    if i == e {
      left := "";
    } else {
      var m := MatchEnd(BlockComment, s, i);
      Unfold(BlockComment, s, i);
      NextBlock(s, i, e);
      if m > i {
        left := DeleteBlocksWithin(s, m, e);
      } else {
        var rest := DeleteBlocksWithin(s, i + 1, e);
        left := [s[i]] + rest;
        Assoc([s[i]], rest, Delete(BlockComment, s, e));
      }
    }
  }

  /** Once nothing closes a block, no block is deleted. */
  lemma {:induction false} DeleteBlocksKeepsUnclosed(s: string, i: nat)
    requires i <= |s| && forall k :: i + 2 <= k ==> !Pair(s, k, '*', '/')
    ensures Delete(BlockComment, s, i) == s[i..]
    decreases |s| - i
  {
    if i < |s| {
      assert MatchEnd(BlockComment, s, i) == i;
      DeleteBlocksKeepsUnclosed(s, i + 1);
      assert s[i..] == [s[i]] + s[i + 1..];
    }
  }

  lemma {:induction false} FirstNewline(t: string, i: nat, e: nat)
    requires i <= e <= |t| && (forall j :: i <= j < e ==> t[j] != '\n') && (e == |t| || t[e] == '\n')
    ensures LineEnd(t, i) == e
    decreases e - i
  {
    if i < e {
      FirstNewline(t, i + 1, e);
    }
  }

  /** Deleting lines from a text whose first line is a comment. */
  lemma DeleteFirstLine(line: string, rest: string)
    requires |line| >= 2 && line[0] == line[1] == '/' && '\n' !in line
    requires rest == "" || rest[0] == '\n'
    ensures Delete(LineComment, line + rest, 0) == Delete(LineComment, rest, 0)
  {
    var t := line + rest;
    assert Pair(t, 0, '/', '/');
    FirstNewline(t, 0, |line|);
    DeleteLineShift(line, rest, 0);
  }

  lemma {:induction false} DeleteLineShift(a: string, b: string, i: nat)
    requires i <= |b|
    ensures Delete(LineComment, a + b, |a| + i) == Delete(LineComment, b, i)
    decreases |b| - i
  {
    if i < |b| {
      LineEndShift(a, b, i);
      assert Pair(a + b, |a| + i, '/', '/') <==> Pair(b, i, '/', '/');
      var e := MatchEnd(LineComment, b, i);
      DeleteLineShift(a, b, if e > i then e else i + 1);
    }
  }

  lemma {:induction false} LineEndShift(a: string, b: string, i: nat)
    requires i <= |b|
    ensures LineEnd(a + b, |a| + i) == |a| + LineEnd(b, i)
    decreases |b| - i
  {
    if i < |b| && b[i] != '\n' {
      LineEndShift(a, b, i + 1);
    }
  }

  lemma DeleteLinesAfter(c: char, rest: string)
    requires c != '/' || rest == "" || rest[0] != '/'
    ensures Delete(LineComment, [c] + rest, 0) == [c] + Delete(LineComment, rest, 0)
  {
    assert MatchEnd(LineComment, [c] + rest, 0) == 0;
    DeleteLineShift([c], rest, 0);
  }

  lemma FirstAfterBlocks(s: string, i: nat)
    requires i < |s| && !Pair(s, i, '/', '*')
    ensures Delete(BlockComment, s, i) != "" && Delete(BlockComment, s, i)[0] == s[i]
  {}

  ghost function TwoPassFrom(s: string, i: nat): string
    requires i <= |s|
  {
    Delete(LineComment, Delete(BlockComment, s, i), 0)
  }

  lemma ClosedBlock(s: string, i: nat)
    requires Pair(s, i, '/', '*') && CloseAt(s, i + 2).Some?
    ensures
      var e := MatchEnd(Comment, s, i);
      && e > i && !IsUnclosedBlock(s, i, e)
      && TwoPassFrom(s, i) == TwoPassFrom(s, e) && Delete(Comment, s, i) == Delete(Comment, s, e)
  {
    assert MatchEnd(BlockComment, s, i) == MatchEnd(Comment, s, i);
  }

  lemma UnclosedBlock(s: string, i: nat)
    requires Pair(s, i, '/', '*') && CloseAt(s, i + 2).None?
    ensures MatchEnd(Comment, s, i) == |s| > i && IsUnclosedBlock(s, i, |s|)
    ensures TwoPassFrom(s, i) != "" == Delete(Comment, s, i)
  {
    assert Delete(Comment, s, |s|) == "";
    DeleteBlocksKeepsUnclosed(s, i);
    assert s[i..][0] == '/' && s[i..][1] == '*';
    assert MatchEnd(LineComment, s[i..], 0) == 0;
  }

  lemma PastTheSlashes(s: string, i: nat, e: nat)
    requires Pair(s, i, '/', '/') && i + 2 <= e && BlocksStayInside(s, i, e)
    ensures Delete(BlockComment, s, i) == "//" + Delete(BlockComment, s, i + 2)
    ensures Cuts(BlockComment, s, i) == Cuts(BlockComment, s, i + 2)
  {
    assert MatchEnd(BlockComment, s, i) == i;
    hide MatchEnd, Delete, Cuts;
    Unfold(BlockComment, s, i);
    CutsUnfold(BlockComment, s, i);
    Unfold(BlockComment, s, i + 1);
    CutsUnfold(BlockComment, s, i + 1);
    assert "//" + Delete(BlockComment, s, i + 2) == ['/'] + (['/'] + Delete(BlockComment, s, i + 2));
  }

  lemma LineCase(s: string, i: nat)
    requires Pair(s, i, '/', '/') && BlocksStayInside(s, i, MatchEnd(Comment, s, i))
    ensures
      var e := MatchEnd(Comment, s, i);
      && e > i && IsLine(s, i, e)
      && TwoPassFrom(s, i) == TwoPassFrom(s, e) && Delete(Comment, s, i) == Delete(Comment, s, e)
  {
    var e := LineEnd(s, i);
    assert MatchEnd(Comment, s, i) == e;
    assert e >= i + 2;
    hide MatchEnd, Delete, Cuts;
    Unfold(Comment, s, i);
    PastTheSlashes(s, i, e);
    var left := DeleteBlocksWithin(s, i + 2, e);
    if e < |s| {
      FirstAfterBlocks(s, e);
    }
    assert "//" + (left + Delete(BlockComment, s, e)) == ("//" + left) + Delete(BlockComment, s, e);
    DeleteFirstLine("//" + left, Delete(BlockComment, s, e));
  }

  lemma CodeCase(s: string, i: nat)
    requires i < |s| && !Pair(s, i, '/', '*') && !Pair(s, i, '/', '/')
    ensures MatchEnd(Comment, s, i) == i
    ensures TwoPassFrom(s, i) == [s[i]] + TwoPassFrom(s, i + 1)
    ensures Delete(Comment, s, i) == [s[i]] + Delete(Comment, s, i + 1)
  {
    assert MatchEnd(BlockComment, s, i) == i;
    if s[i] == '/' && i + 1 < |s| {
      FirstAfterBlocks(s, i + 1);
    }
    DeleteLinesAfter(s[i], Delete(BlockComment, s, i + 1));
  }

  /** The two strippers keep the same code characters in the same order exactly when every
      block comment is closed, provided no block of the first pass reaches over the slashes or
      the end of a line comment. */
  lemma {:induction false} StrippersAgreeFrom(s: string, i: nat)
    requires i <= |s| && LineCommentsAreHarmless(s, i)
    ensures EveryBlockCloses(s, i) <==> TwoPassFrom(s, i) == Delete(Comment, s, i)
    decreases |s| - i
  {
    hide EveryBlockCloses, LineCommentsAreHarmless, TwoPassFrom, Delete, MatchEnd, CloseAt, IsUnclosedBlock, IsLine;
    if i == |s| {
      NothingLeft(s);
    } else {
      CutConditions(s, i);
      if Pair(s, i, '/', '*') {
        if CloseAt(s, i + 2).Some? {
          ClosedBlock(s, i);
          StrippersAgreeFrom(s, MatchEnd(Comment, s, i));
        } else {
          UnclosedBlock(s, i);
        }
      } else if Pair(s, i, '/', '/') {
        LineIsUnique(s, i, MatchEnd(Comment, s, i));
        LineStarts(s, i);
        LineCase(s, i);
        StrippersAgreeFrom(s, MatchEnd(Comment, s, i));
      } else {
        CodeCase(s, i);
        StrippersAgreeFrom(s, i + 1);
        SameRest(s[i], TwoPassFrom(s, i + 1), Delete(Comment, s, i + 1));
      }
    }
  }

  lemma SameRest(c: char, a: string, b: string)
    ensures [c] + a == [c] + b <==> a == b
  {
    assert ([c] + a)[1..] == a && ([c] + b)[1..] == b;
  }

  lemma LineStarts(s: string, i: nat)
    requires Pair(s, i, '/', '/')
    ensures MatchEnd(Comment, s, i) > i && IsLine(s, i, MatchEnd(Comment, s, i))
    ensures !IsUnclosedBlock(s, i, MatchEnd(Comment, s, i))
  {}

  lemma NothingLeft(s: string)
    ensures EveryBlockCloses(s, |s|) && TwoPassFrom(s, |s|) == Delete(Comment, s, |s|) == ""
  {}

  lemma StrippersAgree(s: string)
    requires LineCommentsAreHarmless(s, 0)
    ensures EveryBlockCloses(s, 0) <==> StripCommentsTwoPass(s) == Delete(Comment, s, 0)
  {
    StrippersAgreeFrom(s, 0);
  }

  /** The proviso is needed: for the line comment below, the two-pass form takes its opener
      for a block and deletes the code of the next line with it. */
  lemma OpenerInLineCommentHidesCode()
    ensures
      var s := "///*\nx*/";
      Delete(Comment, s, 0) == "\nx*/" && StripCommentsTwoPass(s) == ""
  {
    var s := "///*\nx*/";
    assert LineEnd(s, 0) == 4;
    assert Delete(Comment, s, 0) == Delete(Comment, s, 4);
    assert Delete(Comment, s, 7) == "/" + Delete(Comment, s, 8);
    assert Delete(Comment, s, 5) == "x" + ("*" + Delete(Comment, s, 7));
    assert CloseAt(s, 4) == Some(6);
    assert Delete(BlockComment, s, 2) == Delete(BlockComment, s, 8) == "";
    assert Delete(BlockComment, s, 0) == "//";
    assert LineEnd("//", 0) == 2;
    assert Delete(LineComment, "//", 0) == "";
  }

  /** Without the proviso the two can also agree by accident, when the first pass reads other
      blocks than the scanner does. */
  lemma AgreementByAccident()
    ensures
      var s := "///*\n/*/\n//*/";
      && Delete(Comment, s, 0) == "\n" == StripCommentsTwoPass(s)
      && EveryBlockCloses(s, 0) && !LineCommentsAreHarmless(s, 0)
  {
    var s := "///*\n/*/\n//*/";
    AccidentInOnePass();
    AccidentInTwoPasses();
    hide Delete, Cuts;
    assert IsLine(s, 0, 4);
    assert Cut(0, 4) in [Cut(0, 4), Cut(5, 13)] && Cut(2, 8) in Cuts(BlockComment, s, 0);
    assert !BlocksStayInside(s, 0, 4);
  }

  lemma AccidentInOnePass()
    ensures
      var s := "///*\n/*/\n//*/";
      && Delete(Comment, s, 0) == "\n" && Cuts(Comment, s, 0) == [Cut(0, 4), Cut(5, 13)]
      && EveryBlockCloses(s, 0)
  {
    var s := "///*\n/*/\n//*/";
    assert LineEnd(s, 0) == 4 && CloseAt(s, 7) == Some(11);
    assert MatchEnd(Comment, s, 0) == 4 && MatchEnd(Comment, s, 4) == 4 && MatchEnd(Comment, s, 5) == 13;
    assert !IsUnclosedBlock(s, 0, 4) && !IsUnclosedBlock(s, 5, 13);
    hide MatchEnd, IsUnclosedBlock;
    assert Delete(Comment, s, 5) == Delete(Comment, s, 13) == "";
    assert Cuts(Comment, s, 5) == [Cut(5, 13)] + Cuts(Comment, s, 13) == [Cut(5, 13)];
    assert Cuts(Comment, s, 4) == Cuts(Comment, s, 5);
    assert Cuts(Comment, s, 0) == [Cut(0, 4)] + Cuts(Comment, s, 4);
    assert Delete(Comment, s, 4) == "\n" + Delete(Comment, s, 5);
  }

  lemma AccidentInTwoPasses()
    ensures
      var s := "///*\n/*/\n//*/";
      StripCommentsTwoPass(s) == "\n" && Cut(2, 8) in Cuts(BlockComment, s, 0)
  {
    var s := "///*\n/*/\n//*/";
    AccidentalBlocks();
    LinesLeft();
    hide MatchEnd, Delete, CloseAt, Pair;
    AccidentalRest();
    Unfold(BlockComment, s, 2);
    Unfold(BlockComment, s, 1);
    Unfold(BlockComment, s, 0);
    CutsUnfold(BlockComment, s, 2);
    CutsUnfold(BlockComment, s, 1);
    CutsUnfold(BlockComment, s, 0);
    assert Delete(BlockComment, s, 0) == ['/'] + (['/'] + "\n//*/") == "//\n//*/";
  }

  lemma AccidentalBlocks()
    ensures
      var s := "///*\n/*/\n//*/";
      MatchEnd(BlockComment, s, 0) == 0 && MatchEnd(BlockComment, s, 1) == 1 && MatchEnd(BlockComment, s, 2) == 8
  {
    var s := "///*\n/*/\n//*/";
    assert CloseAt(s, 4) == Some(6);
  }

  lemma AccidentalRest()
    ensures
      var s := "///*\n/*/\n//*/";
      Delete(BlockComment, s, 8) == "\n//*/"
  {
    var s := "///*\n/*/\n//*/";
    assert s[8..] == "\n//*/";
    assert MatchEnd(BlockComment, s, 8) == 8 && MatchEnd(BlockComment, s, 9) == 9;
    hide MatchEnd, Delete;
    DeleteBlocksKeepsUnclosed(s, 10);
    assert s[10..] == "/*/";
    Unfold(BlockComment, s, 9);
    Unfold(BlockComment, s, 8);
  }

  lemma LinesLeft()
    ensures Delete(LineComment, "//\n//*/", 0) == "\n"
  {
    var t := "//\n//*/";
    assert LineEnd(t, 0) == 2 && LineEnd(t, 3) == 7;
    assert MatchEnd(LineComment, t, 0) == 2 && MatchEnd(LineComment, t, 2) == 2 && MatchEnd(LineComment, t, 3) == 7;
    assert Delete(LineComment, t, 7) == "";
    hide MatchEnd, Delete;
    Unfold(LineComment, t, 0);
    Unfold(LineComment, t, 2);
    Unfold(LineComment, t, 3);
  }
}
