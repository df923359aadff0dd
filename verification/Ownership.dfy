/** The ownership inventory: which entry is the most specific owner of a production file. */
module Ownership {
  import opened Collections

  // ----- The most specific owner -----

  datatype Entry = Entry(
    id: string, missing: set<string>, classification: string, includes: seq<string>, excludes: seq<string>,
    hasMigrationIssues: bool, hasDeletionTarget: bool)

  predicate EndsWith(s: string, suffix: string) {
    |suffix| <= |s| && s[|s| - |suffix|..] == suffix
  }

  predicate PathMatches(path: string, selector: string) {
    if EndsWith(selector, "/") then selector <= path
    else path == selector || (selector <= path && !EndsWith(selector, ".swift"))
  }

  predicate EntryMatches(path: string, entry: Entry) {
    && (exists s :: s in entry.includes && PathMatches(path, s))
    && !(exists s :: s in entry.excludes && PathMatches(path, s))
  }

  /** The length of the longest matching selector of an entry. */
  function Longest(path: string, selectors: seq<string>): (n: int)
    ensures forall s :: s in selectors && PathMatches(path, s) ==> |s| <= n
    ensures (exists s :: s in selectors && PathMatches(path, s)) ==>
              exists s :: s in selectors && PathMatches(path, s) && |s| == n
    ensures !(exists s :: s in selectors && PathMatches(path, s)) ==> n == -1
  {
    if selectors == [] then -1
    else
      var last := selectors[|selectors| - 1];
      var rest := selectors[..|selectors| - 1];
      var n := Longest(path, rest);
      assert forall s :: s in selectors <==> s in rest || s == last;
      if PathMatches(path, last) && |last| > n then |last| else n
  }

  /** The length of the longest matching selector of a matching entry, -1 for any other. */
  function Specificity(path: string, entry: Entry): int {
    if EntryMatches(path, entry) then Longest(path, entry.includes) else -1
  }

  function Larger(a: int, b: int): int { if a < b then b else a }

  /** The largest specificity among the first `n` entries. */
  function Maximum(path: string, entries: seq<Entry>, n: nat): int
    requires n <= |entries|
  {
    if n == 0 then -1 else Larger(Maximum(path, entries, n - 1), Specificity(path, entries[n - 1]))
  }

  lemma {:induction false} MaximumIsReached(path: string, entries: seq<Entry>, n: nat)
    requires n <= |entries|
    ensures forall i :: 0 <= i < n ==> Specificity(path, entries[i]) <= Maximum(path, entries, n)
    ensures Maximum(path, entries, n) == -1
            || exists i :: 0 <= i < n && Specificity(path, entries[i]) == Maximum(path, entries, n)
  {
    hide Specificity;
    if n > 0 {
      MaximumIsReached(path, entries, n - 1);
      if Maximum(path, entries, n) == Maximum(path, entries, n - 1) != -1 {
        var i :| 0 <= i < n - 1 && Specificity(path, entries[i]) == Maximum(path, entries, n - 1);
        assert Specificity(path, entries[i]) == Maximum(path, entries, n);
      } else if Maximum(path, entries, n) != -1 {
        assert Specificity(path, entries[n - 1]) == Maximum(path, entries, n);
      }
    }
  }

  /** The candidates of specificity `m` among the first `n` entries, by position. */
  function Keep(path: string, entries: seq<Entry>, n: nat, m: int): seq<nat>
    requires n <= |entries|
  {
    if n == 0 then []
    else
      var r := Keep(path, entries, n - 1, m);
      if EntryMatches(path, entries[n - 1]) && Specificity(path, entries[n - 1]) == m then r + [n - 1] else r
  }

  lemma {:induction false} KeptExactly(path: string, entries: seq<Entry>, n: nat, m: int)
    requires n <= |entries|
    ensures Distinct(Keep(path, entries, n, m))
    ensures forall i: nat :: i in Keep(path, entries, n, m) <==>
              i < n && EntryMatches(path, entries[i]) && Specificity(path, entries[i]) == m
  {
    hide EntryMatches, Specificity;
    if n > 0 {
      KeptExactly(path, entries, n - 1, m);
    }
  }

  /** The most specific owners of a path, as positions in the list of entries. */
  function MatchingEntries(path: string, entries: seq<Entry>): (r: seq<nat>)
    ensures forall i :: i in r ==> i < |entries| && EntryMatches(path, entries[i])
    ensures Distinct(r)
  {
    var m := Maximum(path, entries, |entries|);
    KeptExactly(path, entries, |entries|, m);
    Keep(path, entries, |entries|, m)
  }

  // ----- Ownership in terms of the selectors -----

  /** The selector selects the path: it is the path itself, or a prefix of it that ends in a
      slash or does not end in `.swift`. */
  ghost predicate Selects(selector: string, path: string) {
    || selector == path
    || (|selector| <= |path| && path[..|selector|] == selector
        && (|| (|selector| >= 1 && selector[|selector| - 1] == '/')
            || !(|selector| >= 6 && selector[|selector| - 6..] == ".swift")))
  }

  /** One of its includes selects the path and none of its excludes does. */
  ghost predicate Claims(entry: Entry, path: string) {
    && (exists s :: s in entry.includes && Selects(s, path))
    && (forall s :: s in entry.excludes ==> !Selects(s, path))
  }

  lemma SelectorMatches(path: string, selector: string)
    ensures PathMatches(path, selector) <==> Selects(selector, path)
  {
    if |selector| >= 1 {
      assert selector[|selector| - 1..] == "/" <==> selector[|selector| - 1] == '/';
    }
  }

  lemma EntryClaims(path: string, entry: Entry)
    ensures EntryMatches(path, entry) <==> Claims(entry, path)
  {
    hide PathMatches, Selects;
    forall s: string ensures PathMatches(path, s) <==> Selects(s, path) {
      SelectorMatches(path, s);
    }
  }

  lemma SameReading(path: string)
    ensures forall s: string :: PathMatches(path, s) <==> Selects(s, path)
    ensures forall e: Entry :: EntryMatches(path, e) <==> Claims(e, path)
  {
    hide PathMatches, Selects, EntryMatches, Claims;
    forall s: string ensures PathMatches(path, s) <==> Selects(s, path) {
      SelectorMatches(path, s);
    }
    forall e: Entry ensures EntryMatches(path, e) <==> Claims(e, path) {
      EntryClaims(path, e);
    }
  }

  /** The entry claims the path, and this selector of it is as long as any selector by which
      any claiming entry selects it. */
  ghost predicate IsLongestMatch(path: string, entries: seq<Entry>, i: nat, selector: string) {
    && i < |entries| && Claims(entries[i], path)
    && selector in entries[i].includes && Selects(selector, path)
    && forall j, s ::
         0 <= j < |entries| && Claims(entries[j], path) && s in entries[j].includes && Selects(s, path)
         ==> |s| <= |selector|
  }

  /** Nobody owns a path exactly when each entry fails to include it or excludes it. */
  lemma NoOwner(path: string, entries: seq<Entry>)
    ensures MatchingEntries(path, entries) == [] <==>
            forall e :: e in entries ==>
              || (forall s :: s in e.includes ==> !Selects(s, path))
              || (exists s :: s in e.excludes && Selects(s, path))
  {
    NobodyMatches(path, entries);
    SameReading(path);
    hide MatchingEntries, EntryMatches, PathMatches, Selects;
    assert forall e :: e in entries ==> (EntryMatches(path, e) <==> Claims(e, path));
  }

  lemma NobodyMatches(path: string, entries: seq<Entry>)
    ensures MatchingEntries(path, entries) == [] <==> forall i :: 0 <= i < |entries| ==> !EntryMatches(path, entries[i])
  {
    KeptExactly(path, entries, |entries|, Maximum(path, entries, |entries|));
    MaximumIsReached(path, entries, |entries|);
    var m := Maximum(path, entries, |entries|);
    if i :| 0 <= i < |entries| && EntryMatches(path, entries[i]) {
      LongestIsListed(path, entries[i]);
      var j :| 0 <= j < |entries| && Specificity(path, entries[j]) == m;
      assert j in MatchingEntries(path, entries);
    } else if MatchingEntries(path, entries) != [] {
      assert MatchingEntries(path, entries)[0] in MatchingEntries(path, entries);
    }
  }

  lemma LongestIsListed(path: string, entry: Entry)
    requires EntryMatches(path, entry)
    ensures Specificity(path, entry) >= 0
    ensures exists s :: s in entry.includes && PathMatches(path, s) && |s| == Specificity(path, entry)
  {}

  lemma LongestBounds(path: string, entry: Entry, s: string)
    requires EntryMatches(path, entry) && s in entry.includes && PathMatches(path, s)
    ensures |s| <= Specificity(path, entry)
  {}

  lemma OwnerHasLongest(path: string, entries: seq<Entry>, i: nat)
    requires i in MatchingEntries(path, entries)
    ensures exists s :: IsLongestMatch(path, entries, i, s)
  {
    KeptExactly(path, entries, |entries|, Maximum(path, entries, |entries|));
    MaximumIsReached(path, entries, |entries|);
    hide EntryMatches, PathMatches, Specificity, Claims, Selects, Keep, Maximum;
    LongestIsListed(path, entries[i]);
    var s :| s in entries[i].includes && PathMatches(path, s) && |s| == Specificity(path, entries[i]);
    forall j, t |
      0 <= j < |entries| && EntryMatches(path, entries[j]) && t in entries[j].includes && PathMatches(path, t)
      ensures |t| <= |s|
    {
      LongestBounds(path, entries[j], t);
    }
    SameReading(path);
    assert IsLongestMatch(path, entries, i, s);
  }

  lemma LongestIsOwner(path: string, entries: seq<Entry>, i: nat, s: string)
    requires IsLongestMatch(path, entries, i, s)
    ensures i in MatchingEntries(path, entries)
  {
    SameReading(path);
    LongestBounds(path, entries[i], s);
    KeptExactly(path, entries, |entries|, Maximum(path, entries, |entries|));
    MaximumIsReached(path, entries, |entries|);
    var j :| 0 <= j < |entries| && Specificity(path, entries[j]) == Maximum(path, entries, |entries|);
    LongestIsListed(path, entries[j]);
    hide EntryMatches, PathMatches, Claims, Selects, Keep, Maximum, Specificity;
  }

  /** Ownership is ambiguous exactly when two matching entries list the identical longest
      matching selector: matching selectors are prefixes of the path, so equal length is
      equality. */
  lemma AmbiguousOwner(path: string, entries: seq<Entry>)
    ensures |MatchingEntries(path, entries)| > 1 <==>
            exists i, j, s :: i != j && IsLongestMatch(path, entries, i, s) && IsLongestMatch(path, entries, j, s)
  {
    var owners := MatchingEntries(path, entries);
    hide MatchingEntries, IsLongestMatch;
    if |owners| > 1 {
      var i, j := owners[0], owners[1];
      OwnerHasLongest(path, entries, i);
      OwnerHasLongest(path, entries, j);
      var s :| IsLongestMatch(path, entries, i, s);
      var t :| IsLongestMatch(path, entries, j, t);
      SameLength(path, entries, i, j, s, t);
    }
    if i, j, s :| i != j && IsLongestMatch(path, entries, i, s) && IsLongestMatch(path, entries, j, s) {
      LongestIsOwner(path, entries, i, s);
      LongestIsOwner(path, entries, j, s);
      assert i in owners && j in owners;
    }
  }

  lemma SameLength(path: string, entries: seq<Entry>, i: nat, j: nat, s: string, t: string)
    requires IsLongestMatch(path, entries, i, s) && IsLongestMatch(path, entries, j, t)
    ensures s == t
  {
    assert |s| == |t|;
    SelectedIsPrefix(s, path);
    SelectedIsPrefix(t, path);
  }

  lemma SelectedIsPrefix(s: string, path: string)
    requires Selects(s, path)
    ensures |s| <= |path| && s == path[..|s|]
  {}

  /** An entry is the one owner exactly when it lists a longest matching selector and no other
      entry lists one. */
  lemma SoleOwner(path: string, entries: seq<Entry>, i: nat)
    ensures MatchingEntries(path, entries) == [i] <==>
            && (exists s :: IsLongestMatch(path, entries, i, s))
            && (forall j: nat, s :: j != i ==> !IsLongestMatch(path, entries, j, s))
  {
    var owners := MatchingEntries(path, entries);
    hide MatchingEntries, IsLongestMatch;
    if owners == [i] {
      OwnerHasLongest(path, entries, i);
      forall j: nat, s | j != i ensures !IsLongestMatch(path, entries, j, s) {
        if IsLongestMatch(path, entries, j, s) {
          LongestIsOwner(path, entries, j, s);
        }
      }
    } else if s :| IsLongestMatch(path, entries, i, s) {
      LongestIsOwner(path, entries, i, s);
      if forall j: nat, t :: j != i ==> !IsLongestMatch(path, entries, j, t) {
        forall j | j in owners ensures j == i {
          OwnerHasLongest(path, entries, j);
        }
        OnlyElement(owners, i);
      }
    }
  }

  lemma OnlyElement(s: seq<nat>, i: nat)
    requires Distinct(s) && i in s && forall j :: j in s ==> j == i
    ensures s == [i]
  {
    DistinctCardinality(s);
    assert Elements(s) == {i};
  }
}
