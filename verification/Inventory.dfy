/**
 The validator of the ownership inventory: entries, production files and behavioral
 inventories. It reports no error exactly on sound inventories, where soundness mentions
 neither the order of files, rows or manifests nor the counters the validator keeps.
 */
module Inventory {
  import opened Behaviors
  import opened Collections
  import opened Counters
  import opened Outcomes
  import opened Ownership

  // ----- Files and entries -----

  const MIGRATING: set<string> := {"shared_rust_now", "temporary_swift", "undecided_pending_investigation"}

  datatype InventoryError =
    | MissingFields(index: nat) | DuplicateId(id: string) | UnsupportedClassification(id: string)
    | NoMigrationIssue(id: string) | NoDeletionTarget(id: string)
    | Uncovered(path: string) | Ambiguous(path: string) | Stale(id: string)
    | Behavioral(error: BehaviorError)

  /** A complete entry of an allowed class; an owner that is still migrating names its issues
      and what is to be deleted. */
  ghost predicate EntryIsSound(entry: Entry, allowed: set<string>) {
    && entry.missing == {} && entry.classification in allowed
    && (|| entry.classification == "shared_rust_now" || entry.classification == "temporary_swift"
        || entry.classification == "undecided_pending_investigation"
        ==> entry.hasMigrationIssues && entry.hasDeletionTarget)
  }

  /** Some file has this entry as its one most specific owner. */
  ghost predicate OwnsAFile(entries: seq<Entry>, files: seq<string>, i: nat) {
    exists f :: f in files && MatchingEntries(f, entries) == [i]
  }

  /** Entries are complete with distinct ids, every file has exactly one most specific owner,
      and every entry owns a file. */
  ghost predicate IsSound(entries: seq<Entry>, allowed: set<string>, files: seq<string>) {
    && (forall e :: e in entries ==> EntryIsSound(e, allowed))
    && (forall i, j :: 0 <= i < j < |entries| ==> entries[i].id != entries[j].id)
    && (forall f :: f in files ==> |MatchingEntries(f, entries)| == 1)
    && (forall i :: 0 <= i < |entries| ==> OwnsAFile(entries, files, i))
  }

  method CheckEntries(entries: seq<Entry>, allowed: set<string>) returns (errors: seq<InventoryError>)
    ensures errors == [] <==>
            && (forall e :: e in entries ==> EntryIsSound(e, allowed))
            && (forall i, j :: 0 <= i < j < |entries| ==> entries[i].id != entries[j].id)
  {
    errors := [];
    var identifiers: set<string> := {};
    for k := 0 to |entries|
      invariant errors == [] ==> identifiers == set e | e in entries[..k] :: e.id
      invariant errors == [] <==>
                && (forall i :: 0 <= i < k ==> EntryIsSound(entries[i], allowed))
                && (forall i, j :: 0 <= i < j < k ==> entries[i].id != entries[j].id)
    {
      var entry := entries[k];
      assert entries[..k + 1] == entries[..k] + [entry];
      if entry.missing != {} {
        errors := errors + [MissingFields(k)];
        continue;
      }
      if entry.id in identifiers {
        errors := errors + [DuplicateId(entry.id)];
      }
      identifiers := identifiers + {entry.id};
      if entry.classification !in allowed {
        errors := errors + [UnsupportedClassification(entry.id)];
      }
      if entry.classification in MIGRATING && !entry.hasMigrationIssues {
        errors := errors + [NoMigrationIssue(entry.id)];
      }
      if entry.classification in MIGRATING && !entry.hasDeletionTarget {
        errors := errors + [NoDeletionTarget(entry.id)];
      }
    }
  }

  /** The one owner of a path, if it has exactly one. */
  function OwnerOf(path: string, entries: seq<Entry>): Option<nat> {
    var matches := MatchingEntries(path, entries);
    if |matches| == 1 then
      assert matches[0] in matches;
      Some(matches[0])
    else None
  }

  datatype Facet = ByClassification | ByLanguage | ById

  /** What a facet counts a file under: its owner's classification or id, or its language. */
  ghost function FacetOf(facet: Facet, entries: seq<Entry>, language: string -> string, path: string): Option<string> {
    var owner := OwnerOf(path, entries);
    if owner.None? || owner.value >= |entries| then None
    else
      match facet
      case ByClassification => Some(entries[owner.value].classification)
      case ByLanguage => Some(language(path))
      case ById => Some(entries[owner.value].id)
  }

  ghost function FilesUnder(facet: Facet, entries: seq<Entry>, language: string -> string, files: seq<string>,
                            key: string): nat
  {
    if files == [] then 0
    else
      FilesUnder(facet, entries, language, files[..|files| - 1], key)
      + if FacetOf(facet, entries, language, files[|files| - 1]) == Some(key) then 1 else 0
  }

  ghost function OwnedFiles(entries: seq<Entry>, files: seq<string>): nat {
    if files == [] then 0
    else OwnedFiles(entries, files[..|files| - 1]) + if OwnerOf(files[|files| - 1], entries).Some? then 1 else 0
  }

  /** `counts` says how many files fall under each key, and adds up to all owned files. */
  ghost predicate Counts(facet: Facet, entries: seq<Entry>, language: string -> string, files: seq<string>,
                         counts: map<string, nat>) {
    && (forall key :: Get(counts, key) == FilesUnder(facet, entries, language, files, key))
    && Total(counts) == OwnedFiles(entries, files)
  }

  lemma CountsNext(facet: Facet, entries: seq<Entry>, language: string -> string, files: seq<string>, k: nat,
                   counts: map<string, nat>)
    requires k < |files| && Counts(facet, entries, language, files[..k], counts)
    ensures
      var key := FacetOf(facet, entries, language, files[k]);
      && (key.Some? <==> OwnerOf(files[k], entries).Some?)
      && Counts(facet, entries, language, files[..k + 1], if key.Some? then Bump(counts, key.value) else counts)
  {
    hide MatchingEntries, Total, FacetOf;
    var next := files[..k + 1];
    assert next[..|next| - 1] == files[..k] && next[|next| - 1] == files[k];
    FacetNeedsOwner(facet, entries, language, files[k]);
    var key := FacetOf(facet, entries, language, files[k]);
    if key.Some? {
      TotalOfBump(counts, key.value);
      assert OwnedFiles(entries, next) == OwnedFiles(entries, files[..k]) + 1;
      forall x ensures Get(Bump(counts, key.value), x) == FilesUnder(facet, entries, language, next, x) {
        assert Get(counts, x) == FilesUnder(facet, entries, language, files[..k], x);
      }
    }
  }

  lemma FacetNeedsOwner(facet: Facet, entries: seq<Entry>, language: string -> string, path: string)
    ensures FacetOf(facet, entries, language, path).Some? <==> OwnerOf(path, entries).Some?
  {
    if OwnerOf(path, entries).Some? {
      assert MatchingEntries(path, entries)[0] in MatchingEntries(path, entries);
    }
  }

  method CheckFiles(entries: seq<Entry>, language: string -> string, files: seq<string>)
    returns (errors: seq<InventoryError>, counts: map<string, nat>, languages: map<string, nat>,
             owned: map<string, nat>)
    ensures errors == [] <==> forall f :: f in files ==> |MatchingEntries(f, entries)| == 1
    ensures Counts(ByClassification, entries, language, files, counts)
    ensures Counts(ByLanguage, entries, language, files, languages)
    ensures Counts(ById, entries, language, files, owned)
  {
    hide MatchingEntries, Counts, FacetOf;
    errors, counts, languages, owned := [], map[], map[], map[];
    NothingCounted(entries, language);
    for k := 0 to |files|
      invariant errors == [] <==> forall f :: f in files[..k] ==> |MatchingEntries(f, entries)| == 1
      invariant Counts(ByClassification, entries, language, files[..k], counts)
      invariant Counts(ByLanguage, entries, language, files[..k], languages)
      invariant Counts(ById, entries, language, files[..k], owned)
    {
      var path := files[k];
      assert files[..k + 1] == files[..k] + [path];
      CountsNext(ByClassification, entries, language, files, k, counts);
      CountsNext(ByLanguage, entries, language, files, k, languages);
      CountsNext(ById, entries, language, files, k, owned);
      FacetsOfOwned(entries, language, path);
      var matches := MatchingEntries(path, entries);
      if matches == [] {
        errors := errors + [Uncovered(path)];
        continue;
      }
      if |matches| > 1 {
        errors := errors + [Ambiguous(path)];
        continue;
      }
      assert matches[0] in matches;
      var entry := entries[matches[0]];
      counts := Bump(counts, entry.classification);
      languages := Bump(languages, language(path));
      owned := Bump(owned, entry.id);
    }
    assert files[..|files|] == files;
  }

  lemma NothingCounted(entries: seq<Entry>, language: string -> string)
    ensures forall facet: Facet :: Counts(facet, entries, language, [], map[])
  {}

  lemma FacetsOfOwned(entries: seq<Entry>, language: string -> string, path: string)
    ensures
      var matches := MatchingEntries(path, entries);
      if |matches| == 1 then
        && matches[0] < |entries|
        && FacetOf(ByClassification, entries, language, path) == Some(entries[matches[0]].classification)
        && FacetOf(ByLanguage, entries, language, path) == Some(language(path))
        && FacetOf(ById, entries, language, path) == Some(entries[matches[0]].id)
      else forall facet: Facet :: FacetOf(facet, entries, language, path) == None
  {
    hide MatchingEntries;
    var matches := MatchingEntries(path, entries);
    if |matches| == 1 {
      assert matches[0] in matches;
    }
  }

  method CheckStale(entries: seq<Entry>, owned: map<string, nat>) returns (errors: seq<InventoryError>)
    ensures errors == [] <==> forall i :: 0 <= i < |entries| ==> Get(owned, entries[i].id) > 0
  {
    errors := [];
    for k := 0 to |entries|
      invariant errors == [] <==> forall i :: 0 <= i < k ==> Get(owned, entries[i].id) > 0
    {
      if Get(owned, entries[k].id) == 0 {
        errors := errors + [Stale(entries[k].id)];
      }
    }
  }

  lemma {:induction false} SomeFileUnder(entries: seq<Entry>, language: string -> string, files: seq<string>,
                                         id: string)
    ensures FilesUnder(ById, entries, language, files, id) > 0 <==>
            exists f :: f in files && FacetOf(ById, entries, language, f) == Some(id)
  {
    hide FacetOf;
    if files != [] {
      var last, rest := files[|files| - 1], files[..|files| - 1];
      SomeFileUnder(entries, language, rest, id);
      assert files == rest + [last];
    }
  }

  /** With distinct ids, an id is counted exactly when its entry is the one owner of a file. */
  lemma CountedIdOwns(entries: seq<Entry>, language: string -> string, files: seq<string>, i: nat)
    requires i < |entries| && forall a, b :: 0 <= a < b < |entries| ==> entries[a].id != entries[b].id
    ensures FilesUnder(ById, entries, language, files, entries[i].id) > 0 <==> OwnsAFile(entries, files, i)
  {
    SomeFileUnder(entries, language, files, entries[i].id);
    forall f | f in files
      ensures FacetOf(ById, entries, language, f) == Some(entries[i].id) <==> MatchingEntries(f, entries) == [i]
    {
      IdOfOwner(entries, language, i, f);
    }
    hide MatchingEntries, FacetOf, FilesUnder;
  }

  lemma IdOfOwner(entries: seq<Entry>, language: string -> string, i: nat, path: string)
    requires i < |entries| && forall a, b :: 0 <= a < b < |entries| ==> entries[a].id != entries[b].id
    ensures FacetOf(ById, entries, language, path) == Some(entries[i].id) <==> MatchingEntries(path, entries) == [i]
  {
    FacetsOfOwned(entries, language, path);
    hide MatchingEntries, FacetOf;
    var matches := MatchingEntries(path, entries);
    if |matches| == 1 {
      assert matches == [matches[0]];
      if matches[0] != i {
        assert entries[matches[0]].id != entries[i].id;
      }
    }
  }

  /** The file and entry checks report nothing exactly on sound inventories, and their
      counters are exact whatever was reported. */
  method ValidateFiles(entries: seq<Entry>, allowed: set<string>, language: string -> string, files: seq<string>)
    returns (errors: seq<InventoryError>, counts: map<string, nat>, languages: map<string, nat>,
             owned: map<string, nat>)
    ensures errors == [] <==> IsSound(entries, allowed, files)
    ensures Counts(ByClassification, entries, language, files, counts)
    ensures Counts(ByLanguage, entries, language, files, languages)
    ensures Counts(ById, entries, language, files, owned)
  {
    hide MatchingEntries, FilesUnder, EntryIsSound;
    var entryErrors := CheckEntries(entries, allowed);
    var fileErrors;
    fileErrors, counts, languages, owned := CheckFiles(entries, language, files);
    var staleErrors := CheckStale(entries, owned);
    errors := entryErrors + fileErrors + staleErrors;
    if entryErrors == [] {
      forall i: nat | i < |entries|
        ensures Get(owned, entries[i].id) > 0 <==> OwnsAFile(entries, files, i)
      {
        CountedIdOwns(entries, language, files, i);
      }
    }
  }

  lemma {:induction false} AllOwned(entries: seq<Entry>, files: seq<string>)
    requires forall f :: f in files ==> OwnerOf(f, entries).Some?
    ensures OwnedFiles(entries, files) == |files|
  {
    if files != [] {
      AllOwned(entries, files[..|files| - 1]);
    }
  }

  /** In a sound inventory ownership is a total function from the files onto the entries, and
      every counter of the files adds up to their number. */
  lemma SoundOwnership(entries: seq<Entry>, allowed: set<string>, language: string -> string, files: seq<string>,
                       facet: Facet, counts: map<string, nat>)
    requires IsSound(entries, allowed, files) && Counts(facet, entries, language, files, counts)
    ensures forall f :: f in files ==> OwnerOf(f, entries).Some? && OwnerOf(f, entries).value < |entries|
    ensures forall i :: 0 <= i < |entries| ==> OwnsAFile(entries, files, i)
    ensures Total(counts) == |files|
    ensures |entries| <= |files|
  {
    hide FilesUnder, EntryIsSound, FacetOf;
    forall f | f in files ensures OwnerOf(f, entries).Some? && OwnerOf(f, entries).value < |entries| {
      assert MatchingEntries(f, entries)[0] in MatchingEntries(f, entries);
    }
    hide MatchingEntries, OwnsAFile;
    AllOwned(entries, files);
    OntoNeedsAsMany(entries, files, |entries|);
  }

  lemma {:induction false} OntoNeedsAsMany(entries: seq<Entry>, files: seq<string>, n: nat)
    requires n <= |entries|
    requires forall i :: 0 <= i < n ==> OwnsAFile(entries, files, i)
    ensures n <= |files|
  {
    var owned := set f | f in files && OwnerOf(f, entries).Some? :: OwnerOf(f, entries).value;
    forall i | i in Below(n) ensures i in owned {
      assert OwnsAFile(entries, files, i);
      var f :| f in files && MatchingEntries(f, entries) == [i];
      assert OwnerOf(f, entries) == Some(i);
    }
    SubsetCardinality(Below(n), owned);
    ImageSize(entries, files);
  }

  lemma {:induction false} ImageSize(entries: seq<Entry>, files: seq<string>)
    ensures |set f | f in files && OwnerOf(f, entries).Some? :: OwnerOf(f, entries).value| <= |files|
  {
    hide OwnerOf;
    var image := set f | f in files && OwnerOf(f, entries).Some? :: OwnerOf(f, entries).value;
    if files == [] {
      assert image == {};
    } else {
      var last, rest := files[|files| - 1], files[..|files| - 1];
      ImageSize(entries, rest);
      var inner := set f | f in rest && OwnerOf(f, entries).Some? :: OwnerOf(f, entries).value;
      assert files == rest + [last];
      assert image == inner + if OwnerOf(last, entries).Some? then {OwnerOf(last, entries).value} else {};
    }
  }

  /** The file has exactly one owner and falls under the key: the classification or id of the
      owner, or its own language. */
  ghost predicate FallsUnder(facet: Facet, entries: seq<Entry>, language: string -> string, path: string, key: string) {
    exists i: nat ::
      i < |entries| && MatchingEntries(path, entries) == [i] && KeyOf(facet, entries[i], language(path)) == key
  }

  ghost function KeyOf(facet: Facet, owner: Entry, language: string): string {
    match facet
    case ByClassification => owner.classification
    case ByLanguage => language
    case ById => owner.id
  }

  ghost function PositionsUnder(facet: Facet, entries: seq<Entry>, language: string -> string, files: seq<string>,
                                key: string): set<int>
  {
    set x | 0 <= x < |files| && FallsUnder(facet, entries, language, files[x], key)
  }

  lemma FallsUnderFacet(facet: Facet, entries: seq<Entry>, language: string -> string, path: string, key: string)
    ensures FallsUnder(facet, entries, language, path, key) <==> FacetOf(facet, entries, language, path) == Some(key)
  {
    FacetsOfOwned(entries, language, path);
    hide MatchingEntries, FacetOf;
    var matches := MatchingEntries(path, entries);
    if |matches| == 1 {
      assert matches == [matches[0]];
    }
  }

  /** The counters count files: one for each position that falls under the key. */
  lemma {:induction false} FilesArePositions(facet: Facet, entries: seq<Entry>, language: string -> string,
                                             files: seq<string>, key: string)
    ensures FilesUnder(facet, entries, language, files, key) == |PositionsUnder(facet, entries, language, files, key)|
  {
    hide MatchingEntries, FacetOf, FallsUnder;
    if files == [] {
      assert PositionsUnder(facet, entries, language, files, key) == {};
    } else {
      var last := |files| - 1;
      FilesArePositions(facet, entries, language, files[..last], key);
      FallsUnderFacet(facet, entries, language, files[last], key);
      assert PositionsUnder(facet, entries, language, files, key)
          == PositionsUnder(facet, entries, language, files[..last], key)
             + if FallsUnder(facet, entries, language, files[last], key) then {last} else {};
    }
  }

  // ----- The whole validator -----

  /** Add the counts of `more` under their prefixed keys. */
  function AddPrefixed(counts: map<string, nat>, prefix: string, more: map<string, nat>): (r: map<string, nat>)
    ensures forall key :: Get(r, key) == Get(counts, key) + Prefixed(prefix, more, key)
  {
    assert forall key: string :: prefix <= key ==> key == prefix + key[|prefix|..];
    map key | key in counts.Keys + (set k | k in more.Keys :: prefix + k)
      :: Get(counts, key) + Prefixed(prefix, more, key)
  }

  function Prefixed(prefix: string, more: map<string, nat>, key: string): nat {
    if prefix <= key then Get(more, key[|prefix|..]) else 0
  }

  /** What the merged counter holds: files by classification, behaviors and languages under
      their prefixes, added where keys coincide, and the number of files. */
  ghost function InventoryCount(entries: seq<Entry>, language: string -> string, files: seq<string>,
                                manifests: seq<Manifest>, derived: seq<Derived>, key: string): nat
  {
    if key == "total" then |files|
    else
      FilesUnder(ByClassification, entries, language, files, key)
      + (if "behavior:" <= key then BehaviorCount(manifests, derived, key[9..]) else 0)
      + (if "language:" <= key then FilesUnder(ByLanguage, entries, language, files, key[9..]) else 0)
  }

  /** The validator reports nothing exactly when entries, files and behavioral inventories are
      sound, and its merged counter is exact whatever was reported. */
  method ValidateInventory(entries: seq<Entry>, allowed: set<string>, language: string -> string, files: seq<string>,
                           manifests: seq<Manifest>, derived: seq<Derived>)
    returns (errors: seq<InventoryError>, counts: map<string, nat>)
    ensures errors == [] <==> IsSound(entries, allowed, files) && IsSoundBehavior(manifests, derived, entries)
    ensures forall key :: Get(counts, key) == InventoryCount(entries, language, files, manifests, derived, key)
  {
    hide IsSound, IsSoundBehavior, Counts, BehaviorCount, InventoryCount, AddPrefixed, FactsOfManifests, Get;
    var fileErrors, languages, owned;
    fileErrors, counts, languages, owned := ValidateFiles(entries, allowed, language, files);
    var behaviorErrors, owners, behaviors := ValidateBehaviors(manifests, derived, entries);
    errors := fileErrors + seq(|behaviorErrors|, k requires 0 <= k < |behaviorErrors| => Behavioral(behaviorErrors[k]));
    MergedCounts(entries, language, files, manifests, derived, counts, behaviors, languages);
    counts := AddPrefixed(counts, "behavior:", behaviors);
    counts := AddPrefixed(counts, "language:", languages);
    counts := counts["total" := |files|];
  }

  lemma MergedCounts(entries: seq<Entry>, language: string -> string, files: seq<string>, manifests: seq<Manifest>,
                     derived: seq<Derived>, counts: map<string, nat>, behaviors: map<string, nat>,
                     languages: map<string, nat>)
    requires Counts(ByClassification, entries, language, files, counts)
    requires Counts(ByLanguage, entries, language, files, languages)
    requires forall kind :: Get(behaviors, kind) == BehaviorCount(manifests, derived, kind)
    ensures
      var merged := AddPrefixed(AddPrefixed(counts, "behavior:", behaviors), "language:", languages);
      forall key :: Get(merged["total" := |files|], key)
                 == InventoryCount(entries, language, files, manifests, derived, key)
  {
    hide FilesUnder, BehaviorCount, Total, OwnedFiles, AddPrefixed;
    var behavioral := AddPrefixed(counts, "behavior:", behaviors);
    var merged := AddPrefixed(behavioral, "language:", languages);
    forall key
      ensures Get(merged["total" := |files|], key)
           == InventoryCount(entries, language, files, manifests, derived, key)
    {
      assert Get(merged, key) == Get(behavioral, key) + Prefixed("language:", languages, key);
      assert Get(behavioral, key) == Get(counts, key) + Prefixed("behavior:", behaviors, key);
    }
  }
}
