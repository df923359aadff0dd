/**
 The behavioral inventories: rows with an identity, one owner, a source file with an exact
 owner, and facts that must have one owner across all manifests.

 Rows are maps from field names to text; a missing field and an empty one are treated alike,
 as the validator does.
 */
module Behaviors {
  import opened Counters
  import opened Outcomes
  import opened Ownership

  type Item = map<string, string>

  datatype Manifest = Manifest(
    path: string, items: Option<seq<Item>>, identityFields: seq<string>, ownerFields: seq<string>,
    factFields: seq<string>, factOwnerField: Option<string>, kind: string, kindField: Option<string>)

  /** A derived pattern, given by the paths of the files it selects. */
  datatype Derived = Derived(kind: string, paths: set<string>)

  datatype BehaviorError =
    | Unreadable(path: string) | IncompleteIdentity(path: string) | DuplicateIdentity(path: string)
    | NotOneOwner(path: string, owners: seq<string>) | NoFileOwner(path: string)
    | FactWithoutOwner(path: string) | ManyFactOwners(fact: string, previous: string, owner: string)

  const REJECTED: string := "none_rejected_at_boundary"

  function Field(item: Item, field: string): string {
    if field in item then item[field] else ""
  }

  function Fields(item: Item, fields: seq<string>): seq<string> {
    seq(|fields|, k requires 0 <= k < |fields| => Field(item, fields[k]))
  }

  function NonEmpty(values: seq<string>): (r: seq<string>)
    ensures forall v :: v in r ==> v != ""
  {
    if values == [] then []
    else NonEmpty(values[..|values| - 1]) + if values[|values| - 1] != "" then [values[|values| - 1]] else []
  }

  function OwnersOf(m: Manifest, item: Item): seq<string> {
    NonEmpty(Fields(item, m.ownerFields))
  }

  predicate IsFact(fact: string) {
    fact != "" && fact != REJECTED
  }

  /** Who owns the facts of a row: its one owner, or the field that says so. */
  function FactOwner(m: Manifest, item: Item): string
    requires |OwnersOf(m, item)| == 1
  {
    if m.factOwnerField.Some? then Field(item, m.factOwnerField.value) else OwnersOf(m, item)[0]
  }

  /** What a row is counted under. */
  function KindOf(m: Manifest, item: Item): string {
    if m.kindField.Some? && m.kindField.value in item then item[m.kindField.value] else m.kind
  }

  // ----- What a sound inventory records -----

  datatype Fact = Fact(name: string, owner: string)

  ghost function FactsOf(m: Manifest, item: Item): set<Fact> {
    if |OwnersOf(m, item)| != 1 || FactOwner(m, item) == "" then {}
    else set field | field in m.factFields && IsFact(Field(item, field)) :: Fact(Field(item, field), FactOwner(m, item))
  }

  ghost function FactsOfItems(m: Manifest, items: seq<Item>): set<Fact> {
    set item, fact | item in items && fact in FactsOf(m, item) :: fact
  }

  ghost function FactsOfManifests(manifests: seq<Manifest>): set<Fact> {
    set m, fact | m in manifests && m.items.Some? && fact in FactsOfItems(m, m.items.value) :: fact
  }

  ghost predicate HaveOneOwner(facts: set<Fact>) {
    forall f, g :: f in facts && g in facts && f.name == g.name ==> f.owner == g.owner
  }

  /** What a row must satisfy on its own. */
  ghost predicate ItemIsSound(m: Manifest, entries: seq<Entry>, item: Item) {
    && "" !in Fields(item, m.identityFields)
    && |OwnersOf(m, item)| == 1
    && (Field(item, "path") != "" ==> |MatchingEntries(Field(item, "path"), entries)| == 1)
    && ((exists field :: field in m.factFields && IsFact(Field(item, field))) ==> FactOwner(m, item) != "")
  }

  ghost predicate ItemsAreSound(m: Manifest, entries: seq<Entry>, items: seq<Item>) {
    && (forall item :: item in items ==> ItemIsSound(m, entries, item))
    && (forall i, j :: 0 <= i < j < |items| ==>
          Fields(items[i], m.identityFields) != Fields(items[j], m.identityFields))
  }

  /** Every row is sound, identities are distinct, every derived path has one owner, and every
      fact has one owner across all rows of all manifests. */
  ghost predicate IsSoundBehavior(manifests: seq<Manifest>, derived: seq<Derived>, entries: seq<Entry>) {
    && (forall m :: m in manifests ==> m.items.Some? && ItemsAreSound(m, entries, m.items.value))
    && HaveOneOwner(FactsOfManifests(manifests))
    && (forall d, path :: d in derived && path in d.paths ==> |MatchingEntries(path, entries)| == 1)
  }

  // ----- What the validator counts -----

  /** The rows of a kind that have exactly one owner. */
  ghost function RowsOfKind(m: Manifest, items: seq<Item>, kind: string): nat {
    if items == [] then 0
    else
      var last := items[|items| - 1];
      RowsOfKind(m, items[..|items| - 1], kind)
      + if |OwnersOf(m, last)| == 1 && KindOf(m, last) == kind then 1 else 0
  }

  ghost function OwnedRows(m: Manifest, items: seq<Item>): nat {
    if items == [] then 0
    else OwnedRows(m, items[..|items| - 1]) + if |OwnersOf(m, items[|items| - 1])| == 1 then 1 else 0
  }

  ghost function KindTotal(manifests: seq<Manifest>, kind: string): nat {
    if manifests == [] then 0
    else
      var m := manifests[|manifests| - 1];
      KindTotal(manifests[..|manifests| - 1], kind) + if m.items.Some? then RowsOfKind(m, m.items.value, kind) else 0
  }

  ghost function RowTotal(manifests: seq<Manifest>): nat {
    if manifests == [] then 0
    else
      var m := manifests[|manifests| - 1];
      RowTotal(manifests[..|manifests| - 1]) + if m.items.Some? then OwnedRows(m, m.items.value) else 0
  }

  /** The number of files of the last pattern of a kind. */
  ghost function DerivedCount(derived: seq<Derived>, kind: string): Option<nat> {
    if derived == [] then None
    else
      var last := derived[|derived| - 1];
      if last.kind == kind then Some(|last.paths|) else DerivedCount(derived[..|derived| - 1], kind)
  }

  /** The count of a kind: a derived pattern overrides the rows, and the facts override both. */
  ghost function BehaviorCount(manifests: seq<Manifest>, derived: seq<Derived>, kind: string): nat {
    if kind == "fact" then |set f | f in FactsOfManifests(manifests) :: f.name|
    else if DerivedCount(derived, kind).Some? then DerivedCount(derived, kind).value
    else KindTotal(manifests, kind)
  }

  /** `later` has counted these rows on top of `earlier`, each once. */
  ghost predicate AddsRows(m: Manifest, items: seq<Item>, earlier: map<string, nat>, later: map<string, nat>) {
    && (forall kind :: Get(later, kind) == Get(earlier, kind) + RowsOfKind(m, items, kind))
    && Total(later) == Total(earlier) + OwnedRows(m, items)
  }

  ghost predicate CountsRows(manifests: seq<Manifest>, counts: map<string, nat>) {
    && (forall kind :: Get(counts, kind) == KindTotal(manifests, kind))
    && Total(counts) == RowTotal(manifests)
  }

  lemma AddNoRow(m: Manifest, counts: map<string, nat>)
    ensures AddsRows(m, [], counts, counts)
  {}

  lemma AddRow(m: Manifest, items: seq<Item>, k: nat, earlier: map<string, nat>, later: map<string, nat>)
    requires k < |items| && AddsRows(m, items[..k], earlier, later)
    ensures AddsRows(m, items[..k + 1], earlier,
                     if |OwnersOf(m, items[k])| == 1 then Bump(later, KindOf(m, items[k])) else later)
  {
    hide OwnersOf, KindOf, Total;
    var next := items[..k + 1];
    assert next[..|next| - 1] == items[..k] && next[|next| - 1] == items[k];
    TotalOfBump(later, KindOf(m, items[k]));
    forall kind
      ensures Get(if |OwnersOf(m, items[k])| == 1 then Bump(later, KindOf(m, items[k])) else later, kind)
           == Get(earlier, kind) + RowsOfKind(m, next, kind)
    {
      assert Get(later, kind) == Get(earlier, kind) + RowsOfKind(m, items[..k], kind);
    }
  }

  lemma CountsNextManifest(manifests: seq<Manifest>, k: nat, earlier: map<string, nat>, later: map<string, nat>)
    requires k < |manifests| && CountsRows(manifests[..k], earlier)
    requires if manifests[k].items.Some? then AddsRows(manifests[k], manifests[k].items.value, earlier, later)
             else later == earlier
    ensures CountsRows(manifests[..k + 1], later)
  {
    hide RowsOfKind, OwnedRows, Total;
    var next := manifests[..k + 1];
    assert next[..|next| - 1] == manifests[..k] && next[|next| - 1] == manifests[k];
    forall kind ensures Get(later, kind) == KindTotal(next, kind) {
      assert Get(earlier, kind) == KindTotal(manifests[..k], kind);
    }
  }

  // ----- The validator -----

  /** `owners` maps every recorded fact to the owner recorded first. */
  ghost predicate Records(owners: map<string, string>, facts: set<Fact>) {
    && (forall f :: f in facts ==> f.name in owners)
    && (forall name :: name in owners ==> Fact(name, owners[name]) in facts)
  }

  ghost predicate Agree(owners: map<string, string>, facts: set<Fact>) {
    forall f :: f in facts ==> f.name in owners && owners[f.name] == f.owner
  }

  ghost predicate Extends(later: map<string, string>, earlier: map<string, string>) {
    forall name :: name in earlier ==> name in later && later[name] == earlier[name]
  }

  /** Agreement with the first owner is the same as having one owner. */
  lemma AgreementIsOneOwner(owners: map<string, string>, facts: set<Fact>)
    requires Records(owners, facts)
    ensures Agree(owners, facts) <==> HaveOneOwner(facts)
  {}

  ghost function FactsUpTo(m: Manifest, item: Item, n: nat): set<Fact>
    requires n <= |m.factFields| && |OwnersOf(m, item)| == 1
  {
    if FactOwner(m, item) == "" then {}
    else set field | field in m.factFields[..n] && IsFact(Field(item, field))
           :: Fact(Field(item, field), FactOwner(m, item))
  }

  method RecordFacts(m: Manifest, item: Item, owners: map<string, string>, ghost facts: set<Fact>)
    returns (errors: seq<BehaviorError>, owners': map<string, string>)
    requires |OwnersOf(m, item)| == 1 && Records(owners, facts)
    ensures Records(owners', facts + FactsOf(m, item)) && Extends(owners', owners)
    ensures errors == [] <==>
            && Agree(owners', FactsOf(m, item))
            && ((exists field :: field in m.factFields && IsFact(Field(item, field))) ==> FactOwner(m, item) != "")
  {
    hide FactsUpTo, FactsOf, Field, OwnersOf, IsFact, FactOwner;
    errors, owners' := [], owners;
    var owner := FactOwner(m, item);
    NoFactYet(m, item);
    for k := 0 to |m.factFields|
      invariant Records(owners', facts + FactsUpTo(m, item, k)) && Extends(owners', owners)
      invariant errors == [] <==>
                && Agree(owners', FactsUpTo(m, item, k))
                && (owner == "" ==> forall field :: field in m.factFields[..k] ==> !IsFact(Field(item, field)))
    {
      var fact := Field(item, m.factFields[k]);
      NextFact(m, item, k);
      if !IsFact(fact) {
        continue;
      }
      if owner == "" {
        errors := errors + [FactWithoutOwner(m.path)];
        continue;
      }
      if fact !in owners' {
        owners' := owners'[fact := owner];
      }
      if owners'[fact] != owner {
        errors := errors + [ManyFactOwners(fact, owners'[fact], owner)];
      }
    }
    AllFacts(m, item);
  }

  lemma NoFactYet(m: Manifest, item: Item)
    requires |OwnersOf(m, item)| == 1
    ensures FactsUpTo(m, item, 0) == {}
  {}

  lemma AllFacts(m: Manifest, item: Item)
    requires |OwnersOf(m, item)| == 1
    ensures FactsUpTo(m, item, |m.factFields|) == FactsOf(m, item)
    ensures m.factFields[..|m.factFields|] == m.factFields
  {
    assert m.factFields[..|m.factFields|] == m.factFields;
  }

  lemma NextFact(m: Manifest, item: Item, k: nat)
    requires k < |m.factFields| && |OwnersOf(m, item)| == 1
    ensures
      var fact := Field(item, m.factFields[k]);
      FactsUpTo(m, item, k + 1)
        == FactsUpTo(m, item, k)
           + if IsFact(fact) && FactOwner(m, item) != "" then {Fact(fact, FactOwner(m, item))} else {}
    ensures m.factFields[..k + 1] == m.factFields[..k] + [m.factFields[k]]
  {
    assert m.factFields[..k + 1] == m.factFields[..k] + [m.factFields[k]];
  }

  method CheckItem(m: Manifest, entries: seq<Entry>, item: Item, seen: set<seq<string>>, owners: map<string, string>,
                   counts: map<string, nat>, ghost facts: set<Fact>)
    returns (errors: seq<BehaviorError>, owners': map<string, string>, counts': map<string, nat>)
    requires Records(owners, facts)
    ensures counts' == if |OwnersOf(m, item)| == 1 then Bump(counts, KindOf(m, item)) else counts
    ensures Records(owners', facts + FactsOf(m, item)) && Extends(owners', owners)
    ensures errors == [] <==>
            && ItemIsSound(m, entries, item)
            && Fields(item, m.identityFields) !in seen
            && Agree(owners', FactsOf(m, item))
  {
    hide MatchingEntries, Records, Agree, Extends, Fields, Field, OwnersOf, KindOf, Bump;
    errors, owners', counts' := [], owners, counts;
    var identity := Fields(item, m.identityFields);
    if "" in identity {
      errors := errors + [IncompleteIdentity(m.path)];
    } else if identity in seen {
      errors := errors + [DuplicateIdentity(m.path)];
    }
    ExtendsItself(owners);
    var itemOwners := OwnersOf(m, item);
    if |itemOwners| != 1 {
      errors := errors + [NotOneOwner(m.path, itemOwners)];
      assert facts + FactsOf(m, item) == facts;
      return;
    }
    counts' := Bump(counts, KindOf(m, item));
    var source := Field(item, "path");
    if source != "" && |MatchingEntries(source, entries)| != 1 {
      errors := errors + [NoFileOwner(m.path)];
    }
    var factErrors;
    hide FactsOf, FactOwner;
    factErrors, owners' := RecordFacts(m, item, owners, facts);
    errors := errors + factErrors;
  }

  lemma ExtendsItself(owners: map<string, string>)
    ensures Extends(owners, owners)
  {}

  lemma AgreementLasts(earlier: map<string, string>, later: map<string, string>, facts: set<Fact>, more: set<Fact>)
    requires Records(earlier, facts) && Extends(later, earlier)
    ensures Agree(later, facts + more) <==> Agree(earlier, facts) && Agree(later, more)
  {}

  lemma NextItem(m: Manifest, items: seq<Item>, k: nat)
    requires k < |items|
    ensures FactsOfItems(m, items[..k + 1]) == FactsOfItems(m, items[..k]) + FactsOf(m, items[k])
    ensures items[..k + 1] == items[..k] + [items[k]]
  {
    hide FactsOf;
    assert items[..k + 1] == items[..k] + [items[k]];
    assert forall item :: item in items[..k + 1] <==> item in items[..k] || item == items[k];
  }

  /** The rows of one manifest, after the facts `before` of earlier manifests. */
  method CheckItems(m: Manifest, entries: seq<Entry>, items: seq<Item>, owners: map<string, string>,
                    counts: map<string, nat>, ghost before: set<Fact>)
    returns (errors: seq<BehaviorError>, owners': map<string, string>, counts': map<string, nat>)
    requires Records(owners, before)
    ensures AddsRows(m, items, counts, counts')
    ensures Records(owners', before + FactsOfItems(m, items)) && Extends(owners', owners)
    ensures errors == [] <==> ItemsAreSound(m, entries, items) && Agree(owners', FactsOfItems(m, items))
  {
    hide ItemIsSound, Records, Agree, Fields, FactsOf, FactsOfItems, ItemsAreSound, Extends, AddsRows, Bump, OwnersOf,
      KindOf;
    errors, owners', counts' := [], owners, counts;
    AddNoRow(m, counts);
    var seen: set<seq<string>> := {};
    ExtendsItself(owners);
    NoItemsYet(m, entries, owners, before);
    for k := 0 to |items|
      invariant AddsRows(m, items[..k], counts, counts')
      invariant Records(owners', before + FactsOfItems(m, items[..k])) && Extends(owners', owners)
      invariant forall i :: i in seen <==> exists j :: 0 <= j < k && Fields(items[j], m.identityFields) == i
      invariant errors == [] <==> ItemsAreSound(m, entries, items[..k]) && Agree(owners', FactsOfItems(m, items[..k]))
    {
      NextItem(m, items, k);
      ghost var facts := before + FactsOfItems(m, items[..k]);
      ghost var earlier := owners';
      var itemErrors;
      AddRow(m, items, k, counts, counts');
      itemErrors, owners', counts' := CheckItem(m, entries, items[k], seen, owners', counts', facts);
      ExtendsOnward(owners, earlier, owners');
      AgreementOfPart(earlier, owners', before, FactsOfItems(m, items[..k]), FactsOf(m, items[k]));
      SoundNext(m, entries, items, k, seen);
      seen := seen + {Fields(items[k], m.identityFields)};
      errors := errors + itemErrors;
      assert facts + FactsOf(m, items[k]) == before + FactsOfItems(m, items[..k + 1]);
    }
    assert items[..|items|] == items;
  }

  lemma ExtendsOnward(a: map<string, string>, b: map<string, string>, c: map<string, string>)
    requires Extends(b, a) && Extends(c, b)
    ensures Extends(c, a)
  {}

  lemma NoItemsYet(m: Manifest, entries: seq<Entry>, owners: map<string, string>, before: set<Fact>)
    requires Records(owners, before)
    ensures ItemsAreSound(m, entries, [])
    ensures FactsOfItems(m, []) == {} && before + {} == before && Agree(owners, {})
  {}

  lemma AgreementOfPart(earlier: map<string, string>, later: map<string, string>, before: set<Fact>, facts: set<Fact>,
                        more: set<Fact>)
    requires Records(earlier, before + facts) && Extends(later, earlier)
    ensures Agree(later, facts + more) <==> Agree(earlier, facts) && Agree(later, more)
  {
    assert forall f :: f in facts ==> f in before + facts;
  }

  lemma SoundNext(m: Manifest, entries: seq<Entry>, items: seq<Item>, k: nat, seen: set<seq<string>>)
    requires k < |items|
    requires forall i :: i in seen <==> exists j :: 0 <= j < k && Fields(items[j], m.identityFields) == i
    ensures ItemsAreSound(m, entries, items[..k + 1]) <==>
            && ItemsAreSound(m, entries, items[..k])
            && ItemIsSound(m, entries, items[k])
            && Fields(items[k], m.identityFields) !in seen
  {
    hide ItemIsSound, Fields;
    var next := items[..k + 1];
    assert next == items[..k] + [items[k]];
    if ItemsAreSound(m, entries, next) {
      forall j | 0 <= j < k ensures Fields(items[j], m.identityFields) != Fields(items[k], m.identityFields) {
        assert next[j] == items[j] && next[k] == items[k];
      }
      forall i, j | 0 <= i < j < k
        ensures Fields(items[..k][i], m.identityFields) != Fields(items[..k][j], m.identityFields)
      {
        assert next[i] == items[..k][i] && next[j] == items[..k][j];
      }
    }
  }

  lemma NextManifest(manifests: seq<Manifest>, k: nat)
    requires k < |manifests|
    ensures manifests[..k + 1] == manifests[..k] + [manifests[k]]
    ensures FactsOfManifests(manifests[..k + 1]) == FactsOfManifests(manifests[..k])
              + if manifests[k].items.Some? then FactsOfItems(manifests[k], manifests[k].items.value) else {}
  {
    hide FactsOfItems;
    assert manifests[..k + 1] == manifests[..k] + [manifests[k]];
    assert forall m :: m in manifests[..k + 1] <==> m in manifests[..k] || m == manifests[k];
  }

  method CheckManifests(manifests: seq<Manifest>, entries: seq<Entry>)
    returns (errors: seq<BehaviorError>, owners: map<string, string>, counts: map<string, nat>)
    ensures CountsRows(manifests, counts)
    ensures Records(owners, FactsOfManifests(manifests))
    ensures errors == [] <==>
            && (forall m :: m in manifests ==> m.items.Some? && ItemsAreSound(m, entries, m.items.value))
            && HaveOneOwner(FactsOfManifests(manifests))
  {
    hide ItemsAreSound, Records, Agree, FactsOfItems, HaveOneOwner, CountsRows, AddsRows;
    errors, owners, counts := [], map[], map[];
    NothingRecorded();
    for k := 0 to |manifests|
      invariant CountsRows(manifests[..k], counts)
      invariant Records(owners, FactsOfManifests(manifests[..k]))
      invariant errors == [] <==>
                && (forall m :: m in manifests[..k] ==> m.items.Some? && ItemsAreSound(m, entries, m.items.value))
                && Agree(owners, FactsOfManifests(manifests[..k]))
    {
      NextManifest(manifests, k);
      var m := manifests[k];
      match m.items
      case None =>
        CountsNextManifest(manifests, k, counts, counts);
        errors := errors + [Unreadable(m.path)];
        assert FactsOfManifests(manifests[..k + 1]) == FactsOfManifests(manifests[..k]);
      case Some(items) =>
        ghost var before := FactsOfManifests(manifests[..k]);
        var itemErrors, owners', counts' := CheckItems(m, entries, items, owners, counts, before);
        AgreementLasts(owners, owners', before, FactsOfItems(m, items));
        CountsNextManifest(manifests, k, counts, counts');
        errors, owners, counts := errors + itemErrors, owners', counts';
    }
    assert manifests[..|manifests|] == manifests;
    AgreementIsOneOwner(owners, FactsOfManifests(manifests));
  }

  lemma NothingRecorded()
    ensures FactsOfManifests([]) == {} && Records(map[], {}) && Agree(map[], {}) && CountsRows([], map[])
  {}

  method CheckDerived(derived: seq<Derived>, entries: seq<Entry>, counts: map<string, nat>)
    returns (errors: seq<BehaviorError>, counts': map<string, nat>)
    ensures errors == [] <==>
            forall d, path :: d in derived && path in d.paths ==> |MatchingEntries(path, entries)| == 1
    ensures forall kind :: Get(counts', kind) ==
              if DerivedCount(derived, kind).Some? then DerivedCount(derived, kind).value else Get(counts, kind)
  {
    hide MatchingEntries;
    errors, counts' := [], counts;
    for k := 0 to |derived|
      invariant errors == [] <==>
                forall d, path :: d in derived[..k] && path in d.paths ==> |MatchingEntries(path, entries)| == 1
      invariant forall kind :: Get(counts', kind) ==
                  if DerivedCount(derived[..k], kind).Some? then DerivedCount(derived[..k], kind).value
                  else Get(counts, kind)
    {
      assert derived[..k + 1] == derived[..k] + [derived[k]];
      assert derived[..k + 1][..k] == derived[..k];
      var pathErrors := CheckPaths(derived[k].paths, entries);
      errors := errors + pathErrors;
      counts' := counts'[derived[k].kind := |derived[k].paths|];
    }
    assert derived[..|derived|] == derived;
  }

  method CheckPaths(paths: set<string>, entries: seq<Entry>) returns (errors: seq<BehaviorError>)
    ensures errors == [] <==> forall path :: path in paths ==> |MatchingEntries(path, entries)| == 1
  {
    hide MatchingEntries;
    errors := [];
    var pending := paths;
    while pending != {}
      invariant pending <= paths
      invariant errors == [] <==> forall path :: path in paths - pending ==> |MatchingEntries(path, entries)| == 1
      decreases pending
    {
      var path :| path in pending;
      assert paths - (pending - {path}) == (paths - pending) + {path};
      pending := pending - {path};
      if |MatchingEntries(path, entries)| != 1 {
        errors := errors + [NoFileOwner(path)];
      }
    }
  }

  /** The validator reports nothing exactly on sound behavioral inventories, in any order of
      manifests, rows and facts; then its fact table is the ownership of all recorded facts.
      Its counter is exact whatever was reported. */
  method ValidateBehaviors(manifests: seq<Manifest>, derived: seq<Derived>, entries: seq<Entry>)
    returns (errors: seq<BehaviorError>, owners: map<string, string>, counts: map<string, nat>)
    ensures errors == [] <==> IsSoundBehavior(manifests, derived, entries)
    ensures forall kind :: Get(counts, kind) == BehaviorCount(manifests, derived, kind)
    ensures errors == [] ==>
              forall f :: f in FactsOfManifests(manifests) <==> f.name in owners && owners[f.name] == f.owner
    ensures owners.Keys == set f | f in FactsOfManifests(manifests) :: f.name
  {
    var manifestErrors, rowCounts, derivedErrors;
    hide Total, MatchingEntries, ItemsAreSound, HaveOneOwner, FactsOfManifests;
    manifestErrors, owners, rowCounts := CheckManifests(manifests, entries);
    derivedErrors, counts := CheckDerived(derived, entries, rowCounts);
    RecordedNames(owners, FactsOfManifests(manifests));
    assert |owners| == |owners.Keys|;
    errors := manifestErrors + derivedErrors;
    counts := counts["fact" := |owners|];
  }

  lemma RecordedNames(owners: map<string, string>, facts: set<Fact>)
    requires Records(owners, facts)
    ensures owners.Keys == set f | f in facts :: f.name
    ensures HaveOneOwner(facts) ==> forall f :: f in facts <==> f.name in owners && owners[f.name] == f.owner
  {
    forall name | name in owners.Keys ensures name in (set f | f in facts :: f.name) {
      assert Fact(name, owners[name]) in facts;
    }
    if HaveOneOwner(facts) {
      forall f: Fact | f.name in owners && owners[f.name] == f.owner ensures f in facts {
        assert Fact(f.name, owners[f.name]) in facts;
      }
    }
  }

  // ----- Owners, facts and kinds, read off the fields -----

  ghost predicate HoldsIn(item: Item, field: string, value: string) {
    field in item && item[field] == value && value != ""
  }

  /** Exactly one of the owner fields is filled, with this owner. */
  ghost predicate IsOneOwner(m: Manifest, item: Item, owner: string) {
    exists p ::
      && 0 <= p < |m.ownerFields| && HoldsIn(item, m.ownerFields[p], owner)
      && forall q, value :: 0 <= q < |m.ownerFields| && q != p ==> !HoldsIn(item, m.ownerFields[q], value)
  }

  lemma NonEmptyUnfolds(values: seq<string>)
    requires values != []
    ensures
      var init, last := values[..|values| - 1], values[|values| - 1];
      NonEmpty(values) == if last == "" then NonEmpty(init) else NonEmpty(init) + [last]
  {}

  lemma {:induction false} NonEmptyIsNone(values: seq<string>)
    ensures NonEmpty(values) == [] <==> forall p :: 0 <= p < |values| ==> values[p] == ""
  {
    if values != [] {
      var init := values[..|values| - 1];
      NonEmptyUnfolds(values);
      NonEmptyIsNone(init);
      hide NonEmpty;
      assert forall p :: 0 <= p < |init| ==> values[p] == init[p];
    }
  }

  ghost predicate IsOnlyValue(values: seq<string>, p: int, value: string) {
    0 <= p < |values| && values[p] == value != "" && forall q :: 0 <= q < |values| && q != p ==> values[q] == ""
  }

  lemma OnlyInLonger(values: seq<string>, p: int, value: string)
    requires values != []
    ensures
      var init, last := values[..|values| - 1], values[|values| - 1];
      IsOnlyValue(values, p, value) <==>
        if p == |init| then last == value != "" && forall q :: 0 <= q < |init| ==> init[q] == ""
        else last == "" && IsOnlyValue(init, p, value)
  {
    var init, last := values[..|values| - 1], values[|values| - 1];
    assert values == init + [last];
    assert forall q :: 0 <= q < |init| ==> values[q] == init[q];
    assert values[|init|] == last;
  }

  lemma {:induction false} NonEmptyIsOne(values: seq<string>, value: string)
    ensures NonEmpty(values) == [value] <==> exists p :: IsOnlyValue(values, p, value)
  {
    if values != [] {
      var init, last := values[..|values| - 1], values[|values| - 1];
      NonEmptyUnfolds(values);
      NonEmptyIsOne(init, value);
      NonEmptyIsNone(init);
      hide NonEmpty, IsOnlyValue;
      forall p
        ensures IsOnlyValue(values, p, value) <==>
                  if p == |init| then last == value != "" && NonEmpty(init) == []
                  else last == "" && IsOnlyValue(init, p, value)
      {
        OnlyInLonger(values, p, value);
      }
      OneFromParts(NonEmpty(init), last, value);
      if last != "" && NonEmpty(values) == [value] {
        assert IsOnlyValue(values, |init|, value);
      }
      if last == "" && NonEmpty(init) == [value] {
        var p :| IsOnlyValue(init, p, value);
        OnlyInRange(init, p, value);
        assert IsOnlyValue(values, p, value);
      }
    }
  }

  lemma OnlyInRange(values: seq<string>, p: int, value: string)
    requires IsOnlyValue(values, p, value)
    ensures 0 <= p < |values|
  {}

  lemma OneFromParts(init: seq<string>, last: string, value: string)
    ensures init + [last] == [value] <==> init == [] && last == value
  {
    if init + [last] == [value] {
      assert (init + [last])[|init|] == last;
    }
  }

  lemma OwnerIsRead(m: Manifest, item: Item, owner: string)
    ensures OwnersOf(m, item) == [owner] <==> IsOneOwner(m, item, owner)
  {
    var values := Fields(item, m.ownerFields);
    NonEmptyIsOne(values, owner);
    forall p
      ensures IsOnlyValue(values, p, owner) <==>
              && 0 <= p < |m.ownerFields| && HoldsIn(item, m.ownerFields[p], owner)
              && forall q, value :: 0 <= q < |m.ownerFields| && q != p ==> !HoldsIn(item, m.ownerFields[q], value)
    {
      OnlyFilled(m, item, p, owner);
    }
  }

  lemma OnlyFilled(m: Manifest, item: Item, p: int, owner: string)
    ensures IsOnlyValue(Fields(item, m.ownerFields), p, owner) <==>
            && 0 <= p < |m.ownerFields| && HoldsIn(item, m.ownerFields[p], owner)
            && forall q, value :: 0 <= q < |m.ownerFields| && q != p ==> !HoldsIn(item, m.ownerFields[q], value)
  {
    var values := Fields(item, m.ownerFields);
    forall q | 0 <= q < |values| ensures values[q] == "" <==> forall value :: !HoldsIn(item, m.ownerFields[q], value) {
      if values[q] != "" {
        assert HoldsIn(item, m.ownerFields[q], values[q]);
      }
    }
  }

  /** The row states this fact of this owner: a fact field names it, and the owner is in the
      fact-owner field if there is one and is the one owner of the row otherwise. */
  ghost predicate States(m: Manifest, item: Item, fact: Fact) {
    && (exists owner :: IsOneOwner(m, item, owner))
    && (exists field :: field in m.factFields && HoldsIn(item, field, fact.name))
    && fact.name != "none_rejected_at_boundary"
    && match m.factOwnerField
       case Some(field) => HoldsIn(item, field, fact.owner)
       case None => IsOneOwner(m, item, fact.owner)
  }

  lemma RowStates(m: Manifest, item: Item, fact: Fact)
    ensures fact in FactsOf(m, item) <==> States(m, item, fact)
  {
    hide IsOneOwner, OwnersOf;
    forall owner ensures OwnersOf(m, item) == [owner] <==> IsOneOwner(m, item, owner) {
      OwnerIsRead(m, item, owner);
    }
    if |OwnersOf(m, item)| == 1 {
      assert OwnersOf(m, item) == [OwnersOf(m, item)[0]];
    }
    if fact in FactsOf(m, item) {
      var field :| field in m.factFields && IsFact(Field(item, field)) && fact.name == Field(item, field);
      assert HoldsIn(item, field, fact.name);
      OwnersNonEmpty(m, item);
    }
    if States(m, item, fact) {
      var field :| field in m.factFields && HoldsIn(item, field, fact.name);
      var owner :| IsOneOwner(m, item, owner);
      assert Field(item, field) == fact.name;
      OwnersNonEmpty(m, item);
    }
  }

  lemma OwnersNonEmpty(m: Manifest, item: Item)
    ensures "" !in OwnersOf(m, item)
  {}

  /** The recorded facts are exactly those that some row states. */
  lemma FactsAreStated(manifests: seq<Manifest>, fact: Fact)
    ensures fact in FactsOfManifests(manifests) <==>
            exists m, item :: m in manifests && m.items.Some? && item in m.items.value && States(m, item, fact)
  {
    hide FactsOf, States;
    if m, item :| m in manifests && m.items.Some? && item in m.items.value && States(m, item, fact) {
      RowStates(m, item, fact);
      assert fact in FactsOfItems(m, m.items.value);
    }
    if fact in FactsOfManifests(manifests) {
      var m :| m in manifests && m.items.Some? && fact in FactsOfItems(m, m.items.value);
      var item :| item in m.items.value && fact in FactsOf(m, item);
      RowStates(m, item, fact);
    }
  }

  /** The row is counted under a kind: it has one owner, and its kind field says so, or it has
      none and its manifest does. */
  ghost predicate IsOfKind(m: Manifest, item: Item, kind: string) {
    && (exists owner :: IsOneOwner(m, item, owner))
    && match m.kindField
       case Some(field) => (field in item && item[field] == kind) || (field !in item && m.kind == kind)
       case None => m.kind == kind
  }

  ghost function RowsUnder(m: Manifest, items: seq<Item>, kind: string): set<int> {
    set r | 0 <= r < |items| && IsOfKind(m, items[r], kind)
  }

  lemma KindIsRead(m: Manifest, item: Item, kind: string)
    ensures IsOfKind(m, item, kind) <==> |OwnersOf(m, item)| == 1 && KindOf(m, item) == kind
  {
    OneOwnerIsRead(m, item);
    hide IsOneOwner, OwnersOf;
  }

  lemma {:induction false} KindsAreRead(m: Manifest, items: seq<Item>, kind: string)
    ensures RowsOfKind(m, items, kind) == |RowsUnder(m, items, kind)|
  {
    hide OwnersOf, IsOfKind, KindOf;
    if items != [] {
      var last := |items| - 1;
      KindsAreRead(m, items[..last], kind);
      KindIsRead(m, items[last], kind);
      assert RowsUnder(m, items, kind)
          == RowsUnder(m, items[..last], kind) + if IsOfKind(m, items[last], kind) then {last} else {};
    } else {
      assert RowsUnder(m, items, kind) == {};
    }
  }

  lemma OneOwnerIsRead(m: Manifest, item: Item)
    ensures |OwnersOf(m, item)| == 1 <==> exists owner :: IsOneOwner(m, item, owner)
  {
    hide IsOneOwner, OwnersOf;
    var owners := OwnersOf(m, item);
    if |owners| == 1 {
      assert owners == [owners[0]];
      OwnerIsRead(m, item, owners[0]);
    }
    if owner :| IsOneOwner(m, item, owner) {
      OwnerIsRead(m, item, owner);
    }
  }

  // ----- The order of rows -----

  lemma {:induction false} RepeatedIsTwice<T>(s: seq<T>, i: nat, j: nat)
    requires i < j < |s| && s[i] == s[j]
    ensures multiset(s)[s[i]] >= 2
  {
    assert s == s[..i] + [s[i]] + s[i + 1..j] + [s[j]] + s[j + 1..];
  }

  lemma {:induction false} TwiceIsRepeated<T(!new)>(s: seq<T>, x: T)
    requires multiset(s)[x] >= 2
    ensures exists i, j :: 0 <= i < j < |s| && s[i] == s[j] == x
  {
    var last, init := s[|s| - 1], s[..|s| - 1];
    assert s == init + [last];
    if last == x {
      assert x in multiset(init);
      var i :| 0 <= i < |init| && init[i] == x;
      assert s[i] == s[|s| - 1] == x;
    } else {
      TwiceIsRepeated(init, x);
      var i, j :| 0 <= i < j < |init| && init[i] == init[j] == x;
      assert s[i] == s[j] == x;
    }
  }

  lemma DistinctIdentities(m: Manifest, a: seq<Item>, b: seq<Item>)
    requires multiset(a) == multiset(b)
    requires forall i, j :: 0 <= i < j < |a| ==> Fields(a[i], m.identityFields) != Fields(a[j], m.identityFields)
    ensures forall i, j :: 0 <= i < j < |b| ==> Fields(b[i], m.identityFields) != Fields(b[j], m.identityFields)
  {
    hide Fields;
    forall i, j | 0 <= i < j < |b| ensures Fields(b[i], m.identityFields) != Fields(b[j], m.identityFields) {
      if b[i] == b[j] {
        RepeatedIsTwice(b, i, j);
        TwiceIsRepeated(a, b[i]);
      } else {
        assert b[i] in multiset(a) && b[j] in multiset(a);
        var k :| 0 <= k < |a| && a[k] == b[i];
        var l :| 0 <= l < |a| && a[l] == b[j];
      }
    }
  }

  /** Reordering the rows of a manifest changes neither their soundness nor their facts. */
  lemma RowOrderIsIrrelevant(m: Manifest, entries: seq<Entry>, a: seq<Item>, b: seq<Item>)
    requires multiset(a) == multiset(b)
    ensures ItemsAreSound(m, entries, a) <==> ItemsAreSound(m, entries, b)
    ensures FactsOfItems(m, a) == FactsOfItems(m, b)
  {
    hide ItemIsSound, FactsOf, Fields;
    assert forall item :: item in a <==> item in multiset(a);
    assert forall item :: item in b <==> item in multiset(b);
    if ItemsAreSound(m, entries, a) {
      DistinctIdentities(m, a, b);
    }
    if ItemsAreSound(m, entries, b) {
      DistinctIdentities(m, b, a);
    }
  }

  /** The same manifest up to the order of its rows. */
  ghost predicate SameRows(m: Manifest, m': Manifest) {
    && m' == m.(items := m'.items)
    && (m.items.Some? <==> m'.items.Some?)
    && (m.items.Some? ==> multiset(m.items.value) == multiset(m'.items.value))
  }

  /** Reordering or repeating manifests and reordering the rows inside them changes neither
      whether the validator accepts nor which facts it records. */
  lemma OrderIsIrrelevant(a: seq<Manifest>, b: seq<Manifest>, derived: seq<Derived>, entries: seq<Entry>)
    requires forall m :: m in a ==> exists m' :: m' in b && SameRows(m, m')
    requires forall m :: m in b ==> exists m' :: m' in a && SameRows(m, m')
    ensures FactsOfManifests(a) == FactsOfManifests(b)
    ensures IsSoundBehavior(a, derived, entries) <==> IsSoundBehavior(b, derived, entries)
  {
    hide ItemsAreSound, FactsOfItems, FactsOfManifests, HaveOneOwner, MatchingEntries, SameRows;
    NoMoreFacts(a, b);
    NoMoreFacts(b, a);
    if IsSoundBehavior(a, derived, entries) {
      StaySound(a, b, entries);
    }
    if IsSoundBehavior(b, derived, entries) {
      StaySound(b, a, entries);
    }
  }

  lemma NoMoreFacts(a: seq<Manifest>, b: seq<Manifest>)
    requires forall m :: m in a ==> exists m' :: m' in b && SameRows(m, m')
    ensures FactsOfManifests(a) <= FactsOfManifests(b)
  {
    hide FactsOfItems;
    forall fact | fact in FactsOfManifests(a) ensures fact in FactsOfManifests(b) {
      var m :| m in a && m.items.Some? && fact in FactsOfItems(m, m.items.value);
      var m' :| m' in b && SameRows(m, m');
      RowsOfSame(m, m', []);
    }
  }

  lemma StaySound(a: seq<Manifest>, b: seq<Manifest>, entries: seq<Entry>)
    requires forall m :: m in a ==> m.items.Some? && ItemsAreSound(m, entries, m.items.value)
    requires forall m :: m in b ==> exists m' :: m' in a && SameRows(m, m')
    ensures forall m :: m in b ==> m.items.Some? && ItemsAreSound(m, entries, m.items.value)
  {
    hide ItemsAreSound;
    forall m | m in b ensures m.items.Some? && ItemsAreSound(m, entries, m.items.value) {
      var m' :| m' in a && SameRows(m, m');
      RowsOfSame(m, m', entries);
    }
  }

  lemma RowsOfSame(m: Manifest, m': Manifest, entries: seq<Entry>)
    requires SameRows(m, m') && m.items.Some?
    ensures ItemsAreSound(m, entries, m.items.value) <==> ItemsAreSound(m', entries, m'.items.value)
    ensures FactsOfItems(m, m.items.value) == FactsOfItems(m', m'.items.value)
  {
    RowOrderIsIrrelevant(m, entries, m.items.value, m'.items.value);
    SameReading(m, m', entries, m'.items.value);
  }

  lemma SameReading(m: Manifest, m': Manifest, entries: seq<Entry>, items: seq<Item>)
    requires m' == m.(items := m'.items)
    ensures ItemsAreSound(m, entries, items) <==> ItemsAreSound(m', entries, items)
    ensures FactsOfItems(m, items) == FactsOfItems(m', items)
  {
    assert forall item :: item in items ==> FactsOf(m, item) == FactsOf(m', item);
    assert forall item :: item in items ==> (ItemIsSound(m, entries, item) <==> ItemIsSound(m', entries, item));
  }

  // ----- What is counted of a sound inventory -----

  ghost function AllRows(manifests: seq<Manifest>): nat {
    if manifests == [] then 0
    else
      var m := manifests[|manifests| - 1];
      AllRows(manifests[..|manifests| - 1]) + if m.items.Some? then |m.items.value| else 0
  }

  lemma {:induction false} AllRowsOwned(m: Manifest, items: seq<Item>)
    requires forall item :: item in items ==> |OwnersOf(m, item)| == 1
    ensures OwnedRows(m, items) == |items|
  {
    hide OwnersOf;
    if items != [] {
      AllRowsOwned(m, items[..|items| - 1]);
    }
  }

  /** Without an error every row of every manifest is counted under exactly one kind. */
  lemma SoundRowsAreCounted(manifests: seq<Manifest>, entries: seq<Entry>, counts: map<string, nat>)
    requires forall m :: m in manifests ==> m.items.Some? && ItemsAreSound(m, entries, m.items.value)
    requires CountsRows(manifests, counts)
    ensures Total(counts) == AllRows(manifests)
  {
    AllManifestsOwned(manifests, entries);
  }

  lemma {:induction false} AllManifestsOwned(manifests: seq<Manifest>, entries: seq<Entry>)
    requires forall m :: m in manifests ==> m.items.Some? && ItemsAreSound(m, entries, m.items.value)
    ensures RowTotal(manifests) == AllRows(manifests)
  {
    if manifests != [] {
      var m := manifests[|manifests| - 1];
      AllManifestsOwned(manifests[..|manifests| - 1], entries);
      assert m in manifests;
      AllRowsOwned(m, m.items.value);
    }
  }
}
