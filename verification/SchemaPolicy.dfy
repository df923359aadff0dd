/**
 The migration policy of the Rust schema: one file for each version, every file versioned,
 and a lock that agrees with the files.

 Migrations and locks are dictionaries; the digest of a file is any function of its bytes.
 */
module SchemaPolicy {

  // ----- Version prefixes -----

  function Digit(n: nat): char
    requires n < 10
  {
    '0' + n as char
  }

  /** Decimal digits of `n`, at least one. */
  function Decimal(n: nat): (r: string)
    ensures r != "" && '_' !in r
  {
    if n < 10 then [Digit(n)] else Decimal(n / 10) + [Digit(n % 10)]
  }

  function Zeros(n: nat): (r: string)
    ensures |r| == n && '_' !in r
  {
    if n == 0 then "" else "0" + Zeros(n - 1)
  }

  /** The version padded to four digits, and an underscore. */
  function Prefix(version: nat): string {
    var digits := Decimal(version);
    Zeros(if |digits| < 4 then 4 - |digits| else 0) + digits + "_"
  }

  function Value(digits: string): int {
    if digits == "" then 0 else Value(digits[..|digits| - 1]) * 10 + (digits[|digits| - 1] as int - '0' as int)
  }

  lemma {:induction false} ValueOfDecimal(n: nat)
    ensures Value(Decimal(n)) == n
  {
    if n >= 10 {
      ValueOfDecimal(n / 10);
      assert Decimal(n)[..|Decimal(n)| - 1] == Decimal(n / 10);
    } else {
      assert Decimal(n)[..0] == "";
    }
  }

  lemma {:induction false} ValueOfPadded(zeros: nat, digits: string)
    ensures Value(Zeros(zeros) + digits) == Value(digits)
    decreases |digits|, zeros
  {
    var padded := Zeros(zeros) + digits;
    if digits != "" {
      ValueOfPadded(zeros, digits[..|digits| - 1]);
      assert padded[..|padded| - 1] == Zeros(zeros) + digits[..|digits| - 1];
    } else if zeros > 0 {
      ValueOfPadded(zeros - 1, "");
      ZerosEnd(zeros);
      assert padded == Zeros(zeros) && Zeros(zeros - 1) + "" == Zeros(zeros - 1);
      assert padded[..|padded| - 1] == Zeros(zeros - 1);
    } else {
      assert padded == "";
    }
  }

  lemma {:induction false} ZerosEnd(n: nat)
    requires n > 0
    ensures Zeros(n) == Zeros(n - 1) + "0"
  {
    if n > 1 {
      ZerosEnd(n - 1);
    }
  }

  /** The text before the first underscore. */
  lemma UnderscoreSplits(a: string, b: string, name: string)
    requires '_' !in a && '_' !in b && a + "_" <= name && b + "_" <= name
    ensures a == b
  {
    assert name[|a|] == '_' && name[|b|] == '_';
    assert forall k :: 0 <= k < |a| ==> name[k] == a[k] && a[k] in a;
    assert forall k :: 0 <= k < |b| ==> name[k] == b[k] && b[k] in b;
    assert |a| == |b|;
    assert a == name[..|a|] && b == name[..|b|];
  }

  /** No name starts with the prefixes of two versions. */
  lemma PrefixesAreDisjoint(name: string, v: nat, w: nat)
    requires Prefix(v) <= name && Prefix(w) <= name
    ensures v == w
  {
    var dv, dw := Decimal(v), Decimal(w);
    var zv, zw := if |dv| < 4 then 4 - |dv| else 0, if |dw| < 4 then 4 - |dw| else 0;
    UnderscoreSplits(Zeros(zv) + dv, Zeros(zw) + dw, name);
    ValueOfDecimal(v);
    ValueOfDecimal(w);
    ValueOfPadded(zv, dv);
    ValueOfPadded(zw, dw);
  }

  // ----- What a prefix is -----

  ghost predicate AreDigits(s: string) {
    forall k :: 0 <= k < |s| ==> '0' <= s[k] <= '9'
  }

  /** The decimal form of the version, with leading zeros only up to four digits. */
  ghost predicate IsPadded(digits: string, version: nat) {
    AreDigits(digits) && Value(digits) == version && |digits| >= 4 && (|digits| > 4 ==> digits[0] != '0')
  }

  ghost function Power(n: nat): nat {
    if n == 0 then 1 else 10 * Power(n - 1)
  }

  lemma {:induction false} DecimalDigits(n: nat)
    ensures AreDigits(Decimal(n)) && (n > 0 ==> Decimal(n)[0] != '0')
  {
    if n >= 10 {
      DecimalDigits(n / 10);
    }
  }

  lemma {:induction false} ZerosAreDigits(n: nat)
    ensures AreDigits(Zeros(n))
  {
    if n > 0 {
      ZerosAreDigits(n - 1);
    }
  }

  lemma {:induction false} ValueBounds(digits: string)
    requires AreDigits(digits)
    ensures 0 <= Value(digits) < Power(|digits|)
    ensures digits != "" && digits[0] != '0' ==> Value(digits) >= Power(|digits| - 1)
  {
    if digits != "" {
      ValueBounds(digits[..|digits| - 1]);
    }
  }

  lemma {:induction false} SameDigits(a: string, b: string)
    requires AreDigits(a) && AreDigits(b) && |a| == |b| && Value(a) == Value(b)
    ensures a == b
  {
    if a != "" {
      var a', b' := a[..|a| - 1], b[..|b| - 1];
      ValueBounds(a');
      ValueBounds(b');
      LastDigit(Value(a'), a[|a| - 1] as int - '0' as int, Value(b'), b[|b| - 1] as int - '0' as int);
      SameDigits(a', b');
      assert a == a' + [a[|a| - 1]] && b == b' + [b[|b| - 1]];
    }
  }

  lemma LastDigit(m: int, c: int, n: int, d: int)
    requires 0 <= c < 10 && 0 <= d < 10 && m * 10 + c == n * 10 + d
    ensures m == n && c == d
  {}

  lemma {:induction false} PowerGrows(m: nat, n: nat)
    requires m <= n
    ensures Power(m) <= Power(n)
    decreases n
  {
    if m < n {
      PowerGrows(m, n - 1);
    }
  }

  lemma LongerIsLarger(a: string, b: string)
    requires AreDigits(a) && AreDigits(b) && |a| < |b| && b[0] != '0'
    ensures Value(a) < Value(b)
  {
    ValueBounds(a);
    ValueBounds(b);
    PowerGrows(|a|, |b| - 1);
  }

  lemma SameLength(a: string, b: string, version: nat)
    requires IsPadded(a, version) && IsPadded(b, version)
    ensures |a| == |b|
  {
    if |a| < |b| {
      LongerIsLarger(a, b);
    }
    if |b| < |a| {
      LongerIsLarger(b, a);
    }
  }

  /** The prefix is that form and an underscore, and there is only one such form. */
  lemma PrefixIsPadded(version: nat, digits: string)
    ensures IsPadded(digits, version) <==> Prefix(version) == digits + "_"
  {
    var zeros := if |Decimal(version)| < 4 then 4 - |Decimal(version)| else 0;
    var padded := Zeros(zeros) + Decimal(version);
    DecimalDigits(version);
    ZerosAreDigits(zeros);
    ValueOfDecimal(version);
    ValueOfPadded(zeros, Decimal(version));
    assert zeros == 0 ==> padded == Decimal(version);
    assert AreDigits(padded);
    assert IsPadded(padded, version);
    if IsPadded(digits, version) {
      SameLength(digits, padded, version);
      SameDigits(digits, padded);
    }
    if Prefix(version) == digits + "_" {
      assert digits == (digits + "_")[..|digits|] == (padded + "_")[..|padded|] == padded;
    }
  }

  // ----- The policy -----

  type Bytes = seq<bv8>

  datatype PolicyError =
    | NotOneMigration(version: nat, found: set<string>)
    | Unversioned(names: set<string>)
    | LockEntriesDiffer
    | ContentChanged(name: string)
    | FixtureDiffers

  function MatchesOf(migrations: map<string, Bytes>, version: nat): set<string> {
    set name | name in migrations && Prefix(version) <= name
  }

  ghost predicate HasOneMigration(migrations: map<string, Bytes>, version: nat) {
    exists name :: MatchesOf(migrations, version) == {name}
  }

  /** The name carries a version between 1 and `n`. */
  ghost predicate IsVersioned(n: int, name: string) {
    exists v: nat :: 1 <= v <= n && Prefix(v) <= name
  }

  /** Each version has one file, each file a version, and the lock records every digest. */
  ghost predicate Complies(current: int, migrations: map<string, Bytes>, locked: map<string, string>,
                           digest: Bytes -> string, supported: int) {
    && (forall v: nat :: 1 <= v <= current ==> HasOneMigration(migrations, v))
    && (forall name :: name in migrations ==> IsVersioned(current, name))
    && locked.Keys == migrations.Keys
    && (forall name :: name in migrations ==> name in locked && locked[name] == digest(migrations[name]))
    && supported == current
  }

  ghost function VersionedNames(migrations: map<string, Bytes>, n: int): set<string> {
    set name | name in migrations && IsVersioned(n, name)
  }

  lemma NextVersion(migrations: map<string, Bytes>, n: nat)
    requires n >= 1
    ensures VersionedNames(migrations, n) == VersionedNames(migrations, n - 1) + MatchesOf(migrations, n)
    ensures VersionedNames(migrations, n - 1) !! MatchesOf(migrations, n)
  {
    hide Prefix;
    forall name | name in MatchesOf(migrations, n) ensures name !in VersionedNames(migrations, n - 1) {
      if IsVersioned(n - 1, name) {
        var v: nat :| 1 <= v <= n - 1 && Prefix(v) <= name;
        PrefixesAreDisjoint(name, v, n);
      }
    }
    forall name | name in VersionedNames(migrations, n - 1) ensures name in VersionedNames(migrations, n) {
      var v: nat :| 1 <= v <= n - 1 && Prefix(v) <= name;
    }
  }

  lemma OneMigration(migrations: map<string, Bytes>, version: nat)
    ensures |MatchesOf(migrations, version)| == 1 <==> HasOneMigration(migrations, version)
  {
    var matches := MatchesOf(migrations, version);
    hide MatchesOf;
    if |matches| == 1 {
      var name :| name in matches;
      assert |matches - {name}| == 0;
      assert matches == {name};
    }
  }

  method CheckVersions(current: int, migrations: map<string, Bytes>)
    returns (errors: seq<PolicyError>, expected: set<string>)
    ensures errors == [] <==> forall v: nat :: 1 <= v <= current ==> HasOneMigration(migrations, v)
    ensures errors == [] ==> expected == VersionedNames(migrations, current)
  {
    hide MatchesOf, HasOneMigration, IsVersioned, VersionedNames;
    errors, expected := [], {};
    var version: nat := 1;
    NoVersion(migrations, current);
    while version <= current
      invariant version >= 1 && (current >= 0 ==> version <= current + 1) && (current < 1 ==> version == 1)
      invariant errors == [] <==> forall v: nat :: 1 <= v < version ==> HasOneMigration(migrations, v)
      invariant errors == [] ==> expected == VersionedNames(migrations, version - 1)
    {
      var matches := MatchesOf(migrations, version);
      OneMigration(migrations, version);
      NextVersion(migrations, version);
      if |matches| != 1 {
        errors := errors + [NotOneMigration(version, matches)];
      } else {
        expected := expected + matches;
      }
      version := version + 1;
    }
  }

  lemma NoVersion(migrations: map<string, Bytes>, current: int)
    ensures VersionedNames(migrations, 0) == {}
    ensures current < 1 ==> VersionedNames(migrations, current) == {}
  {}

  method CheckContents(migrations: map<string, Bytes>, locked: map<string, string>, digest: Bytes -> string)
    returns (errors: seq<PolicyError>)
    ensures errors == [] <==>
            forall name :: name in migrations ==> name in locked && locked[name] == digest(migrations[name])
  {
    errors := [];
    var pending := migrations.Keys;
    while pending != {}
      invariant pending <= migrations.Keys
      invariant errors == [] <==> forall name :: name in migrations && name !in pending ==>
                                    name in locked && locked[name] == digest(migrations[name])
      decreases pending
    {
      var name :| name in pending;
      ghost var was := pending;
      pending := pending - {name};
      assert forall other :: other !in pending <==> other == name || other !in was;
      if name !in locked || locked[name] != digest(migrations[name]) {
        errors := errors + [ContentChanged(name)];
      }
    }
  }

  /** The policy reports nothing exactly on compliant migrations. */
  method Evaluate(current: int, migrations: map<string, Bytes>, locked: map<string, string>,
                  digest: Bytes -> string, supported: int)
    returns (errors: seq<PolicyError>)
    ensures errors == [] <==> Complies(current, migrations, locked, digest, supported)
  {
    hide HasOneMigration, IsVersioned;
    var expected;
    errors, expected := CheckVersions(current, migrations);
    ghost var versionErrors := errors;
    var unexpected := migrations.Keys - expected;
    if unexpected != {} {
      errors := errors + [Unversioned(unexpected)];
    }
    assert forall name :: name in unexpected <==> name in migrations && name !in expected;
    assert versionErrors == [] ==>
             (unexpected == {} <==> forall name :: name in migrations ==> IsVersioned(current, name));
    if locked.Keys != migrations.Keys {
      errors := errors + [LockEntriesDiffer];
    }
    var contentErrors := CheckContents(migrations, locked, digest);
    errors := errors + contentErrors;
    if supported != current {
      errors := errors + [FixtureDiffers];
    }
  }

  lemma {:induction false} CountVersions(migrations: map<string, Bytes>, n: nat)
    requires forall v: nat :: 1 <= v <= n ==> HasOneMigration(migrations, v)
    ensures |VersionedNames(migrations, n)| == n
  {
    hide MatchesOf, HasOneMigration, VersionedNames;
    if n == 0 {
      NoVersion(migrations, 0);
    } else {
      CountVersions(migrations, n - 1);
      NextVersion(migrations, n);
      OneMigration(migrations, n);
    }
  }

  /** Without an error the file names are in bijection with the versions, so there are as many
      files as versions, and the lock has an entry with the right digest for each of them. */
  lemma CompliantMigrations(current: int, migrations: map<string, Bytes>, locked: map<string, string>,
                            digest: Bytes -> string, supported: int)
    requires Complies(current, migrations, locked, digest, supported)
    ensures |migrations| == |locked| == if current < 0 then 0 else current
    ensures forall v: nat :: 1 <= v <= current ==> |MatchesOf(migrations, v)| == 1
    ensures forall name, v: nat, w: nat ::
              name in migrations && Prefix(v) <= name && Prefix(w) <= name ==> v == w && 1 <= v <= current
  {
    hide Prefix, MatchesOf, HasOneMigration;
    CountFiles(current, migrations);
    assert |migrations| == |migrations.Keys| && |locked| == |locked.Keys|;
    forall v: nat | 1 <= v <= current ensures |MatchesOf(migrations, v)| == 1 {
      OneMigration(migrations, v);
    }
    forall name, v: nat, w: nat | name in migrations && Prefix(v) <= name && Prefix(w) <= name
      ensures v == w && 1 <= v <= current
    {
      UniqueVersion(current, name, v);
      UniqueVersion(current, name, w);
      PrefixesAreDisjoint(name, v, w);
    }
  }

  lemma CountFiles(current: int, migrations: map<string, Bytes>)
    requires forall v: nat :: 1 <= v <= current ==> HasOneMigration(migrations, v)
    requires forall name :: name in migrations ==> IsVersioned(current, name)
    ensures |migrations.Keys| == if current < 0 then 0 else current
  {
    assert VersionedNames(migrations, current) == migrations.Keys;
    hide VersionedNames, HasOneMigration, IsVersioned;
    if current < 0 {
      NoVersion(migrations, current);
    } else {
      CountVersions(migrations, current);
    }
  }

  lemma UniqueVersion(current: int, name: string, v: nat)
    requires IsVersioned(current, name) && Prefix(v) <= name
    ensures 1 <= v <= current
  {
    hide Prefix;
    var u: nat :| 1 <= u <= current && Prefix(u) <= name;
    PrefixesAreDisjoint(name, v, u);
  }
}
