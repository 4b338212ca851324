/**
  The migration file registry of lib/mongo-migrator.js: reading the version out of a
  migration filename, validating a directory listing (every name parses, no version
  repeats) and ordering it by version, and naming the next migration file.
  The directory listing itself is an input sequence; nothing here touches a disk.
 */
module Registry {
  import opened Results
  import opened Decimal
  import opened Sequences

  /** Everything a registry or engine operation can fail with. */
  datatype MigrationError =
    | InvalidFilename(filename: string)       // a name without a `^(\d+)\.` prefix
    | DuplicateVersion(version: nat)          // the first version that repeats in listing order
    | InvalidDescription(description: string) // a new file's description outside `^[a-z-]+$`
    | LoadFailed(filename: string)            // `require` of the migration file threw
    | MigrationFailed(filename: string)       // the migration body threw
    | RecordRejected(filename: string)        // the tracking collection refused the record

  /** The text of the error thrown for each kind; the last two are the body's or the driver's own. */
  function Message(e: MigrationError): (m: string)
    ensures e.DuplicateVersion? ==>
      |m| > 29 && AllDigits(m[29..]) && Value(m[29..]) == e.version
  {
    match e
    case InvalidFilename(f) => "Invalid migration filename " + f
    case DuplicateVersion(v) =>
      ValueOfText(v);
      assert ("Duplicated migration version " + Text(v))[29..] == Text(v);
      "Duplicated migration version " + Text(v)
    case InvalidDescription(d) => "Invalid migration filename description " + d
    case LoadFailed(f) => "Cannot load migration " + f
    case MigrationFailed(f) => "Migration " + f + " failed"
    case RecordRejected(f) => "Record for " + f + " was rejected"
  }

  /** `s` matches `^(\d+)\.` with the digit group of length `k`. */
  ghost predicate VersionPrefix(s: string, k: int) {
    1 <= k < |s| && AllDigits(s[..k]) && s[k] == '.'
  }

  /** getVersionInMigrationFilename: the leading digit run before a `.`, read as a decimal number. */
  function ParseVersion(filename: string): (r: Result<nat, MigrationError>)
    ensures r.Failure? ==> r.error == InvalidFilename(filename)
  {
    var k := LeadingDigits(filename);
    if 1 <= k < |filename| && filename[k] == '.' then Success(Value(filename[..k]))
    else Failure(InvalidFilename(filename))
  }

  /**
    ParseVersion succeeds exactly on the names that match `^(\d+)\.`, and then returns the
    value of the matched digit group.
   */
  lemma ParseVersionMatchesPattern(filename: string)
    ensures ParseVersion(filename).Success? <==> exists k :: VersionPrefix(filename, k)
    ensures ParseVersion(filename).Success? ==>
      exists k :: VersionPrefix(filename, k) && ParseVersion(filename).value == Value(filename[..k])
  {
    var k := LeadingDigits(filename);
    if 1 <= k < |filename| && filename[k] == '.' {
      assert VersionPrefix(filename, k);
    } else {
      forall j | VersionPrefix(filename, j) ensures false {
        LeadingDigitsOf(filename, j);
      }
    }
  }

  /** A name followed by `.` and anything parses to the number the name's digits spell. */
  lemma ParseVersionOfText(v: nat, rest: string)
    ensures ParseVersion(Text(v) + "." + rest) == Success(v)
  {
    var s := Text(v) + "." + rest;
    var k := |Text(v)|;
    assert s[..k] == Text(v);
    LeadingDigitsOf(s, k);
    ValueOfText(v);
  }

  /** A parsed (version, filename) pair, as built by the first `map` of sortMigrationFilenamesByVersion. */
  datatype Entry = Entry(version: nat, filename: string)

  ghost predicate Parsed(e: Entry) {
    ParseVersion(e.filename) == Success(e.version)
  }

  /** Parses every name in listing order; the first name that does not parse aborts the whole listing. */
  function ParseEntries(names: seq<string>): (r: Result<seq<Entry>, MigrationError>)
    ensures r.Success? ==>
      |r.value| == |names| &&
      forall i | 0 <= i < |names| :: r.value[i].filename == names[i] && Parsed(r.value[i])
    ensures r.Failure? ==>
      exists i | 0 <= i < |names| ::
        ParseVersion(names[i]).Failure? && r.error == InvalidFilename(names[i]) &&
        forall k | 0 <= k < i :: ParseVersion(names[k]).Success?
  {
    if names == [] then Success([])
    else
      match ParseVersion(names[0])
      case Failure(e) => Failure(e)
      case Success(v) =>
        match ParseEntries(names[1..])
        case Failure(e) =>
          assert forall i | 1 <= i < |names| :: names[1..][i - 1] == names[i];
          Failure(e)
        case Success(rest) => Success([Entry(v, names[0])] + rest)
  }

  function Versions(es: seq<Entry>): (vs: seq<nat>)
    ensures |vs| == |es| && forall i | 0 <= i < |es| :: vs[i] == es[i].version
  {
    seq(|es|, i requires 0 <= i < |es| => es[i].version)
  }

  /** The final `map` of sortMigrationFilenamesByVersion: the filenames, in order. */
  function Filenames(es: seq<Entry>): (fs: seq<string>)
    ensures |fs| == |es| && forall i | 0 <= i < |es| :: fs[i] == es[i].filename
  {
    if es == [] then [] else [es[0].filename] + Filenames(es[1..])
  }

  /**
    The version the duplicate check throws for: scanning left to right with the set of
    versions already seen, the first one that is already in the set.
   */
  function FirstRepeatedAfter(vs: seq<nat>, seen: set<nat>): (r: Option<nat>) {
    if vs == [] then None
    else if vs[0] in seen then Some(vs[0])
    else FirstRepeatedAfter(vs[1..], seen + {vs[0]})
  }

  /** Position `j` holds the first version that repeats, scanning with `seen` already recorded. */
  ghost predicate IsFirstRepeat(vs: seq<nat>, seen: set<nat>, j: int) {
    0 <= j < |vs| && (vs[j] in seen || vs[j] in vs[..j]) &&
    Distinct(vs[..j]) && forall i | 0 <= i < j :: vs[i] !in seen
  }

  /** The scan finds nothing exactly when no version repeats and none was seen before. */
  lemma {:induction false} FirstRepeatedAfterNone(vs: seq<nat>, seen: set<nat>)
    ensures FirstRepeatedAfter(vs, seen).None? <==> Distinct(vs) && forall i | 0 <= i < |vs| :: vs[i] !in seen
  {
    if vs != [] && vs[0] !in seen {
      var t, seen' := vs[1..], seen + {vs[0]};
      FirstRepeatedAfterNone(t, seen');
      assert forall i | 1 <= i < |vs| :: vs[i] == t[i - 1];
      if Distinct(vs) && forall i | 0 <= i < |vs| :: vs[i] !in seen {
        assert Distinct(t) by {
          forall i, j | 0 <= i < j < |t| ensures t[i] != t[j] {
            assert vs[i + 1] != vs[j + 1];
          }
        }
        forall i | 0 <= i < |t| ensures t[i] !in seen' {
          assert vs[0] != vs[i + 1];
        }
      }
      if Distinct(t) && forall i | 0 <= i < |t| :: t[i] !in seen' {
        forall i, j | 0 <= i < j < |vs| ensures vs[i] != vs[j] {
          if i > 0 {
            assert t[i - 1] != t[j - 1];
          } else {
            assert t[j - 1] !in seen';
          }
        }
      }
    }
  }

  /** When the scan finds a version, it is the one at the first position that repeats. */
  lemma {:induction false} FirstRepeatedAfterSome(vs: seq<nat>, seen: set<nat>)
    requires FirstRepeatedAfter(vs, seen).Some?
    ensures exists j :: IsFirstRepeat(vs, seen, j) && vs[j] == FirstRepeatedAfter(vs, seen).value
  {
    if vs[0] in seen {
      assert vs[..0] == [];
      assert IsFirstRepeat(vs, seen, 0);
    } else {
      var t, seen' := vs[1..], seen + {vs[0]};
      FirstRepeatedAfterSome(t, seen');
      var j' :| IsFirstRepeat(t, seen', j') && t[j'] == FirstRepeatedAfter(t, seen').value;
      var j := j' + 1;
      assert vs[..j] == [vs[0]] + t[..j'];
      assert forall i | 0 <= i < j' :: t[..j'][i] == t[i];
      assert Distinct(vs[..j]) by {
        forall a, b | 0 <= a < b < j ensures vs[..j][a] != vs[..j][b] {
          if a == 0 {
            assert t[b - 1] !in seen';
          } else {
            assert t[..j'][a - 1] != t[..j'][b - 1];
          }
        }
      }
      assert IsFirstRepeat(vs, seen, j);
    }
  }

  function FirstRepeated(vs: seq<nat>): (r: Option<nat>) {
    FirstRepeatedAfter(vs, {})
  }

  /** The duplicate check of sortMigrationFilenamesByVersion: a loop over the versions with a growing set. */
  method FindRepeatedVersion(versions: seq<nat>) returns (dup: Option<nat>)
    ensures dup == FirstRepeated(versions)
  {
    var seen: set<nat> := {};
    var i := 0;
    while i < |versions|
      invariant 0 <= i <= |versions|
      invariant FirstRepeatedAfter(versions[i..], seen) == FirstRepeated(versions)
    {
      assert versions[i..][1..] == versions[i + 1..];
      if versions[i] in seen {
        return Some(versions[i]);
      }
      seen := seen + {versions[i]};
      i := i + 1;
    }
    return None;
  }

  /** Strictly ascending by version. */
  ghost predicate Ascending(es: seq<Entry>) {
    forall i, j | 0 <= i < j < |es| :: es[i].version < es[j].version
  }

  /** Inserts `e` in front of the first entry whose version is not smaller. */
  function Insert(e: Entry, s: seq<Entry>): (r: seq<Entry>)
    ensures multiset(r) == multiset(s) + multiset{e}
  {
    if s == [] || e.version <= s[0].version then [e] + s
    else
      assert s == [s[0]] + s[1..];
      [s[0]] + Insert(e, s[1..])
  }

  /** Inserting an entry with a fresh version into an ascending sequence keeps it ascending. */
  lemma {:induction false} InsertAscending(e: Entry, s: seq<Entry>)
    requires Ascending(s) && forall x | x in s :: x.version != e.version
    ensures Ascending(Insert(e, s))
    ensures Insert(e, s)[0] == e || Insert(e, s)[0] == s[0]
  {
    if s != [] && e.version > s[0].version {
      var t := Insert(e, s[1..]);
      InsertAscending(e, s[1..]);
      assert s[0].version < t[0].version by {
        if |s| > 1 { assert s[1..][0] == s[1]; }
      }
      assert Insert(e, s) == [s[0]] + t;
    }
  }

  /**
    The `sort` step: an insertion sort by version. With distinct versions any correct sort
    gives the same order, so this stands for Array.prototype.sort with `versionA - versionB`.
   */
  function SortEntries(es: seq<Entry>): (r: seq<Entry>)
    ensures multiset(r) == multiset(es)
  {
    if es == [] then []
    else
      assert es == [es[0]] + es[1..];
      Insert(es[0], SortEntries(es[1..]))
  }

  /** Entries with distinct versions come out strictly ascending. */
  lemma {:induction false} SortEntriesAscending(es: seq<Entry>)
    requires Distinct(Versions(es))
    ensures Ascending(SortEntries(es))
  {
    if es != [] {
      var rest := SortEntries(es[1..]);
      assert Distinct(Versions(es[1..])) by {
        assert forall i | 0 <= i < |es| - 1 :: Versions(es[1..])[i] == Versions(es)[i + 1];
      }
      SortEntriesAscending(es[1..]);
      SortEntriesMembers(es[1..]);
      forall x | x in rest ensures x.version != es[0].version {
        var i :| 0 <= i < |es| - 1 && es[1..][i] == x;
        assert Versions(es)[i + 1] == x.version;
      }
      InsertAscending(es[0], rest);
    }
  }

  /** Sorting introduces no entry. */
  lemma SortEntriesMembers(es: seq<Entry>)
    ensures forall x | x in SortEntries(es) :: x in es
  {
    var r := SortEntries(es);
    forall x | x in r ensures x in es {
      assert x in multiset(r);
    }
  }

  /**
    sortMigrationFilenamesByVersion (and loadSortedMigrationFiles on a given listing):
    parse every name, reject the first repeated version, return the names by ascending version.
   */
  function SortByVersion(names: seq<string>): (r: Result<seq<string>, MigrationError>) {
    match ParseEntries(names)
    case Failure(e) => Failure(e)
    case Success(es) =>
      match FirstRepeated(Versions(es))
      case Some(v) => Failure(DuplicateVersion(v))
      case None => Success(Filenames(SortEntries(es)))
  }

  /** The same pipeline as it runs: map, then the duplicate loop, then sort and map. */
  method SortMigrationFilenames(names: seq<string>) returns (r: Result<seq<string>, MigrationError>)
    ensures r == SortByVersion(names)
  {
    var parsed := ParseEntries(names);
    if parsed.Failure? {
      return Failure(parsed.error);
    }
    var dup := FindRepeatedVersion(Versions(parsed.value));
    if dup.Some? {
      return Failure(DuplicateVersion(dup.value));
    }
    return Success(Filenames(SortEntries(parsed.value)));
  }

  /** Invalid names win over duplicates: the first name that does not parse is what the listing fails with. */
  lemma SortByVersionRejectsInvalid(names: seq<string>)
    ensures (exists i | 0 <= i < |names| :: ParseVersion(names[i]).Failure?) ==>
      exists i | 0 <= i < |names| ::
        ParseVersion(names[i]).Failure? &&
        (forall k | 0 <= k < i :: ParseVersion(names[k]).Success?) &&
        SortByVersion(names) == Failure(InvalidFilename(names[i]))
    ensures (forall i | 0 <= i < |names| :: ParseVersion(names[i]).Success?) ==>
      SortByVersion(names).Success? || SortByVersion(names).error.DuplicateVersion?
  {
    var parsed := ParseEntries(names);
    if parsed.Success? {
      assert forall i | 0 <= i < |names| :: ParseVersion(names[i]).Success? by {
        forall i | 0 <= i < |names| ensures ParseVersion(names[i]).Success? {
          assert Parsed(parsed.value[i]);
        }
      }
    }
  }

  /** The versions of a listing whose every name parses, in listing order. */
  ghost function ListingVersions(names: seq<string>): (vs: seq<nat>)
    requires forall i | 0 <= i < |names| :: ParseVersion(names[i]).Success?
    ensures |vs| == |names| && forall i | 0 <= i < |names| :: ParseVersion(names[i]) == Success(vs[i])
  {
    seq(|names|, i requires 0 <= i < |names| => ParseVersion(names[i]).value)
  }

  /**
    When every name parses, the listing fails exactly when two names share a version, and
    it fails with the version at the first position whose version already occurred before it.
   */
  lemma SortByVersionRejectsDuplicates(names: seq<string>)
    requires forall i | 0 <= i < |names| :: ParseVersion(names[i]).Success?
    ensures SortByVersion(names).Failure? <==> !Distinct(ListingVersions(names))
    ensures SortByVersion(names).Failure? ==>
      var vs := ListingVersions(names);
      exists j | 0 <= j < |vs| ::
        SortByVersion(names) == Failure(DuplicateVersion(vs[j])) && vs[j] in vs[..j] && Distinct(vs[..j])
  {
    var parsed := ParseEntries(names);
    var vs := Versions(parsed.value);
    EntriesVersions(names);
    FirstRepeatedAfterNone(vs, {});
    if FirstRepeated(vs).Some? {
      FirstRepeatedAfterSome(vs, {});
    }
  }

  /** The versions of the parsed entries are the versions of the names. */
  lemma EntriesVersions(names: seq<string>)
    requires ParseEntries(names).Success?
    ensures forall i | 0 <= i < |names| :: ParseVersion(names[i]).Success?
    ensures Versions(ParseEntries(names).value) == ListingVersions(names)
  {
    var es := ParseEntries(names).value;
    forall i | 0 <= i < |names| ensures ParseVersion(names[i]) == Success(Versions(es)[i]) {
      assert Parsed(es[i]);
    }
  }

  /** On success the result is the listing reordered. */
  lemma SortByVersionPermutes(names: seq<string>)
    requires SortByVersion(names).Success?
    ensures |SortByVersion(names).value| == |names|
    ensures multiset(SortByVersion(names).value) == multiset(names)
  {
    var es := ParseEntries(names).value;
    assert Filenames(es) == names;
    SortFilenames(es);
    assert |SortByVersion(names).value| == |multiset(names)|;
  }

  /** On success every name of the result parses, and the versions strictly ascend. */
  lemma SortByVersionAscends(names: seq<string>)
    requires SortByVersion(names).Success?
    ensures var r := SortByVersion(names).value;
      (forall i | 0 <= i < |r| :: ParseVersion(r[i]).Success?) &&
      forall i, j | 0 <= i < j < |r| :: ParseVersion(r[i]).value < ParseVersion(r[j]).value
  {
    var es := ParseEntries(names).value;
    var sorted := SortEntries(es);
    var r := SortByVersion(names).value;
    assert r == Filenames(sorted);
    FirstRepeatedAfterNone(Versions(es), {});
    SortEntriesAscending(es);
    SortKeepsParsed(es);
    forall i | 0 <= i < |r| ensures ParseVersion(r[i]) == Success(sorted[i].version) {
      assert Parsed(sorted[i]);
    }
  }

  lemma SortKeepsParsed(es: seq<Entry>)
    requires forall i | 0 <= i < |es| :: Parsed(es[i])
    ensures forall i | 0 <= i < |SortEntries(es)| :: Parsed(SortEntries(es)[i])
  {
    var sorted := SortEntries(es);
    forall i | 0 <= i < |sorted| ensures Parsed(sorted[i]) {
      assert sorted[i] in multiset(es);
    }
  }

  /** The whole success case: a reordering of the listing, strictly ascending by version. */
  lemma SortByVersionOrders(names: seq<string>)
    requires SortByVersion(names).Success?
    ensures |SortByVersion(names).value| == |names|
    ensures multiset(SortByVersion(names).value) == multiset(names)
    ensures forall i | 0 <= i < |names| :: ParseVersion(SortByVersion(names).value[i]).Success?
    ensures forall i, j | 0 <= i < j < |names| ::
      ParseVersion(SortByVersion(names).value[i]).value < ParseVersion(SortByVersion(names).value[j]).value
  {
    SortByVersionPermutes(names);
    SortByVersionAscends(names);
  }

  lemma {:induction false} InsertFilenames(e: Entry, s: seq<Entry>)
    ensures multiset(Filenames(Insert(e, s))) == multiset(Filenames(s)) + multiset{e.filename}
  {
    if s != [] && e.version > s[0].version {
      InsertFilenames(e, s[1..]);
    }
  }

  /** Sorting entries reorders their filenames the same way. */
  lemma {:induction false} SortFilenames(es: seq<Entry>)
    ensures multiset(Filenames(SortEntries(es))) == multiset(Filenames(es))
  {
    if es != [] {
      SortFilenames(es[1..]);
      InsertFilenames(es[0], SortEntries(es[1..]));
    }
  }

  /** `^[a-z-]+$`: the description a new migration file may carry. */
  predicate IsValidDescription(d: string) {
    |d| > 0 && forall i | 0 <= i < |d| :: 'a' <= d[i] <= 'z' || d[i] == '-'
  }

  /**
    `f` is `^\d+\.[a-z-]+\.js` through its last character. Neither `\d` nor `[a-z-]` matches a
    dot, so the digits are the leading run and the description runs up to `.js`.
   */
  predicate MatchesTrackingPatternToEnd(f: string) {
    var k := LeadingDigits(f);
    1 <= k && k + 5 <= |f| && f[k] == '.' &&
    IsValidDescription(f[k + 1..|f| - 3]) && f[|f| - 3..] == ".js"
  }

  /**
    The tracking schema's filename pattern `^\d+\.[a-z-]+\.js$` as the server's PCRE engine
    reads it: `$` matches at the end and also before a newline that ends the name.
   */
  predicate MatchesTrackingPattern(f: string) {
    MatchesTrackingPatternToEnd(f) ||
    (|f| >= 1 && f[|f| - 1] == '\n' && MatchesTrackingPatternToEnd(f[..|f| - 1]))
  }

  /** A matching name followed by a newline still passes the server's check, though `.js` no longer ends it. */
  lemma TrackingPatternFinalNewline(f: string)
    requires MatchesTrackingPatternToEnd(f)
    ensures MatchesTrackingPattern(f + "\n") && !MatchesTrackingPatternToEnd(f + "\n")
  {
    var g := f + "\n";
    assert g[..|g| - 1] == f;
    assert g[|g| - 1] == '\n';
  }

  /** The body every generated migration file starts with. */
  const Template: string := "module.exports = async (manager, session) => {};\n"

  /** A file the generator would write: its name in the migration directory and its content. */
  datatype NewFile = NewFile(filename: string, content: string)

  /** The name `${version}.${description}.js` of a generated migration file. */
  function NewFilename(version: nat, description: string): (f: string) {
    Text(version) + "." + description + ".js"
  }

  /** A generated name parses back to its version and satisfies the tracking schema's pattern. */
  lemma NewFilenameParses(version: nat, description: string)
    requires IsValidDescription(description)
    ensures ParseVersion(NewFilename(version, description)) == Success(version)
    ensures MatchesTrackingPattern(NewFilename(version, description))
  {
    var f := NewFilename(version, description);
    var k := |Text(version)|;
    assert f == Text(version) + "." + (description + ".js");
    ParseVersionOfText(version, description + ".js");
    assert f[..k] == Text(version);
    LeadingDigitsOf(f, k);
    assert f[k + 1..|f| - 3] == description;
  }

  /** The version of the last name of a sorted listing, or 0 for an empty listing. */
  function LatestVersion(sorted: seq<string>): (v: nat) {
    if sorted == [] then 0
    else match ParseVersion(sorted[|sorted| - 1])
      case Success(v) => v
      case Failure(_) => 0
  }

  /** createNewMigrationFile: check the description, validate the listing, name the file after the last version. */
  function NewMigrationFile(listing: seq<string>, description: string): (r: Result<NewFile, MigrationError>)
    ensures !IsValidDescription(description) ==> r == Failure(InvalidDescription(description))
    ensures IsValidDescription(description) && SortByVersion(listing).Failure? ==>
      r == Failure(SortByVersion(listing).error)
    ensures r.Success? <==> IsValidDescription(description) && SortByVersion(listing).Success?
    ensures r.Success? ==> r.value.content == Template && MatchesTrackingPattern(r.value.filename)
    ensures r.Success? ==>
      var f := r.value.filename;
      ParseVersion(f).Success? && ParseVersion(f).value >= 1 &&
      f == Text(ParseVersion(f).value) + "." + description + ".js"
  {
    if !IsValidDescription(description) then Failure(InvalidDescription(description))
    else
      match SortByVersion(listing)
      case Failure(e) => Failure(e)
      case Success(sorted) =>
        var version := LatestVersion(sorted) + 1;
        NewFilenameParses(version, description);
        Success(NewFile(NewFilename(version, description), Template))
  }

  /** The first file of an empty directory is version 1: `1.<description>.js`. */
  lemma NewMigrationFileFirst(description: string)
    requires IsValidDescription(description)
    ensures NewMigrationFile([], description) == Success(NewFile("1." + description + ".js", Template))
  {
    assert SortByVersion([]) == Success([]);
    assert LatestVersion([]) == 0;
    assert Text(1) + "." == "1.";
    assert NewFilename(1, description) == "1." + description + ".js";
  }

  /** After a directory holding one name of version `v` comes `<v + 1>.<description>.js`. */
  lemma NewMigrationFileAfter(f: string, v: nat, description: string)
    requires ParseVersion(f) == Success(v) && IsValidDescription(description)
    ensures NewMigrationFile([f], description) ==
      Success(NewFile(Text(v + 1) + "." + description + ".js", Template))
  {
    SortsSingle(f);
    assert LatestVersion([f]) == v;
  }

  /** A directory holding one valid name sorts to itself. */
  lemma SortsSingle(f: string)
    requires ParseVersion(f).Success?
    ensures SortByVersion([f]) == Success([f])
  {
    assert Distinct(ListingVersions([f]));
    SortByVersionRejectsDuplicates([f]);
    SortByVersionPermutes([f]);
    var sorted := SortByVersion([f]).value;
    assert sorted[0] in multiset([f]);
    assert sorted == [sorted[0]];
  }

  /**
    The new file's version is one more than the largest listed version (so 1 for an empty
    listing), hence larger than every listed version.
   */
  lemma NewFileVersion(listing: seq<string>, description: string)
    requires NewMigrationFile(listing, description).Success?
    ensures var v := ParseVersion(NewMigrationFile(listing, description).value.filename).value;
      (listing == [] ==> v == 1) &&
      (forall i | 0 <= i < |listing| :: ParseVersion(listing[i]).Success? && ParseVersion(listing[i]).value < v) &&
      (listing != [] ==> exists i | 0 <= i < |listing| :: ParseVersion(listing[i]).value + 1 == v)
  {
    var sorted := SortByVersion(listing).value;
    var version := LatestVersion(sorted) + 1;
    var f := NewFilename(version, description);
    assert NewMigrationFile(listing, description) == Success(NewFile(f, Template));
    NewFilenameParses(version, description);
    LatestIsLargest(listing, sorted);
  }

  /** The latest version of a sorted listing is the largest listed version, and 0 for an empty listing. */
  lemma LatestIsLargest(listing: seq<string>, sorted: seq<string>)
    requires SortByVersion(listing) == Success(sorted)
    ensures listing == [] ==> LatestVersion(sorted) == 0
    ensures forall i | 0 <= i < |listing| ::
      ParseVersion(listing[i]).Success? && ParseVersion(listing[i]).value <= LatestVersion(sorted)
    ensures listing != [] ==> exists i | 0 <= i < |listing| :: ParseVersion(listing[i]).value == LatestVersion(sorted)
  {
    SortByVersionPermutes(listing);
    if listing != [] {
      LastIsLargest(listing, sorted);
      LastIsListed(listing, sorted);
      var i :| 0 <= i < |listing| && listing[i] == sorted[|sorted| - 1];
      assert ParseVersion(listing[i]).value == LatestVersion(sorted);
    }
  }

  /** The last name of a sorted non-empty listing carries the largest version of the listing. */
  lemma LastIsLargest(listing: seq<string>, sorted: seq<string>)
    requires SortByVersion(listing) == Success(sorted) && listing != []
    ensures |sorted| == |listing| && ParseVersion(sorted[|sorted| - 1]).Success?
    ensures forall i | 0 <= i < |listing| ::
      ParseVersion(listing[i]).Success? &&
      ParseVersion(listing[i]).value <= ParseVersion(sorted[|sorted| - 1]).value
  {
    SortByVersionPermutes(listing);
    SortByVersionAscends(listing);
    var n := |sorted| - 1;
    forall i | 0 <= i < |listing|
      ensures ParseVersion(listing[i]).Success? && ParseVersion(listing[i]).value <= ParseVersion(sorted[n]).value
    {
      assert listing[i] in multiset(sorted);
      var j :| 0 <= j < |sorted| && sorted[j] == listing[i];
      if j < n {
        assert ParseVersion(sorted[j]).value < ParseVersion(sorted[n]).value;
      }
    }
  }

  /** The last name of a sorted non-empty listing is one of the listed names. */
  lemma LastIsListed(listing: seq<string>, sorted: seq<string>)
    requires SortByVersion(listing) == Success(sorted) && listing != []
    ensures |sorted| == |listing| && sorted[|sorted| - 1] in listing
  {
    SortByVersionPermutes(listing);
    assert sorted[|sorted| - 1] in multiset(listing);
  }

  /** Adding the new file to the listing keeps it valid, and the new file sorts after every other. */
  lemma NewFileSortsLast(listing: seq<string>, description: string)
    requires NewMigrationFile(listing, description).Success?
    ensures var f := NewMigrationFile(listing, description).value.filename;
      f !in listing && SortByVersion(listing + [f]).Success? &&
      var sorted := SortByVersion(listing + [f]).value;
      |sorted| == |listing| + 1 && sorted[|listing|] == f
  {
    var f := NewMigrationFile(listing, description).value.filename;
    NewFileVersion(listing, description);
    NewFileSortable(listing, f);
    LargestSortsLast(listing, f);
  }

  /** A valid listing extended by a name whose version exceeds every listed one stays valid. */
  lemma NewFileSortable(listing: seq<string>, f: string)
    requires SortByVersion(listing).Success? && ParseVersion(f).Success?
    requires forall i | 0 <= i < |listing| ::
      ParseVersion(listing[i]).Success? && ParseVersion(listing[i]).value < ParseVersion(f).value
    ensures f !in listing && SortByVersion(listing + [f]).Success?
  {
    var ext := listing + [f];
    assert forall i | 0 <= i < |ext| :: ParseVersion(ext[i]).Success? by {
      forall i | 0 <= i < |ext| ensures ParseVersion(ext[i]).Success? {
        if i < |listing| { assert ext[i] == listing[i]; }
      }
    }
    SortByVersionRejectsDuplicates(listing);
    ListingVersionsAppend(listing, f);
    DistinctAppend(ListingVersions(listing), ParseVersion(f).value);
    SortByVersionRejectsDuplicates(ext);
  }

  /** The versions of an extended listing are the listing's versions followed by the new name's. */
  lemma ListingVersionsAppend(listing: seq<string>, f: string)
    requires forall i | 0 <= i < |listing| :: ParseVersion(listing[i]).Success?
    requires ParseVersion(f).Success?
    ensures forall i | 0 <= i < |listing + [f]| :: ParseVersion((listing + [f])[i]).Success?
    ensures ListingVersions(listing + [f]) == ListingVersions(listing) + [ParseVersion(f).value]
  {
    var ext := listing + [f];
    assert forall i | 0 <= i < |listing| :: ext[i] == listing[i];
  }

  /** Appending a value larger than all others keeps a sequence free of repeats. */
  lemma DistinctAppend(vs: seq<nat>, v: nat)
    requires Distinct(vs) && forall i | 0 <= i < |vs| :: vs[i] < v
    ensures Distinct(vs + [v])
  {
    var ws := vs + [v];
    assert forall i | 0 <= i < |vs| :: ws[i] == vs[i];
  }

  /** In a valid listing whose last name has the largest version, that name also sorts last. */
  lemma LargestSortsLast(listing: seq<string>, f: string)
    requires SortByVersion(listing + [f]).Success? && ParseVersion(f).Success?
    requires forall i | 0 <= i < |listing| ::
      ParseVersion(listing[i]).Success? && ParseVersion(listing[i]).value < ParseVersion(f).value
    ensures var sorted := SortByVersion(listing + [f]).value;
      |sorted| == |listing| + 1 && sorted[|listing|] == f
  {
    var ext := listing + [f];
    var sorted := SortByVersion(ext).value;
    SortByVersionPermutes(ext);
    SortByVersionAscends(ext);
    MembersAtMostNew(listing, f, sorted);
    assert f in multiset(sorted);
    var j :| 0 <= j < |sorted| && sorted[j] == f;
    assert ParseVersion(sorted[j]).value <= ParseVersion(sorted[|listing|]).value;
    assert j == |listing|;
  }

  /** Every name of a rearrangement of the extended listing has a version no larger than the new one. */
  lemma MembersAtMostNew(listing: seq<string>, f: string, sorted: seq<string>)
    requires ParseVersion(f).Success?
    requires forall i | 0 <= i < |listing| ::
      ParseVersion(listing[i]).Success? && ParseVersion(listing[i]).value < ParseVersion(f).value
    requires multiset(sorted) == multiset(listing + [f])
    ensures forall k | 0 <= k < |sorted| ::
      ParseVersion(sorted[k]).Success? && ParseVersion(sorted[k]).value <= ParseVersion(f).value
  {
    var ext := listing + [f];
    forall k | 0 <= k < |sorted|
      ensures ParseVersion(sorted[k]).Success? && ParseVersion(sorted[k]).value <= ParseVersion(f).value
    {
      assert sorted[k] in multiset(ext);
      var m :| 0 <= m < |ext| && ext[m] == sorted[k];
      if m < |listing| { assert ext[m] == listing[m]; }
    }
  }
}
