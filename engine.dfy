/**
  What one `migrate()` run of lib/mongo-migrator.js does to the tracking collection and to the
  database, as pure functions over a store value, and what `status()` reports. The class in
  migrator.dfy carries out the same steps on its fields and is proved equal to these functions.
 */
module Engine {
  import opened Results
  import opened Decimal
  import opened Registry
  import opened Sequences

  /** A document of the tracking collection: `{ version, filename, appliedTime }`. */
  datatype Record = Record(version: nat, filename: string, appliedTime: nat)

  /**
    What a run reads and changes: the tracking collection keyed by filename (it has a unique
    `filename` index), whether its indexes and validator are installed, the rest of the
    database, and the clock that `new Date()` reads, as a counter.
   */
  datatype Store<D> = Store(records: map<string, Record>, prepared: bool, db: D, clock: nat)

  /** The store after a run, the lines it printed and the error it threw, if any. */
  datatype Outcome<D> = Outcome(store: Store<D>, log: seq<string>, failure: Option<MigrationError>)

  /**
    The migration files as code: whether `require(file)` returns a function, and what calling
    that function with `(manager, session)` does to the database, or None when it throws.
   */
  datatype Bodies<!D> = Bodies(loads: string -> bool, run: (string, D) -> Option<D>)

  /** Requiring file `f` and then running its function: None when either throws. */
  function Execute<D>(bodies: Bodies<D>, f: string, db: D): (r: Option<D>)
    ensures !bodies.loads(f) ==> r.None?
  {
    if bodies.loads(f) then bodies.run(f, db) else None
  }

  /** The largest number the BSON encoder stores as `int`; larger ones become `double`. */
  const MaxInt32: nat := 0x7FFF_FFFF

  const NoFiles: string := "There are no migration files"

  /** The line printed for a file that already has a record. */
  function AlreadyApplied(t: nat): (line: string) {
    "  already applied at " + Text(t)
  }

  /**
    The tracking collection accepts the record: the validator's filename pattern and int/long
    type for the version hold, and the unique `version` index has no clash.
   */
  predicate Insertable(r: Record, records: map<string, Record>) {
    MatchesTrackingPattern(r.filename) && r.version <= MaxInt32 &&
    forall g | g in records :: records[g].version != r.version
  }

  /**
    The collection would accept the record of file `f`, whatever time it is stamped with: `f`
    has a version, and `Insertable` holds of its record.
   */
  predicate Saveable(f: string, records: map<string, Record>) {
    ParseVersion(f).Success? && MatchesTrackingPattern(f) && ParseVersion(f).value <= MaxInt32 &&
    forall g | g in records :: records[g].version != ParseVersion(f).value
  }

  /** $applyMigrationFile: skip a recorded file, otherwise run its body and save its record. */
  function ApplyFile<D>(f: string, s: Store<D>, bodies: Bodies<D>): (o: Outcome<D>) {
    match ParseVersion(f)
    case Failure(e) => Outcome(s, [], Some(e))
    case Success(v) =>
      if f in s.records then Outcome(s, [f, AlreadyApplied(s.records[f].appliedTime)], None)
      else
        var reading := [f, "  is being read ..."];
        if !bodies.loads(f) then Outcome(s, reading, Some(LoadFailed(f)))
        else
          var started := reading + ["    done", "  is being applied ..."];
          match bodies.run(f, s.db)
          case None => Outcome(s, started, Some(MigrationFailed(f)))
          case Some(db) =>
            var saving := started + ["    done", "  is being saved ..."];
            var r := Record(v, f, s.clock);
            if Insertable(r, s.records) then
              Outcome(Store(s.records[f := r], s.prepared, db, s.clock + 1), saving + ["    done"], None)
            else Outcome(s.(db := db), saving, Some(RecordRejected(f)))
  }

  /** The loop inside the transaction: files in order, stopping at the first that throws. */
  function ApplyAll<D>(files: seq<string>, s: Store<D>, bodies: Bodies<D>): (o: Outcome<D>) {
    if files == [] then Outcome(s, [], None)
    else
      var o := ApplyFile(files[0], s, bodies);
      if o.failure.Some? then o
      else
        var rest := ApplyAll(files[1..], o.store, bodies);
        Outcome(rest.store, o.log + rest.log, rest.failure)
  }

  /**
    migrate(): sort the listing (its errors are thrown before anything happens), install the
    indexes and the validator, then apply every file in one transaction. When the transaction
    throws it is aborted: records and database are as before, the installed indexes stay.
   */
  function Run<D>(listing: seq<string>, s: Store<D>, bodies: Bodies<D>): (o: Outcome<D>) {
    match SortByVersion(listing)
    case Failure(e) => Outcome(s, [], Some(e))
    case Success(sorted) => Transaction(sorted, s, bodies)
  }

  /**
    The part of migrate() after the listing is sorted: prepare the collection, then apply the
    files in one transaction, which on an error leaves the records and the database as they were.
   */
  function Transaction<D>(sorted: seq<string>, s: Store<D>, bodies: Bodies<D>): (o: Outcome<D>) {
    var p := s.(prepared := true);
    if sorted == [] then Outcome(p, [NoFiles], None)
    else
      var o := ApplyAll(sorted, p, bodies);
      if o.failure.None? then o
      else Outcome(o.store.(records := s.records, db := s.db), o.log, o.failure)
  }

  /** $printMigrationFileStatus. */
  function StatusLine(f: string, records: map<string, Record>): (line: string) {
    if f in records then f + ": applied at " + Text(records[f].appliedTime) else f + ": -"
  }

  /** status(): one line per file in version order, or the no-files line. */
  function StatusReport(listing: seq<string>, records: map<string, Record>): (r: Result<seq<string>, MigrationError>) {
    match SortByVersion(listing)
    case Failure(e) => Failure(e)
    case Success(sorted) =>
      if sorted == [] then Success([NoFiles]) else Success(StatusLines(sorted, records))
  }

  /** One status line per file, in order. */
  function StatusLines(files: seq<string>, records: map<string, Record>): (lines: seq<string>)
    ensures |lines| == |files|
  {
    seq(|files|, i requires 0 <= i < |files| => StatusLine(files[i], records))
  }

  // ---------------------------------------------------------------------------------------
  // Invariant of the tracking collection

  /** A record as migrate() writes it, under key `f`, before the clock reads `clock`. */
  ghost predicate Tracks(f: string, r: Record, clock: nat) {
    r.filename == f && ParseVersion(f) == Success(r.version) && MatchesTrackingPattern(f) &&
    r.version <= MaxInt32 && r.appliedTime < clock
  }

  /** Every record is well formed and no two records share a version. */
  ghost predicate Tracked<D>(s: Store<D>) {
    (forall f | f in s.records :: Tracks(f, s.records[f], s.clock)) &&
    forall f, g | f in s.records && g in s.records && f != g :: s.records[f].version != s.records[g].version
  }

  // ---------------------------------------------------------------------------------------
  // Facts about one sorted listing

  /** A sorted listing holds the listed names, each once, each with a version. */
  lemma SortedListing(listing: seq<string>)
    requires SortByVersion(listing).Success?
    ensures var sorted := SortByVersion(listing).value;
      Distinct(sorted) &&
      (forall i | 0 <= i < |sorted| :: ParseVersion(sorted[i]).Success?) &&
      forall f :: f in sorted <==> f in listing
  {
    var sorted := SortByVersion(listing).value;
    SortByVersionPermutes(listing);
    SortByVersionAscends(listing);
    forall f ensures f in sorted <==> f in listing {
      assert f in sorted <==> f in multiset(sorted);
    }
  }

  // ---------------------------------------------------------------------------------------
  // ApplyAll

  /** ApplyAll never removes or changes a record, nor touches `prepared`, and the clock only advances. */
  lemma {:induction false} ApplyAllKeeps<D>(files: seq<string>, s: Store<D>, bodies: Bodies<D>)
    ensures var o := ApplyAll(files, s, bodies);
      o.store.prepared == s.prepared && s.clock <= o.store.clock &&
      forall g | g in s.records :: g in o.store.records && o.store.records[g] == s.records[g]
  {
    if files != [] {
      var o := ApplyFile(files[0], s, bodies);
      if o.failure.None? {
        ApplyAllKeeps(files[1..], o.store, bodies);
      }
    }
  }

  /** One file's step keeps the invariant and adds at most that file, stamped with the current clock. */
  lemma ApplyFileAdds<D>(f: string, s: Store<D>, bodies: Bodies<D>)
    requires Tracked(s)
    ensures var o := ApplyFile(f, s, bodies);
      Tracked(o.store) && s.clock <= o.store.clock &&
      forall g | g in o.store.records && g !in s.records :: g == f && s.clock <= o.store.records[g].appliedTime
  {
    match ParseVersion(f)
    case Failure(_) =>
    case Success(v) =>
      if f !in s.records && bodies.loads(f) {
        match bodies.run(f, s.db)
        case None =>
        case Some(db) =>
          var r := Record(v, f, s.clock);
          if Insertable(r, s.records) {
            var t := Store(s.records[f := r], s.prepared, db, s.clock + 1);
            assert ApplyFile(f, s, bodies).store == t;
            InsertKeepsTracked(s, t, f, r);
          }
      }
  }

  /**
    The lines printed for a file without a record: its name and the reading line, then, only if
    `require` succeeds, the loaded and applying lines; a failing `require` is thrown as such.
   */
  lemma ApplyFileLines<D>(f: string, s: Store<D>, bodies: Bodies<D>)
    requires ParseVersion(f).Success? && f !in s.records
    ensures var o := ApplyFile(f, s, bodies);
      |o.log| >= 2 && o.log[..2] == [f, "  is being read ..."] &&
      (o.failure == Some(LoadFailed(f)) <==> !bodies.loads(f)) &&
      (!bodies.loads(f) ==> o.log == [f, "  is being read ..."] && o.store == s) &&
      (bodies.loads(f) ==> |o.log| >= 4 && o.log[2..4] == ["    done", "  is being applied ..."])
  {
  }

  /**
    A file without a record completes exactly when its `require` and its body succeed and the
    collection accepts its record; then the record, stamped with the clock, and the body's
    database are saved, and the clock advances.
   */
  lemma ApplyFileSaves<D>(f: string, s: Store<D>, bodies: Bodies<D>)
    requires ParseVersion(f).Success? && f !in s.records
    ensures var o := ApplyFile(f, s, bodies);
      o.failure.None? <==> Execute(bodies, f, s.db).Some? && Saveable(f, s.records)
    ensures var o := ApplyFile(f, s, bodies);
      var r := Record(ParseVersion(f).value, f, s.clock);
      o.failure.None? ==>
        o.store == Store(s.records[f := r], s.prepared, Execute(bodies, f, s.db).value, s.clock + 1)
  {
  }

  /** Saving an insertable record for a parsed file at the current clock reading keeps the invariant. */
  lemma InsertKeepsTracked<D>(s: Store<D>, t: Store<D>, f: string, r: Record)
    requires Tracked(s) && Insertable(r, s.records) && f !in s.records
    requires ParseVersion(f).Success? && r == Record(ParseVersion(f).value, f, s.clock)
    requires t.records == s.records[f := r] && t.clock == s.clock + 1
    ensures Tracked(t)
  {
    assert Tracks(f, r, t.clock);
  }

  /**
    Every record ApplyAll adds belongs to one of the files and was written at a clock reading
    taken during the run; the invariant is kept.
   */
  lemma {:induction false} ApplyAllAdds<D>(files: seq<string>, s: Store<D>, bodies: Bodies<D>)
    requires Tracked(s)
    ensures var o := ApplyAll(files, s, bodies);
      Tracked(o.store) &&
      forall g | g in o.store.records && g !in s.records ::
        g in files && s.clock <= o.store.records[g].appliedTime
  {
    if files != [] {
      var o := ApplyFile(files[0], s, bodies);
      ApplyFileAdds(files[0], s, bodies);
      if o.failure.None? {
        ApplyAllAdds(files[1..], o.store, bodies);
        ApplyAllKeeps(files[1..], o.store, bodies);
      }
    }
  }

  /** When ApplyAll completes, every file has a record. */
  lemma {:induction false} ApplyAllRecordsAll<D>(files: seq<string>, s: Store<D>, bodies: Bodies<D>)
    requires ApplyAll(files, s, bodies).failure.None?
    ensures forall f | f in files :: f in ApplyAll(files, s, bodies).store.records
  {
    if files != [] {
      var o := ApplyFile(files[0], s, bodies);
      ApplyAllRecordsAll(files[1..], o.store, bodies);
      ApplyAllKeeps(files[1..], o.store, bodies);
    }
  }

  /** Of two files that both get a new record, the earlier one in the sequence gets the earlier time. */
  lemma {:induction false} ApplyAllTimes<D>(files: seq<string>, s: Store<D>, bodies: Bodies<D>)
    requires Distinct(files)
    ensures var o := ApplyAll(files, s, bodies);
      forall i, j | 0 <= i < j < |files| && files[i] !in s.records && files[j] !in s.records &&
        files[i] in o.store.records && files[j] in o.store.records ::
        o.store.records[files[i]].appliedTime < o.store.records[files[j]].appliedTime
  {
    if files != [] {
      var o1 := ApplyFile(files[0], s, bodies);
      if o1.failure.None? {
        var tail := files[1..];
        assert Distinct(tail);
        ApplyAllTimes(tail, o1.store, bodies);
        ApplyAllKeeps(tail, o1.store, bodies);
        var o := ApplyAll(files, s, bodies);
        forall i, j | 0 <= i < j < |files| && files[i] !in s.records && files[j] !in s.records &&
          files[i] in o.store.records && files[j] in o.store.records
          ensures o.store.records[files[i]].appliedTime < o.store.records[files[j]].appliedTime
        {
          if i == 0 {
            assert files[j] == tail[j - 1];
            ApplyAllFresh(tail, o1.store, bodies, files[j]);
          } else {
            assert files[i] == tail[i - 1] && files[j] == tail[j - 1];
            assert files[i] != files[0] && files[j] != files[0];
          }
        }
      }
    }
  }

  /** A record ApplyAll adds is stamped no earlier than the clock it started with. */
  lemma {:induction false} ApplyAllFresh<D>(files: seq<string>, s: Store<D>, bodies: Bodies<D>, g: string)
    requires g !in s.records && g in ApplyAll(files, s, bodies).store.records
    ensures s.clock <= ApplyAll(files, s, bodies).store.records[g].appliedTime
  {
    if files != [] {
      var o := ApplyFile(files[0], s, bodies);
      if o.failure.None? {
        ApplyAllKeeps(files[1..], o.store, bodies);
        if g !in o.store.records {
          ApplyAllFresh(files[1..], o.store, bodies, g);
        }
      }
    }
  }

  /** The files of `files` that have no record yet, in order. */
  function Pending(files: seq<string>, records: map<string, Record>): (r: seq<string>)
    ensures forall f :: f in r <==> f in files && f !in records
  {
    if files == [] then []
    else (if files[0] in records then [] else [files[0]]) + Pending(files[1..], records)
  }

  /** Of a single file, Pending keeps it iff it has no record. */
  lemma PendingSingle(f: string, records: map<string, Record>)
    ensures Pending([f], records) == if f in records then [] else [f]
  {
    assert [f][1..] == [];
  }

  /**
    The pending files of two listings joined are theirs joined; with PendingSingle, Pending is
    the filter that keeps the order of `files`.
   */
  lemma {:induction false} PendingAppend(a: seq<string>, b: seq<string>, records: map<string, Record>)
    ensures Pending(a + b, records) == Pending(a, records) + Pending(b, records)
  {
    if a == [] {
      assert a + b == b;
    } else {
      assert (a + b)[0] == a[0] && (a + b)[1..] == a[1..] + b;
      PendingAppend(a[1..], b, records);
    }
  }

  /** The files of `files` required and run one after the other, failing as soon as one throws. */
  function ApplyBodies<D>(files: seq<string>, db: D, bodies: Bodies<D>): (r: Option<D>) {
    if files == [] then Some(db)
    else
      match Execute(bodies, files[0], db)
      case None => None
      case Some(db') => ApplyBodies(files[1..], db', bodies)
  }

  /** Recording a file outside `files` does not change which of them are pending. */
  lemma {:induction false} PendingIgnores(files: seq<string>, records: map<string, Record>, f: string, r: Record)
    requires f !in files
    ensures Pending(files, records[f := r]) == Pending(files, records)
  {
    if files != [] {
      PendingIgnores(files[1..], records, f, r);
    }
  }

  /** A completed ApplyAll leaves the database as the pending bodies run in order would. */
  lemma {:induction false} ApplyAllDatabase<D>(files: seq<string>, s: Store<D>, bodies: Bodies<D>)
    requires Distinct(files) && ApplyAll(files, s, bodies).failure.None?
    ensures ApplyBodies(Pending(files, s.records), s.db, bodies) == Some(ApplyAll(files, s, bodies).store.db)
  {
    if files != [] {
      var f := files[0];
      var tail := files[1..];
      assert Distinct(tail);
      var o := ApplyFile(f, s, bodies);
      assert o.failure.None?;
      assert ApplyAll(files, s, bodies).store == ApplyAll(tail, o.store, bodies).store;
      ApplyAllDatabase(tail, o.store, bodies);
      if f in s.records {
        assert Pending(files, s.records) == Pending(tail, s.records);
      } else {
        assert f !in tail by {
          forall k | 0 <= k < |tail| ensures tail[k] != f {
            assert tail[k] == files[k + 1];
          }
        }
        PendingIgnores(tail, s.records, f, o.store.records[f]);
        var pending := Pending(files, s.records);
        assert pending == [f] + Pending(tail, s.records);
        assert pending[0] == f && pending[1..] == Pending(tail, s.records);
        assert Execute(bodies, f, s.db) == Some(o.store.db);
      }
    }
  }

  /** ApplyAll over files that all have a record changes nothing and prints only skip lines. */
  lemma {:induction false} ApplyAllRecorded<D>(files: seq<string>, s: Store<D>, bodies: Bodies<D>)
    requires forall i | 0 <= i < |files| :: ParseVersion(files[i]).Success? && files[i] in s.records
    ensures var o := ApplyAll(files, s, bodies);
      o.store == s && o.failure.None? && |o.log| == 2 * |files| &&
      forall i | 0 <= i < |files| ::
        o.log[2 * i] == files[i] && o.log[2 * i + 1] == AlreadyApplied(s.records[files[i]].appliedTime)
  {
    if files != [] {
      ApplyAllRecorded(files[1..], s, bodies);
      var rest := ApplyAll(files[1..], s, bodies);
      var o := ApplyAll(files, s, bodies);
      forall i | 0 <= i < |files|
        ensures o.log[2 * i] == files[i] && o.log[2 * i + 1] == AlreadyApplied(s.records[files[i]].appliedTime)
      {
        if i > 0 {
          assert o.log[2 * i] == rest.log[2 * (i - 1)];
          assert files[i] == files[1..][i - 1];
        }
      }
    }
  }

  /**
    ApplyAll over files with distinct versions completes when every file without a record would
    be accepted by the collection and the bodies of those files run one after the other.
   */
  lemma {:induction false} ApplyAllCompletes<D>(files: seq<string>, s: Store<D>, bodies: Bodies<D>)
    requires forall i | 0 <= i < |files| :: ParseVersion(files[i]).Success?
    requires forall i, j | 0 <= i < j < |files| :: ParseVersion(files[i]).value != ParseVersion(files[j]).value
    requires forall f | f in files && f !in s.records :: Saveable(f, s.records)
    requires ApplyBodies(Pending(files, s.records), s.db, bodies).Some?
    ensures ApplyAll(files, s, bodies).failure.None?
  {
    if files != [] {
      var f, tail := files[0], files[1..];
      TailVersions(files);
      var o := ApplyFile(f, s, bodies);
      if f in s.records {
        assert Pending(files, s.records) == Pending(tail, s.records);
        ApplyAllCompletes(tail, s, bodies);
      } else {
        var r := Record(ParseVersion(f).value, f, s.clock);
        PendingStep(files, s.records, s.db, bodies);
        ApplyFileSaves(f, s, bodies);
        PendingIgnores(tail, s.records, f, r);
        forall g | g in tail && g !in o.store.records ensures Saveable(g, o.store.records) {
          SaveableAfterInsert(g, s.records, f, r);
        }
        ApplyAllCompletes(tail, o.store, bodies);
      }
    }
  }

  /** The tail of files with distinct versions has distinct versions, all other than the head's. */
  lemma TailVersions(files: seq<string>)
    requires files != []
    requires forall i | 0 <= i < |files| :: ParseVersion(files[i]).Success?
    requires forall i, j | 0 <= i < j < |files| :: ParseVersion(files[i]).value != ParseVersion(files[j]).value
    ensures var tail := files[1..];
      (forall g | g in tail :: ParseVersion(g).Success? && ParseVersion(g).value != ParseVersion(files[0]).value) &&
      (forall i | 0 <= i < |tail| :: ParseVersion(tail[i]).Success?) &&
      forall i, j | 0 <= i < j < |tail| :: ParseVersion(tail[i]).value != ParseVersion(tail[j]).value
  {
    var tail := files[1..];
    assert forall i | 0 <= i < |tail| :: tail[i] == files[i + 1];
  }

  /** When the first of `files` has no record, the pending bodies start by running it. */
  lemma PendingStep<D>(files: seq<string>, records: map<string, Record>, db: D, bodies: Bodies<D>)
    requires files != [] && files[0] !in records
    requires ApplyBodies(Pending(files, records), db, bodies).Some?
    ensures Execute(bodies, files[0], db).Some?
    ensures ApplyBodies(Pending(files[1..], records), Execute(bodies, files[0], db).value, bodies).Some?
  {
    var pending := Pending(files, records);
    assert pending == [files[0]] + Pending(files[1..], records);
    assert pending[0] == files[0] && pending[1..] == Pending(files[1..], records);
  }

  /** The collection still accepts a file after a record of another version is added. */
  lemma SaveableAfterInsert(g: string, records: map<string, Record>, f: string, r: Record)
    requires Saveable(g, records) && ParseVersion(g).value != r.version
    ensures Saveable(g, records[f := r])
  {
  }

  /** A completed ApplyAll parsed every file, and the collection accepted each one it had no record of. */
  lemma {:induction false} ApplyAllSaveable<D>(files: seq<string>, s: Store<D>, bodies: Bodies<D>)
    requires ApplyAll(files, s, bodies).failure.None?
    ensures forall i | 0 <= i < |files| :: ParseVersion(files[i]).Success?
    ensures forall f | f in files && f !in s.records :: Saveable(f, s.records)
  {
    if files != [] {
      var f, tail := files[0], files[1..];
      var o := ApplyFile(f, s, bodies);
      assert o.failure.None?;
      ApplyAllSaveable(tail, o.store, bodies);
      assert forall i | 0 <= i < |tail| :: tail[i] == files[i + 1];
      if f !in s.records {
        ApplyFileSaves(f, s, bodies);
        forall g | g in tail && g !in o.store.records ensures Saveable(g, s.records) {
          SaveableBeforeInsert(g, s.records, f, o.store.records[f]);
        }
      }
    }
  }

  /** A file the collection accepts after a record is added, it accepts before. */
  lemma SaveableBeforeInsert(g: string, records: map<string, Record>, f: string, r: Record)
    requires Saveable(g, records[f := r]) && f !in records
    ensures Saveable(g, records)
  {
    forall h | h in records ensures records[h].version != ParseVersion(g).value {
      assert records[f := r][h] == records[h];
    }
  }

  // ---------------------------------------------------------------------------------------
  // Run

  /**
    A run that throws leaves records and database as they were. An invalid or conflicting
    listing is thrown before anything is installed or printed; a failing transaction is aborted
    after the indexes and the validator were installed, and those stay.
   */
  lemma RunAtomic<D>(listing: seq<string>, s: Store<D>, bodies: Bodies<D>)
    requires Run(listing, s, bodies).failure.Some?
    ensures var o := Run(listing, s, bodies);
      o.store.records == s.records && o.store.db == s.db
    ensures SortByVersion(listing).Failure? ==>
      Run(listing, s, bodies) == Outcome(s, [], Some(SortByVersion(listing).error))
    ensures SortByVersion(listing).Success? ==> Run(listing, s, bodies).store.prepared
  {
    if SortByVersion(listing).Success? {
      TransactionAtomic(SortByVersion(listing).value, s, bodies);
    }
  }

  /** An aborted transaction leaves the records and the database as they were; the collection stays prepared. */
  lemma TransactionAtomic<D>(sorted: seq<string>, s: Store<D>, bodies: Bodies<D>)
    ensures var o := Transaction(sorted, s, bodies);
      o.store.prepared && (o.failure.Some? ==> o.store.records == s.records && o.store.db == s.db)
  {
    if sorted != [] {
      ApplyAllKeeps(sorted, s.(prepared := true), bodies);
    }
  }

  /**
    An empty directory is not an error: the collection is still prepared, the transaction prints
    the no-files line, and nothing else changes.
   */
  lemma RunEmptyListing<D>(s: Store<D>, bodies: Bodies<D>)
    ensures Run([], s, bodies) == Outcome(s.(prepared := true), [NoFiles], None)
  {
    assert ParseEntries([]) == Success([]);
  }

  /**
    When a run completes: the listing sorts, the bodies of the files without a record run one
    after the other in version order, and the collection accepts the record of each of them.
   */
  lemma RunCompletes<D>(listing: seq<string>, s: Store<D>, bodies: Bodies<D>)
    ensures Run(listing, s, bodies).failure.None? <==>
      SortByVersion(listing).Success? &&
      ApplyBodies(Pending(SortByVersion(listing).value, s.records), s.db, bodies).Some? &&
      forall f | f in listing && f !in s.records :: Saveable(f, s.records)
  {
    if SortByVersion(listing).Success? {
      var sorted := SortByVersion(listing).value;
      SortedListing(listing);
      SortByVersionAscends(listing);
      var p := s.(prepared := true);
      if sorted != [] {
        assert Run(listing, s, bodies).failure == ApplyAll(sorted, p, bodies).failure;
        if ApplyAll(sorted, p, bodies).failure.None? {
          ApplyAllSaveable(sorted, p, bodies);
          ApplyAllDatabase(sorted, p, bodies);
        }
        if ApplyBodies(Pending(sorted, s.records), s.db, bodies).Some? &&
          forall f | f in listing && f !in s.records :: Saveable(f, s.records)
        {
          ApplyAllCompletes(sorted, p, bodies);
        }
      }
    }
  }

  /** After a completed run, every listed file has a record and the collection is prepared. */
  lemma RunAppliesAll<D>(listing: seq<string>, s: Store<D>, bodies: Bodies<D>)
    requires Run(listing, s, bodies).failure.None?
    ensures var o := Run(listing, s, bodies);
      o.store.prepared && forall f | f in listing :: f in o.store.records
  {
    var sorted := SortByVersion(listing).value;
    SortedListing(listing);
    var p := s.(prepared := true);
    if sorted != [] {
      ApplyAllRecordsAll(sorted, p, bodies);
      ApplyAllKeeps(sorted, p, bodies);
      assert Run(listing, s, bodies) == ApplyAll(sorted, p, bodies);
    }
  }

  /** A run never changes or removes an existing record, so applied times survive. */
  lemma RunKeepsRecords<D>(listing: seq<string>, s: Store<D>, bodies: Bodies<D>)
    ensures var o := Run(listing, s, bodies);
      forall g | g in s.records :: g in o.store.records && o.store.records[g] == s.records[g]
  {
    if SortByVersion(listing).Success? {
      TransactionKeepsRecords(SortByVersion(listing).value, s, bodies);
    }
  }

  /** The transaction never changes or removes an existing record. */
  lemma TransactionKeepsRecords<D>(sorted: seq<string>, s: Store<D>, bodies: Bodies<D>)
    ensures var o := Transaction(sorted, s, bodies);
      forall g | g in s.records :: g in o.store.records && o.store.records[g] == s.records[g]
  {
    if sorted != [] {
      ApplyAllKeeps(sorted, s.(prepared := true), bodies);
    }
  }

  /**
    A run keeps the collection invariant; every record it adds is for a listed file, holds that
    file's version and a time read during the run.
   */
  lemma RunAddsRecords<D>(listing: seq<string>, s: Store<D>, bodies: Bodies<D>)
    requires Tracked(s)
    ensures var o := Run(listing, s, bodies);
      Tracked(o.store) &&
      forall g | g in o.store.records && g !in s.records ::
        g in listing && ParseVersion(g) == Success(o.store.records[g].version) &&
        s.clock <= o.store.records[g].appliedTime < o.store.clock
  {
    if SortByVersion(listing).Success? {
      SortedListing(listing);
      TransactionAddsRecords(SortByVersion(listing).value, s, bodies);
    }
  }

  /** The transaction keeps the invariant, and every record it adds is for one of its files. */
  lemma TransactionAddsRecords<D>(sorted: seq<string>, s: Store<D>, bodies: Bodies<D>)
    requires Tracked(s)
    ensures var o := Transaction(sorted, s, bodies);
      Tracked(o.store) &&
      forall g | g in o.store.records && g !in s.records :: g in sorted && s.clock <= o.store.records[g].appliedTime
  {
    var p := s.(prepared := true);
    assert Tracked(p);
    if sorted != [] {
      var o := ApplyAll(sorted, p, bodies);
      ApplyAllAdds(sorted, p, bodies);
      if o.failure.Some? {
        ApplyAllKeeps(sorted, p, bodies);
        TrackedLater(s, o.store.(records := s.records, db := s.db));
      }
    }
  }

  /** The invariant holds of the same records at a later clock reading. */
  lemma TrackedLater<D>(s: Store<D>, t: Store<D>)
    requires Tracked(s) && t.records == s.records && s.clock <= t.clock
    ensures Tracked(t)
  {
  }

  /** Files applied by one run are stamped in version order. */
  lemma RunTimesFollowVersions<D>(listing: seq<string>, s: Store<D>, bodies: Bodies<D>, f: string, g: string)
    requires f in listing && g in listing && f !in s.records && g !in s.records
    requires var o := Run(listing, s, bodies); f in o.store.records && g in o.store.records
    requires ParseVersion(f).Success? && ParseVersion(g).Success? && ParseVersion(f).value < ParseVersion(g).value
    ensures var o := Run(listing, s, bodies); o.store.records[f].appliedTime < o.store.records[g].appliedTime
  {
    var sorted := SortByVersion(listing).value;
    SortedListing(listing);
    SortByVersionAscends(listing);
    var p := s.(prepared := true);
    assert Run(listing, s, bodies) == ApplyAll(sorted, p, bodies);
    ApplyAllStampsInOrder(sorted, p, bodies, f, g);
  }

  /** Over files in ascending version order, a smaller version gets the earlier time. */
  lemma ApplyAllStampsInOrder<D>(files: seq<string>, s: Store<D>, bodies: Bodies<D>, f: string, g: string)
    requires forall i | 0 <= i < |files| :: ParseVersion(files[i]).Success?
    requires forall i, j | 0 <= i < j < |files| :: ParseVersion(files[i]).value < ParseVersion(files[j]).value
    requires f in files && g in files && f !in s.records && g !in s.records
    requires var o := ApplyAll(files, s, bodies); f in o.store.records && g in o.store.records
    requires ParseVersion(f).Success? && ParseVersion(g).Success? && ParseVersion(f).value < ParseVersion(g).value
    ensures var o := ApplyAll(files, s, bodies); o.store.records[f].appliedTime < o.store.records[g].appliedTime
  {
    assert Distinct(files);
    ApplyAllTimes(files, s, bodies);
    var i :| 0 <= i < |files| && files[i] == f;
    var j :| 0 <= j < |files| && files[j] == g;
    assert i < j;
  }

  /** After a completed run, the database is the pending bodies applied in version order. */
  lemma RunDatabase<D>(listing: seq<string>, s: Store<D>, bodies: Bodies<D>)
    requires Run(listing, s, bodies).failure.None?
    ensures var sorted := SortByVersion(listing).value;
      ApplyBodies(Pending(sorted, s.records), s.db, bodies) == Some(Run(listing, s, bodies).store.db)
  {
    var sorted := SortByVersion(listing).value;
    SortedListing(listing);
    if sorted != [] {
      ApplyAllDatabase(sorted, s.(prepared := true), bodies);
    }
  }

  /** Migrating the same listing a second time changes nothing and only reports the applied times. */
  lemma RunIdempotent<D>(listing: seq<string>, s: Store<D>, bodies: Bodies<D>)
    requires Run(listing, s, bodies).failure.None?
    ensures var t := Run(listing, s, bodies).store;
      var again := Run(listing, t, bodies);
      again.store == t && again.failure.None? &&
      (listing != [] ==> |again.log| == 2 * |listing|)
  {
    var t := Run(listing, s, bodies).store;
    var sorted := SortByVersion(listing).value;
    RunAppliesAll(listing, s, bodies);
    SortedListing(listing);
    SortByVersionPermutes(listing);
    assert t.prepared && t.(prepared := true) == t;
    if sorted != [] {
      ApplyAllRecorded(sorted, t, bodies);
    }
  }

  // ---------------------------------------------------------------------------------------
  // Status

  /** status() fails exactly when the listing does not sort, with the same error, and prints the no-files line for an empty listing. */
  lemma StatusReportErrors(listing: seq<string>, records: map<string, Record>)
    ensures StatusReport(listing, records).Failure? <==> SortByVersion(listing).Failure?
    ensures StatusReport(listing, records).Failure? ==>
      StatusReport(listing, records).error == SortByVersion(listing).error
    ensures listing == [] ==> StatusReport(listing, records) == Success([NoFiles])
  {
    if listing == [] {
      assert SortByVersion(listing) == Success([]);
    }
  }

  /** The status line of a file gives its applied time exactly when it has a record. */
  lemma StatusLineSays(f: string, records: map<string, Record>)
    ensures f in records ==> StatusLine(f, records) == f + ": applied at " + Text(records[f].appliedTime)
    ensures StatusLine(f, records) == f + ": -" <==> f !in records
  {
    if f in records {
      assert StatusLine(f, records)[|f| + 2] == 'a';
    }
  }

  /**
    For a non-empty listing, status() prints one line per file of the sorted listing, in that
    order, and the line gives the applied time exactly when the file has a record.
   */
  lemma StatusReportLines(listing: seq<string>, sorted: seq<string>, records: map<string, Record>)
    requires SortByVersion(listing) == Success(sorted) && listing != []
    ensures StatusReport(listing, records).Success?
    ensures var lines := StatusReport(listing, records).value;
      |lines| == |sorted| == |listing| &&
      forall i | 0 <= i < |lines| ::
        (sorted[i] in records ==> lines[i] == sorted[i] + ": applied at " + Text(records[sorted[i]].appliedTime)) &&
        (lines[i] == sorted[i] + ": -" <==> sorted[i] !in records)
  {
    SortByVersionPermutes(listing);
    var lines := StatusReport(listing, records).value;
    forall i | 0 <= i < |lines|
      ensures (sorted[i] in records ==> lines[i] == sorted[i] + ": applied at " + Text(records[sorted[i]].appliedTime))
      ensures lines[i] == sorted[i] + ": -" <==> sorted[i] !in records
    {
      assert lines[i] == StatusLine(sorted[i], records);
      StatusLineSays(sorted[i], records);
    }
  }
}
