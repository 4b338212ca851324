/**
  The MongoMigrator class of lib/mongo-migrator.js. Its state is the migration directory's
  listing, the tracking collection, whether that collection's indexes and validator are
  installed, the rest of the database and the clock; every method is proved to do what the
  functions of Registry and Engine say.
 */
module Migrator {
  import opened Results
  import opened Decimal
  import opened Registry
  import opened Engine

  class MongoMigrator<D> {
    /** What each migration file does when it is required and called. */
    const bodies: Bodies<D>
    /** The names in the migration directory, in the order the directory lists them. */
    var directory: seq<string>
    /** The tracking collection, keyed by filename. */
    var records: map<string, Record>
    var prepared: bool
    var db: D
    var clock: nat

    /** The store the Engine functions work on. */
    function State(): (s: Store<D>)
      reads this
    {
      Store(records, prepared, db, clock)
    }

    /**
      The tracking collection holds only records as migrate() writes them. The constructor
      accepts whatever collection it finds, so Valid holds from the start exactly when the
      collection it was given is Tracked, and every method keeps it.
     */
    ghost predicate Valid()
      reads this
    {
      Tracked(State())
    }

    /** The constructor: the directory and the collection as they are found. */
    constructor (directory: seq<string>, store: Store<D>, bodies: Bodies<D>)
      ensures this.directory == directory && State() == store && this.bodies == bodies
      ensures Valid() <==> Tracked(store)
    {
      this.bodies := bodies;
      this.directory := directory;
      this.records := store.records;
      this.prepared := store.prepared;
      this.db := store.db;
      this.clock := store.clock;
    }

    /** createNewMigrationFile: adds the file NewMigrationFile names to the directory. */
    method CreateNewMigrationFile(description: string) returns (r: Result<NewFile, MigrationError>)
      modifies this
      ensures r == NewMigrationFile(old(directory), description)
      ensures r.Success? ==> directory == old(directory) + [r.value.filename]
      ensures r.Failure? ==> directory == old(directory)
      ensures State() == old(State())
      ensures old(Valid()) ==> Valid()
    {
      if !IsValidDescription(description) {
        return Failure(InvalidDescription(description));
      }
      var listing := directory;
      var sorted := SortMigrationFilenames(listing);
      if sorted.Failure? {
        return Failure(sorted.error);
      }
      var version := LatestVersion(sorted.value) + 1;
      var filename := NewFilename(version, description);
      r := Success(NewFile(filename, Template));
      assert r == NewMigrationFile(listing, description);
      directory := listing + [filename];
    }

    /** status(): the lines it prints, or the error the listing throws. */
    method Status() returns (r: Result<seq<string>, MigrationError>)
      ensures r == StatusReport(directory, records)
    {
      var sorted := SortMigrationFilenames(directory);
      if sorted.Failure? {
        return Failure(sorted.error);
      }
      var files := sorted.value;
      if |files| == 0 {
        assert files == [];
        return Success([NoFiles]);
      }
      var lines := PrintStatuses(files);
      return Success(lines);
    }

    /** The loop of status(): one status line per file, in order. */
    method PrintStatuses(files: seq<string>) returns (lines: seq<string>)
      ensures lines == StatusLines(files, records)
    {
      lines := [];
      for i := 0 to |files|
        invariant |lines| == i
        invariant forall k | 0 <= k < i :: lines[k] == StatusLine(files[k], records)
      {
        var line := PrintStatus(files[i]);
        lines := lines + [line];
      }
    }

    /** $printMigrationFileStatus: the applied time of a recorded file, a dash otherwise. */
    method PrintStatus(f: string) returns (line: string)
      ensures line == StatusLine(f, records)
    {
      if f in records {
        line := f + ": applied at " + Text(records[f].appliedTime);
      } else {
        line := f + ": -";
      }
    }

    /**
      migrate(): the lines printed and the error thrown, if any; the new state is the one Run
      describes, so the Engine lemmas about Run hold of it.
     */
    method Migrate() returns (log: seq<string>, failure: Option<MigrationError>)
      modifies this
      ensures Outcome(State(), log, failure) == Run(old(directory), old(State()), bodies)
      ensures directory == old(directory)
      ensures old(Valid()) ==> Valid()
    {
      ghost var s := State();
      var sorted := SortMigrationFilenames(directory);
      if sorted.Failure? {
        return [], Some(sorted.error);
      }
      log, failure := RunTransaction(sorted.value);
      if Tracked(s) {
        RunAddsRecords(old(directory), s, bodies);
      }
    }

    /** The body of migrate() once the listing is sorted: prepare, then one transaction. */
    method RunTransaction(files: seq<string>) returns (log: seq<string>, failure: Option<MigrationError>)
      modifies this
      ensures Outcome(State(), log, failure) == Transaction(files, old(State()), bodies)
      ensures directory == old(directory)
    {
      prepared := true;
      if |files| == 0 {
        return [NoFiles], None;
      }
      var savedRecords, savedDb := records, db;
      log, failure := ApplyMigrationFiles(files);
      if failure.Some? {
        records, db := savedRecords, savedDb;
      }
    }

    /** The loop inside migrate()'s transaction: apply the files in order, stop at the first error. */
    method ApplyMigrationFiles(files: seq<string>) returns (log: seq<string>, failure: Option<MigrationError>)
      modifies this
      ensures Outcome(State(), log, failure) == ApplyAll(files, old(State()), bodies)
      ensures directory == old(directory)
    {
      ghost var start := State();
      log := [];
      var i := 0;
      while i < |files|
        invariant 0 <= i <= |files| && directory == old(directory)
        invariant var rest := ApplyAll(files[i..], State(), bodies);
          ApplyAll(files, start, bodies) == Outcome(rest.store, log + rest.log, rest.failure)
      {
        assert files[i..][0] == files[i] && files[i..][1..] == files[i + 1..];
        var lines, error := ApplyMigrationFile(files[i]);
        log := log + lines;
        if error.Some? {
          return log, error;
        }
        i := i + 1;
      }
      failure := None;
    }

    /** $applyMigrationFile: the lines printed and the error thrown; the new state is ApplyFile's. */
    method ApplyMigrationFile(f: string) returns (lines: seq<string>, error: Option<MigrationError>)
      modifies this
      ensures Outcome(State(), lines, error) == ApplyFile(f, old(State()), bodies)
      ensures directory == old(directory)
    {
      var version := ParseVersion(f);
      if version.Failure? {
        return [], Some(version.error);
      }
      if f in records {
        return [f, AlreadyApplied(records[f].appliedTime)], None;
      }
      lines := [f, "  is being read ..."];
      if !bodies.loads(f) {
        return lines, Some(LoadFailed(f));
      }
      lines := lines + ["    done", "  is being applied ..."];
      var after := bodies.run(f, db);
      if after.None? {
        return lines, Some(MigrationFailed(f));
      }
      db := after.value;
      lines := lines + ["    done", "  is being saved ..."];
      var r := Record(version.value, f, clock);
      if !Insertable(r, records) {
        return lines, Some(RecordRejected(f));
      }
      records := records[f := r];
      clock := clock + 1;
      lines := lines + ["    done"];
      error := None;
    }
  }
}
