/**
 * The session record: the counts and snapshot taken at the start, the
 * active time, and, once ended, the final counts and the diff.  Its
 * persisted part is a `Record`; the path set, the hash table and the last
 * activity instant live only in the process that holds the object and are
 * rebuilt by `Load`.
 */
module Sessions {
  import opened Results
  import opened FileTree
  import opened Scanner
  import opened Fingerprint
  import opened Differ
  import opened Activity

  /** What `save` writes and `load` reads back. */
  datatype Record = Record(
    startTime: int,
    projectDirectory: Path,
    initialLineCount: int,
    initialCharCount: int,
    finalLineCount: Option<int>,
    finalCharCount: Option<int>,
    linesWritten: Option<int>,
    charsWritten: Option<int>,
    filesCreated: Option<set<Path>>,
    filesModified: Option<set<Path>>,
    filesDeleted: Option<set<Path>>,
    activeTimeSeconds: int)

  /** A freshly started session's persisted part: nothing final yet, no active time. */
  function Started(startTime: int, dir: Path, lines: int, chars: int): Record {
    Record(startTime, dir, lines, chars, None, None, None, None, None, None, None, 0)
  }

  class Session {
    var startTime: int
    var projectDirectory: Path
    var initialLineCount: int
    var initialCharCount: int
    var finalLineCount: Option<int>
    var finalCharCount: Option<int>
    var linesWritten: Option<int>
    var charsWritten: Option<int>
    var filesCreated: Option<set<Path>>
    var filesModified: Option<set<Path>>
    var filesDeleted: Option<set<Path>>
    var activeTimeSeconds: int
    var initialFiles: Option<set<Path>>
    var lastActivity: Option<int>
    var initialFileHashes: Option<map<Path, Digest>>

    /** The persisted fields, as `save` serialises them. */
    function Persisted(): Record
      reads this
    {
      Record(startTime, projectDirectory, initialLineCount, initialCharCount,
             finalLineCount, finalCharCount, linesWritten, charsWritten,
             filesCreated, filesModified, filesDeleted, activeTimeSeconds)
    }

    /** A session with the given persisted fields and the given process-local fields. */
    constructor (rec: Record, files: Option<set<Path>>, hashes: Option<map<Path, Digest>>, last: Option<int>)
      ensures Persisted() == rec
      ensures initialFiles == files && initialFileHashes == hashes && lastActivity == last
    {
      startTime := rec.startTime;
      projectDirectory := rec.projectDirectory;
      initialLineCount := rec.initialLineCount;
      initialCharCount := rec.initialCharCount;
      finalLineCount := rec.finalLineCount;
      finalCharCount := rec.finalCharCount;
      linesWritten := rec.linesWritten;
      charsWritten := rec.charsWritten;
      filesCreated := rec.filesCreated;
      filesModified := rec.filesModified;
      filesDeleted := rec.filesDeleted;
      activeTimeSeconds := rec.activeTimeSeconds;
      initialFiles := files;
      initialFileHashes := hashes;
      lastActivity := last;
    }

    /**
     * `Session::new`: scans the tree (as `scanned`), hashes the files found
     * (reading `hashed`), counts their content (reading `counted`); the
     * first walk that fails aborts with its error.
     */
    static method New(dir: Path, scanned: Tree, hashed: Tree, counted: Tree,
                      now: int, instant: int, hash: string -> Digest)
      returns (r: Result<Session, IoError>)
      ensures ScanSet(scanned, dir).Err? ==> r == Err(ScanSet(scanned, dir).error)
      ensures ScanSet(scanned, dir).Ok? && Totals(counted, dir).Err? ==> r == Err(Totals(counted, dir).error)
      ensures ScanSet(scanned, dir).Ok? && Totals(counted, dir).Ok? ==>
        && r.Ok? && fresh(r.value)
        && r.value.Persisted() == Started(now, dir, Totals(counted, dir).value.0, Totals(counted, dir).value.1)
        && r.value.initialFiles == Some(ScanSet(scanned, dir).value)
        && r.value.initialFileHashes == Some(Fingerprints(hashed, ScanSet(scanned, dir).value, hash))
        && r.value.lastActivity == Some(instant)
    {
      var files := ScanFiles(scanned, dir);
      if files.Err? {
        return Err(files.error);
      }
      var hashes := ComputeFileHashes(hashed, files.value, hash);
      var counts := CountAllContent(counted, dir);
      if counts.Err? {
        return Err(counts.error);
      }
      var s := new Session(Started(now, dir, counts.value.0, counts.value.1),
                           Some(files.value), Some(hashes), Some(instant));
      return Ok(s);
    }

    /**
     * `Session::load`: no stored record means no session; otherwise the
     * persisted fields come back as they were saved, and the path set and
     * hash table are taken afresh from the tree as it is now.
     */
    static method Load(stored: Option<Record>, scanned: Tree, hashed: Tree, instant: int, hash: string -> Digest)
      returns (r: Result<Option<Session>, IoError>)
      ensures stored.None? ==> r == Ok(None)
      ensures stored.Some? && ScanSet(scanned, stored.value.projectDirectory).Err? ==>
        r == Err(ScanSet(scanned, stored.value.projectDirectory).error)
      ensures stored.Some? && ScanSet(scanned, stored.value.projectDirectory).Ok? ==>
        var now := ScanSet(scanned, stored.value.projectDirectory).value;
        && r.Ok? && r.value.Some? && fresh(r.value.value)
        && r.value.value.Persisted() == stored.value
        && r.value.value.initialFiles == Some(now)
        && r.value.value.initialFileHashes == Some(Fingerprints(hashed, now, hash))
        && r.value.value.lastActivity == Some(instant)
    {
      if stored.None? {
        return Ok(None);
      }
      var rec := stored.value;
      var current := ScanFiles(scanned, rec.projectDirectory);
      if current.Err? {
        return Err(current.error);
      }
      var hashes := ComputeFileHashes(hashed, current.value, hash);
      var s := new Session(rec, Some(current.value), Some(hashes), Some(instant));
      return Ok(Some(s));
    }

    /**
     * `end`: counts the content now (reading `counted`) and records the
     * final counts and their signed differences from the initial ones; then
     * scans (reading `scanned`) and hashes (reading `hashed`) the tree and,
     * when a snapshot is held, records the diff against it.  An error from
     * either walk aborts, keeping what was already recorded.
     */
    method End(counted: Tree, scanned: Tree, hashed: Tree, hash: string -> Digest) returns (r: Result<(), IoError>)
      modifies this`finalLineCount, this`finalCharCount, this`linesWritten, this`charsWritten
      modifies this`filesCreated, this`filesDeleted, this`filesModified
      ensures Totals(counted, projectDirectory).Err? ==>
        r == Err(Totals(counted, projectDirectory).error) && unchanged(this)
      ensures Totals(counted, projectDirectory).Ok? ==>
        && finalLineCount == Some(Totals(counted, projectDirectory).value.0)
        && finalCharCount == Some(Totals(counted, projectDirectory).value.1)
        && linesWritten == Some(Totals(counted, projectDirectory).value.0 - initialLineCount)
        && charsWritten == Some(Totals(counted, projectDirectory).value.1 - initialCharCount)
      ensures Totals(counted, projectDirectory).Ok? && ScanSet(scanned, projectDirectory).Err? ==>
        r == Err(ScanSet(scanned, projectDirectory).error)
      ensures Totals(counted, projectDirectory).Ok? && ScanSet(scanned, projectDirectory).Ok? ==> r == Ok(())
      ensures Totals(counted, projectDirectory).Ok? && ScanSet(scanned, projectDirectory).Ok? &&
              initialFiles.Some? && initialFileHashes.Some? ==>
        var current := ScanSet(scanned, projectDirectory).value;
        var d := Compare(initialFiles.value, initialFileHashes.value, current, Fingerprints(hashed, current, hash));
        filesCreated == Some(d.created) && filesDeleted == Some(d.deleted) && filesModified == Some(d.modified)
      ensures !(Totals(counted, projectDirectory).Ok? && ScanSet(scanned, projectDirectory).Ok? &&
                initialFiles.Some? && initialFileHashes.Some?) ==>
        filesCreated == old(filesCreated) && filesDeleted == old(filesDeleted) && filesModified == old(filesModified)
    {
      r := RecordCounts(counted);
      if r.Ok? {
        r := RecordDiff(scanned, hashed, hash);
      }
    }

    /** The counting half of `end`: final counts and their differences from the initial ones. */
    method RecordCounts(counted: Tree) returns (r: Result<(), IoError>)
      modifies this`finalLineCount, this`finalCharCount, this`linesWritten, this`charsWritten
      ensures Totals(counted, projectDirectory).Err? ==>
        r == Err(Totals(counted, projectDirectory).error) && unchanged(this)
      ensures Totals(counted, projectDirectory).Ok? ==>
        && r == Ok(())
        && finalLineCount == Some(Totals(counted, projectDirectory).value.0)
        && finalCharCount == Some(Totals(counted, projectDirectory).value.1)
        && linesWritten == Some(Totals(counted, projectDirectory).value.0 - initialLineCount)
        && charsWritten == Some(Totals(counted, projectDirectory).value.1 - initialCharCount)
    {
      var counts := CountAllContent(counted, projectDirectory);
      if counts.Err? {
        return Err(counts.error);
      }
      var (lines, chars) := counts.value;
      finalLineCount := Some(lines);
      finalCharCount := Some(chars);
      linesWritten := Some(lines - initialLineCount);
      charsWritten := Some(chars - initialCharCount);
      return Ok(());
    }

    /** The diffing half of `end`: scan and hash the tree and, when a snapshot is held, diff against it. */
    method RecordDiff(scanned: Tree, hashed: Tree, hash: string -> Digest) returns (r: Result<(), IoError>)
      modifies this`filesCreated, this`filesDeleted, this`filesModified
      ensures ScanSet(scanned, projectDirectory).Err? ==> r == Err(ScanSet(scanned, projectDirectory).error)
      ensures ScanSet(scanned, projectDirectory).Ok? ==> r == Ok(())
      ensures ScanSet(scanned, projectDirectory).Ok? && initialFiles.Some? && initialFileHashes.Some? ==>
        var current := ScanSet(scanned, projectDirectory).value;
        var d := Compare(initialFiles.value, initialFileHashes.value, current, Fingerprints(hashed, current, hash));
        filesCreated == Some(d.created) && filesDeleted == Some(d.deleted) && filesModified == Some(d.modified)
      ensures !(ScanSet(scanned, projectDirectory).Ok? && initialFiles.Some? && initialFileHashes.Some?) ==>
        filesCreated == old(filesCreated) && filesDeleted == old(filesDeleted) && filesModified == old(filesModified)
    {
      var current := ScanFiles(scanned, projectDirectory);
      if current.Err? {
        return Err(current.error);
      }
      var currentHashes := ComputeFileHashes(hashed, current.value, hash);
      if initialFiles.Some? && initialFileHashes.Some? {
        var d := Compare(initialFiles.value, initialFileHashes.value, current.value, currentHashes);
        filesCreated := Some(d.created);
        filesDeleted := Some(d.deleted);
        filesModified := Some(d.modified);
      }
      return Ok(());
    }

    /**
     * `record_activity` at instant `now`: credits the gap since the last
     * activity when it is below the idle cutoff, and makes `now` the last
     * activity.
     */
    method RecordActivity(now: int)
      modifies this`activeTimeSeconds, this`lastActivity
      ensures activeTimeSeconds == old(activeTimeSeconds) + Credit(old(lastActivity), now)
      ensures lastActivity == Some(now)
    {
      if lastActivity.Some? {
        var elapsed := Elapsed(lastActivity.value, now);
        if elapsed < IdleCutoff {
          activeTimeSeconds := activeTimeSeconds + elapsed;
        }
      }
      lastActivity := Some(now);
    }
  }

  /**
   * A run of `record_activity` calls on one live session, one per pulse.
   * The active time gained is the fold `ActiveAfter` from the last activity
   * before the run; for pulses in time order it never exceeds the wall time
   * they span.
   */
  method RecordPulses(s: Session, pulses: seq<int>)
    requires s.lastActivity.Some?
    modifies s`activeTimeSeconds, s`lastActivity
    ensures s.activeTimeSeconds == old(s.activeTimeSeconds) + ActiveAfter(old(s.lastActivity.value), pulses)
    ensures s.lastActivity == if pulses == [] then old(s.lastActivity) else Some(pulses[|pulses| - 1])
    ensures Ordered(old(s.lastActivity.value), pulses) ==>
      s.activeTimeSeconds - old(s.activeTimeSeconds) <=
        (if pulses == [] then 0 else pulses[|pulses| - 1] - old(s.lastActivity.value))
  {
    var start := s.lastActivity.value;
    var i := 0;
    while i < |pulses|
      invariant 0 <= i <= |pulses|
      invariant s.lastActivity == Some(if i == 0 then start else pulses[i - 1])
      invariant s.activeTimeSeconds == old(s.activeTimeSeconds) + ActiveAfter(start, pulses[..i])
    {
      assert pulses[..i + 1][..i] == pulses[..i];
      s.RecordActivity(pulses[i]);
      i := i + 1;
    }
    assert pulses[..i] == pulses;
    if Ordered(start, pulses) {
      ActiveWithinWallTime(start, pulses);
    }
  }
}
