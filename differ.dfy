/**
 * The comparison at the heart of `end`: given the path set and hash table
 * taken at the start (or, after a reload, at load time) and the ones taken
 * now, which paths were created, deleted or modified.
 */
module Differ {
  import opened FileTree
  import opened Fingerprint

  datatype Diff = Diff(created: set<Path>, deleted: set<Path>, modified: set<Path>)

  /**
   * Created paths are new, deleted paths are gone, and a path present both
   * times is modified when both tables hold a digest for it and the two
   * digests differ; a path that did not read either time is not modified.
   */
  function Compare(initialFiles: set<Path>, initialHashes: map<Path, Digest>,
                   currentFiles: set<Path>, currentHashes: map<Path, Digest>): (d: Diff)
    ensures d.created <= currentFiles && d.created !! initialFiles
    ensures d.deleted <= initialFiles && d.deleted !! currentFiles
    ensures d.modified <= initialFiles * currentFiles
    ensures d.modified <= initialHashes.Keys * currentHashes.Keys
    ensures d.created !! d.deleted && d.created !! d.modified && d.deleted !! d.modified
  {
    var common := initialFiles * currentFiles;
    Diff(currentFiles - initialFiles,
         initialFiles - currentFiles,
         set p | p in common && p in initialHashes && p in currentHashes && initialHashes[p] != currentHashes[p])
  }

  /** Created, deleted and the common paths partition everything seen either time. */
  lemma Partition(initialFiles: set<Path>, initialHashes: map<Path, Digest>,
                  currentFiles: set<Path>, currentHashes: map<Path, Digest>)
    ensures var d := Compare(initialFiles, initialHashes, currentFiles, currentHashes);
      && d.created + d.deleted + initialFiles * currentFiles == initialFiles + currentFiles
      && d.created !! initialFiles * currentFiles
      && d.deleted !! initialFiles * currentFiles
  {
  }

  /** The current path set is the initial one less the deleted paths plus the created ones. */
  lemma CurrentFromInitial(initialFiles: set<Path>, initialHashes: map<Path, Digest>,
                           currentFiles: set<Path>, currentHashes: map<Path, Digest>)
    ensures var d := Compare(initialFiles, initialHashes, currentFiles, currentHashes);
      currentFiles == (initialFiles - d.deleted) + d.created
  {
  }

  /** A path is modified exactly when it is present both times, both digests exist, and they differ. */
  lemma ModifiedIff(initialFiles: set<Path>, initialHashes: map<Path, Digest>,
                    currentFiles: set<Path>, currentHashes: map<Path, Digest>, p: Path)
    ensures p in Compare(initialFiles, initialHashes, currentFiles, currentHashes).modified <==>
      p in initialFiles && p in currentFiles && p in initialHashes && p in currentHashes &&
      initialHashes[p] != currentHashes[p]
  {
  }

  /** Identical snapshots give an empty diff. */
  lemma NoChangeNoDiff(files: set<Path>, hashes: map<Path, Digest>)
    ensures Compare(files, hashes, files, hashes) == Diff({}, {}, {})
  {
  }

  /** Comparing the other way round swaps created and deleted and keeps modified. */
  lemma CompareReversed(initialFiles: set<Path>, initialHashes: map<Path, Digest>,
                        currentFiles: set<Path>, currentHashes: map<Path, Digest>)
    ensures var d := Compare(initialFiles, initialHashes, currentFiles, currentHashes);
      Compare(currentFiles, currentHashes, initialFiles, initialHashes) == Diff(d.deleted, d.created, d.modified)
  {
  }

  /**
   * With tables built by `compute_file_hashes`, a modified path read both
   * times and its text changed; a path whose text is the same both times
   * is never modified.
   */
  lemma ModifiedMeansTextChanged(fs0: Tree, files0: set<Path>, fs1: Tree, files1: set<Path>,
                                 hash: string -> Digest, p: Path)
    ensures var d := Compare(files0, Fingerprints(fs0, files0, hash), files1, Fingerprints(fs1, files1, hash));
      p in d.modified ==>
        ReadToString(fs0, p).Some? && ReadToString(fs1, p).Some? && ReadToString(fs0, p) != ReadToString(fs1, p)
  {
  }

  /** With a hash that never collides, modified is exactly "read both times, text changed". */
  lemma ModifiedIffTextChanged(fs0: Tree, files0: set<Path>, fs1: Tree, files1: set<Path>,
                               hash: string -> Digest, p: Path)
    requires forall a, b :: hash(a) == hash(b) ==> a == b
    ensures var d := Compare(files0, Fingerprints(fs0, files0, hash), files1, Fingerprints(fs1, files1, hash));
      p in d.modified <==>
        p in files0 && p in files1 &&
        ReadToString(fs0, p).Some? && ReadToString(fs1, p).Some? && ReadToString(fs0, p) != ReadToString(fs1, p)
  {
  }
}
