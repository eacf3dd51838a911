/**
 * `compute_file_hashes`: a table from each readable path to the hash of
 * its text.  The hash itself (`DefaultHasher` printed in hex) is a
 * parameter: any deterministic function of the text.
 */
module Fingerprint {
  import opened Results
  import opened FileTree

  /** The hexadecimal digest the table stores. */
  type Digest = string

  /** The table `compute_file_hashes(files)` builds from the tree as it reads it. */
  function Fingerprints(fs: Tree, files: set<Path>, hash: string -> Digest): map<Path, Digest> {
    map p | p in files && ReadToString(fs, p).Some? :: hash(ReadToString(fs, p).value)
  }

  /**
   * `compute_file_hashes(files)`: visits the paths one at a time; a path that
   * reads gets the hash of its text, a path that does not is left out.
   */
  method ComputeFileHashes(fs: Tree, files: set<Path>, hash: string -> Digest) returns (table: map<Path, Digest>)
    ensures table.Keys == set p | p in files && ReadToString(fs, p).Some?
    ensures forall p :: p in table ==> table[p] == hash(ReadToString(fs, p).value)
    ensures table == Fingerprints(fs, files, hash)
  {
    table := map[];
    var todo := files;
    while todo != {}
      invariant todo <= files
      invariant table.Keys == set p | p in files - todo && ReadToString(fs, p).Some?
      invariant forall p :: p in table ==> ReadToString(fs, p).Some? && table[p] == hash(ReadToString(fs, p).value)
      decreases todo
    {
      var p :| p in todo;
      match ReadToString(fs, p) {
        case Some(text) => table := table[p := hash(text)];
        case None =>
      }
      todo := todo - {p};
    }
  }

  /** Two tables built from the same text at a path agree on that path. */
  lemma SameTextSameDigest(fs0: Tree, fs1: Tree, files0: set<Path>, files1: set<Path>, hash: string -> Digest, p: Path)
    requires p in files0 && p in files1
    requires ReadToString(fs0, p).Some? && ReadToString(fs0, p) == ReadToString(fs1, p)
    ensures p in Fingerprints(fs0, files0, hash) && p in Fingerprints(fs1, files1, hash)
    ensures Fingerprints(fs0, files0, hash)[p] == Fingerprints(fs1, files1, hash)[p]
  {
  }
}
