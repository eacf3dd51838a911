/**
 * The filesystem the scanners walk, as a value: a map from path to what
 * lives there.  A directory carries the listing `read_dir` yields (or no
 * listing when `read_dir` fails); a regular file carries its text (or none
 * when `read_to_string` fails, e.g. the bytes are not UTF-8).  A path that
 * is listed but absent from the map is neither a directory nor a regular
 * file (it vanished, or it is a socket or a broken link) and is skipped.
 */
module FileTree {
  import opened Results

  /** A path as the sequence of its components; `dir.join(name)` is `dir + [name]`. */
  type Path = seq<string>

  /** One item of a directory listing: a name, or an entry that fails to read. */
  datatype Listed = Entry(name: string) | BadEntry

  datatype Node =
    | File(content: Option<string>)
    | Dir(listing: Option<seq<Listed>>)

  type Tree = map<Path, Node>

  /** The two ways a walk fails; both abort it. */
  datatype IoError = ReadDirFailed(dir: Path) | EntryFailed(dir: Path)

  /** `Path::file_name`: the last component, none for `.`, `..` and the root `/`. */
  function FileName(p: Path): (n: Option<string>)
    ensures n.Some? ==> |p| > 0 && n.value == p[|p| - 1]
    ensures n.Some? ==> n.value != "." && n.value != ".." && n.value != "/"
    ensures n.None? && |p| > 0 ==> p[|p| - 1] in {".", "..", "/"}
  {
    if |p| == 0 then None
    else
      var last := p[|p| - 1];
      if last == "." || last == ".." || last == "/" then None else Some(last)
  }

  /** A directory the walk refuses to enter: its own name starts with a dot. */
  predicate IsHidden(p: Path) {
    match FileName(p)
    case None => false
    case Some(name) => |name| > 0 && name[0] == '.'
  }

  /** `fs::read_to_string`: the text of a regular file, none for anything else. */
  function ReadToString(fs: Tree, p: Path): Option<string> {
    if p in fs && fs[p].File? then fs[p].content else None
  }

  /** Directories of `fs` with more than `depth` components; the walk's termination measure. */
  function DirsBelow(fs: Tree, depth: nat): set<Path> {
    set p | p in fs && fs[p].Dir? && |p| > depth
  }

  /** Entering a sub-directory strictly shrinks the set of directories still below. */
  lemma DirsBelowShrinks(fs: Tree, dir: Path, name: string)
    requires dir + [name] in fs && fs[dir + [name]].Dir?
    ensures DirsBelow(fs, |dir + [name]|) < DirsBelow(fs, |dir|)
  {
    assert dir + [name] in DirsBelow(fs, |dir|);
  }
}
