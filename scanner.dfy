/**
 * The two tree walks of the session code: `scan_files`, which collects the
 * in-scope paths, and `count_all_content`, which adds up their lines and
 * characters.  Both are the same recursive `visit_dirs` with a different
 * accumulator, so both are specified by one function, `Walk`, that lists
 * the in-scope files in the order the walk meets them, or gives the first
 * I/O error that aborts it.
 */
module Scanner {
  import opened Results
  import opened FileTree
  import opened Classifier
  import opened Text

  /** The in-scope files `visit_dirs(dir)` meets, in order, or the error that stops it. */
  function Walk(fs: Tree, dir: Path): Result<seq<Path>, IoError>
    decreases DirsBelow(fs, |dir|), 1
  {
    if IsHidden(dir) then Ok([])
    else if dir in fs && fs[dir].Dir? && fs[dir].listing.Some? then
      WalkEntries(fs, dir, fs[dir].listing.value)
    else Err(ReadDirFailed(dir))
  }

  /** The walk over the first `|es|` entries of the listing of `dir`. */
  function WalkEntries(fs: Tree, dir: Path, es: seq<Listed>): Result<seq<Path>, IoError>
    decreases DirsBelow(fs, |dir|), 0, |es|
  {
    if es == [] then Ok([])
    else
      var before := WalkEntries(fs, dir, es[..|es| - 1]);
      if before.Err? then before else Visit(fs, dir, es[|es| - 1], before.value)
  }

  /** One turn of the loop over a listing: recurse into a directory, keep an in-scope file. */
  function Visit(fs: Tree, dir: Path, e: Listed, found: seq<Path>): Result<seq<Path>, IoError>
    decreases DirsBelow(fs, |dir|), 0, 0
  {
    match e
    case BadEntry => Err(EntryFailed(dir))
    case Entry(name) =>
      var child := dir + [name];
      if child in fs && fs[child].Dir? then
      DirsBelowShrinks(fs, dir, name);
      match Walk(fs, child)
      case Err(err) => Err(err)
      case Ok(sub) => Ok(found + sub)
      else if child in fs && fs[child].File? && InScopeFile(child) then Ok(found + [child])
      else Ok(found)
  }

  function Elems(ps: seq<Path>): set<Path> {
    set p | p in ps
  }

  lemma ElemsAppend(a: seq<Path>, b: seq<Path>)
    ensures Elems(a + b) == Elems(a) + Elems(b)
  {
  }

  /** What `scan_files(root)` returns. */
  function ScanSet(fs: Tree, root: Path): Result<set<Path>, IoError> {
    match Walk(fs, root)
    case Ok(ps) => Ok(Elems(ps))
    case Err(e) => Err(e)
  }

  /** `lines().count()` of a file, nothing for a file that does not read. */
  function FileLines(fs: Tree, p: Path): nat {
    match ReadToString(fs, p)
    case Some(text) => |Lines(text)|
    case None => 0
  }

  /** `chars().count()` of a file, nothing for a file that does not read. */
  function FileChars(fs: Tree, p: Path): nat {
    match ReadToString(fs, p)
    case Some(text) => |text|
    case None => 0
  }

  function LinesIn(fs: Tree, ps: seq<Path>): nat {
    if ps == [] then 0 else LinesIn(fs, ps[..|ps| - 1]) + FileLines(fs, ps[|ps| - 1])
  }

  function CharsIn(fs: Tree, ps: seq<Path>): nat {
    if ps == [] then 0 else CharsIn(fs, ps[..|ps| - 1]) + FileChars(fs, ps[|ps| - 1])
  }

  /** What `count_all_content(root)` returns: (lines, characters). */
  function Totals(fs: Tree, root: Path): Result<(int, int), IoError> {
    match Walk(fs, root)
    case Ok(ps) => Ok((LinesIn(fs, ps), CharsIn(fs, ps)))
    case Err(e) => Err(e)
  }

  /** A listed sub-directory whose name starts with a dot is not entered: it adds nothing and cannot fail. */
  lemma HiddenDirSkipped(fs: Tree, dir: Path, name: string, found: seq<Path>)
    requires dir + [name] in fs && fs[dir + [name]].Dir?
    requires |name| > 0 && name[0] == '.' && name != "." && name != ".."
    ensures Visit(fs, dir, Entry(name), found) == Ok(found)
  {
    assert FileName(dir + [name]) == Some(name);
    assert IsHidden(dir + [name]);
    assert Walk(fs, dir + [name]) == Ok([]);
    assert found + [] == found;
  }

  /** A file that does not read adds nothing to either total. */
  lemma UnreadableAddsNothing(fs: Tree, ps: seq<Path>, p: Path)
    requires ReadToString(fs, p).None?
    ensures LinesIn(fs, ps + [p]) == LinesIn(fs, ps)
    ensures CharsIn(fs, ps + [p]) == CharsIn(fs, ps)
  {
    assert (ps + [p])[..|ps + [p]| - 1] == ps;
  }

  /** A readable file adds its line count and its character count. */
  lemma ReadableAddsItsText(fs: Tree, ps: seq<Path>, p: Path)
    requires ReadToString(fs, p).Some?
    ensures LinesIn(fs, ps + [p]) == LinesIn(fs, ps) + |Lines(ReadToString(fs, p).value)|
    ensures CharsIn(fs, ps + [p]) == CharsIn(fs, ps) + |ReadToString(fs, p).value|
  {
    assert (ps + [p])[..|ps + [p]| - 1] == ps;
  }

  // ---------------------------------------------------------------------
  // Facts about the walk used by the two visit_dirs methods.

  lemma {:induction false} LinesInAppend(fs: Tree, a: seq<Path>, b: seq<Path>)
    ensures LinesIn(fs, a + b) == LinesIn(fs, a) + LinesIn(fs, b)
    ensures CharsIn(fs, a + b) == CharsIn(fs, a) + CharsIn(fs, b)
    decreases |b|
  {
    if b == [] {
      assert a + b == a;
    } else {
      assert (a + b)[..|a + b| - 1] == a + b[..|b| - 1];
      LinesInAppend(fs, a, b[..|b| - 1]);
    }
  }

  /** The walk over one more entry. */
  lemma WalkEntriesStep(fs: Tree, dir: Path, es: seq<Listed>, i: nat)
    requires i < |es|
    ensures WalkEntries(fs, dir, es[..i + 1]) ==
      if WalkEntries(fs, dir, es[..i]).Err? then WalkEntries(fs, dir, es[..i])
      else Visit(fs, dir, es[i], WalkEntries(fs, dir, es[..i]).value)
  {
    assert es[..i + 1][..i] == es[..i];
  }

  /** Once the walk over a prefix of a listing fails, the walk over the whole listing fails the same way. */
  lemma {:induction false} WalkEntriesErrorSticks(fs: Tree, dir: Path, es: seq<Listed>, i: nat)
    requires i <= |es| && WalkEntries(fs, dir, es[..i]).Err?
    ensures WalkEntries(fs, dir, es) == WalkEntries(fs, dir, es[..i])
    decreases |es| - i
  {
    if i == |es| {
      assert es[..i] == es;
    } else {
      WalkEntriesStep(fs, dir, es, i);
      WalkEntriesErrorSticks(fs, dir, es, i + 1);
    }
  }

  // ---------------------------------------------------------------------
  // Which paths the walk keeps.

  /** `p` lies strictly below `dir`. */
  predicate Below(dir: Path, p: Path) {
    |p| > |dir| && p[..|dir|] == dir
  }

  lemma {:induction false} WalkStaysBelow(fs: Tree, dir: Path)
    requires Walk(fs, dir).Ok?
    ensures forall p :: p in Walk(fs, dir).value ==> Below(dir, p)
    decreases DirsBelow(fs, |dir|), 1
  {
    if !IsHidden(dir) {
      WalkEntriesStaysBelow(fs, dir, fs[dir].listing.value);
    }
  }

  lemma {:induction false} WalkEntriesStaysBelow(fs: Tree, dir: Path, es: seq<Listed>)
    requires WalkEntries(fs, dir, es).Ok?
    ensures forall p :: p in WalkEntries(fs, dir, es).value ==> Below(dir, p)
    decreases DirsBelow(fs, |dir|), 0, |es|
  {
    if es != [] {
      var before := es[..|es| - 1];
      WalkEntriesStaysBelow(fs, dir, before);
      var found := WalkEntries(fs, dir, before).value;
      match es[|es| - 1]
      case BadEntry =>
      case Entry(name) =>
        var child := dir + [name];
        if child in fs && fs[child].Dir? {
          DirsBelowShrinks(fs, dir, name);
          WalkStaysBelow(fs, child);
          forall p | p in Walk(fs, child).value ensures Below(dir, p) {
            assert p[..|dir|] == p[..|child|][..|dir|];
          }
        }
    }
  }

  /** `dir` is a directory the walk enters (not hidden, readable) and it lists `name`. */
  predicate ListsVisibly(fs: Tree, dir: Path, name: string) {
    !IsHidden(dir) && dir in fs && fs[dir].Dir? && fs[dir].listing.Some? &&
    Entry(name) in fs[dir].listing.value
  }

  /**
   * The walk from `dir` keeps `dir + rel`: it is a regular file with an
   * allowed extension, and every directory from `dir` down to its parent is
   * entered by the walk and lists the next component.  Nothing is said of
   * the file's own name: a hidden file is kept.
   */
  ghost predicate Kept(fs: Tree, dir: Path, rel: seq<string>) {
    && |rel| > 0
    && (forall j :: 0 <= j < |rel| ==> ListsVisibly(fs, dir + rel[..j], rel[j]))
    && dir + rel in fs && fs[dir + rel].File? && InScopeFile(dir + rel)
  }

  /** What `Kept` asks of the entry named `rel[0]`, once `dir` itself is accounted for. */
  ghost predicate KeptFromEntry(fs: Tree, dir: Path, rel: seq<string>)
    requires |rel| > 0
  {
    var child := dir + [rel[0]];
    child in fs &&
    if |rel| == 1 then fs[child].File? && InScopeFile(child)
    else fs[child].Dir? && Kept(fs, child, rel[1..])
  }

  lemma KeptUnfold(fs: Tree, dir: Path, rel: seq<string>)
    requires |rel| > 0
    ensures Kept(fs, dir, rel) <==> ListsVisibly(fs, dir, rel[0]) && KeptFromEntry(fs, dir, rel)
  {
    var child := dir + [rel[0]];
    var rest := rel[1..];
    assert dir + rel == child + rest;
    assert dir + rel[..0] == dir;
    forall j | 1 <= j < |rel| ensures dir + rel[..j] == child + rest[..j - 1] && rel[j] == rest[j - 1] {
      assert rel[..j] == [rel[0]] + rest[..j - 1];
    }
    if |rel| == 1 {
      assert rel == [rel[0]];
    } else {
      assert child + rest[..0] == child;
      if Kept(fs, dir, rel) {
        assert ListsVisibly(fs, dir + rel[..1], rel[1]);
        forall j | 0 <= j < |rest| ensures ListsVisibly(fs, child + rest[..j], rest[j]) {
          assert ListsVisibly(fs, dir + rel[..j + 1], rel[j + 1]);
        }
      }
      if ListsVisibly(fs, dir, rel[0]) && KeptFromEntry(fs, dir, rel) {
        forall j | 0 <= j < |rel| ensures ListsVisibly(fs, dir + rel[..j], rel[j]) {
          if j > 0 {
            assert ListsVisibly(fs, child + rest[..j - 1], rest[j - 1]);
          }
        }
      }
    }
  }

  /** The walk keeps exactly the paths `Kept` describes. */
  lemma {:induction false} WalkKeepsExactly(fs: Tree, dir: Path, rel: seq<string>)
    requires Walk(fs, dir).Ok?
    ensures dir + rel in Walk(fs, dir).value <==> Kept(fs, dir, rel)
    decreases DirsBelow(fs, |dir|), 2
  {
    if IsHidden(dir) {
      if |rel| > 0 {
        assert dir + rel[..0] == dir;
        assert !ListsVisibly(fs, dir + rel[..0], rel[0]);
      }
    } else {
      var es := fs[dir].listing.value;
      WalkEntriesKeep(fs, dir, es, rel);
      if |rel| > 0 {
        KeptUnfold(fs, dir, rel);
      } else {
        WalkStaysBelow(fs, dir);
      }
    }
  }

  lemma {:induction false} WalkEntriesKeep(fs: Tree, dir: Path, es: seq<Listed>, rel: seq<string>)
    requires WalkEntries(fs, dir, es).Ok?
    ensures dir + rel in WalkEntries(fs, dir, es).value <==>
      |rel| > 0 && Entry(rel[0]) in es && KeptFromEntry(fs, dir, rel)
    decreases DirsBelow(fs, |dir|), 1, |es|
  {
    if es != [] {
      var before := es[..|es| - 1];
      var e := es[|es| - 1];
      assert es == before + [e];
      WalkEntriesKeep(fs, dir, before, rel);
      var found := WalkEntries(fs, dir, before).value;
      VisitKeep(fs, dir, e, found, rel);
      assert |rel| > 0 ==> (Entry(rel[0]) in es <==> Entry(rel[0]) in before || Entry(rel[0]) == e);
    }
  }

  /** One turn of the loop adds exactly the kept paths that go through its entry. */
  lemma {:induction false} VisitKeep(fs: Tree, dir: Path, e: Listed, found: seq<Path>, rel: seq<string>)
    requires Visit(fs, dir, e, found).Ok?
    ensures dir + rel in Visit(fs, dir, e, found).value <==>
      dir + rel in found || (|rel| > 0 && e == Entry(rel[0]) && KeptFromEntry(fs, dir, rel))
    decreases DirsBelow(fs, |dir|), 0, 1
  {
    var p := dir + rel;
    match e
    case Entry(name) =>
      var child := dir + [name];
      if child in fs && fs[child].Dir? {
        SubWalkKeep(fs, dir, name, rel);
        assert Visit(fs, dir, e, found).value == found + Walk(fs, child).value;
      } else if child in fs && fs[child].File? && InScopeFile(child) {
        if p == child {
          assert rel == [name];
        }
      }
  }

  /** The paths a walked sub-directory `name` of `dir` adds are the ones kept from that entry. */
  lemma {:induction false} SubWalkKeep(fs: Tree, dir: Path, name: string, rel: seq<string>)
    requires dir + [name] in fs && fs[dir + [name]].Dir? && Walk(fs, dir + [name]).Ok?
    ensures dir + rel in Walk(fs, dir + [name]).value <==>
      |rel| > 0 && rel[0] == name && |rel| > 1 && KeptFromEntry(fs, dir, rel)
    decreases DirsBelow(fs, |dir|), 0, 0
  {
    var child := dir + [name];
    DirsBelowShrinks(fs, dir, name);
    WalkStaysBelow(fs, child);
    if |rel| > 1 && rel[0] == name {
      assert dir + rel == child + rel[1..];
      WalkKeepsExactly(fs, child, rel[1..]);
    }
  }

  // ---------------------------------------------------------------------
  // When the walk fails.

  /** The walk, standing in `dir`, descends into the listed, visible sub-directory `name`. */
  predicate Enters(fs: Tree, dir: Path, name: string) {
    ListsVisibly(fs, dir, name) && dir + [name] in fs && fs[dir + [name]].Dir?
  }

  /** A directory the walk does not skip but cannot finish: no listing, or a listing with a bad entry. */
  predicate Broken(fs: Tree, dir: Path) {
    !IsHidden(dir) &&
    (dir !in fs || !fs[dir].Dir? || fs[dir].listing.None? || BadEntry in fs[dir].listing.value)
  }

  /** The walk from `dir` descends through `rel` and meets a broken directory there. */
  ghost predicate FailsAt(fs: Tree, dir: Path, rel: seq<string>) {
    && (forall j :: 0 <= j < |rel| ==> Enters(fs, dir + rel[..j], rel[j]))
    && Broken(fs, dir + rel)
  }

  /** A sub-directory named `name` of `dir` whose walk meets a broken directory at `rel`. */
  ghost predicate ChildFailsAt(fs: Tree, dir: Path, name: string, rel: seq<string>) {
    dir + [name] in fs && fs[dir + [name]].Dir? && FailsAt(fs, dir + [name], rel)
  }

  lemma FailsAtUnfold(fs: Tree, dir: Path, name: string, rest: seq<string>)
    ensures FailsAt(fs, dir, [name] + rest) <==>
      ListsVisibly(fs, dir, name) && ChildFailsAt(fs, dir, name, rest)
  {
    var rel := [name] + rest;
    var child := dir + [name];
    assert dir + rel == child + rest;
    assert dir + rel[..0] == dir;
    forall j | 1 <= j < |rel| ensures dir + rel[..j] == child + rest[..j - 1] && rel[j] == rest[j - 1] {
      assert rel[..j] == [name] + rest[..j - 1];
    }
    if FailsAt(fs, dir, rel) {
      assert Enters(fs, dir + rel[..0], rel[0]);
      forall j | 0 <= j < |rest| ensures Enters(fs, child + rest[..j], rest[j]) {
        assert Enters(fs, dir + rel[..j + 1], rel[j + 1]);
      }
    }
    if ListsVisibly(fs, dir, name) && ChildFailsAt(fs, dir, name, rest) {
      forall j | 0 <= j < |rel| ensures Enters(fs, dir + rel[..j], rel[j]) {
        if j > 0 {
          assert Enters(fs, child + rest[..j - 1], rest[j - 1]);
        }
      }
    }
  }

  /**
   * The walk fails exactly when it meets a broken directory: `read_dir`
   * fails on a directory it enters, or such a directory lists an entry
   * that cannot be read.  The error is never skipped.
   */
  lemma {:induction false} WalkFailsExactly(fs: Tree, dir: Path)
    ensures Walk(fs, dir).Err? <==> exists rel :: FailsAt(fs, dir, rel)
    decreases DirsBelow(fs, |dir|), 1
  {
    if IsHidden(dir) {
      forall rel ensures !FailsAt(fs, dir, rel) {
        if |rel| > 0 {
          assert dir + rel[..0] == dir;
          assert !Enters(fs, dir + rel[..0], rel[0]);
        } else {
          assert dir + rel == dir;
        }
      }
    } else if dir in fs && fs[dir].Dir? && fs[dir].listing.Some? {
      var es := fs[dir].listing.value;
      WalkEntriesFail(fs, dir, es);
      if Walk(fs, dir).Err? {
        if BadEntry in es {
          assert dir + [] == dir;
          assert FailsAt(fs, dir, []);
        } else {
          var name, rest :| Entry(name) in es && ChildFailsAt(fs, dir, name, rest);
          FailsAtUnfold(fs, dir, name, rest);
          assert FailsAt(fs, dir, [name] + rest);
        }
      }
      if rel :| FailsAt(fs, dir, rel) {
        if |rel| > 0 {
          assert rel == [rel[0]] + rel[1..];
          FailsAtUnfold(fs, dir, rel[0], rel[1..]);
          assert Entry(rel[0]) in es && ChildFailsAt(fs, dir, rel[0], rel[1..]);
        } else {
          assert dir + rel == dir;
        }
      }
    } else {
      assert dir + [] == dir;
      assert FailsAt(fs, dir, []);
    }
  }

  lemma {:induction false} WalkEntriesFail(fs: Tree, dir: Path, es: seq<Listed>)
    ensures WalkEntries(fs, dir, es).Err? <==>
      BadEntry in es || exists name, rel :: Entry(name) in es && ChildFailsAt(fs, dir, name, rel)
    decreases DirsBelow(fs, |dir|), 0, |es|
  {
    if es != [] {
      var before := es[..|es| - 1];
      var e := es[|es| - 1];
      assert es == before + [e];
      WalkEntriesFail(fs, dir, before);
      if WalkEntries(fs, dir, before).Ok? {
        var found := WalkEntries(fs, dir, before).value;
        match e
        case BadEntry =>
        case Entry(name) =>
          var child := dir + [name];
          if child in fs && fs[child].Dir? {
            DirsBelowShrinks(fs, dir, name);
            WalkFailsExactly(fs, child);
            if Walk(fs, child).Err? {
              var rel :| FailsAt(fs, child, rel);
              assert ChildFailsAt(fs, dir, name, rel);
            }
          }
      }
    }
  }

  /** A bad entry anywhere in a listing makes the walk over that listing fail. */
  lemma BadEntryFails(fs: Tree, dir: Path, es: seq<Listed>, i: nat)
    requires i < |es| && es[i] == BadEntry
    ensures WalkEntries(fs, dir, es).Err?
  {
    WalkEntriesFail(fs, dir, es);
  }

  /** `scan_files` and `count_all_content` fail on the same trees: exactly those where the walk meets a broken directory. */
  lemma ScanAndCountFailTogether(fs: Tree, root: Path)
    ensures ScanSet(fs, root).Err? <==> exists rel :: FailsAt(fs, root, rel)
    ensures Totals(fs, root).Err? <==> exists rel :: FailsAt(fs, root, rel)
  {
    WalkFailsExactly(fs, root);
  }

  /**
   * The scanned set, member by member: a path is scanned iff it lies below
   * the root and is `Kept`; in particular it is a regular file, never a
   * directory.
   */
  lemma ScanMembership(fs: Tree, root: Path, p: Path)
    requires ScanSet(fs, root).Ok?
    ensures p in ScanSet(fs, root).value <==> Below(root, p) && Kept(fs, root, p[|root|..])
    ensures p in ScanSet(fs, root).value ==> p in fs && fs[p].File?
  {
    WalkStaysBelow(fs, root);
    if Below(root, p) {
      assert p == root + p[|root|..];
      WalkKeepsExactly(fs, root, p[|root|..]);
    }
  }

  // ---------------------------------------------------------------------
  // scan_files

  /** `visit_dirs` of `scan_files`: adds to `files` the in-scope paths below `dir`. */
  method ScanVisitDirs(fs: Tree, dir: Path, files: set<Path>) returns (r: Result<set<Path>, IoError>)
    ensures Walk(fs, dir).Ok? ==> r == Ok(files + Elems(Walk(fs, dir).value))
    ensures Walk(fs, dir).Err? ==> r == Err(Walk(fs, dir).error)
    decreases DirsBelow(fs, |dir|)
  {
    if IsHidden(dir) {
      assert Walk(fs, dir) == Ok([]);
      assert files + Elems([]) == files;
      return Ok(files);
    }
    if !(dir in fs && fs[dir].Dir? && fs[dir].listing.Some?) {
      return Err(ReadDirFailed(dir));
    }
    var es := fs[dir].listing.value;
    var acc := files;
    var i := 0;
    while i < |es|
      invariant 0 <= i <= |es|
      invariant WalkEntries(fs, dir, es[..i]).Ok?
      invariant acc == files + Elems(WalkEntries(fs, dir, es[..i]).value)
    {
      WalkEntriesStep(fs, dir, es, i);
      var found := WalkEntries(fs, dir, es[..i]).value;
      if es[i].BadEntry? {
        WalkEntriesErrorSticks(fs, dir, es, i + 1);
        return Err(EntryFailed(dir));
      }
      var name := es[i].name;
      var child := dir + [name];
      if child in fs && fs[child].Dir? {
        DirsBelowShrinks(fs, dir, name);
        var sub := ScanVisitDirs(fs, child, acc);
        if sub.Err? {
          WalkEntriesErrorSticks(fs, dir, es, i + 1);
          return sub;
        }
        assert WalkEntries(fs, dir, es[..i + 1]) == Ok(found + Walk(fs, child).value);
        ElemsAppend(found, Walk(fs, child).value);
        acc := sub.value;
      } else if child in fs && fs[child].File? && InScopeFile(child) {
        assert WalkEntries(fs, dir, es[..i + 1]) == Ok(found + [child]);
        ElemsAppend(found, [child]);
        assert Elems([child]) == {child};
        acc := acc + {child};
      } else {
        assert WalkEntries(fs, dir, es[..i + 1]) == Ok(found);
      }
      i := i + 1;
    }
    assert es[..i] == es;
    return Ok(acc);
  }

  /** `scan_files(root)`: the set of in-scope paths below `root`. */
  method ScanFiles(fs: Tree, root: Path) returns (r: Result<set<Path>, IoError>)
    ensures r == ScanSet(fs, root)
  {
    r := ScanVisitDirs(fs, root, {});
    assert r.Ok? ==> r.value == {} + r.value;
  }

  // ---------------------------------------------------------------------
  // count_all_content

  /** `visit_dirs` of `count_all_content`: adds to the two counters the lines and characters below `dir`. */
  method CountVisitDirs(fs: Tree, dir: Path, lines: int, chars: int) returns (r: Result<(int, int), IoError>)
    ensures Walk(fs, dir).Ok? ==>
      r == Ok((lines + LinesIn(fs, Walk(fs, dir).value), chars + CharsIn(fs, Walk(fs, dir).value)))
    ensures Walk(fs, dir).Err? ==> r == Err(Walk(fs, dir).error)
    decreases DirsBelow(fs, |dir|)
  {
    if IsHidden(dir) {
      return Ok((lines, chars));
    }
    if !(dir in fs && fs[dir].Dir? && fs[dir].listing.Some?) {
      return Err(ReadDirFailed(dir));
    }
    var es := fs[dir].listing.value;
    var l, c := lines, chars;
    var i := 0;
    while i < |es|
      invariant 0 <= i <= |es|
      invariant WalkEntries(fs, dir, es[..i]).Ok?
      invariant l == lines + LinesIn(fs, WalkEntries(fs, dir, es[..i]).value)
      invariant c == chars + CharsIn(fs, WalkEntries(fs, dir, es[..i]).value)
    {
      WalkEntriesStep(fs, dir, es, i);
      var found := WalkEntries(fs, dir, es[..i]).value;
      if es[i].BadEntry? {
        WalkEntriesErrorSticks(fs, dir, es, i + 1);
        return Err(EntryFailed(dir));
      }
      var name := es[i].name;
      var child := dir + [name];
      if child in fs && fs[child].Dir? {
        DirsBelowShrinks(fs, dir, name);
        var sub := CountVisitDirs(fs, child, l, c);
        if sub.Err? {
          WalkEntriesErrorSticks(fs, dir, es, i + 1);
          return Err(sub.error);
        }
        assert WalkEntries(fs, dir, es[..i + 1]) == Ok(found + Walk(fs, child).value);
        LinesInAppend(fs, found, Walk(fs, child).value);
        l, c := sub.value.0, sub.value.1;
      } else if child in fs && fs[child].File? && InScopeFile(child) {
        assert WalkEntries(fs, dir, es[..i + 1]) == Ok(found + [child]);
        LinesInAppend(fs, found, [child]);
        var text := ReadToString(fs, child);
        if text.Some? {
          l := l + |Lines(text.value)|;
          c := c + |text.value|;
        }
      } else {
        assert WalkEntries(fs, dir, es[..i + 1]) == Ok(found);
      }
      i := i + 1;
    }
    assert es[..i] == es;
    return Ok((l, c));
  }

  /** `count_all_content(root)`: total lines and characters of the readable in-scope files. */
  method CountAllContent(fs: Tree, root: Path) returns (r: Result<(int, int), IoError>)
    ensures r == Totals(fs, root)
  {
    r := CountVisitDirs(fs, root, 0, 0);
  }
}
