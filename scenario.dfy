/**
 * A worked session on a small tree: at the start `proj` holds `a.py`; by
 * the end `a.py` has new text and `proj/b.py` was added.  Comparing the
 * start snapshot with the end one reports `b.py` created and `a.py`
 * modified; but `end` is reached through `load`, which retakes the
 * snapshot from the tree as it is then, and that diff is empty.
 */
module Scenario {
  import opened Results
  import opened FileTree
  import opened Classifier
  import opened Text
  import opened Scanner
  import opened Fingerprint
  import opened Differ
  import opened Sessions

  const Root: Path := ["proj"]
  const A: Path := ["proj", "a.py"]
  const B: Path := ["proj", "b.py"]

  function StartTree(a0: string): Tree {
    map[Root := Dir(Some([Entry("a.py")])), A := File(Some(a0))]
  }

  function EndTree(a1: string, b: string): Tree {
    map[Root := Dir(Some([Entry("a.py"), Entry("b.py")])), A := File(Some(a1)), B := File(Some(b))]
  }

  lemma PythonInScope(stem: string, name: string)
    requires stem != [] && name == stem + ".py"
    ensures InScopeFile(Root + [name])
  {
    assert ToLower("py") == "py";
    assert "py" == AllowedExtensions[3];
    InScopeIgnoresCase(Root, stem, "py");
    assert stem + "." + "py" == name;
  }

  lemma VisitPython(fs: Tree, name: string, found: seq<Path>)
    requires name == "a.py" || name == "b.py"
    requires Root + [name] in fs && fs[Root + [name]].File?
    ensures Visit(fs, Root, Entry(name), found) == Ok(found + [Root + [name]])
  {
    var stem := [name[0]];
    assert stem + ".py" == name;
    PythonInScope(stem, name);
  }

  lemma WalkAtStart(a0: string)
    ensures Walk(StartTree(a0), Root) == Ok([A])
  {
    var fs := StartTree(a0);
    var es := [Entry("a.py")];
    assert !IsHidden(Root);
    assert Root in fs && fs[Root] == Dir(Some(es));
    assert Root + ["a.py"] == A;
    VisitPython(fs, "a.py", []);
    assert [] + [A] == [A];
    assert es[..0] == [];
    assert WalkEntries(fs, Root, es[..0]) == Ok([]);
    assert WalkEntries(fs, Root, es) == Ok([A]);
  }

  lemma WalkAtEnd(a1: string, b: string)
    ensures Walk(EndTree(a1, b), Root) == Ok([A, B])
  {
    var fs := EndTree(a1, b);
    var es := [Entry("a.py"), Entry("b.py")];
    assert !IsHidden(Root);
    assert Root in fs && fs[Root] == Dir(Some(es));
    assert Root + ["a.py"] == A && Root + ["b.py"] == B;
    VisitPython(fs, "a.py", []);
    VisitPython(fs, "b.py", [A]);
    assert [] + [A] == [A] && [A] + [B] == [A, B];
    assert es[..1] == [Entry("a.py")] && es[..1][..0] == [];
    assert WalkEntries(fs, Root, es[..1][..0]) == Ok([]);
    assert WalkEntries(fs, Root, es[..1]) == Ok([A]);
    assert WalkEntries(fs, Root, es) == Ok([A, B]);
  }

  /** The counts: one file at the start, two at the end, each adding its lines and characters. */
  lemma CountsAtStart(a0: string)
    ensures Totals(StartTree(a0), Root) == Ok((|Lines(a0)|, |a0|))
  {
    var fs := StartTree(a0);
    WalkAtStart(a0);
    assert ReadToString(fs, A) == Some(a0);
    assert [A][..0] == [];
    assert LinesIn(fs, [A]) == |Lines(a0)|;
    assert CharsIn(fs, [A]) == |a0|;
  }

  lemma CountsAtEnd(a1: string, b: string)
    ensures Totals(EndTree(a1, b), Root) == Ok((|Lines(a1)| + |Lines(b)|, |a1| + |b|))
  {
    var fs := EndTree(a1, b);
    WalkAtEnd(a1, b);
    assert ReadToString(fs, A) == Some(a1) && ReadToString(fs, B) == Some(b);
    assert [A, B][..1] == [A] && [A][..0] == [];
    assert LinesIn(fs, [A]) == |Lines(a1)|;
    assert CharsIn(fs, [A]) == |a1|;
    assert LinesIn(fs, [A, B]) == |Lines(a1)| + |Lines(b)|;
    assert CharsIn(fs, [A, B]) == |a1| + |b|;
  }

  lemma ScanSets(a0: string, a1: string, b: string)
    ensures ScanSet(StartTree(a0), Root) == Ok({A})
    ensures ScanSet(EndTree(a1, b), Root) == Ok({A, B})
  {
    WalkAtStart(a0);
    WalkAtEnd(a1, b);
    assert Elems([A]) == {A};
    assert Elems([A, B]) == {A, B};
  }

  /** Against the start snapshot, `b.py` is created and `a.py`, whose text hashes differently, modified. */
  lemma DiffAgainstStart(a0: string, a1: string, b: string, hash: string -> Digest)
    requires hash(a0) != hash(a1)
    ensures Compare({A}, Fingerprints(StartTree(a0), {A}, hash),
                    {A, B}, Fingerprints(EndTree(a1, b), {A, B}, hash)) == Diff({B}, {}, {A})
  {
    var t0, t1 := StartTree(a0), EndTree(a1, b);
    var h0, h1 := Fingerprints(t0, {A}, hash), Fingerprints(t1, {A, B}, hash);
    assert ReadToString(t0, A) == Some(a0) && ReadToString(t1, A) == Some(a1);
    assert A in h0 && h0[A] == hash(a0);
    assert A in h1 && h1[A] == hash(a1);
    var d := Compare({A}, h0, {A, B}, h1);
    assert A != B;
    assert d.created == {B};
    assert d.deleted == {};
    assert d.modified == {A} by {
      ModifiedIff({A}, h0, {A, B}, h1, A);
    }
  }

  /**
   * Start on tree `t0`, then end on tree `t1`: once on the started session
   * itself, and once on a session reloaded from its saved record while the
   * tree is already `t1`, as the `end` command does.  The first diff is the
   * one between the two trees; the reloaded one is always empty, while the
   * line and character differences agree.
   */
  method EndAfterReload(dir: Path, t0: Tree, t1: Tree, hash: string -> Digest)
    returns (direct: Diff, reloaded: Diff, linesDirect: Option<int>, linesReloaded: Option<int>)
    requires ScanSet(t0, dir).Ok? && Totals(t0, dir).Ok? && ScanSet(t1, dir).Ok? && Totals(t1, dir).Ok?
    ensures var s0, s1 := ScanSet(t0, dir).value, ScanSet(t1, dir).value;
      direct == Compare(s0, Fingerprints(t0, s0, hash), s1, Fingerprints(t1, s1, hash))
    ensures reloaded == Diff({}, {}, {})
    ensures linesDirect == linesReloaded == Some(Totals(t1, dir).value.0 - Totals(t0, dir).value.0)
  {
    var s1 := ScanSet(t1, dir).value;
    NoChangeNoDiff(s1, Fingerprints(t1, s1, hash));

    var started := Session.New(dir, t0, t0, t0, 0, 0, hash);
    var s := started.value;
    var rec := s.Persisted();
    var _ := s.End(t1, t1, t1, hash);
    direct := Diff(s.filesCreated.value, s.filesDeleted.value, s.filesModified.value);
    linesDirect := s.linesWritten;

    var loaded := Session.Load(Some(rec), t1, t1, 60, hash);
    var again := loaded.value.value;
    var _ := again.End(t1, t1, t1, hash);
    reloaded := Diff(again.filesCreated.value, again.filesDeleted.value, again.filesModified.value);
    linesReloaded := again.linesWritten;
  }

  /** On the two trees above: the start snapshot sees `b.py` created and `a.py` modified, the reloaded one nothing. */
  lemma ScenarioDiffs(a0: string, a1: string, b: string, hash: string -> Digest)
    requires hash(a0) != hash(a1)
    ensures ScanSet(StartTree(a0), Root) == Ok({A}) && ScanSet(EndTree(a1, b), Root) == Ok({A, B})
    ensures Totals(EndTree(a1, b), Root).value.0 - Totals(StartTree(a0), Root).value.0 ==
      |Lines(a1)| + |Lines(b)| - |Lines(a0)|
    ensures Compare({A}, Fingerprints(StartTree(a0), {A}, hash),
                    {A, B}, Fingerprints(EndTree(a1, b), {A, B}, hash)) == Diff({B}, {}, {A})
  {
    ScanSets(a0, a1, b);
    CountsAtStart(a0);
    CountsAtEnd(a1, b);
    DiffAgainstStart(a0, a1, b, hash);
  }
}
