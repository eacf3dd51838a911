/**
 * Which regular files the scanners keep: those whose extension, lower-cased,
 * is one of sixteen source, text and configuration extensions.  Directories
 * are handled by the walk itself (`FileTree.IsHidden`); a file whose own name
 * starts with a dot is NOT excluded here.
 */
module Classifier {
  import opened Results
  import opened FileTree

  /** The allow-list both scanners compare against. */
  const AllowedExtensions: seq<string> :=
    ["rs", "txt", "md", "py", "js", "html", "css", "c", "cpp", "h", "hpp",
     "java", "json", "yaml", "yml", "toml"]

  function LowerChar(c: char): char {
    if 'A' <= c <= 'Z' then (c as int + 32) as char else c
  }

  /**
   * `str::to_lowercase`, on ASCII letters.  For membership in the allow-list
   * this is exact: the only other character whose lower case is ASCII is the
   * Kelvin sign, which lowers to `k`, a letter no allowed extension contains.
   */
  function ToLower(s: string): string {
    seq(|s|, i requires 0 <= i < |s| => LowerChar(s[i]))
  }

  /**
   * Lower-casing keeps the length, leaves no upper-case letter, lowers each
   * upper-case letter to its partner and keeps every other character.
   */
  lemma ToLowerLowers(s: string)
    ensures |ToLower(s)| == |s|
    ensures forall i :: 0 <= i < |s| ==> !('A' <= ToLower(s)[i] <= 'Z')
    ensures forall i :: 0 <= i < |s| && !('A' <= s[i] <= 'Z') ==> ToLower(s)[i] == s[i]
    ensures forall i :: 0 <= i < |s| && 'A' <= s[i] <= 'Z' ==> ToLower(s)[i] as int == s[i] as int + 32
  {
  }

  /** Index of the last `.` in `s`, if there is one. */
  function LastDot(s: string): (k: Option<nat>)
    ensures k.Some? ==> k.value < |s| && s[k.value] == '.'
    ensures k.Some? ==> forall j :: k.value < j < |s| ==> s[j] != '.'
    ensures k.None? ==> forall j :: 0 <= j < |s| ==> s[j] != '.'
  {
    if s == [] then None
    else if s[|s| - 1] == '.' then Some(|s| - 1)
    else LastDot(s[..|s| - 1])
  }

  /**
   * `Path::extension`: what follows the last `.` of the file name, and nothing
   * when the name has no `.` or its only `.` is the leading one (`.rs`).
   */
  function Extension(p: Path): (e: Option<string>)
    ensures e.Some? ==>
      FileName(p).Some? && '.' !in e.value &&
      exists stem :: stem != [] && FileName(p).value == stem + "." + e.value
    ensures e.None? && FileName(p).Some? ==>
      forall j :: 0 < j < |FileName(p).value| ==> FileName(p).value[j] != '.'
  {
    match FileName(p)
    case None => None
    case Some(name) =>
      match LastDot(name)
      case None => None
      case Some(k) =>
        if k == 0 then None
        else
          assert name == name[..k] + "." + name[k + 1..];
          Some(name[k + 1..])
  }

  /** The test both `visit_dirs` apply to a regular file before keeping it. */
  predicate InScopeFile(p: Path) {
    var e := Extension(p);
    e.Some? && ToLower(e.value) in AllowedExtensions
  }

  /** Keeping a file does not depend on the case of its extension. */
  lemma InScopeIgnoresCase(dir: Path, stem: string, ext: string)
    requires stem != [] && '.' !in ext
    ensures InScopeFile(dir + [stem + "." + ext]) <==> ToLower(ext) in AllowedExtensions
  {
    var name := stem + "." + ext;
    if name == ".." {
      // `..` has no file name, and the empty extension is not listed either.
      assert FileName(dir + [name]).None?;
      assert ToLower(ext) == [];
      return;
    }
    assert name[..|stem|] == stem;
    assert FileName(dir + [name]) == Some(name);
    var k := LastDot(name);
    assert name[|stem|] == '.';
    assert k == Some(|stem|) by {
      forall j | |stem| < j < |name| ensures name[j] != '.' {
        assert name[j] == ext[j - |stem| - 1];
      }
    }
    assert name[|stem| + 1..] == ext;
  }

  /** A hidden file is judged by its extension like any other: `.foo.rs` is kept. */
  lemma HiddenFileKept(dir: Path)
    ensures InScopeFile(dir + [".foo.rs"])
  {
    InScopeIgnoresCase(dir, ".foo", "rs");
    assert ".foo" + "." + "rs" == ".foo.rs";
    assert ToLower("rs") == "rs";
  }

  /**
   * A name whose only dot is the leading one has no extension, nor has a
   * name without a dot: neither `.rs` nor `Makefile` is kept.
   */
  lemma NoExtensionNotKept(dir: Path)
    ensures Extension(dir + [".rs"]).None? && !InScopeFile(dir + [".rs"])
    ensures Extension(dir + ["Makefile"]).None? && !InScopeFile(dir + ["Makefile"])
  {
    assert FileName(dir + [".rs"]) == Some(".rs");
    assert LastDot(".rs") == Some(0) by {
      assert LastDot(".r") == Some(0);
    }
    assert FileName(dir + ["Makefile"]) == Some("Makefile");
    assert '.' !in "Makefile";
    assert LastDot("Makefile").None?;
  }

  /** Only the extension's letters matter, not their case: `MAIN.RS` is kept, `a.PNG` is not. */
  lemma CaseExamples(dir: Path)
    ensures InScopeFile(dir + ["MAIN.RS"])
    ensures !InScopeFile(dir + ["a.PNG"])
  {
    InScopeIgnoresCase(dir, "MAIN", "RS");
    assert "MAIN" + "." + "RS" == "MAIN.RS";
    assert ToLower("RS") == "rs";
    InScopeIgnoresCase(dir, "a", "PNG");
    assert "a" + "." + "PNG" == "a.PNG";
    assert ToLower("PNG") == "png";
  }
}
