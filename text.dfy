/**
 * Counting a file's text the way the content counter does: the number of
 * items `str::lines` yields, and the number of `char`s (Unicode scalar
 * values, which is what a Dafny `char` is).
 */
module Text {

  /** Index of the first line feed in `s`, or `|s|` when there is none. */
  function LineEnd(s: string): (k: nat)
    ensures k <= |s|
    ensures k < |s| ==> s[k] == '\n'
    ensures forall j :: 0 <= j < k ==> s[j] != '\n'
  {
    if s == [] || s[0] == '\n' then 0 else 1 + LineEnd(s[1..])
  }

  /** A line ended by "\r\n" loses its carriage return too. */
  function StripCR(line: string): string {
    if |line| > 0 && line[|line| - 1] == '\r' then line[..|line| - 1] else line
  }

  /**
   * The lines `str::lines` yields: split at each line feed, a final piece
   * counts only when it is not empty, and a final piece without a line feed
   * keeps any carriage return it ends with.
   */
  function Lines(s: string): (ls: seq<string>)
    ensures forall i :: 0 <= i < |ls| ==> '\n' !in ls[i]
    decreases |s|
  {
    if s == [] then []
    else
      var k := LineEnd(s);
      if k == |s| then [s] else [StripCR(s[..k])] + Lines(s[k + 1..])
  }

  function NewlineCount(s: string): nat {
    if s == [] then 0 else (if s[0] == '\n' then 1 else 0) + NewlineCount(s[1..])
  }

  lemma {:induction false} NewlineCountAppend(a: string, b: string)
    ensures NewlineCount(a + b) == NewlineCount(a) + NewlineCount(b)
  {
    if a == [] {
      assert a + b == b;
    } else {
      assert (a + b)[0] == a[0] && (a + b)[1..] == a[1..] + b;
      NewlineCountAppend(a[1..], b);
    }
  }

  lemma {:induction false} NoNewlineCountsZero(s: string)
    requires forall j :: 0 <= j < |s| ==> s[j] != '\n'
    ensures NewlineCount(s) == 0
  {
    if s != [] {
      NoNewlineCountsZero(s[1..]);
    }
  }

  /** A text with a line feed at `k` is its first line, the line feed, and the rest. */
  lemma SplitAtLineEnd(s: string, k: nat)
    requires k < |s| && s[k] == '\n'
    ensures s == s[..k] + "\n" + s[k + 1..]
    ensures s == s[..k] + ("\n" + s[k + 1..])
  {
  }

  /**
   * `lines().count()` in closed form: one per line feed, plus one for a
   * non-empty last line that has no line feed; the empty text has none.
   */
  lemma {:induction false} LineCountClosedForm(s: string)
    ensures |Lines(s)| == NewlineCount(s) + (if s != [] && s[|s| - 1] != '\n' then 1 else 0)
    decreases |s|
  {
    if s != [] {
      var k := LineEnd(s);
      NoNewlineCountsZero(s[..k]);
      if k == |s| {
        assert s[..k] == s;
      } else {
        var rest := s[k + 1..];
        assert |Lines(s)| == 1 + |Lines(rest)|;
        SplitAtLineEnd(s, k);
        assert NewlineCount(s) == NewlineCount(s[..k] + ("\n" + rest));
        NewlineCountAppend(s[..k], "\n" + rest);
        assert NewlineCount("\n" + rest) == 1 + NewlineCount(rest) by {
          assert ("\n" + rest)[1..] == rest;
        }
        LineCountClosedForm(rest);
        if rest != [] {
          assert s[|s| - 1] == rest[|rest| - 1];
        }
      }
    }
  }

  /** Joining the lines back with line feeds gives the text, when no line ends in "\r\n". */
  lemma {:induction false} LinesRejoin(s: string)
    requires '\r' !in s
    requires s != [] ==> s[|s| - 1] == '\n'
    ensures Joined(Lines(s)) == s
    decreases |s|
  {
    if s != [] {
      var k := LineEnd(s);
      assert s[|s| - 1] == '\n';
      var rest := s[k + 1..];
      assert StripCR(s[..k]) == s[..k] by {
        if k > 0 { assert s[k - 1] in s; }
      }
      assert Lines(s) == [s[..k]] + Lines(rest);
      assert '\r' !in rest by {
        forall j | 0 <= j < |rest| ensures rest[j] != '\r' { assert rest[j] == s[k + 1 + j]; }
      }
      if rest != [] {
        assert rest[|rest| - 1] == s[|s| - 1];
      }
      LinesRejoin(rest);
      assert Joined(Lines(s)) == s[..k] + "\n" + rest;
      SplitAtLineEnd(s, k);
    }
  }

  /** Every line followed by a line feed. */
  function Joined(ls: seq<string>): string {
    if ls == [] then [] else ls[0] + "\n" + Joined(ls[1..])
  }
}
