/** The text of the generated launcher scripts: one `R-<ver>.bat` per installed
    version and the default pointer `R.bat` (src/windows.rs:237-251, 295-320). */
module Launchers {
  import opened Text

  /** Start of the command line every launcher runs: the quoted path of the
      version's `R` executable under `C:\Program Files\R`. */
  const LauncherHead: string := "@\"C:\\Program Files\\R\\R-"
  const LauncherTail: string := "\\bin\\R\" %*\n"

  /** `@"C:\Program Files\R\R-<ver>\bin\R" %*` followed by a line feed. */
  function LauncherLine(ver: string): string
  {
    LauncherHead + ver + LauncherTail
  }

  /** The comment that names the default version. */
  const DefaultTag: string := "::"

  /** `R.bat`: `::<ver>` on the first line, then the version's launcher line. */
  function DefaultScript(ver: string): string
  {
    DefaultTag + ver + "\n" + LauncherLine(ver)
  }

  /** What `sc_get_default` reads from an existing `R.bat`: its first line with
      every `::` removed, and the empty string when the file has no line. */
  function DefaultOf(contents: string): (r: string)
    ensures contents == [] ==> r == []
    ensures contents != [] ==> |r| <= |Lines(contents)[0]|
  {
    var lines := Lines(contents);
    if lines == [] then [] else RemoveAll(lines[0], DefaultTag)
  }

  /** Text without line breaks.  */
  predicate SingleLine(s: string)
  {
    '\n' !in s && '\r' !in s
  }

  /** The first line feed of `a + "\n" + b` is the one after `a`. */
  lemma {:induction false} LineEndAfter(a: string, b: string)
    requires '\n' !in a
    ensures LineEnd(a + "\n" + b) == |a|
    decreases |a|
  {
    if a != [] {
      assert (a + "\n" + b)[1..] == a[1..] + "\n" + b;
      LineEndAfter(a[1..], b);
    }
  }

  /** Setting a default and reading it back gives the version that was set,
      for a version with no line break and no `::` inside it. */
  lemma DefaultRoundTrip(ver: string)
    requires SingleLine(ver) && !Occurs(ver, DefaultTag)
    ensures DefaultOf(DefaultScript(ver)) == ver
  {
    var s := DefaultScript(ver);
    var first := DefaultTag + ver;
    assert s == first + "\n" + LauncherLine(ver);
    LineEndAfter(first, LauncherLine(ver));
    assert s[..|first|] == first;
    assert first[|first| - 1] != '\r' by {
      if |ver| > 0 { assert first[|first| - 1] == ver[|ver| - 1]; }
    }
    assert Lines(s)[0] == first;
    RemoveAllLeading(DefaultTag, ver);
    RemoveAllAbsent(ver, DefaultTag);
  }

  /** A launcher line is one line of the script: it ends with its only line feed. */
  lemma LauncherIsOneLine(ver: string)
    requires SingleLine(ver)
    ensures Lines(LauncherLine(ver)) == [LauncherHead + ver + "\\bin\\R\" %*"]
  {
    var body := LauncherHead + ver + "\\bin\\R\" %*";
    assert LauncherLine(ver) == body + "\n" + [];
    LineEndAfter(body, []);
    assert LauncherLine(ver)[..|body|] == body;
    assert LauncherLine(ver)[|body| + 1..] == [];
  }
}
