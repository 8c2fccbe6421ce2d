/** Text helpers standing for the Rust standard-library string operations the
    source relies on: prefix tests on slices, `BufRead::lines` and `str::replace`
    with an empty replacement. */
module Text {

  predicate StartsWith(s: string, prefix: string)
  {
    |prefix| <= |s| && s[..|prefix|] == prefix
  }

  /** `pat` occurs somewhere in `s`. */
  predicate Occurs(s: string, pat: string)
  {
    exists i :: 0 <= i <= |s| && StartsWith(s[i..], pat)
  }

  /** Index of the first line feed of `s`, or `|s|` when there is none. */
  function LineEnd(s: string): (k: nat)
    ensures k <= |s|
    ensures k < |s| ==> s[k] == '\n'
    ensures forall j :: 0 <= j < k ==> s[j] != '\n'
  {
    if s == [] || s[0] == '\n' then 0 else 1 + LineEnd(s[1..])
  }

  /** Removes the carriage return of a CRLF line ending. */
  function DropCR(line: string): string
  {
    if |line| > 0 && line[|line| - 1] == '\r' then line[..|line| - 1] else line
  }

  /** The lines `BufRead::lines` yields: the text is cut at every line feed,
      each line loses its line feed and, when one precedes it, a carriage
      return; a final line without a line feed is kept as it is, and an empty
      text has no lines. */
  function Lines(s: string): (r: seq<string>)
    ensures r == [] <==> s == []
    ensures forall i :: 0 <= i < |r| ==> '\n' !in r[i]
    decreases |s|
  {
    if s == [] then []
    else
      var k := LineEnd(s);
      if k == |s| then [s] else [DropCR(s[..k])] + Lines(s[k + 1..])
  }

  /** A text with a line feed yields its first line and then the lines after it. */
  lemma LinesCons(s: string)
    requires LineEnd(s) < |s|
    ensures Lines(s) == [DropCR(s[..LineEnd(s)])] + Lines(s[LineEnd(s) + 1..])
  {
  }

  /** `s.replace(pat, "")`: scanning from the left, every non-overlapping
      occurrence of `pat` is removed. */
  function RemoveAll(s: string, pat: string): (r: string)
    requires |pat| > 0
    ensures |r| <= |s|
    ensures |r| == |s| <==> !Occurs(s, pat)
    decreases |s|
  {
    if s == [] then []
    else if StartsWith(s, pat) then
      assert StartsWith(s[0..], pat);
      RemoveAll(s[|pat|..], pat)
    else
      var r := RemoveAll(s[1..], pat);
      assert Occurs(s, pat) <==> Occurs(s[1..], pat) by {
        if Occurs(s, pat) {
          var i :| 0 <= i <= |s| && StartsWith(s[i..], pat);
          assert i > 0;
          assert s[1..][i - 1..] == s[i..];
        }
        if Occurs(s[1..], pat) {
          var i :| 0 <= i <= |s| - 1 && StartsWith(s[1..][i..], pat);
          assert s[1..][i..] == s[i + 1..];
        }
      }
      [s[0]] + r
  }

  /** Text that does not contain `pat` is left as it is. */
  lemma {:induction false} RemoveAllAbsent(s: string, pat: string)
    requires |pat| > 0 && !Occurs(s, pat)
    ensures RemoveAll(s, pat) == s
  {
    // the length is kept, and removal only ever drops characters
    RemoveAllKeepsOrDrops(s, pat);
  }

  /** A result as long as its input is that input: nothing was dropped. */
  lemma {:induction false} RemoveAllKeepsOrDrops(s: string, pat: string)
    requires |pat| > 0
    ensures |RemoveAll(s, pat)| == |s| ==> RemoveAll(s, pat) == s
    decreases |s|
  {
    if s != [] && !StartsWith(s, pat) {
      RemoveAllKeepsOrDrops(s[1..], pat);
      assert s == [s[0]] + s[1..];
    }
  }

  /** A leading occurrence is removed and scanning resumes after it. */
  lemma RemoveAllLeading(pat: string, s: string)
    requires |pat| > 0
    ensures RemoveAll(pat + s, pat) == RemoveAll(s, pat)
  {
    assert (pat + s)[..|pat|] == pat;
    assert (pat + s)[|pat|..] == s;
  }
}
