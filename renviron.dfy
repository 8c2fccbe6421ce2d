/** The Rtools stanza that `patch_for_rtools` appends to a version's
    `etc\Renviron.site`, and the marker test that keeps it from being appended
    twice (src/windows.rs:78-125). */
module Renviron {
  import opened Wrappers
  import opened Text
  import opened Epoch

  /** The first 14 bytes of the stanza's opening comment; a line that starts
      with them marks the file as patched. */
  const Marker: string := "# added by rim"

  /** `head`: a blank line, then the opening comment, which begins with the marker. */
  const StanzaHead: string := "\n" + Marker + ", do not update by hand-----\n"
  const StanzaTail: string := "\n# ----------------------------------------\n"
  /** `txt3`'s PATH line, for Rtools 3.5 installed under `C:\Rtools`. */
  const Rtools3Path: string := "PATH=\"C:\\Rtools\\bin;${PATH}\""
  /** `txt4`'s PATH line, for Rtools 4.x located by `RTOOLS40_HOME`. */
  const Rtools4Path: string := "PATH=\"${RTOOLS40_HOME}\\ucrt64\\bin;${RTOOLS40_HOME}\\usr\\bin;${PATH}\""

  /** The PATH line chosen by the version's epoch. */
  function PathLine(ver: string): string
    requires |ver| >= 1
  {
    if IsRtools4(ver) then Rtools4Path else Rtools3Path
  }

  /** What `writeln!` appends: `txt3` or `txt4` and a final line feed. */
  function Stanza(ver: string): string
    requires |ver| >= 1
  {
    StanzaHead + PathLine(ver) + StanzaTail + "\n"
  }

  /** Some line of the file starts with the marker (the inner loop's test). */
  predicate HasMarker(contents: string)
  {
    exists j :: 0 <= j < |Lines(contents)| && StartsWith(Lines(contents)[j], Marker)
  }

  /** The new contents of a version's `Renviron.site`, given its contents
      before (`None` when the file does not exist): a marked file is left
      alone; otherwise the file is created if needed and the stanza appended. */
  function PatchText(existing: Option<string>, ver: string): string
    requires |ver| >= 1
  {
    match existing
    case Some(contents) =>
      if HasMarker(contents) then contents else contents + Stanza(ver)
    case None => Stanza(ver)
  }

  /** Text that starts with the marker has a first line that does. */
  lemma FirstLineMarked(t: string)
    requires StartsWith(t, Marker)
    ensures Lines(t) != [] && StartsWith(Lines(t)[0], Marker)
    ensures HasMarker(t)
  {
    var k := LineEnd(t);
    assert forall j :: 0 <= j < |Marker| ==> t[j] == Marker[j];
    assert k >= |Marker|;
    if k < |t| {
      assert t[..k][..|Marker|] == Marker;
      if k == |Marker| { assert t[..k][k - 1] == 'm'; }
      else { assert DropCR(t[..k])[..|Marker|] == Marker; }
    }
  }

  /** A marker right after a line feed starts a line of its own. */
  lemma {:induction false} MarkerAfterFeed(s: string, i: nat)
    requires i < |s| && s[i] == '\n' && StartsWith(s[i + 1..], Marker)
    ensures HasMarker(s)
    decreases |s|
  {
    var k := LineEnd(s);
    assert k <= i;
    var t := s[k + 1..];
    if k == i {
      FirstLineMarked(t);
    } else {
      assert t[i - k - 1] == '\n';
      assert t[i - k..] == s[i + 1..];
      MarkerAfterFeed(t, i - k - 1);
    }
    MarkedTail(s);
  }

  /** Text whose lines after the first are marked is marked. */
  lemma MarkedTail(s: string)
    requires LineEnd(s) < |s| && HasMarker(s[LineEnd(s) + 1..])
    ensures HasMarker(s)
  {
    var t := s[LineEnd(s) + 1..];
    var j :| 0 <= j < |Lines(t)| && StartsWith(Lines(t)[j], Marker);
    LinesCons(s);
    assert Lines(s)[j + 1] == Lines(t)[j];
  }

  /** The stanza opens with a line feed and then the marker. */
  lemma StanzaOpensWithMarker(ver: string)
    requires |ver| >= 1
    ensures Stanza(ver)[0] == '\n' && StartsWith(Stanza(ver)[1..], Marker)
  {
    var st := Stanza(ver);
    var head := StanzaHead;
    assert |head| > |Marker|;
    assert head[0] == '\n' && head[1..|Marker| + 1] == Marker;
    assert st[..|head|] == head;
    assert st[0] == head[0];
    assert st[1..][..|Marker|] == head[1..|Marker| + 1];
  }

  /** Appending text that opens with a line feed and the marker marks a file. */
  lemma AppendMarked(before: string, added: string)
    requires |added| > 0 && added[0] == '\n' && StartsWith(added[1..], Marker)
    ensures HasMarker(before + added)
  {
    var s := before + added;
    assert s[|before|] == added[0];
    assert s[|before| + 1..] == added[1..];
    MarkerAfterFeed(s, |before|);
  }

  /** After a patch the file carries the marker. */
  lemma PatchMarks(existing: Option<string>, ver: string)
    requires |ver| >= 1
    ensures HasMarker(PatchText(existing, ver))
  {
    var before := if existing.Some? then existing.value else [];
    if !(existing.Some? && HasMarker(before)) {
      StanzaOpensWithMarker(ver);
      AppendMarked(before, Stanza(ver));
      assert existing.None? ==> before + Stanza(ver) == Stanza(ver);
    }
  }

  /** Patching is idempotent: a second patch leaves the file byte-identical. */
  lemma PatchIdempotent(existing: Option<string>, ver: string)
    requires |ver| >= 1
    ensures PatchText(Some(PatchText(existing, ver)), ver) == PatchText(existing, ver)
  {
    PatchMarks(existing, ver);
  }

  /** An unmarked or missing file keeps its old contents as a prefix and gains
      exactly one stanza, the RTOOLS40 one iff the version is of the 4.x
      family. */
  lemma PatchAppendsOneStanza(existing: Option<string>, ver: string)
    requires |ver| >= 1
    requires existing.Some? ==> !HasMarker(existing.value)
    ensures var before := if existing.Some? then existing.value else [];
            var after := PatchText(existing, ver);
            |after| == |before| + |Stanza(ver)|
            && after[..|before|] == before
            && after[|before|..] == StanzaHead + (if IsRtools4(ver) then Rtools4Path else Rtools3Path) + StanzaTail + "\n"
  {
  }
}
