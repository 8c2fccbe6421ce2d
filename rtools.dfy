/** Which Rtools installers `add_rtools` fetches, and what their names are
    (src/windows.rs:43-76, 127-160). */
module Rtools {
  import opened Text
  import opened Epoch

  const UrlBase: string := "https://cloud.r-project.org/bin/windows/Rtools/"

  /** `rtools<ver>-x86_64.exe` for the 4.x family, `Rtools<ver>.exe` otherwise. */
  function InstallerName(ver: string): string
    requires |ver| >= 1
  {
    if IsRtools4(ver) then "rtools" + ver + "-x86_64.exe" else "Rtools" + ver + ".exe"
  }

  function InstallerUrl(ver: string): string
    requires |ver| >= 1
  {
    UrlBase + InstallerName(ver)
  }

  /** The filename names the epoch by its first letter and, once prefix and
      suffix are removed, gives the version back. */
  lemma InstallerNameParts(ver: string)
    requires |ver| >= 1
    ensures var name := InstallerName(ver);
            if IsRtools4(ver) then
              && StartsWith(name, "rtools") && |name| == |ver| + 17
              && name[6..|name| - 11] == ver && name[|name| - 11..] == "-x86_64.exe"
            else
              && StartsWith(name, "Rtools") && |name| == |ver| + 10
              && name[6..|name| - 4] == ver && name[|name| - 4..] == ".exe"
  {
    var name := InstallerName(ver);
    if IsRtools4(ver) {
      assert name == "rtools" + ver + "-x86_64.exe";
      assert name[..6] == "rtools";
    } else {
      assert name[..6] == "Rtools";
    }
  }

  /** Distinct versions never share an installer file. */
  lemma InstallerNameInjective(a: string, b: string)
    requires |a| >= 1 && |b| >= 1
    requires InstallerName(a) == InstallerName(b)
    ensures a == b
  {
    InstallerNameParts(a);
    InstallerNameParts(b);
    var name := InstallerName(a);
    assert name[0] == (if IsRtools4(a) then 'r' else 'R');
    assert name[0] == (if IsRtools4(b) then 'r' else 'R');
  }

  /** The download location is the fixed CRAN Rtools directory plus the file name. */
  lemma InstallerUrlParts(ver: string)
    requires |ver| >= 1
    ensures StartsWith(InstallerUrl(ver), UrlBase)
    ensures InstallerUrl(ver)[|UrlBase|..] == InstallerName(ver)
  {
    assert InstallerUrl(ver)[..|UrlBase|] == UrlBase;
  }

  /** The Rtools bucket of a version that R reports: "35" for 3.x, "40" for
      4.x, none otherwise. */
  function Bucket(reported: string): string
    requires |reported| >= 1
  {
    if reported[0] == '3' then "35" else if reported[0] == '4' then "40" else ""
  }

  predicate AllReadable(reported: seq<string>)
  {
    forall i :: 0 <= i < |reported| ==> |reported[i]| >= 1
  }

  /** The buckets of `reported`, each once, in order of first appearance:
      what `get_rtools_needed` returns. */
  function Needed(reported: seq<string>): (r: seq<string>)
    requires AllReadable(reported)
    decreases |reported|
  {
    if reported == [] then []
    else
      var before := Needed(reported[..|reported| - 1]);
      var b := Bucket(reported[|reported| - 1]);
      if b == "" || b in before then before else before + [b]
  }

  /** Index of the first report of the 3.x or 4.x family, if any. */
  function FirstKnown(reported: seq<string>): (k: nat)
    requires AllReadable(reported)
    ensures k <= |reported|
    ensures forall i :: 0 <= i < k ==> Bucket(reported[i]) == ""
    ensures k < |reported| ==> Bucket(reported[k]) != ""
    decreases |reported|
  {
    if reported == [] || Bucket(reported[0]) != "" then 0 else 1 + FirstKnown(reported[1..])
  }

  /** Some reported version starts with `c`. */
  predicate SomeStartsWith(reported: seq<string>, c: char)
    requires AllReadable(reported)
  {
    exists i :: 0 <= i < |reported| && reported[i][0] == c
  }

  lemma SomeStartsWithLast(reported: seq<string>, c: char)
    requires AllReadable(reported) && reported != []
    ensures SomeStartsWith(reported, c)
        <==> SomeStartsWith(reported[..|reported| - 1], c) || reported[|reported| - 1][0] == c
  {
    var init := reported[..|reported| - 1];
    if SomeStartsWith(reported, c) {
      var i :| 0 <= i < |reported| && reported[i][0] == c;
      if i < |init| { assert init[i][0] == c; }
    }
    if SomeStartsWith(init, c) {
      var i :| 0 <= i < |init| && init[i][0] == c;
      assert reported[i] == init[i];
    }
  }

  /** `get_rtools_needed` lists no bucket twice, only "35" and "40", "35" iff
      some version is 3.x, "40" iff some is 4.x, and starts with the bucket of
      the first 3.x or 4.x version. */
  lemma {:induction false} NeededProperties(reported: seq<string>)
    requires AllReadable(reported)
    ensures var r := Needed(reported);
            && |r| <= 2
            && (forall i, j :: 0 <= i < j < |r| ==> r[i] != r[j])
            && (forall i :: 0 <= i < |r| ==> r[i] == "35" || r[i] == "40")
            && ("35" in r <==> SomeStartsWith(reported, '3'))
            && ("40" in r <==> SomeStartsWith(reported, '4'))
            && (r != [] ==> FirstKnown(reported) < |reported| && r[0] == Bucket(reported[FirstKnown(reported)]))
    decreases |reported|
  {
    if reported != [] {
      var init := reported[..|reported| - 1];
      NeededProperties(init);
      NeededFirst(reported);
      SomeStartsWithLast(reported, '3');
      SomeStartsWithLast(reported, '4');
      var before := Needed(init);
      if |before| == 2 {
        assert before[0] != before[1];
        assert "35" in before && "40" in before;
      }
    }
  }

  /** The first bucket of `Needed` is that of the first known version. */
  lemma {:induction false} NeededFirst(reported: seq<string>)
    requires AllReadable(reported)
    ensures Needed(reported) != [] ==>
              FirstKnown(reported) < |reported| && Needed(reported)[0] == Bucket(reported[FirstKnown(reported)])
    ensures Needed(reported) == [] <==> FirstKnown(reported) == |reported|
    decreases |reported|
  {
    if reported != [] {
      var init := reported[..|reported| - 1];
      NeededFirst(init);
      FirstKnownPrefix(reported);
    }
  }

  /** Dropping the last report moves the first known report only if it was last. */
  lemma {:induction false} FirstKnownPrefix(reported: seq<string>)
    requires AllReadable(reported) && reported != []
    ensures var init := reported[..|reported| - 1];
            if FirstKnown(init) < |init| then FirstKnown(reported) == FirstKnown(init)
            else FirstKnown(reported) == |init| || FirstKnown(reported) == |reported|
    decreases |reported|
  {
    if |reported| > 1 && Bucket(reported[0]) == "" {
      FirstKnownPrefix(reported[1..]);
      assert reported[1..][..|reported| - 2] == reported[..|reported| - 1][1..];
    }
  }
}
