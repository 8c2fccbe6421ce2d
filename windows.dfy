/** The side-by-side R installations under `C:\Program Files\R` and the
    operations of src/windows.rs that read and change them.

    The host state is abstract: the names of the root's immediate children,
    the contents of the files the tool generates or patches, and the set of
    user library directories that exist. Paths are keys, not strings. */
module Windows {
  import opened Wrappers
  import opened Text
  import opened Ordering
  import opened Epoch
  import opened Launchers
  import opened Renviron
  import opened Rtools

  /** A file the tool writes, named by what it is:
      `bin\R-<ver>.bat`, `bin\R.bat`, or `R-<ver>\etc\Renviron.site`. */
  datatype FilePath = Launcher(ver: string) | DefaultPointer | SiteEnv(ver: string)

  /** Why an operation stops where the source panics or exits. */
  datatype Failure =
    | NotInstalled(ver: string)       // `check_installed` rejects the version
    | InstallerFailed(target: string) // an installer exited unsuccessfully
    | NotConfigured                   // `R.bat` does not exist

  /** Name of the installation directory of `ver` under the root. */
  function DirOf(ver: string): string
  {
    "R-" + ver
  }

  /** The versions a set of root children stands for: the names that start
      with `R-`, with that prefix removed. */
  ghost function Versions(children: set<string>): set<string>
  {
    set name | name in children && StartsWith(name, "R-") :: name[2..]
  }

  lemma VersionsMembership(children: set<string>, ver: string)
    ensures ver in Versions(children) <==> DirOf(ver) in children
  {
    if DirOf(ver) in children {
      assert DirOf(ver)[..2] == "R-" && DirOf(ver)[2..] == ver;
    }
    if ver in Versions(children) {
      var name :| name in children && StartsWith(name, "R-") && name[2..] == ver;
      assert name == name[..2] + name[2..];
    }
  }

  lemma DirOfInjective(a: string, b: string)
    requires DirOf(a) == DirOf(b)
    ensures a == b
  {
    assert DirOf(a)[2..] == a && DirOf(b)[2..] == b;
  }

  /** What `sc_get_list` returns: the versions in ascending byte order. */
  ghost function Listing(children: set<string>): seq<string>
  {
    SortedOf(Versions(children))
  }

  /** The listing is ascending, has no duplicates, and holds exactly the
      versions whose `R-<ver>` directory exists. */
  lemma ListingSpec(children: set<string>)
    ensures Sorted(Listing(children)) && Distinct(Listing(children))
    ensures forall ver :: ver in Listing(children) <==> DirOf(ver) in children
  {
    SortedOfSpec(Versions(children));
    forall ver ensures ver in Listing(children) <==> DirOf(ver) in children {
      VersionsMembership(children, ver);
    }
  }

  /** The listing is the only ascending, duplicate-free sequence of the
      installed versions. */
  lemma ListingIs(children: set<string>, expected: seq<string>)
    requires Sorted(expected) && Distinct(expected)
    requires forall ver :: DirOf(ver) in children <==> ver in expected
    ensures Listing(children) == expected
  {
    ListingSpec(children);
    SortedUnique(Listing(children), expected);
  }

  /** A root holding R 3.6.3, 4.1.0 and 4.0.0 next to an unrelated directory
      lists the three versions in ascending order. */
  lemma ListingExample()
    ensures Listing({"R-3.6.3", "R-4.1.0", "notR-x", "R-4.0.0"}) == ["3.6.3", "4.0.0", "4.1.0"]
  {
    var children := {"R-3.6.3", "R-4.1.0", "notR-x", "R-4.0.0"};
    var expected := ["3.6.3", "4.0.0", "4.1.0"];
    forall ver ensures DirOf(ver) in children <==> ver in expected {
      ExampleDirectory(ver);
    }
    ExampleOrder();
    ListingIs(children, expected);
  }

  lemma ExampleDirectory(ver: string)
    ensures DirOf(ver) in {"R-3.6.3", "R-4.1.0", "notR-x", "R-4.0.0"} <==> ver in ["3.6.3", "4.0.0", "4.1.0"]
  {
    assert DirOf(ver) != "notR-x" by {
      assert DirOf(ver)[0] == 'R' && "notR-x"[0] == 'n';
    }
    if DirOf(ver) in {"R-3.6.3", "R-4.1.0", "R-4.0.0"} {
      assert DirOf(ver)[2..] == ver;
    }
    assert DirOf("3.6.3") == "R-3.6.3" && DirOf("4.0.0") == "R-4.0.0" && DirOf("4.1.0") == "R-4.1.0";
  }

  lemma ExampleOrder()
    ensures Sorted(["3.6.3", "4.0.0", "4.1.0"]) && Distinct(["3.6.3", "4.0.0", "4.1.0"])
  {
    assert LexLe("3.6.3", "4.0.0") && LexLe("3.6.3", "4.1.0");
    assert LexLe("4.0.0", "4.1.0") by {
      assert "4.0.0"[1..] == ".0.0" && "4.1.0"[1..] == ".1.0";
      assert ".0.0"[1..] == "0.0" && ".1.0"[1..] == "1.0";
    }
  }

  /** Byte order is not version order: "4.10.0" sorts before "4.9.0". */
  lemma ListingIsByteOrder()
    ensures Listing({"R-4.9.0", "R-4.10.0"}) == ["4.10.0", "4.9.0"]
  {
    var children := {"R-4.9.0", "R-4.10.0"};
    var expected := ["4.10.0", "4.9.0"];
    forall ver ensures DirOf(ver) in children <==> ver in expected {
      ByteOrderDirectory(ver);
    }
    ByteOrderPair();
    ListingIs(children, expected);
  }

  lemma ByteOrderDirectory(ver: string)
    ensures DirOf(ver) in {"R-4.9.0", "R-4.10.0"} <==> ver in ["4.10.0", "4.9.0"]
  {
    if DirOf(ver) in {"R-4.9.0", "R-4.10.0"} {
      assert DirOf(ver)[2..] == ver;
    }
    assert DirOf("4.9.0") == "R-4.9.0" && DirOf("4.10.0") == "R-4.10.0";
  }

  lemma ByteOrderPair()
    ensures Sorted(["4.10.0", "4.9.0"]) && Distinct(["4.10.0", "4.9.0"])
  {
    assert LexLe("4.10.0", "4.9.0") by {
      assert "4.10.0"[1..] == ".10.0" && "4.9.0"[1..] == ".9.0";
      assert ".10.0"[1..] == "10.0" && ".9.0"[1..] == "9.0";
    }
  }

  /** The library paths reported for `vers`. */
  function LibsOf(vers: seq<string>, libOf: string -> string): set<string>
  {
    set ver | ver in vers :: libOf(ver)
  }

  lemma LibsOfExtend(vers: seq<string>, i: nat, libOf: string -> string)
    requires i < |vers|
    ensures LibsOf(vers[..i + 1], libOf) == LibsOf(vers[..i], libOf) + {libOf(vers[i])}
  {
    assert vers[..i + 1] == vers[..i] + [vers[i]];
  }

  lemma ReportsExtend(vers: seq<string>, i: nat, query: string -> string)
    requires i < |vers|
    ensures Reports(vers[..i + 1], query) == Reports(vers[..i], query) + [query(vers[i])]
  {
    assert vers[..i + 1][..i] == vers[..i];
  }

  /** One more report adds its bucket unless it is unknown or already there. */
  lemma NeededExtend(reported: seq<string>, out: string)
    requires AllReadable(reported) && |out| >= 1
    ensures AllReadable(reported + [out])
    ensures Needed(reported + [out])
         == (var before := Needed(reported);
             var b := Bucket(out);
             if b == "" || b in before then before else before + [b])
  {
    assert (reported + [out])[..|reported|] == reported;
  }

  /** Every listed version is installed. */
  lemma ListingInstalled(children: set<string>)
    ensures forall i :: 0 <= i < |Listing(children)| ==> DirOf(Listing(children)[i]) in children
  {
    ListingSpec(children);
  }

  /** With no `R-` directory itself, every listed version has a first byte. */
  lemma ListingNonEmpty(children: set<string>)
    requires DirOf("") !in children
    ensures AllNonEmpty(Listing(children))
  {
    ListingSpec(children);
    var vers := Listing(children);
    forall i | 0 <= i < |vers| ensures |vers[i]| >= 1 {
      assert DirOf(vers[i]) in children;
    }
  }

  /** `files` after writing the launcher of every version in `vers`. */
  function WithLaunchers(files: map<FilePath, string>, vers: set<string>): map<FilePath, string>
  {
    files + map ver | ver in vers :: Launcher(ver) := LauncherLine(ver)
  }

  /** Writing one more launcher extends the set of versions written. */
  lemma WithLaunchersStep(files: map<FilePath, string>, vers: set<string>, ver: string)
    ensures WithLaunchers(files, vers)[Launcher(ver) := LauncherLine(ver)] == WithLaunchers(files, vers + {ver})
  {
  }

  /** `files` after one version's `Renviron.site` is patched. */
  function PatchOne(files: map<FilePath, string>, ver: string): map<FilePath, string>
    requires |ver| >= 1
  {
    var key := SiteEnv(ver);
    files[key := PatchText(if key in files then Some(files[key]) else None, ver)]
  }

  predicate AllNonEmpty(vers: seq<string>)
  {
    forall i :: 0 <= i < |vers| ==> |vers[i]| >= 1
  }

  /** `files` after patching the versions of `vers` in order. */
  function PatchAll(files: map<FilePath, string>, vers: seq<string>): map<FilePath, string>
    requires AllNonEmpty(vers)
    decreases |vers|
  {
    if vers == [] then files
    else PatchOne(PatchAll(files, vers[..|vers| - 1]), vers[|vers| - 1])
  }

  /** Once every listed version is patched, the `Renviron.site` of any
      installed version exists and is marked. */
  lemma ListedMarked(files: map<FilePath, string>, children: set<string>, ver: string)
    requires DirOf(ver) in children && AllNonEmpty(Listing(children))
    ensures var patched := PatchAll(files, Listing(children));
            SiteEnv(ver) in patched && HasMarker(patched[SiteEnv(ver)])
  {
    ListingSpec(children);
    PatchAllMarks(files, Listing(children));
    var k :| 0 <= k < |Listing(children)| && Listing(children)[k] == ver;
  }

  /** Patching one more version of a list extends the patch of its prefix. */
  lemma PatchAllSnoc(files: map<FilePath, string>, vers: seq<string>, i: nat)
    requires AllNonEmpty(vers) && i < |vers|
    ensures AllNonEmpty(vers[..i]) && AllNonEmpty(vers[..i + 1])
    ensures PatchAll(files, vers[..i + 1]) == PatchOne(PatchAll(files, vers[..i]), vers[i])
  {
    assert vers[..i + 1][..i] == vers[..i];
  }

  /** `files` after the directory `R-<ver>` is deleted: its `Renviron.site`
      goes with it. */
  function DeleteTree(files: map<FilePath, string>, vers: set<string>): map<FilePath, string>
  {
    map p | p in files && !(p.SiteEnv? && p.ver in vers) :: files[p]
  }

  /** What `sc_get_default` yields for a given set of files. */
  function ReadDefault(files: map<FilePath, string>): Result<string, Failure>
  {
    if DefaultPointer in files then Ok(DefaultOf(files[DefaultPointer])) else Err(NotConfigured)
  }

  /** How many leading entries of a removal batch are installed when their
      turn comes; the entry after them (if any) aborts the batch. */
  function Removable(children: set<string>, vers: seq<string>): (k: nat)
    ensures k <= |vers|
    decreases |vers|
  {
    if vers == [] || DirOf(vers[0]) !in children then 0
    else 1 + Removable(children - {DirOf(vers[0])}, vers[1..])
  }

  /** The first `Removable` entries are installed and pairwise distinct (a
      repeated entry was deleted by its first occurrence); the next entry, if
      any, is missing or a repeat. */
  lemma {:induction false} RemovableSpec(children: set<string>, vers: seq<string>)
    ensures var k := Removable(children, vers);
            && (forall j :: 0 <= j < k ==> DirOf(vers[j]) in children && vers[j] !in vers[..j])
            && (k < |vers| ==> DirOf(vers[k]) !in children || vers[k] in vers[..k])
    decreases |vers|
  {
    if vers != [] && DirOf(vers[0]) in children {
      var rest := vers[1..];
      var smaller := children - {DirOf(vers[0])};
      RemovableSpec(smaller, rest);
      var k := Removable(children, vers);
      forall j | 1 <= j <= k && j < |vers|
        ensures vers[..j] == [vers[0]] + rest[..j - 1] && vers[j] == rest[j - 1]
      {
      }
      forall j | 1 <= j < k
        ensures DirOf(vers[j]) in children && vers[j] !in vers[..j]
      {
        assert DirOf(rest[j - 1]) in smaller;
        assert DirOf(vers[j]) != DirOf(vers[0]);
      }
      if k < |vers| {
        if DirOf(vers[k]) == DirOf(vers[0]) {
          DirOfInjective(vers[k], vers[0]);
          assert vers[k] in vers[..k];
        } else if rest[k - 1] in rest[..k - 1] {
          assert vers[k] in vers[..k];
        }
      }
    }
  }

  /** How many leading entries of `vers` are installed. */
  function InstalledPrefix(children: set<string>, vers: seq<string>): (k: nat)
    ensures k <= |vers|
    ensures forall j :: 0 <= j < k ==> DirOf(vers[j]) in children
    ensures k < |vers| ==> DirOf(vers[k]) !in children
    decreases |vers|
  {
    if vers == [] || DirOf(vers[0]) !in children then 0
    else 1 + InstalledPrefix(children, vers[1..])
  }

  /** Below the installed prefix, an entry is installed exactly when the
      prefix goes on past it. */
  lemma InstalledPrefixNext(children: set<string>, vers: seq<string>, i: nat)
    requires i <= InstalledPrefix(children, vers) && i < |vers|
    ensures DirOf(vers[i]) in children <==> i < InstalledPrefix(children, vers)
  {
  }

  /** The reports of `query` for each version in order. */
  function Reports(vers: seq<string>, query: string -> string): (r: seq<string>)
    ensures |r| == |vers|
    ensures forall i :: 0 <= i < |vers| ==> r[i] == query(vers[i])
    decreases |vers|
  {
    if vers == [] then [] else Reports(vers[..|vers| - 1], query) + [query(vers[|vers| - 1])]
  }

  /** The Rtools versions `add_rtools` installs for `spec`. */
  ghost function RtoolsVersions(spec: string, children: set<string>, query: string -> string): seq<string>
    requires spec == "rtools" ==> AllReadable(Reports(Listing(children), query))
  {
    if spec == "rtools" then Needed(Reports(Listing(children), query))
    else [RemoveAll(spec, "rtools")]
  }

  /** The run of installers `ran` follows `plan` up to its first failure: on
      success every installer in the plan ran and succeeded; on failure the
      last one that ran is the first that failed, and nothing after it ran. */
  ghost predicate RanUntilFailure(plan: seq<string>, succeeds: string -> bool,
                                  ran: seq<string>, r: Result<(), Failure>)
  {
    && |ran| <= |plan| && ran == plan[..|ran|]
    && (forall i :: 0 <= i < |ran| - 1 ==> succeeds(ran[i]))
    && (r.Ok? ==> ran == plan && forall i :: 0 <= i < |ran| ==> succeeds(ran[i]))
    && (r.Err? ==> ran != [] && !succeeds(ran[|ran| - 1]) && r.error == InstallerFailed(ran[|ran| - 1]))
  }

  function Urls(vers: seq<string>): seq<string>
    requires AllNonEmpty(vers)
  {
    seq(|vers|, i requires 0 <= i < |vers| => InstallerUrl(vers[i]))
  }

  /** Setting the default pointer and reading it back gives the version that
      was set. (That no other file changes is `Installations.SetDefault`'s
      contract.) */
  lemma SetThenGetDefault(files: map<FilePath, string>, ver: string)
    requires SingleLine(ver) && !Occurs(ver, DefaultTag)
    ensures ReadDefault(files[DefaultPointer := DefaultScript(ver)]) == Ok(ver)
  {
    DefaultRoundTrip(ver);
  }

  /** Refreshing launchers keeps every file that existed (scripts of removed
      versions stay), writes the exact line for each listed version, and
      changes nothing else. */
  lemma WithLaunchersFrame(files: map<FilePath, string>, vers: set<string>)
    ensures var after := WithLaunchers(files, vers);
            && files.Keys <= after.Keys
            && (forall ver :: ver in vers ==> Launcher(ver) in after && after[Launcher(ver)] == LauncherLine(ver))
            && (forall p :: p in after && !(p.Launcher? && p.ver in vers) ==> p in files && after[p] == files[p])
  {
  }

  /** One patch leaves its own version's `Renviron.site` existing and marked. */
  lemma PatchOneMarks(files: map<FilePath, string>, ver: string)
    requires |ver| >= 1
    ensures SiteEnv(ver) in PatchOne(files, ver) && HasMarker(PatchOne(files, ver)[SiteEnv(ver)])
  {
    var key := SiteEnv(ver);
    PatchMarks(if key in files then Some(files[key]) else None, ver);
  }

  /** One patch touches no file but its own version's `Renviron.site`. */
  lemma PatchOneFrame(files: map<FilePath, string>, ver: string)
    requires |ver| >= 1
    ensures PatchOne(files, ver).Keys == files.Keys + {SiteEnv(ver)}
    ensures forall p :: p in files && p != SiteEnv(ver) ==> PatchOne(files, ver)[p] == files[p]
  {
  }

  /** After patching, every patched version's `Renviron.site` exists and
      carries the marker. */
  lemma PatchAllMarks(files: map<FilePath, string>, vers: seq<string>)
    requires AllNonEmpty(vers)
    ensures forall i :: 0 <= i < |vers| ==>
              SiteEnv(vers[i]) in PatchAll(files, vers) && HasMarker(PatchAll(files, vers)[SiteEnv(vers[i])])
  {
    forall existing, ver | |ver| >= 1 ensures HasMarker(PatchText(existing, ver)) {
      PatchMarks(existing, ver);
    }
    PatchAllEstablishes(files, vers, HasMarker);
  }

  /** A property that every patched text has holds, after patching, of every
      patched version's `Renviron.site`. */
  lemma {:induction false} PatchAllEstablishes(files: map<FilePath, string>, vers: seq<string>, P: string -> bool)
    requires AllNonEmpty(vers)
    requires forall existing, ver :: |ver| >= 1 ==> P(PatchText(existing, ver))
    ensures forall i :: 0 <= i < |vers| ==>
              SiteEnv(vers[i]) in PatchAll(files, vers) && P(PatchAll(files, vers)[SiteEnv(vers[i])])
    decreases |vers|
  {
    if vers != [] {
      var init := vers[..|vers| - 1];
      var last := vers[|vers| - 1];
      var mid := PatchAll(files, init);
      PatchAllEstablishes(files, init, P);
      PatchOneFrame(mid, last);
      forall i | 0 <= i < |vers| - 1 ensures vers[i] == init[i] {
      }
    }
  }

  /** Patching touches only the `Renviron.site` files of the patched
      versions: every other file is kept as it was, and no other file is
      created. */
  lemma {:induction false} PatchAllFrame(files: map<FilePath, string>, vers: seq<string>)
    requires AllNonEmpty(vers)
    ensures forall p :: p in files && !(p.SiteEnv? && p.ver in vers) ==> p in PatchAll(files, vers) && PatchAll(files, vers)[p] == files[p]
    ensures forall p :: p in PatchAll(files, vers) ==> p in files || (p.SiteEnv? && p.ver in vers)
    decreases |vers|
  {
    if vers != [] {
      var init := vers[..|vers| - 1];
      var last := vers[|vers| - 1];
      var mid := PatchAll(files, init);
      var after := PatchAll(files, vers);
      PatchAllFrame(files, init);
      PatchOneFrame(mid, last);
      assert vers == init + [last];
      forall p | p in files && !(p.SiteEnv? && p.ver in vers) ensures p in after && after[p] == files[p] {
        assert !(p.SiteEnv? && p.ver in init);
      }
      forall p | p in after ensures p in files || (p.SiteEnv? && p.ver in vers) {
        if p != SiteEnv(last) {
          assert p in mid;
        }
      }
    }
  }

  /** Files whose every patched version already carries the marker are left
      as they are by a patch. */
  lemma {:induction false} PatchAllMarkedUnchanged(files: map<FilePath, string>, vers: seq<string>)
    requires AllNonEmpty(vers)
    requires forall i :: 0 <= i < |vers| ==> SiteEnv(vers[i]) in files && HasMarker(files[SiteEnv(vers[i])])
    ensures PatchAll(files, vers) == files
    decreases |vers|
  {
    if vers != [] {
      var init := vers[..|vers| - 1];
      PatchAllMarkedUnchanged(files, init);
      assert files[SiteEnv(vers[|vers| - 1]) := files[SiteEnv(vers[|vers| - 1])]] == files;
    }
  }

  /** `patch_for_rtools` is idempotent: patching twice leaves every file
      byte-identical to patching once. */
  lemma PatchAllIdempotent(files: map<FilePath, string>, vers: seq<string>)
    requires AllNonEmpty(vers)
    ensures PatchAll(PatchAll(files, vers), vers) == PatchAll(files, vers)
  {
    PatchAllMarks(files, vers);
    PatchAllMarkedUnchanged(PatchAll(files, vers), vers);
  }

  class Installations {
    /** Names of the immediate children of `C:\Program Files\R`. */
    var children: set<string>
    /** Contents of the generated and patched files that exist. */
    var files: map<FilePath, string>
    /** User library directories that exist. */
    var libs: set<string>

    /** Every child name has the two characters `sc_get_list` slices off,
        and every `Renviron.site` lies in an existing `R-<ver>` directory. */
    ghost predicate Valid()
      reads this
    {
      && (forall name :: name in children ==> |name| >= 2)
      && (forall p :: p in files && p.SiteEnv? ==> DirOf(p.ver) in children)
    }

    /** No installed version is empty, so its first byte can be sliced. */
    ghost predicate EpochsReadable()
      reads this
    {
      DirOf("") !in children
    }

    constructor (children: set<string>, files: map<FilePath, string>, libs: set<string>)
      requires forall name :: name in children ==> |name| >= 2
      requires forall p :: p in files && p.SiteEnv? ==> DirOf(p.ver) in children
      ensures Valid()
      ensures this.children == children && this.files == files && this.libs == libs
    {
      this.children, this.files, this.libs := children, files, libs;
    }

    /** `sc_get_list`: collect the `R-` children without their prefix, then
        sort them. */
    method GetList() returns (vers: seq<string>)
      requires Valid()
      ensures vers == Listing(children)
    {
      var found: seq<string> := [];
      var rest := children;
      while rest != {}
        invariant rest <= children
        invariant Distinct(found)
        invariant forall ver :: ver in found <==> DirOf(ver) in children && DirOf(ver) !in rest
        decreases rest
      {
        var name :| name in rest;
        if name[..2] == "R-" {
          assert DirOf(name[2..]) == name;
          found := found + [name[2..]];
        }
        rest := rest - {name};
      }
      var a := new string[|found|](i requires 0 <= i < |found| => found[i]);
      assert a[..] == found;
      SortInPlace(a);
      vers := a[..];
      DistinctPermutation(found, vers);
      ListingSpec(children);
      forall ver ensures ver in vers <==> ver in Listing(children) {
        assert ver in vers <==> ver in multiset(vers);
        assert ver in found <==> ver in multiset(found);
      }
      SortedUnique(vers, Listing(children));
    }

    /** `check_installed`: the version is in the listing. */
    method CheckInstalled(ver: string) returns (installed: bool)
      requires Valid()
      ensures installed <==> DirOf(ver) in children
    {
      var vers := GetList();
      ListingSpec(children);
      installed := ver in vers;
    }

    /** `sc_system_make_links`: write `bin\R-<ver>.bat` for every installed
        version; no other file is touched or removed. */
    method MakeLinks()
      requires Valid()
      modifies this`files
      ensures Valid()
      ensures files == WithLaunchers(old(files), Versions(children))
    {
      var vers := GetList();
      ghost var written: set<string> := {};
      var i := 0;
      while i < |vers|
        invariant 0 <= i <= |vers|
        invariant forall ver :: ver in written <==> ver in vers[..i]
        invariant files == WithLaunchers(old(files), written)
      {
        WithLaunchersStep(old(files), written, vers[i]);
        files := files[Launcher(vers[i]) := LauncherLine(vers[i])];
        written := written + {vers[i]};
        assert vers[..i + 1] == vers[..i] + [vers[i]];
        i := i + 1;
      }
      assert vers[..i] == vers;
      SortedOfSpec(Versions(children));
      assert written == Versions(children);
      WithLaunchersFrame(old(files), written);
    }

    /** `sc_set_default`: overwrite `bin\R.bat` with `::<ver>` and the
        version's launcher line, whether or not `ver` is installed. */
    method SetDefault(ver: string)
      modifies this`files
      ensures old(Valid()) ==> Valid()
      ensures files == old(files)[DefaultPointer := DefaultScript(ver)]
    {
      files := files[DefaultPointer := DefaultScript(ver)];
    }

    /** `sc_get_default`: fails when `bin\R.bat` does not exist; otherwise
        the first line without its `::`, or "" for an empty file. */
    method GetDefault() returns (r: Result<string, Failure>)
      ensures r == ReadDefault(files)
    {
      if DefaultPointer !in files {
        return Err(NotConfigured);
      }
      var lines := Lines(files[DefaultPointer]);
      var first := "";
      if |lines| > 0 {
        first := RemoveAll(lines[0], DefaultTag);
      }
      r := Ok(first);
    }

    /** The inner loop of `patch_for_rtools`: read the lines until one starts
        with the marker. */
    static method ScanForMarker(contents: string) returns (found: bool)
      ensures found == HasMarker(contents)
    {
      var lines := Lines(contents);
      found := false;
      var i := 0;
      while i < |lines|
        invariant 0 <= i <= |lines|
        invariant forall j :: 0 <= j < i ==> !StartsWith(lines[j], Marker)
      {
        if |lines[i]| >= 14 && lines[i][..14] == Marker {
          found := true;
          return;
        }
        i := i + 1;
      }
    }

    /** `patch_for_rtools`: for each installed version in listing order,
        append the stanza chosen by its epoch to `Renviron.site` unless a
        line already carries the marker. */
    method PatchForRtools()
      requires Valid() && EpochsReadable()
      modifies this`files
      ensures Valid()
      ensures AllNonEmpty(Listing(children))
      ensures files == PatchAll(old(files), Listing(children))
    {
      var vers := GetList();
      ListingNonEmpty(children);
      ListingInstalled(children);
      ghost var start := files;
      var i := 0;
      while i < |vers|
        invariant 0 <= i <= |vers|
        invariant Valid()
        invariant AllNonEmpty(vers[..i])
        invariant files == PatchAll(start, vers[..i])
      {
        PatchVersion(vers[i]);
        PatchAllSnoc(start, vers, i);
        i := i + 1;
      }
      assert vers[..i] == vers;
    }

    /** One turn of `patch_for_rtools`'s loop: `ok` starts as "the file
        exists" and becomes "some line starts with the marker"; when it is
        false the stanza is appended, creating the file if needed. */
    method PatchVersion(ver: string)
      requires Valid() && |ver| >= 1 && DirOf(ver) in children
      modifies this`files
      ensures Valid()
      ensures files == PatchOne(old(files), ver)
    {
      var envfile := SiteEnv(ver);
      var ok := envfile in files;
      if ok {
        ok := ScanForMarker(files[envfile]);
      }
      if !ok {
        var existing := if envfile in files then files[envfile] else "";
        var txt := StanzaText(ver);
        assert existing + txt + "\n" == existing + Stanza(ver);
        assert envfile !in files ==> existing + Stanza(ver) == Stanza(ver);
        files := files[envfile := existing + txt + "\n"];
      }
    }

    /** `txt4` for a 4.x or `devel` version, `txt3` otherwise: the stanza
        without the line feed `writeln!` adds. */
    static method StanzaText(ver: string) returns (txt: string)
      requires |ver| >= 1
      ensures txt + "\n" == Stanza(ver)
    {
      var rtools4 := ver[..1] == "4" || ver == "devel";
      assert rtools4 == IsRtools4(ver);
      txt := StanzaHead + (if rtools4 then Rtools4Path else Rtools3Path) + StanzaTail;
    }

    /** `sc_rm`: with no versions, nothing happens. Otherwise the versions are
        removed in order: each must be installed when its turn comes, and its
        directory (with its `Renviron.site`) is deleted. The first one that is
        not installed stops the batch; deletions already made stay, and the
        launchers are refreshed only when every entry succeeded. */
    method Remove(vers: Option<seq<string>>) returns (r: Result<(), Failure>)
      requires Valid()
      modifies this`children, this`files
      ensures Valid()
      ensures vers.None? ==> children == old(children) && files == old(files) && r.Ok?
      ensures vers.Some? ==>
        var vs := vers.value;
        var k := Removable(old(children), vs);
        var gone := set j | 0 <= j < k :: vs[j];
        && children == old(children) - (set ver | ver in gone :: DirOf(ver))
        && r == (if k == |vs| then Ok(()) else Err(NotInstalled(vs[k])))
        && files == (if k == |vs| then WithLaunchers(DeleteTree(old(files), gone), Versions(children))
                     else DeleteTree(old(files), gone))
    {
      if vers.None? {
        return Ok(());
      }
      var vs := vers.value;
      ghost var k := Removable(old(children), vs);
      ghost var gone: set<string> := {};
      var i := 0;
      while i < |vs|
        invariant 0 <= i <= |vs|
        invariant i <= k
        invariant Valid()
        invariant gone == set j | 0 <= j < i :: vs[j]
        invariant children == old(children) - (set ver | ver in gone :: DirOf(ver))
        invariant files == DeleteTree(old(files), gone)
        invariant Removable(children, vs[i..]) == k - i
      {
        var installed := CheckInstalled(vs[i]);
        if !installed {
          return Err(NotInstalled(vs[i]));
        }
        children := children - {DirOf(vs[i])};
        files := DeleteTree(files, {vs[i]});
        forall p | p in files && p.SiteEnv? ensures DirOf(p.ver) in children {
          if DirOf(p.ver) == DirOf(vs[i]) {
            DirOfInjective(p.ver, vs[i]);
          }
        }
        gone := gone + {vs[i]};
        i := i + 1;
      }
      MakeLinks();
      r := Ok(());
    }

    /** `sc_add`: a spec starting with `rtools` is handed to `add_rtools`
        and nothing else happens. Otherwise R `resolved` is installed by the
        installer at `target`; a failing installer stops everything, and a
        successful one leaves the version's directory, after which the user
        libraries of all installed versions are created, the launchers are
        written and the Rtools stanzas appended. */
    method Add(spec: string, resolved: string, target: string, installerSucceeded: bool,
               libOf: string -> string, query: string -> string, succeeds: string -> bool)
      returns (ran: seq<string>, r: Result<(), Failure>)
      requires Valid()
      requires !StartsWith(spec, "rtools") ==> EpochsReadable()
      requires spec == "rtools" ==> forall ver :: DirOf(ver) in children ==> |query(ver)| >= 1
      requires StartsWith(spec, "rtools") && spec != "rtools" ==> |RemoveAll(spec, "rtools")| >= 1
      requires !StartsWith(spec, "rtools") ==> |resolved| >= 1
      modifies this
      ensures Valid()
      ensures old(EpochsReadable()) ==> EpochsReadable()
      ensures !StartsWith(spec, "rtools") ==> EpochsReadable()
      ensures StartsWith(spec, "rtools") ==>
                && children == old(children) && files == old(files) && libs == old(libs)
                && (spec == "rtools" ==> AllReadable(Reports(Listing(children), query)))
                && AllNonEmpty(RtoolsVersions(spec, children, query))
                && RanUntilFailure(Urls(RtoolsVersions(spec, children, query)), succeeds, ran, r)
      ensures !StartsWith(spec, "rtools") && !installerSucceeded ==>
                && children == old(children) && files == old(files) && libs == old(libs)
                && ran == [] && r == Err(InstallerFailed(target))
      ensures !StartsWith(spec, "rtools") && installerSucceeded ==>
                && children == old(children) + {DirOf(resolved)}
                && libs == old(libs) + LibsOf(Listing(children), libOf)
                && AllNonEmpty(Listing(children))
                && files == PatchAll(WithLaunchers(old(files), Versions(children)), Listing(children))
                && SiteEnv(resolved) in files && HasMarker(files[SiteEnv(resolved)])
                && ran == [] && r == Ok(())
    {
      if |spec| >= 6 && spec[..6] == "rtools" {
        ran, r := AddRtools(spec, query, succeeds);
        return;
      }
      ran := [];
      if !installerSucceeded {
        return [], Err(InstallerFailed(target));
      }
      ProvisionAfterInstall(resolved, libOf);
      r := Ok(());
    }

    /** What follows a successful installer run in `sc_add`: the version's
        directory exists, then libraries, launchers and Rtools stanzas. */
    method ProvisionAfterInstall(resolved: string, libOf: string -> string)
      requires Valid() && EpochsReadable() && |resolved| >= 1
      modifies this
      ensures Valid() && EpochsReadable()
      ensures children == old(children) + {DirOf(resolved)}
      ensures libs == old(libs) + LibsOf(Listing(children), libOf)
      ensures AllNonEmpty(Listing(children))
      ensures files == PatchAll(WithLaunchers(old(files), Versions(children)), Listing(children))
      ensures SiteEnv(resolved) in files && HasMarker(files[SiteEnv(resolved)])
    {
      children := children + {DirOf(resolved)};
      assert DirOf("") != DirOf(resolved);
      var _ := CreateLib(None, libOf);
      ListingInstalled(children);
      assert InstalledPrefix(children, Listing(children)) == |Listing(children)|;
      assert Listing(children)[..|Listing(children)|] == Listing(children);
      MakeLinks();
      ghost var linked := files;
      PatchForRtools();
      ListedMarked(linked, children, resolved);
    }

    /** `system_create_lib`: for each version (by default every installed
        one), query its user library path and create that directory unless
        it exists; an existing directory is not an error. A version that is
        not installed stops the loop, keeping the directories already made. */
    method CreateLib(vers: Option<seq<string>>, libOf: string -> string) returns (r: Result<(), Failure>)
      requires Valid()
      modifies this`libs
      ensures Valid()
      ensures var vs := if vers.Some? then vers.value else Listing(children);
              var k := InstalledPrefix(children, vs);
              && libs == old(libs) + LibsOf(vs[..k], libOf)
              && r == (if k == |vs| then Ok(()) else Err(NotInstalled(vs[k])))
    {
      var vs;
      if vers.Some? {
        vs := vers.value;
      } else {
        vs := GetList();
      }
      r := CreateLibs(vs, libOf);
    }

    /** The loop of `system_create_lib` over an explicit list of versions. */
    method CreateLibs(vs: seq<string>, libOf: string -> string) returns (r: Result<(), Failure>)
      requires Valid()
      modifies this`libs
      ensures Valid()
      ensures var k := InstalledPrefix(children, vs);
              && libs == old(libs) + LibsOf(vs[..k], libOf)
              && r == (if k == |vs| then Ok(()) else Err(NotInstalled(vs[k])))
    {
      ghost var k := InstalledPrefix(children, vs);
      var i := 0;
      while i < |vs|
        invariant 0 <= i <= k
        invariant libs == old(libs) + LibsOf(vs[..i], libOf)
      {
        var installed := CheckInstalled(vs[i]);
        InstalledPrefixNext(children, vs, i);
        if !installed {
          return Err(NotInstalled(vs[i]));
        }
        var lib := libOf(vs[i]);
        if lib !in libs {
          libs := libs + {lib};
        }
        LibsOfExtend(vs, i, libOf);
        i := i + 1;
      }
      assert vs[..i] == vs[..k];
      r := Ok(());
    }

    /** One turn of `get_rtools_needed`'s loop: push "35" for a 3.x report
        and "40" for a 4.x report unless `res` already contains it. */
    static method PushBucket(res: seq<string>, out: string) returns (res': seq<string>)
      requires |out| >= 1
      ensures res' == (var b := Bucket(out); if b == "" || b in res then res else res + [b])
    {
      var v35, v40 := "35", "40";
      res' := res;
      if out[..1] == "3" {
        if v35 !in res {
          res' := res + [v35];
        }
      } else if out[..1] == "4" {
        if v40 !in res {
          res' := res + [v40];
        }
      }
    }

    /** `get_rtools_needed`: ask each installed R for its version, in listing
        order, and collect the Rtools buckets they need. */
    method GetRtoolsNeeded(query: string -> string) returns (res: seq<string>)
      requires Valid()
      requires forall ver :: DirOf(ver) in children ==> |query(ver)| >= 1
      ensures AllReadable(Reports(Listing(children), query))
      ensures res == Needed(Reports(Listing(children), query))
    {
      var vers := GetList();
      ListingInstalled(children);
      res := CollectBuckets(vers, query);
    }

    /** The loop of `get_rtools_needed` over the listed versions. */
    static method CollectBuckets(vers: seq<string>, query: string -> string) returns (res: seq<string>)
      requires forall i :: 0 <= i < |vers| ==> |query(vers[i])| >= 1
      ensures AllReadable(Reports(vers, query))
      ensures res == Needed(Reports(vers, query))
    {
      res := [];
      var i := 0;
      while i < |vers|
        invariant 0 <= i <= |vers|
        invariant AllReadable(Reports(vers[..i], query))
        invariant res == Needed(Reports(vers[..i], query))
      {
        var out := query(vers[i]);
        ghost var reports := Reports(vers[..i], query);
        ReportsExtend(vers, i, query);
        NeededExtend(reports, out);
        res := PushBucket(res, out);
        i := i + 1;
      }
      assert vers[..i] == vers;
    }

    /** The installer file name `add_rtools` builds from the epoch test. */
    static method InstallerFile(ver: string) returns (filename: string)
      requires |ver| >= 1
      ensures filename == InstallerName(ver)
    {
      var rtools4 := ver[..1] == "4" || ver == "devel";
      assert rtools4 == IsRtools4(ver);
      filename := if rtools4 then "rtools" + ver + "-x86_64.exe" else "Rtools" + ver + ".exe";
    }

    /** `add_rtools`: the bare spec `rtools` installs every bucket the
        installed versions need; `rtools<ver>` installs `<ver>` (the spec with
        every `rtools` removed). Each installer is downloaded and run in turn
        (`succeeds` stands for both steps); the first failure stops the batch. */
    method AddRtools(spec: string, query: string -> string, succeeds: string -> bool)
      returns (ran: seq<string>, r: Result<(), Failure>)
      requires Valid()
      requires spec == "rtools" ==> forall ver :: DirOf(ver) in children ==> |query(ver)| >= 1
      requires spec != "rtools" ==> |RemoveAll(spec, "rtools")| >= 1
      ensures spec == "rtools" ==> AllReadable(Reports(Listing(children), query))
      ensures AllNonEmpty(RtoolsVersions(spec, children, query))
      ensures RanUntilFailure(Urls(RtoolsVersions(spec, children, query)), succeeds, ran, r)
    {
      var vers;
      if spec == "rtools" {
        vers := GetRtoolsNeeded(query);
        NeededProperties(Reports(Listing(children), query));
      } else {
        vers := [RemoveAll(spec, "rtools")];
      }
      ran, r := RunInstallers(vers, succeeds);
    }

    /** Download and run each version's installer in turn, stopping at the
        first failure. */
    static method RunInstallers(vers: seq<string>, succeeds: string -> bool)
      returns (ran: seq<string>, r: Result<(), Failure>)
      requires AllNonEmpty(vers)
      ensures RanUntilFailure(Urls(vers), succeeds, ran, r)
    {
      ghost var plan := Urls(vers);
      ran := [];
      var i := 0;
      while i < |vers|
        invariant 0 <= i <= |vers|
        invariant ran == plan[..i]
        invariant forall j :: 0 <= j < i ==> succeeds(ran[j])
      {
        var filename := InstallerFile(vers[i]);
        var url := UrlBase + filename;
        assert url == plan[i];
        ran := ran + [url];
        if !succeeds(url) {
          return ran, Err(InstallerFailed(url));
        }
        i := i + 1;
      }
      r := Ok(());
    }
  }
}
