# rig on Windows: installation lifecycle and launcher state

This project models the Windows back end of rig, the R installation manager
(`src/windows.rs`). Every R version lives in a directory `R-<ver>` under
`C:\Program Files\R`. rig keeps three kinds of files there:

- one launcher script `bin\R-<ver>.bat` per version;
- a default pointer `bin\R.bat`, whose first line `::<ver>` names the default
  version;
- an `etc\Renviron.site` per version, to which a marked stanza is appended so
  that Rtools is found. The stanza shape depends on the version: one for 4.x
  and `devel`, another for anything else (3.x, but also `5.0.0` or `2.15.3`).

The model is a class `Windows.Installations` with three fields:

- `children`: the names directly under the root;
- `files`: the generated and patched files, keyed by an abstract `FilePath`;
- `libs`: the user library directories that exist.

Each command of the source becomes a method that changes these fields. It is
proved against a specification function:

- `Listing` for `sc_get_list`;
- `WithLaunchers` for `sc_system_make_links`;
- `PatchAll` for `patch_for_rtools`;
- `Removable` and `DeleteTree` for `sc_rm`;
- `InstalledPrefix` and `LibsOf` for `system_create_lib`;
- `Needed` for `get_rtools_needed`;
- `Urls` and `RanUntilFailure` for `add_rtools`.

The properties the program promises are proved as lemmas about those functions.

Modules:

- `Text`: `BufRead::lines`, `str::replace` with an empty replacement, prefix tests.
- `Ordering`: the byte order `Vec::sort` uses on strings, and an in-place insertion sort standing for it.
- `Epoch`: the 4.x/`devel` test.
- `Launchers`: the launcher and default-pointer text.
- `Renviron`: the Rtools stanza and its marker.
- `Rtools`: installer names and the needed buckets.
- `Windows`: the state and the commands.

Some inputs are supplied by the caller as parameters:

- what the installed R reports when it is run: `query` for its version, `libOf` for `R_LIBS_USER`;
- whether an installer succeeds: `succeeds` for Rtools, `installerSucceeded` for R;
- the version `sc_add` resolved and the installer path it downloaded: `resolved`, `target`.

A Rust panic on a missing R version or a failed installer becomes an `Err`
result. The state reached up to that point is kept, because the source has
already changed the disk when it panics.

A panic caused by slicing a short string would mean the source has no behaviour for that input. These cases become preconditions:

- `Installations.Valid`: every root entry name has at least two characters
  (`&fname[0..2]`). This also excludes a one-character name of two bytes,
  such as `é`, which the source accepts.
- `Installations.EpochsReadable`: no directory is named exactly `R-`, so every listed version has a first byte (`&ver[0..1]`). `Installations.Add` demands it only for a spec that does not start with `rtools`, because `add_rtools` never slices a listed version; an `rtools` spec keeps it if it held.
- `Installations.Add` requires a non-empty resolved version when the spec does not start with `rtools`: an empty one would create the directory `R-`, and `patch_for_rtools` would then panic slicing its first byte (src/windows.rs:83).
- Every reported R version is non-empty.
- A spec such as `rtoolsrtools`, which starts with `rtools` but is empty once every `rtools` is removed (src/windows.rs:48), would panic at `&ver[0..1]` (src/windows.rs:52). `Installations.AddRtools` and `Installations.Add` require that remainder to be non-empty.

`Installations.Valid` also requires that every `Renviron.site` lies in an
existing `R-<ver>` directory, as it does on disk. The constructor establishes
`Valid`, and every method that changes the state keeps it.

Two behaviours of the code are easy to miss:

- An empty `bin\R.bat` reads as the empty version, not an error (src/windows.rs:313-319).
- A failure to open `Renviron.site` for appending panics (src/windows.rs:102-107), while a failed write is only reported (src/windows.rs:120-122).

## Model

| member | source | states |
|---|---|---|
| Windows.DirOf | src/windows.rs:85 | the name `R-<ver>` of a version's directory under the root, built the same way at lines 172 and 243 |
| Text.StartsWith | src/windows.rs:22 | the text is at least as long as the prefix and begins with it: the test `&x[0..n] == p` of lines 22, 95 and 285 |
| Windows.Installations.Valid | src/windows.rs:285 | every root entry name has at least two characters, so `&fname[0..2]` can be taken, and every `Renviron.site` lies in an existing `R-<ver>` directory |
| Windows.Installations.EpochsReadable | src/windows.rs:83 | no root entry is named exactly `R-`, so every listed version has the first byte that line 83 slices |
| Windows.Versions | src/windows.rs:281-288 | the set of root entry names that start with `R-`, with those two characters removed |
| Windows.Listing | src/windows.rs:275-293 | `Versions` enumerated in ascending byte order: what `sc_get_list` returns |
| Ordering.LexLe | src/windows.rs:291 | `a` sorts at or before `b` in the order `vers.sort()` uses: the first differing character decides, and a proper prefix sorts first |
| Ordering.Sorted | src/windows.rs:291 | every earlier element sorts at or before every later one |
| Ordering.Distinct | src/windows.rs:281-288 | no element appears twice, as no two root entries share a name |
| Ordering.SortedOf | src/windows.rs:291 | the ascending enumeration of a finite set, built by ordered insertion (its properties are `SortedOfSpec`) |
| Windows.ListingInstalled | src/windows.rs:285-288 | every listed version's `R-<ver>` directory exists |
| Windows.Installations.GetList | src/windows.rs:275-293 | returns `Listing(children)`: the names starting with `R-`, prefix removed, sorted in byte order |
| Windows.ListingSpec | src/windows.rs:275-293 | the listing is ascending, has no duplicates and holds exactly the versions whose `R-<ver>` directory exists |
| Windows.ListingIs | src/windows.rs:275-293 | an ascending duplicate-free sequence holding exactly the installed versions is the listing |
| Windows.ListingExample | src/windows.rs:284-291 | `{R-3.6.3, R-4.1.0, notR-x, R-4.0.0}` lists as `[3.6.3, 4.0.0, 4.1.0]`; the non-R entry is skipped |
| Windows.ListingIsByteOrder | src/windows.rs:291 | the sort is by bytes, not by version: `4.10.0` comes before `4.9.0` |
| Windows.VersionsMembership | src/windows.rs:285-288 | a version is found exactly when the directory `R-<ver>` exists |
| Windows.DirOfInjective | src/windows.rs:285-288 | distinct versions have distinct directories |
| Ordering.SortInPlace | src/windows.rs:291 | the array ends up sorted in byte order and is a permutation of its input |
| Ordering.SinkLast | src/windows.rs:291 | one insertion step: the ascending prefix grows by one, and the array stays a permutation |
| Ordering.SinkingStep | src/windows.rs:291 | swapping an element with a larger left neighbour keeps the prefix, without that element, ascending |
| Ordering.SinkingDone | src/windows.rs:291 | once the element is at the front or behind a smaller one, the prefix is ascending |
| Ordering.SortedUnique | src/windows.rs:291 | two ascending duplicate-free sequences with the same elements are equal, so the sorted listing is unique |
| Ordering.SortedOfSpec | src/windows.rs:291 | the sorted enumeration of a set is ascending, duplicate-free and has exactly the set's elements |
| Ordering.Insert | src/windows.rs:291 | the result is one longer and holds exactly the new element and the old ones |
| Ordering.InsertSorted | src/windows.rs:291 | inserting an absent element into a sorted duplicate-free sequence keeps it sorted and duplicate-free |
| Ordering.LexLeReflexive | src/windows.rs:291 | every string is at most itself in byte order |
| Ordering.LexLeTotal | src/windows.rs:291 | any two strings are comparable in byte order |
| Ordering.LexLeAntisymmetric | src/windows.rs:291 | strings each at most the other in byte order are equal |
| Ordering.LexLeTransitive | src/windows.rs:291 | byte order is transitive |
| Ordering.DistinctPermutation | src/windows.rs:291 | a permutation of a duplicate-free sequence is duplicate-free |
| Windows.Installations.CheckInstalled | src/windows.rs:170 | a version is installed iff its directory exists |
| Launchers.LauncherLine | src/windows.rs:247-248 | the text of `R-<ver>.bat`: `@"C:\Program Files\R\R-<ver>\bin\R" %*` and a line feed |
| Windows.WithLaunchers | src/windows.rs:237-251 | the files with `R-<ver>.bat` set to `LauncherLine(ver)` for every given version, every other file kept |
| Windows.Installations.MakeLinks | src/windows.rs:237-251 | the new files are the old ones with `R-<ver>.bat` written for every installed version |
| Windows.WithLaunchersStep | src/windows.rs:241-250 | writing one more launcher file is `WithLaunchers` over one more version |
| Windows.WithLaunchersFrame | src/windows.rs:237-251 | every file that existed still exists, including launchers of removed versions; each listed version gets exactly the line `@"C:\Program Files\R\R-<ver>\bin\R" %*` followed by a line feed; nothing else changes |
| Launchers.LauncherIsOneLine | src/windows.rs:246-247 | a launcher is a single line ending in its only line feed |
| Launchers.DefaultScript | src/windows.rs:298-299 | the text of `R.bat`: `::<ver>`, a line feed, then the version's launcher line |
| Windows.ReadDefault | src/windows.rs:304-320 | NotConfigured when `R.bat` is missing, otherwise `DefaultOf` of its contents |
| Windows.Installations.SetDefault | src/windows.rs:295-302 | `R.bat` becomes `::<ver>`, a line feed, and the version's launcher line; no other file changes |
| Windows.Installations.GetDefault | src/windows.rs:304-320 | returns `ReadDefault(files)`: NotConfigured exactly when `R.bat` does not exist, otherwise the first line with every `::` removed |
| Launchers.DefaultOf | src/windows.rs:311-319 | an empty pointer file reads as the empty version; the result is never longer than the first line |
| Launchers.DefaultRoundTrip | src/windows.rs:295-320 | reading back the script written for `ver` gives `ver`, for a version with no line break and no `::` |
| Windows.SetThenGetDefault | src/windows.rs:295-320 | after `sc_set_default(ver)`, `sc_get_default` returns `ver` |
| Launchers.LineEndAfter | src/windows.rs:314 | the first line of `a` + line feed + `b` ends right after `a` |
| Text.DropCR | src/windows.rs:93 | a line with its final carriage return removed, if it has one, as `BufRead::lines` strips it before a line feed |
| Text.Lines | src/windows.rs:93 | an empty text has no lines, and no line contains a line feed |
| Text.LinesCons | src/windows.rs:93 | a text with a line feed yields its first line, without a carriage return before the feed, followed by the lines after it |
| Text.LineEnd | src/windows.rs:93 | the index returned is the first line feed, or the end when there is none |
| Text.RemoveAll | src/windows.rs:315 | the result is no longer than the input, and equally long exactly when the pattern does not occur |
| Text.RemoveAllAbsent | src/windows.rs:315 | text without `::` is left as it is |
| Text.RemoveAllKeepsOrDrops | src/windows.rs:315 | a result as long as the input equals the input |
| Text.RemoveAllLeading | src/windows.rs:315 | a leading occurrence is removed and scanning resumes after it |
| Renviron.HasMarker | src/windows.rs:93-98 | some line of the text (as `BufRead::lines` splits it) starts with `# added by rim` |
| Epoch.IsRtools4 | src/windows.rs:52 | the version belongs to the Rtools 4.x family: its first character is `4`, or it is `devel` (the same test as line 83) |
| Renviron.PathLine | src/windows.rs:113-118 | `txt4`'s PATH line through `RTOOLS40_HOME` for a 4.x or `devel` version, `txt3`'s `C:\Rtools\bin` line otherwise |
| Renviron.Stanza | src/windows.rs:109-120 | what `writeln!` appends: `head`, the PATH line, `tail` and a final line feed |
| Renviron.PatchText | src/windows.rs:88-122 | a marked file is kept; an unmarked file gains the stanza at its end; a missing file becomes the stanza |
| Windows.PatchOne | src/windows.rs:84-122 | the files with the version's `Renviron.site` replaced by `PatchText` of its old contents, or created |
| Windows.PatchAll | src/windows.rs:78-125 | `PatchOne` applied to each version of the list in turn, from first to last |
| Windows.Installations.ScanForMarker | src/windows.rs:88-99 | reports true iff some line of the file starts with `# added by rim` |
| Windows.Installations.PatchVersion | src/windows.rs:83-122 | one version's `Renviron.site` becomes `PatchOne` of the old files |
| Windows.Installations.StanzaText | src/windows.rs:83-120 | the text written is `txt4` for a 4.x or `devel` version and `txt3` otherwise, and with the line feed of `writeln!` it is the stanza |
| Windows.Installations.PatchForRtools | src/windows.rs:78-125 | the files become `PatchAll` of the old files over the listing |
| Renviron.PatchMarks | src/windows.rs:88-122 | after a patch the file carries the marker |
| Renviron.PatchIdempotent | src/windows.rs:88-122 | patching a file twice leaves it byte-identical to patching once |
| Renviron.PatchAppendsOneStanza | src/windows.rs:83-122 | an unmarked or missing file keeps its old contents as a prefix and gains exactly one stanza; it is the `RTOOLS40_HOME` one iff the version starts with `4` or is `devel` |
| Renviron.StanzaOpensWithMarker | src/windows.rs:109-110 | the stanza opens with a line feed and then the marker |
| Renviron.AppendMarked | src/windows.rs:93-120 | appending text that opens with a line feed and the marker makes the file marked |
| Renviron.MarkerAfterFeed | src/windows.rs:93-98 | a marker right after a line feed starts a line of its own, which the scan finds |
| Renviron.FirstLineMarked | src/windows.rs:93-98 | text starting with the marker has a first line starting with it, so it is marked |
| Renviron.MarkedTail | src/windows.rs:93-98 | text whose later lines are marked is marked |
| Windows.PatchOneMarks | src/windows.rs:83-122 | one patch leaves its version's `Renviron.site` existing and marked |
| Windows.PatchOneFrame | src/windows.rs:84-122 | one patch touches no file but its version's `Renviron.site` |
| Windows.PatchAllMarks | src/windows.rs:78-125 | after patching, every listed version's `Renviron.site` exists and is marked |
| Windows.ListedMarked | src/windows.rs:78-125 | once every listed version is patched, any installed version's `Renviron.site` exists and is marked |
| Windows.PatchAllSnoc | src/windows.rs:80-124 | patching a list one version longer applies one more `patch_for_rtools` turn to the patch of its prefix |
| Windows.PatchAllEstablishes | src/windows.rs:82-124 | a property that every patched text has holds afterwards of every patched version's file |
| Windows.PatchAllFrame | src/windows.rs:78-125 | patching keeps every other file as it was and creates only `Renviron.site` files of the listed versions |
| Windows.PatchAllMarkedUnchanged | src/windows.rs:88-101 | when every file is already marked, a patch changes nothing |
| Windows.PatchAllIdempotent | src/windows.rs:78-125 | running `patch_for_rtools` twice gives the same files as once |
| Windows.ListingNonEmpty | src/windows.rs:83 | with no directory named `R-`, every listed version has a first byte |
| Windows.DeleteTree | src/windows.rs:177 | the files with the `Renviron.site` of every deleted version dropped, every other file kept |
| Windows.Removable | src/windows.rs:169-181 | how many leading entries `sc_rm` deletes before one is missing, counting a repeat as missing |
| Windows.Installations.Remove | src/windows.rs:162-184 | with no versions nothing happens. Otherwise the versions are removed in order until one is not installed, with their `Renviron.site` files. Launchers are refreshed only when every removal succeeded |
| Windows.RemovableSpec | src/windows.rs:166-181 | the entries removed are installed when their turn comes and pairwise distinct; the entry that aborts is missing or a repeat |
| Windows.LibsOf | src/windows.rs:197-230 | the set of library paths that R reports for the given versions |
| Windows.Installations.CreateLib | src/windows.rs:190-235 | defaults to the listing; creates the libraries of the leading installed versions; stops at the first version that is not installed with NotInstalled |
| Windows.Installations.CreateLibs | src/windows.rs:196-234 | the libraries of the installed prefix are added, existing ones kept; the result names the version that stopped the loop |
| Windows.InstalledPrefix | src/windows.rs:196-197 | the leading entries counted are installed, and the next one is not |
| Windows.InstalledPrefixNext | src/windows.rs:196-197 | within the installed prefix, `check_installed` passes exactly while the prefix goes on |
| Windows.LibsOfExtend | src/windows.rs:216-230 | one more version adds exactly its library |
| Rtools.Bucket | src/windows.rs:147-157 | "35" for a report starting with `3`, "40" for one starting with `4`, none otherwise |
| Rtools.Needed | src/windows.rs:127-160 | the buckets of the reports, each once, in order of first appearance |
| Windows.Installations.GetRtoolsNeeded | src/windows.rs:127-160 | returns `Needed` of what each listed R reports, in listing order |
| Windows.Installations.CollectBuckets | src/windows.rs:131-159 | the buckets collected over a list of versions are `Needed` of their reports |
| Windows.Installations.PushBucket | src/windows.rs:147-157 | a 3.x report adds "35" and a 4.x report "40", each only if not yet present |
| Rtools.SomeStartsWith | src/windows.rs:149-153 | some reported version starts with the given character, the test of lines 149 and 153 |
| Rtools.NeededProperties | src/windows.rs:127-160 | at most two buckets, no repeats, only "35"/"40"; "35" iff some R is 3.x, "40" iff some is 4.x; the first bucket is that of the first 3.x/4.x version |
| Rtools.NeededFirst | src/windows.rs:145-157 | the result is empty iff no version is 3.x or 4.x; otherwise it starts with the first such version's bucket |
| Rtools.FirstKnown | src/windows.rs:149-157 | the index returned is the first report of the 3.x or 4.x family |
| Rtools.FirstKnownPrefix | src/windows.rs:145-157 | a later report does not move the first known one |
| Rtools.SomeStartsWithLast | src/windows.rs:149-153 | a prefix test holds for some report iff it holds before the last one or for the last |
| Windows.NeededExtend | src/windows.rs:145-157 | one more report adds its bucket unless it is unknown or already there |
| Windows.ReportsExtend | src/windows.rs:132-144 | the reports of one more version are the old reports plus that version's |
| Windows.Reports | src/windows.rs:132-144 | one report per listed version, in order |
| Rtools.InstallerName | src/windows.rs:53-57 | `rtools<ver>-x86_64.exe` for a 4.x or `devel` version, `Rtools<ver>.exe` otherwise |
| Rtools.InstallerUrl | src/windows.rs:58 | the CRAN Rtools directory URL followed by the installer name |
| Windows.Installations.InstallerFile | src/windows.rs:52-57 | the file name is `InstallerName(ver)` |
| Rtools.InstallerNameParts | src/windows.rs:52-57 | 4.x and `devel` give a name that starts with `rtools`, ends with `-x86_64.exe` and has `ver` between them; others give `Rtools`, `ver`, `.exe` |
| Rtools.InstallerNameInjective | src/windows.rs:52-57 | distinct versions never share an installer file |
| Rtools.InstallerUrlParts | src/windows.rs:58 | the URL is `https://cloud.r-project.org/bin/windows/Rtools/` followed by the file name |
| Windows.RtoolsVersions | src/windows.rs:45-49 | the installer plan: `Needed` of the reports for bare `rtools`, otherwise the spec with every `rtools` removed |
| Windows.Urls | src/windows.rs:51-58 | the download URL of each planned version, in plan order |
| Windows.RanUntilFailure | src/windows.rs:51-75 | the installers run are a prefix of the plan; all before the last succeeded; success means all ran and succeeded, failure that the last one failed |
| Windows.Installations.RunInstallers | src/windows.rs:51-75 | installers run in order; all of them on success; on failure the last one run is the first that failed and nothing after it ran |
| Windows.Installations.AddRtools | src/windows.rs:43-76 | bare `rtools` installs the needed buckets; `rtools<ver>` installs `<ver>`, with every `rtools` removed; runs until the first failure |
| Windows.Installations.Add | src/windows.rs:20-41 | a spec starting with `rtools` only runs `add_rtools`. A failed installer changes nothing. Otherwise the new version's directory exists, then the libraries of all installed versions, their launchers and their Rtools stanzas, and the new version's `Renviron.site` exists and is marked |
| Windows.Installations.ProvisionAfterInstall | src/windows.rs:38-40 | after an install: libraries for the whole listing, launchers written, then every listed version patched, so the new version's `Renviron.site` exists and is marked |

## Left out

- Process spawning, downloading and the R interpreter's output are parameters. Paths, `shellexpand::tilde` expansion and user messages are not modelled.
- `download_r` and `get_resolve` (version resolution) are not modelled. `sc_add` receives the resolved version and the installer path as inputs.
- Windows.Installations.Add: assumes a successful installer creates exactly the directory `R-<resolved>`; the installer's other effects are outside the model.
- Windows.Installations.CheckInstalled: `check_installed` is defined in `src/common.rs`, which is not part of this model. It is modelled as membership in the listing, and its panic becomes the `NotInstalled` error.
- Failures of `read_dir`, `remove_dir_all`, `create_dir_all`, `File::create`, writes and UTF-8 conversions panic in the source. They are not modelled: the file system operations always succeed. A failed `writeln!` to `Renviron.site` is only reported in the source; it is not modelled.
- Rust slices index bytes and panic when a slice ends inside a multi-byte character. The model slices characters, so it does not capture that panic in four places:
  - `sc_add`'s `str[0..6]` (src/windows.rs:22);
  - `&ver[0..1]` (src/windows.rs:52, 83, 149, 153);
  - `sc_get_list`'s `&fname[0..2]` (src/windows.rs:285);
  - `patch_for_rtools`'s `&line2[0..14]` (src/windows.rs:95). A `Renviron.site` line such as `# Kommentar für R` has `ü` at bytes 13-14, so the source panics there. `Windows.Installations.ScanForMarker` and `Renviron.HasMarker` treat such a line as unmarked, and the patch goes on.
- The `op` label in `sc_system_make_links` is computed but never used, and all console output is left out.
- `sc_system_make_orthogonal`, `sc_system_fix_permissions` and `sc_system_forget` do nothing on Windows. `sc_system_add_pak` is `unimplemented!()`. `sc_show_default` only prints `sc_get_default`.
- Removing a version from the Windows registry is a TODO in the source and is not modelled.
- Concurrency, crashes part-way and atomicity of file writes are not modelled.
- Installer files downloaded to the temporary directory are not part of the state.
