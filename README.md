# mvnDLPlus download core in Dafny

mvnDLPlus is a desktop tool that fetches a Maven artifact and packages it
as a zip file. This project models and proves its two pieces of logic:

- **The URL resolver** (`MainWindow.parse_url`). It turns what the user
  typed into an ordered list of `(url, filename)` targets and an optional
  version.
  - A browse-page address `…mvnrepository.com/artifact/{group}/{artifact}/{version}`
    becomes the jar and the pom of that version on Maven Central.
  - Anything else becomes one direct download, named after its last `/`
    segment.
  - Modelled as the pure function `UrlParsing.ParseUrl`, over the Python
    string operations it uses: `in`, `split` with the last piece taken by
    `[-1]`, and `replace`. These are defined in module `Text`; the f-string
    URLs and names are concatenations.
- **The download-and-package engine** (`Downloader.download_and_zip`,
  `cancel`). Modelled as the class `Downloads.Downloader`, which has the
  `cancelRequested` flag, and the class `Downloads.Disk`, which stands for
  the scratch directory `.temp_download` and the archives written into the
  output directory. The engine:
  - fetches the targets in order;
  - skips a 404 and aborts the run on any other failure;
  - checks the cancel flag before each target and before each chunk;
  - opens one scratch file per downloaded target, and fails when its name
    does not denote a file directly inside the scratch directory;
  - reports progress per chunk;
  - fails when nothing arrived;
  - otherwise zips the downloaded files under a sanitised name taken from
    the first file;
  - removes the scratch directory on every path.

How the engine is specified:

- The network is given as one `Response` per target: an HTTP reply with its
  status, declared length, chunk sizes and whether the stream breaks off,
  or no answer at all.
- `cancel()` calls from the UI thread are given as one boolean per
  cancellation check. The check numbered `k` sees the flag exactly when
  `cancel()` has been called by then.
- `DownloadSpec.RunOf` is a function of these inputs. It gives the outcome,
  the number of GET requests issued and every value passed to the progress
  callback.
- The methods are proved to compute `RunOf`. The properties of a run are
  lemmas about `RunOf` in `DownloadFacts`.
- Two helpers of the engine are pure functions: the archive name (module
  `ArchiveNaming`) and the progress value (module `Progress`).

## Model

| member | source | states |
|---|---|---|
| UrlParsing.ParseUrl | mvnDLPlus/src/ui/main_window.py:155-185 | every input yields one or two targets, never none; a version is returned exactly when there are two; one target is always the fallback `(raw, last segment)`; an input without the marker always falls back; every filename is the last `/`-segment of its own URL and holds no `/` |
| UrlParsing.FromPath | mvnDLPlus/src/ui/main_window.py:163-182 | the text after the marker gives the jar/pom pair when it has at least three `/`-segments, otherwise the fallback; every filename is the last segment of its URL |
| UrlParsing.GroupPath | mvnDLPlus/src/ui/main_window.py:169 | the group path has the length of the group, with each `.` turned into `/` and every other character kept; it contains no `.` |
| UrlParsing.ParseUrlReadsPath | mvnDLPlus/src/ui/main_window.py:161-163 | only the text after the last occurrence of the marker is read, whatever precedes it |
| UrlParsing.CoordinateNames | mvnDLPlus/src/ui/main_window.py:170-178 | the jar and pom filenames are the last segments of their URLs and hold no `/` |
| UrlParsing.ParseUrlCoordinates | mvnDLPlus/src/ui/main_window.py:161-178 | a browse-page address resolves to exactly the jar then the pom under `https://repo1.maven.org/maven2/{group with / for .}/{artifact}/{version}/{artifact}-{version}`, named `{artifact}-{version}.jar/.pom`, with the version returned |
| UrlParsing.ParseUrlCoordinatesOnly | mvnDLPlus/src/ui/main_window.py:161-178 | conversely, two targets come only from an input of browse-page form, and they are the jar and pom of its three segments |
| UrlParsing.ParseUrlShortPath | mvnDLPlus/src/ui/main_window.py:163-182 | a marker followed by fewer than three segments is not rejected: the result is the single fallback target with no version |
| UrlParsing.ParseUrlIgnoresExtraSegments | mvnDLPlus/src/ui/main_window.py:163-167 | path segments after the version do not change the result |
| UrlParsing.ParseUrlExample | mvnDLPlus/src/ui/main_window.py:161-178 | `…/artifact/org.example/libfoo/2.3.1` gives the libfoo 2.3.1 jar and pom on Maven Central and version `2.3.1` |
| UrlParsing.CoordinateTargets | mvnDLPlus/src/ui/main_window.py:169-178 | the coordinates give two targets and their version; each URL lies under `https://repo1.maven.org/maven2/` and ends with the file name it is saved under |
| UrlParsing.Fallback | mvnDLPlus/src/ui/main_window.py:180-182 | any input gives one target: the input itself, with no version, saved under a suffix of it that holds no `/` |
| UrlParsing.FallbackOf | mvnDLPlus/src/ui/main_window.py:180-182 | an address without the marker and ending in `/name` resolves to itself, saved as `name`, with no version |
| UrlParsing.ParseUrlFallbackExample | mvnDLPlus/src/ui/main_window.py:180-182 | `https://example.com/files/thing.bin` resolves to itself, saved as `thing.bin` |
| Text.Contains | mvnDLPlus/src/ui/main_window.py:161 | `sub in s`: `sub` is a prefix of `s` or occurs in `s` after its first character |
| Text.ContainsOccurrence | mvnDLPlus/src/ui/main_window.py:161 | `Contains` holds exactly when `sub` occurs at some index of `s`, both directions |
| Text.Split | mvnDLPlus/src/ui/main_window.py:163 | `s.split(sep)`, cutting at each occurrence of `sep` found greedily from the left; there is always at least one piece |
| Text.ReplaceChar | mvnDLPlus/src/ui/main_window.py:169 | `str.replace` with one-character arguments: same length, each `a` becomes `b`, nothing else changes, and no `a` is left |
| Text.LastSegment | mvnDLPlus/src/ui/main_window.py:181 | `split("/")[-1]` is a suffix with no `/`, and is either the whole string or preceded by a `/` |
| Text.JoinSplit | mvnDLPlus/src/ui/main_window.py:163 | joining the pieces of `split(sep)` with `sep` gives back the input |
| Text.SplitSingle | mvnDLPlus/src/ui/main_window.py:161-163 | `split(sep)` gives one piece exactly when `sep in s` is false, and that piece is `s` |
| Text.SplitCharFacts | mvnDLPlus/src/ui/main_window.py:163-164 | splitting on one character gives one more piece than it has occurrences, and no piece holds it |
| Text.SplitCharFront | mvnDLPlus/src/ui/main_window.py:163-167 | the first piece of `x + c + y` is `x` when `x` has no `c` |
| Text.LastPieceAfter | mvnDLPlus/src/ui/main_window.py:163 | for a separator that cannot overlap itself, `split(sep)[-1]` of `p + sep + rest` is `rest` when `rest` holds no `sep` |
| Text.SplitAtLast | mvnDLPlus/src/ui/main_window.py:163 | when `sep` occurs, the input is some prefix, `sep`, then the last piece, which holds no `sep` |
| ArchiveNaming.Stem | mvnDLPlus/src/core/downloader.py:82 | `os.path.splitext(p)[0]` keeps a prefix of `p`; the cut itself is described by `StemShape`, `StemOf` and `StemUnchanged` |
| ArchiveNaming.StemShape | mvnDLPlus/src/core/downloader.py:82 | `splitext(p)[0]` is a prefix of `p`; when it cuts, it cuts at the last dot of the last path component, after some non-dot character |
| ArchiveNaming.StemOf | mvnDLPlus/src/core/downloader.py:82 | conversely, a name that is some text, a dot and a dot-free, `/`-free extension, where the last component holds a non-dot character before the dot, has exactly that text as its stem |
| ArchiveNaming.StemUnchanged | mvnDLPlus/src/core/downloader.py:82 | a name with no such extension is its own stem, so with `StemShape` a name is cut exactly when it has an extension |
| ArchiveNaming.Sanitize | mvnDLPlus/src/core/downloader.py:87 | the filtered name holds only letters, digits, space, `.`, `_` and `-`, and is no longer than its input; with `SanitizeKeepsSafe` and `SanitizeDropsUnsafe` it keeps exactly the allowed characters, in order |
| ArchiveNaming.SanitizeDropsUnsafe | mvnDLPlus/src/core/downloader.py:87 | a character that is not allowed is dropped, not replaced: filtering `a + [c] + b` gives the filtered `a` followed by the filtered `b` |
| ArchiveNaming.RStrip | mvnDLPlus/src/core/downloader.py:87 | `rstrip()` keeps a prefix that does not end in whitespace and drops only whitespace |
| ArchiveNaming.SanitizeAppend | mvnDLPlus/src/core/downloader.py:87 | filtering distributes over concatenation |
| ArchiveNaming.SanitizeSafe | mvnDLPlus/src/core/downloader.py:87 | a string of allowed characters passes the filter unchanged |
| ArchiveNaming.SanitizeIdempotent | mvnDLPlus/src/core/downloader.py:87 | filtering twice is filtering once |
| ArchiveNaming.SanitizeKeepsSafe | mvnDLPlus/src/core/downloader.py:87 | every allowed character of the input survives the filter |
| ArchiveNaming.ArchiveName | mvnDLPlus/src/core/downloader.py:82-87 | the archive name of the first file holds only allowed characters and is at most four characters longer than that file's name |
| ArchiveNaming.ArchiveNameShape | mvnDLPlus/src/core/downloader.py:82-87 | the archive name is the filtered stem of the first file plus `.zip`, so the `rstrip` removes nothing and every character is allowed |
| ArchiveNaming.ArchiveNameExamples | mvnDLPlus/src/core/downloader.py:82-87 | `libfoo-2.3.1.jar` gives `libfoo-2.3.1.zip`; `thing.bin` gives `thing.zip`; `thing%20v1.bin` gives `thing20v1.zip` |
| Progress.Percent | mvnDLPlus/src/core/downloader.py:64-65 | the reported progress `⌊100·(index + received/total)/count⌋` is never negative |
| Progress.PercentMonotone | mvnDLPlus/src/core/downloader.py:61-65 | within one file, progress does not go down as bytes arrive |
| Progress.PercentAtStart | mvnDLPlus/src/core/downloader.py:64-65 | with no bytes of file `index`, progress equals the share of whole files behind |
| Progress.PercentWithinFile | mvnDLPlus/src/core/downloader.py:64-65 | while `received <= total`, progress stays at or below the share of files up to and including the current one |
| Progress.PercentAtMost100 | mvnDLPlus/src/core/downloader.py:64-65 | while `index < count` and `received <= total`, progress is at most 100 |
| Progress.FilesBehindMonotone | mvnDLPlus/src/core/downloader.py:39-65 | the share of files behind grows with the file index |
| Progress.PercentComplete | mvnDLPlus/src/core/downloader.py:64-65 | the last byte of the last file reports exactly 100 |
| DownloadSpec.IsErrorStatus | mvnDLPlus/src/core/downloader.py:49 | `raise_for_status()` raises exactly for statuses 400 to 599 |
| DownloadSpec.Openable | mvnDLPlus/src/core/downloader.py:52-55 | `open(os.path.join(temp_dir, name), 'wb')` creates a file directly inside the scratch directory exactly when the name is not empty, `.` or `..` and holds no `/` and no NUL |
| DownloadSpec.StreamFrom | mvnDLPlus/src/core/downloader.py:56-66 | the chunk loop from a given chunk on: it only appends to the progress already reported, at most one value per remaining chunk |
| DownloadSpec.FetchFrom | mvnDLPlus/src/core/downloader.py:39-75 | the loop over targets from a given target on: a failure has issued at least the GETs already issued and at most one per target; it only appends to the files collected, at most one per remaining target, and to the progress reported |
| DownloadSpec.RunOf | mvnDLPlus/src/core/downloader.py:11-106 | a whole call: at most one GET per target, and an archive holds at least one and at most one entry per target |
| DownloadSpec.OpenedBefore | mvnDLPlus/src/core/downloader.py:46-55 | the scratch files the loop opens for the first `n` targets: one for each target whose response is neither a 404 nor an error status and whose name can be opened |
| DownloadFacts.StreamShape | mvnDLPlus/src/core/downloader.py:56-66 | the chunk loop completes exactly when no check sees the flag and the stream does not break off; it then has made one check per chunk; it fails as cancelled exactly when a check sees the flag, and otherwise only with a connection error from a broken stream; with no callback, or with no positive declared length, nothing is reported |
| DownloadFacts.StreamReports | mvnDLPlus/src/core/downloader.py:56-66 | while the chunks yielded for the file add up to no more than its `content-length`, the values reported for one file do not go down, lie in 0..100, and end at or below the share of files up to this one |
| DownloadFacts.FetchedFiles | mvnDLPlus/src/core/downloader.py:39-68 | when the loop gets through every target, the collected names are exactly those of the delivered targets, in target order, and no response ended the run |
| DownloadFacts.FetchHarmless | mvnDLPlus/src/core/downloader.py:39-75 | over harmless responses the loop completes exactly when no check sees the flag, and otherwise fails as cancelled |
| DownloadFacts.FetchFirstHarmful | mvnDLPlus/src/core/downloader.py:39-75 | with no cancel, the first harmful response ends the loop with its own failure, and it is the last target requested |
| DownloadFacts.FetchCancelledOnlyIfAsked | mvnDLPlus/src/core/downloader.py:40-58 | the loop fails as cancelled only if some check saw the flag |
| DownloadFacts.FetchStep | mvnDLPlus/src/core/downloader.py:39-68 | over a harmless target whose checks all miss the flag, the loop moves on to the next target having made exactly that target's checks |
| DownloadFacts.FetchSkip | mvnDLPlus/src/core/downloader.py:39-68 | over harmless targets `i .. f - 1` whose checks all miss the flag, the loop reaches target `f` having made exactly their checks |
| DownloadFacts.FetchCancelledInFile | mvnDLPlus/src/core/downloader.py:54-58 | a flag first seen at the check before chunk `q` of a streamed target ends the loop as cancelled, with that target as the last one requested |
| DownloadFacts.FetchCancelledInChunk | mvnDLPlus/src/core/downloader.py:39-58 | after harmless targets whose checks miss the flag, a flag first seen before chunk `q` of target `f` ends the loop as cancelled with `f + 1` targets requested, whatever the later responses |
| DownloadFacts.FetchReports | mvnDLPlus/src/core/downloader.py:39-75 | with honest lengths, progress reported across the loop does not go down and stays in 0..100 |
| DownloadFacts.FetchSilent | mvnDLPlus/src/core/downloader.py:63-66 | without a callback the loop reports nothing |
| DownloadFacts.RunArchived | mvnDLPlus/src/core/downloader.py:77-100 | a run that archives has requested every target and met no harmful response; the entries are exactly the delivered files in target order, and there is at least one; the name is derived from the first entry; with a callback the last report is 100 |
| DownloadFacts.RunHarmless | mvnDLPlus/src/core/downloader.py:39-100 | over harmless responses the outcome is fully determined: cancelled if any check saw the flag; else "no files" if nothing was delivered; else the archive of the delivered files |
| DownloadFacts.RunFirstHarmful | mvnDLPlus/src/core/downloader.py:44-75 | with no cancel, the first target whose response is unreachable, has an error status other than 404, is a broken stream, or whose name cannot be opened in the scratch directory decides the failure, and no later target is requested |
| DownloadFacts.RunCancelledOnlyIfAsked | mvnDLPlus/src/core/downloader.py:40-58 | a run ends as cancelled only if `cancel()` was called during it |
| DownloadFacts.RunCancelledAtStart | mvnDLPlus/src/core/downloader.py:39-41 | a flag seen at the first check stops the run before any request and any report |
| DownloadFacts.RunCancelledBeforeTarget | mvnDLPlus/src/core/downloader.py:39-41 | after harmless targets whose checks miss the flag, a flag first seen at the check before target `f` cancels the run with `f` requests issued, whatever the later responses |
| DownloadFacts.RunCancelledInChunk | mvnDLPlus/src/core/downloader.py:39-58 | after harmless targets whose checks miss the flag, a flag first seen at the check before chunk `q` of a streamed target `f` cancels the run with `f + 1` requests issued, whatever the later responses |
| DownloadFacts.StreamCancelledAgree | mvnDLPlus/src/core/downloader.py:56-66 | a flag first seen before chunk `q` cancels the chunk loop, and two streams that agree on their first `q` chunks end identically, reports included |
| DownloadFacts.FetchCancelledAgree | mvnDLPlus/src/core/downloader.py:39-66 | after quiet harmless targets, a flag first seen before chunk `q` of target `f` makes the loop end identically for any responses that agree before `f` and on `f`'s status, length and first `q` chunks |
| DownloadFacts.FetchCancelledIgnoresRest | mvnDLPlus/src/core/downloader.py:39-66 | the same for the loop over all targets from its start |
| DownloadFacts.RunCancelledInChunkIgnoresRest | mvnDLPlus/src/core/downloader.py:39-75 | a flag first seen before chunk `q` of target `f` leaves no trace of what follows: the chunks of `f` from `q` on and every later response change nothing about the run, reports included |
| DownloadFacts.RunOfSameFetch | mvnDLPlus/src/core/downloader.py:77-100 | a run depends on the responses only through its loop over targets |
| DownloadFacts.RunCancelledMidFile | mvnDLPlus/src/core/downloader.py:56-66 | a ten-byte file cancelled before its second five-byte chunk reports 50 once and ends cancelled after one request |
| DownloadFacts.RunReports | mvnDLPlus/src/core/downloader.py:59-98 | with honest lengths, the reported values never go down and lie in 0..100, including the final 100; without a callback nothing is reported |
| DownloadFacts.RunOverlongReply | mvnDLPlus/src/core/downloader.py:63-66 | a reply whose chunks add up to more than its `content-length` makes the callback see 200 and then 100: progress is neither clamped nor monotone then |
| DownloadFacts.RunSkipsMissingPom | mvnDLPlus/src/core/downloader.py:46-48 | jar delivered and pom not found: the archive holds the jar alone and is named after it |
| DownloadFacts.RunEmptyName | mvnDLPlus/src/core/downloader.py:50-55 | a run whose only target has the empty name, answered with neither 404 nor an error status and not cancelled at the first check, ends with a write error after one request, before anything is reported |
| DownloadFacts.RunTrailingSlash | mvnDLPlus/src/ui/main_window.py:180-182 | an address ending in `/` without the marker resolves to one target with the empty name; downloading it fails with a write error after one request, reporting nothing, whenever the server answers with a status that is neither 404 nor an error and the check before that request does not see the flag |
| DownloadFacts.RunAllMissing | mvnDLPlus/src/core/downloader.py:77-78 | when every target is not found, the run fails with nothing downloaded |
| Downloads.Disk.MakeScratch | mvnDLPlus/src/core/downloader.py:27-29 | the scratch directory exists afterwards, and any files it already held are kept |
| Downloads.Disk.OpenScratchFile | mvnDLPlus/src/core/downloader.py:51-55 | opening succeeds exactly for a name that denotes a file directly inside the scratch directory (not empty, `.` or `..`, no `/`, no NUL), and then adds that name to the directory; a failed open changes nothing |
| Downloads.Disk.WriteArchive | mvnDLPlus/src/core/downloader.py:90-92 | the archive is written under its name with the entries in order, from files that are in the scratch directory |
| Downloads.Disk.RemoveScratch | mvnDLPlus/src/core/downloader.py:95 | the scratch directory and its files are gone; archives are untouched |
| Downloads.Downloader.constructor | mvnDLPlus/src/core/downloader.py:8-9 | a new downloader has the cancel flag clear |
| Downloads.Downloader.Cancel | mvnDLPlus/src/core/downloader.py:108-109 | `cancel()` sets the flag |
| Downloads.Downloader.Stream | mvnDLPlus/src/core/downloader.py:54-66 | the chunk loop computes `StreamFrom`; the flag ends set exactly when the loop was cancelled |
| Downloads.Downloader.FetchAll | mvnDLPlus/src/core/downloader.py:36-75 | the loop over targets computes `FetchFrom`, including the write error for a name that cannot be opened; the flag ends set exactly when it was cancelled; the scratch directory afterwards holds exactly its old files plus one file per target, among those requested, whose response was streamed (`OpenedBefore`), so every collected file is in it; no archive changes |
| Downloads.Downloader.FetchTarget | mvnDLPlus/src/core/downloader.py:40-66 | one pass of the loop over targets is one step of `FetchFrom`: it either moves on to the next target, with the target's file collected exactly when it was delivered, or stops the loop with the failure `FetchFrom` gives; the scratch file is opened exactly when the response is streamed and the flag was not seen before the GET |
| Downloads.Downloader.DownloadAndZip | mvnDLPlus/src/core/downloader.py:11-106 | the call resets the flag, so a cancel issued before it has no effect; it returns exactly the run `RunOf` gives; the flag ends set exactly when the run was cancelled; the scratch directory is gone on every path; the only archive written is the one a successful run names |

## Left out

- The Qt interface around the resolver and the worker thread that runs the engine are not part of this model.
- HTTP sessions, TLS verification and `disable_warnings` are outside the model: each target's answer is an input `Response`.
- The bytes written to the scratch files and to the zip archive are not modelled. Only file names and the order of archive entries are.
- Concurrency: `cancel()` from another thread is given as one observation per cancellation check. A call after the last check, during zipping, is not modelled.
- Progress.Percent: the exact integer floor of the formula. Python computes it in floating point, and `int()` of that can come out one lower (for example, `int(0.29 * 100)` is 28).
- ArchiveNaming.IsSafe: only ASCII letters and digits count as letters and digits. Python's `isalpha`/`isdigit` also accept other Unicode letters and digits.
- ArchiveNaming.IsWhitespace: only ASCII whitespace and the separators 0x1C–0x1F, not the other Unicode whitespace that Python's `rstrip` removes. The filter keeps no whitespace other than the space, on which both definitions agree, and the filtered name ends in `.zip`, so `rstrip` removes nothing either way (`ArchiveNaming.ArchiveNameShape`).
- ArchiveNaming.Stem: models `splitext` with `/` as the only separator (POSIX), not the Windows rules.
- Downloads.Downloader.DownloadAndZip: these are left out:
  - the `version`, `output_dir` and `ssl_verify` arguments (the first is unused by the code; the others only reach the file system and the network);
  - the returned path, which is given only as the archive name;
  - a `content-length` header that is not an integer;
  - a failing `makedirs` before the `try`;
  - failures while writing the zip or removing the directory;
  - the printed warnings.
- DownloadSpec.Openable: a name containing `/` is modelled as one that cannot be opened. The program joins it to the scratch directory as given, so it fails when the directories on that path are missing, but writes outside the scratch directory when they exist (for example `../x`). The resolver never produces such a name (`UrlParsing.ParseUrl` ensures it).
- DownloadSpec.Openable: file-system limits are not modelled. These are an over-long name, missing permissions and a full disk.
- Failure messages are constructors of `DownloadSpec.Failure`, not exception texts.
- UrlParsing.ParseUrl: the `except` branch that returns `([], None)` is not modelled. For a string argument none of the operations in the `try` can raise, so the function is total and never empty.

## Behaviour worth knowing

The model follows the code in each case.

- A marker followed by fewer than three segments is not rejected. The code falls back to a single direct target for the whole address (`UrlParsing.ParseUrlShortPath`).
- File names are used as given. Nothing removes `..` or `/` from a name before it is joined to the scratch directory. A name that cannot be opened there, such as the empty name of an address ending in `/`, ends the run with a write error once the server answers with a status that is neither 404 nor an error (`DownloadFacts.RunTrailingSlash`).
- Reported progress is not clamped to 0..100. Its bounds and monotonicity hold only when, for every reply, the bytes that `iter_content` yields add up to no more than the `content-length` header (`DownloadSpec.HonestLengths`). That can fail even for a well-behaved server: `requests` decodes a gzip-encoded body, whose `content-length` is the compressed size. `DownloadFacts.RunOverlongReply` shows the value going over 100 then.
