/** What one call of `Downloader.download_and_zip` does, as functions of its
    inputs: the targets, the server's answer to each request, and whether
    `cancel()` has been called by each cancellation check. The downloader's
    methods are proved to compute exactly these functions; the properties
    of a run are lemmas about them. */
module DownloadSpec {
  import opened Text
  import opened UrlParsing
  import opened ArchiveNaming
  import opened Progress

  /** What the server does with one streaming GET: an HTTP answer with its
      status, its `content-length` header (0 when absent), the sizes of the
      chunks it streams and whether the stream then breaks off with an
      error; or no answer at all (connection or TLS failure). */
  datatype Response =
    | Reply(status: int, contentLength: int, chunks: seq<nat>, breaksOff: bool)
    | Unreachable

  /** Why a run fails: the exception `download_and_zip` re-raises. */
  datatype Failure =
    | Cancelled          // "Download cancelled by user."
    | HttpError(status: int)
    | ConnectionError
    | WriteError         // `open(os.path.join(temp_dir, filename), 'wb')` raises
    | NothingDownloaded  // "No files were successfully downloaded."

  datatype Outcome = Archived(name: string, entries: seq<string>) | Failed(failure: Failure)

  /** Where the chunk loop of one file ends: its last check index and the
      progress reported so far, or a failure. */
  datatype StreamEnd =
    | Streamed(checks: nat, reports: seq<int>)
    | StreamFailed(failure: Failure, reports: seq<int>)

  /** Where the loop over targets ends. `requested` counts the targets whose
      GET was issued. */
  datatype FetchEnd =
    | Fetched(files: seq<string>, reports: seq<int>)
    | FetchFailed(failure: Failure, requested: nat, reports: seq<int>)

  /** A whole call: its result, the number of GETs issued and every value
      passed to the progress callback, in order. */
  datatype Run = Run(outcome: Outcome, requested: nat, reports: seq<int>)

  /** `raise_for_status()` raises for client and server errors. */
  predicate IsErrorStatus(status: int)
  {
    400 <= status < 600
  }

  /** A file name that `open(os.path.join(temp_dir, name), 'wb')` can
      create as a file directly inside the scratch directory. The empty
      name, `.` and `..` name directories, a name with `/` names a path in
      another directory, and a NUL character is refused by `open`. */
  predicate Openable(name: string)
  {
    name != "" && name != "." && name != ".." && '/' !in name && '\0' !in name
  }

  /** The `k`-th look at `cancel_requested` sees it set: `cancel()` has
      been called by then. Checks are numbered in the order the loops make
      them: one before each target, one before each chunk. */
  predicate CancelSeen(cancels: seq<bool>, k: nat)
  {
    k < |cancels| && cancels[k]
  }

  /** The chunk loop, from chunk `j` on, at check `k`, with `received`
      bytes so far. Progress is reported for non-empty chunks only, and
      only when a callback is given and the length is positive. */
  function StreamFrom(chunks: seq<nat>, breaksOff: bool, j: nat, total: int, index: nat, count: nat,
                      cancels: seq<bool>, k: nat, received: nat, reports: seq<int>, notify: bool): (r: StreamEnd)
    requires j <= |chunks| && index < count
    ensures |reports| <= |r.reports| <= |reports| + |chunks| - j && r.reports[..|reports|] == reports
    decreases |chunks| - j
  {
    if j == |chunks| then
      if breaksOff then StreamFailed(ConnectionError, reports) else Streamed(k, reports)
    else if CancelSeen(cancels, k) then
      StreamFailed(Cancelled, reports)
    else if chunks[j] == 0 then
      StreamFrom(chunks, breaksOff, j + 1, total, index, count, cancels, k + 1, received, reports, notify)
    else
      var got := received + chunks[j];
      var reports' := if total > 0 && notify then reports + [Percent(index, got, total, count)] else reports;
      StreamFrom(chunks, breaksOff, j + 1, total, index, count, cancels, k + 1, got, reports', notify)
  }

  /** The loop over targets, from target `i` on, at check `k`, with `files`
      downloaded so far. A 404 skips the target; any other error status, a
      failed connection, a scratch file that cannot be opened, a broken
      stream or a cancellation ends the loop. */
  function FetchFrom(targets: seq<Target>, responses: seq<Response>, cancels: seq<bool>, notify: bool,
                     i: nat, k: nat, files: seq<string>, reports: seq<int>): (r: FetchEnd)
    requires |responses| == |targets| && i <= |targets|
    ensures r.FetchFailed? ==> i <= r.requested <= |targets|
    ensures r.Fetched? ==> |files| <= |r.files| <= |files| + |targets| - i && r.files[..|files|] == files
    ensures |reports| <= |r.reports| && r.reports[..|reports|] == reports
    decreases |targets| - i
  {
    if i == |targets| then Fetched(files, reports)
    else if CancelSeen(cancels, k) then FetchFailed(Cancelled, i, reports)
    else match responses[i]
      case Unreachable => FetchFailed(ConnectionError, i + 1, reports)
      case Reply(status, length, chunks, breaksOff) =>
        if status == 404 then
          FetchFrom(targets, responses, cancels, notify, i + 1, k + 1, files, reports)
        else if IsErrorStatus(status) then
          FetchFailed(HttpError(status), i + 1, reports)
        else if !Openable(targets[i].filename) then
          FetchFailed(WriteError, i + 1, reports)
        else match StreamFrom(chunks, breaksOff, 0, length, i, |targets|, cancels, k + 1, 0, reports, notify)
          case StreamFailed(failure, reports') => FetchFailed(failure, i + 1, reports')
          case Streamed(k', reports') =>
            FetchFrom(targets, responses, cancels, notify, i + 1, k', files + [targets[i].filename], reports')
  }

  /** A whole call of `download_and_zip`. */
  function RunOf(targets: seq<Target>, responses: seq<Response>, cancels: seq<bool>, notify: bool): (r: Run)
    requires |responses| == |targets|
    ensures r.requested <= |targets|
    ensures r.outcome.Archived? ==> 1 <= |r.outcome.entries| <= |targets|
  {
    match FetchFrom(targets, responses, cancels, notify, 0, 0, [], [])
    case FetchFailed(failure, requested, reports) => Run(Failed(failure), requested, reports)
    case Fetched(files, reports) =>
      if files == [] then Run(Failed(NothingDownloaded), |targets|, reports)
      else Run(Archived(ArchiveName(files[0]), files), |targets|, if notify then reports + [100] else reports)
  }

  // ---------------------------------------------------------------------------
  // Reference definitions the lemmas compare runs with

  /** A response whose body is streamed into the scratch file of target
      `t`: a non-error answer other than 404, for a name that can be opened. */
  predicate Streams(t: Target, r: Response)
  {
    r.Reply? && r.status != 404 && !IsErrorStatus(r.status) && Openable(t.filename)
  }

  /** A response whose file is downloaded: streamed, and the stream completes. */
  predicate Delivers(t: Target, r: Response)
  {
    Streams(t, r) && !r.breaksOff
  }

  /** A response that does not end the run: a 404, or a delivered file. */
  predicate Harmless(t: Target, r: Response)
  {
    r.Reply? && (r.status == 404 || Delivers(t, r))
  }

  /** The names of the targets from `i` on whose files are delivered, in order. */
  function DeliveredFrom(targets: seq<Target>, responses: seq<Response>, i: nat): seq<string>
    requires |responses| == |targets| && i <= |targets|
    decreases |targets| - i
  {
    if i == |targets| then []
    else (if Delivers(targets[i], responses[i]) then [targets[i].filename] else [])
         + DeliveredFrom(targets, responses, i + 1)
  }

  /** The names of the scratch files opened for targets `0 .. n - 1`: one
      per target whose body is streamed. */
  function OpenedBefore(targets: seq<Target>, responses: seq<Response>, n: nat): set<string>
    requires |responses| == |targets| && n <= |targets|
  {
    if n == 0 then {}
    else OpenedBefore(targets, responses, n - 1)
         + (if Streams(targets[n - 1], responses[n - 1]) then {targets[n - 1].filename} else {})
  }

  /** The failure a response that is not harmless raises for target `t`:
      the status is checked before the scratch file is opened. */
  function FailureOf(t: Target, r: Response): Failure
  {
    match r
    case Unreachable => ConnectionError
    case Reply(status, _, _, _) =>
      if IsErrorStatus(status) then HttpError(status)
      else if !Openable(t.filename) then WriteError
      else ConnectionError
  }

  /** How many cancellation checks a harmless response makes: one before
      its target, and one per chunk when its file is streamed. */
  function ChecksOf(r: Response): nat
  {
    1 + (if r.Reply? && r.status != 404 then |r.chunks| else 0)
  }

  /** How many cancellation checks a run over harmless responses makes for
      targets `i .. j - 1`. */
  function ChecksBetween(responses: seq<Response>, i: nat, j: nat): nat
    requires i <= j <= |responses|
    decreases j - i
  {
    if i == j then 0 else ChecksOf(responses[i]) + ChecksBetween(responses, i + 1, j)
  }

  /** How many cancellation checks a run over harmless responses makes from
      target `i` on. */
  function ChecksFrom(responses: seq<Response>, i: nat): nat
    requires i <= |responses|
  {
    ChecksBetween(responses, i, |responses|)
  }

  /** No cancellation check among `k .. k + n - 1` sees the flag. */
  predicate QuietBetween(cancels: seq<bool>, k: nat, n: nat)
  {
    forall m :: k <= m < k + n ==> !CancelSeen(cancels, m)
  }

  /** For every reply that declares a positive length, the chunks yielded
      for it add up to at most that length. */
  predicate HonestLengths(responses: seq<Response>)
  {
    forall i :: 0 <= i < |responses| && responses[i].Reply? && responses[i].contentLength > 0 ==>
      Sum(responses[i].chunks) <= responses[i].contentLength
  }

  function Sum(s: seq<nat>): nat
  {
    if s == [] then 0 else s[0] + Sum(s[1..])
  }

  predicate Sorted(s: seq<int>)
  {
    forall a, b :: 0 <= a < b < |s| ==> s[a] <= s[b]
  }

  predicate Percentages(s: seq<int>)
  {
    forall a :: 0 <= a < |s| ==> 0 <= s[a] <= 100
  }
}
