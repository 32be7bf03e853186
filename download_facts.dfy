/** Properties of a `download_and_zip` run, proved about the functions of
    `DownloadSpec`: which files end up in the archive, when the run fails
    and with what, what cancellation does, and how progress moves. */
module DownloadFacts {
  import opened Text
  import opened UrlParsing
  import opened ArchiveNaming
  import opened Progress
  import opened DownloadSpec

  /** `cancel()` is never called during the run. */
  predicate NeverCancelled(cancels: seq<bool>)
  {
    forall m :: 0 <= m < |cancels| ==> !cancels[m]
  }

  lemma QuietSplit(cancels: seq<bool>, k: nat, a: nat, b: nat)
    ensures QuietBetween(cancels, k, a + b) <==> QuietBetween(cancels, k, a) && QuietBetween(cancels, k + a, b)
  {
  }

  // ---------------------------------------------------------------------------
  // One file's chunk loop

  /** The chunk loop completes exactly when no check sees the flag and the
      stream does not break off; it then has made one check per chunk. It
      fails as cancelled exactly when some check sees the flag, and
      otherwise only because the stream broke off. Without a callback, or
      without a positive length, nothing is reported. */
  lemma {:induction false} StreamShape(chunks: seq<nat>, breaksOff: bool, j: nat, total: int, index: nat,
                                       count: nat, cancels: seq<bool>, k: nat, received: nat,
                                       reports: seq<int>, notify: bool)
    requires j <= |chunks| && index < count
    ensures var r := StreamFrom(chunks, breaksOff, j, total, index, count, cancels, k, received, reports, notify);
      && (r.Streamed? <==> !breaksOff && QuietBetween(cancels, k, |chunks| - j))
      && (r.Streamed? ==> r.checks == k + |chunks| - j)
      && (r.StreamFailed? ==> (r.failure == Cancelled <==> !QuietBetween(cancels, k, |chunks| - j)))
      && (r.StreamFailed? && r.failure != Cancelled ==> r.failure == ConnectionError && breaksOff)
      && (!notify || total <= 0 ==> r.reports == reports)
    decreases |chunks| - j
  {
    if j < |chunks| && !CancelSeen(cancels, k) {
      var got := if chunks[j] == 0 then received else received + chunks[j];
      var reports' := if chunks[j] != 0 && total > 0 && notify then reports + [Percent(index, got, total, count)] else reports;
      StreamShape(chunks, breaksOff, j + 1, total, index, count, cancels, k + 1, got, reports', notify);
      QuietSplit(cancels, k, 1, |chunks| - j - 1);
    } else if j < |chunks| {
      assert !QuietBetween(cancels, k, |chunks| - j);
    }
  }

  lemma SumSplit(s: seq<nat>, j: nat)
    requires j < |s|
    ensures Sum(s[j..]) == s[j] + Sum(s[j + 1..])
  {
    assert s[j..][1..] == s[j + 1..];
  }

  /** The bound on the last report while file `index` has `received` bytes. */
  function ReportCeiling(index: nat, received: nat, total: int, count: nat): int
    requires count > 0
  {
    if total > 0 then Percent(index, received, total, count) else FilesBehind(index, count)
  }

  /** While the received bytes stay within a positive declared length, the
      values reported for one file rise, are percentages, and end at or
      below the share of files up to and including this one. */
  lemma {:induction false} StreamReports(chunks: seq<nat>, breaksOff: bool, j: nat, total: int, index: nat,
                                         count: nat, cancels: seq<bool>, k: nat, received: nat,
                                         reports: seq<int>, notify: bool)
    requires j <= |chunks| && index < count
    requires Sorted(reports) && Percentages(reports)
    requires total > 0 ==> received + Sum(chunks[j..]) <= total
    requires reports == [] || Last(reports) <= ReportCeiling(index, received, total, count)
    ensures var r := StreamFrom(chunks, breaksOff, j, total, index, count, cancels, k, received, reports, notify);
      && Sorted(r.reports) && Percentages(r.reports)
      && (r.reports == [] || Last(r.reports) <= FilesBehind(index + 1, count))
    decreases |chunks| - j
  {
    if j == |chunks| || CancelSeen(cancels, k) {
      CeilingWithinFile(index, received, total, count);
    } else {
      SumSplit(chunks, j);
      if chunks[j] == 0 {
        StreamReports(chunks, breaksOff, j + 1, total, index, count, cancels, k + 1, received, reports, notify);
      } else {
        var got := received + chunks[j];
        CeilingMonotone(index, received, got, total, count);
        if total > 0 && notify {
          var p := Percent(index, got, total, count);
          PercentAtMost100(index, got, total, count);
          AppendReport(reports, p);
          StreamReports(chunks, breaksOff, j + 1, total, index, count, cancels, k + 1, got, reports + [p], notify);
        } else {
          StreamReports(chunks, breaksOff, j + 1, total, index, count, cancels, k + 1, got, reports, notify);
        }
      }
    }
  }

  lemma CeilingWithinFile(index: nat, received: nat, total: int, count: nat)
    requires index < count
    requires total > 0 ==> received <= total
    ensures ReportCeiling(index, received, total, count) <= FilesBehind(index + 1, count)
  {
    if total > 0 {
      PercentWithinFile(index, received, total, count);
    } else {
      FilesBehindMonotone(index, index + 1, count);
    }
  }

  lemma CeilingMonotone(index: nat, received: nat, got: nat, total: int, count: nat)
    requires count > 0 && received <= got
    ensures ReportCeiling(index, received, total, count) <= ReportCeiling(index, got, total, count)
  {
    if total > 0 {
      PercentMonotone(index, received, got, total, count);
    }
  }

  /** Appending a percentage no smaller than the last keeps the reports rising. */
  lemma AppendReport(reports: seq<int>, p: int)
    requires Sorted(reports) && Percentages(reports)
    requires reports == [] || Last(reports) <= p
    requires 0 <= p <= 100
    ensures Sorted(reports + [p]) && Percentages(reports + [p]) && Last(reports + [p]) == p
  {
    var reports' := reports + [p];
    forall a, b | 0 <= a < b < |reports'| ensures reports'[a] <= reports'[b] {
      if b == |reports| && a < |reports| {
        assert reports[a] <= Last(reports);
      }
    }
  }

  /** A flag first seen before chunk `q` cancels the chunk loop, and the
      chunks from `q` on leave no trace: two streams that agree on their
      first `q` chunks end the same way, with the same reports. */
  lemma {:induction false} StreamCancelledAgree(chunks: seq<nat>, chunks': seq<nat>, breaksOff: bool, breaksOff': bool,
                                                j: nat, total: int, index: nat, count: nat, cancels: seq<bool>,
                                                k: nat, received: nat, reports: seq<int>, notify: bool, q: nat)
    requires j <= q < |chunks| && q < |chunks'| && index < count
    requires chunks[..q] == chunks'[..q]
    requires QuietBetween(cancels, k, q - j) && CancelSeen(cancels, k + (q - j))
    ensures var r := StreamFrom(chunks, breaksOff, j, total, index, count, cancels, k, received, reports, notify);
      && r == StreamFrom(chunks', breaksOff', j, total, index, count, cancels, k, received, reports, notify)
      && r.StreamFailed? && r.failure == Cancelled
    decreases q - j
  {
    if j < q {
      assert chunks[j] == chunks[..q][j] == chunks'[..q][j] == chunks'[j];
      assert !CancelSeen(cancels, k);
      QuietSplit(cancels, k, 1, q - j - 1);
      var got := if chunks[j] == 0 then received else received + chunks[j];
      var reports' := if chunks[j] != 0 && total > 0 && notify then reports + [Percent(index, got, total, count)] else reports;
      StreamCancelledAgree(chunks, chunks', breaksOff, breaksOff', j + 1, total, index, count, cancels,
                           k + 1, got, reports', notify, q);
    }
  }

  // ---------------------------------------------------------------------------
  // The loop over targets

  /** When the loop gets through every target, the files it collected are
      exactly the delivered ones, in target order, and no response on the
      way ended the run. */
  lemma {:induction false} FetchedFiles(targets: seq<Target>, responses: seq<Response>, cancels: seq<bool>,
                                        notify: bool, i: nat, k: nat, files: seq<string>, reports: seq<int>)
    requires |responses| == |targets| && i <= |targets|
    ensures var r := FetchFrom(targets, responses, cancels, notify, i, k, files, reports);
      r.Fetched? ==> r.files == files + DeliveredFrom(targets, responses, i)
                     && forall m :: i <= m < |targets| ==> Harmless(targets[m], responses[m])
    decreases |targets| - i
  {
    if i < |targets| && !CancelSeen(cancels, k) && responses[i].Reply? {
      var Reply(status, length, chunks, breaksOff) := responses[i];
      if status == 404 {
        FetchedFiles(targets, responses, cancels, notify, i + 1, k + 1, files, reports);
      } else if !IsErrorStatus(status) && Openable(targets[i].filename) {
        var s := StreamFrom(chunks, breaksOff, 0, length, i, |targets|, cancels, k + 1, 0, reports, notify);
        StreamShape(chunks, breaksOff, 0, length, i, |targets|, cancels, k + 1, 0, reports, notify);
        if s.Streamed? {
          FetchedFiles(targets, responses, cancels, notify, i + 1, s.checks, files + [targets[i].filename], s.reports);
          assert files + [targets[i].filename] + DeliveredFrom(targets, responses, i + 1)
              == files + ([targets[i].filename] + DeliveredFrom(targets, responses, i + 1));
        }
      }
    }
  }

  /** Over harmless responses the loop gets through every target exactly
      when no check sees the flag; otherwise it fails as cancelled. */
  lemma {:induction false} FetchHarmless(targets: seq<Target>, responses: seq<Response>, cancels: seq<bool>,
                                         notify: bool, i: nat, k: nat, files: seq<string>, reports: seq<int>)
    requires |responses| == |targets| && i <= |targets|
    requires forall m :: i <= m < |targets| ==> Harmless(targets[m], responses[m])
    ensures var r := FetchFrom(targets, responses, cancels, notify, i, k, files, reports);
      && (r.Fetched? <==> QuietBetween(cancels, k, ChecksFrom(responses, i)))
      && (r.FetchFailed? ==> r.failure == Cancelled)
    decreases |targets| - i
  {
    if i < |targets| {
      var rest := ChecksFrom(responses, i + 1);
      if CancelSeen(cancels, k) {
        assert !QuietBetween(cancels, k, ChecksFrom(responses, i));
      } else {
        var Reply(status, length, chunks, breaksOff) := responses[i];
        if status == 404 {
          FetchHarmless(targets, responses, cancels, notify, i + 1, k + 1, files, reports);
          QuietSplit(cancels, k, 1, rest);
        } else {
          var s := StreamFrom(chunks, breaksOff, 0, length, i, |targets|, cancels, k + 1, 0, reports, notify);
          StreamShape(chunks, breaksOff, 0, length, i, |targets|, cancels, k + 1, 0, reports, notify);
          QuietSplit(cancels, k, 1, |chunks| + rest);
          QuietSplit(cancels, k + 1, |chunks|, rest);
          if s.Streamed? {
            FetchHarmless(targets, responses, cancels, notify, i + 1, s.checks, files + [targets[i].filename], s.reports);
          }
        }
      }
    }
  }

  /** With `cancel()` never called, the first response that is not
      harmless ends the run with its own failure, and no later target is
      requested. */
  lemma {:induction false} FetchFirstHarmful(targets: seq<Target>, responses: seq<Response>, cancels: seq<bool>,
                                             notify: bool, i: nat, k: nat, files: seq<string>, reports: seq<int>,
                                             f: nat)
    requires |responses| == |targets| && i <= f < |targets|
    requires NeverCancelled(cancels)
    requires forall m :: i <= m < f ==> Harmless(targets[m], responses[m])
    requires !Harmless(targets[f], responses[f])
    ensures var r := FetchFrom(targets, responses, cancels, notify, i, k, files, reports);
      r.FetchFailed? && r.failure == FailureOf(targets[f], responses[f]) && r.requested == f + 1
    decreases f - i
  {
    if responses[i].Reply? {
      var Reply(status, length, chunks, breaksOff) := responses[i];
      if i < f && status == 404 {
        FetchFirstHarmful(targets, responses, cancels, notify, i + 1, k + 1, files, reports, f);
      } else if !IsErrorStatus(status) && status != 404 && Openable(targets[i].filename) {
        var s := StreamFrom(chunks, breaksOff, 0, length, i, |targets|, cancels, k + 1, 0, reports, notify);
        StreamShape(chunks, breaksOff, 0, length, i, |targets|, cancels, k + 1, 0, reports, notify);
        if i < f {
          FetchFirstHarmful(targets, responses, cancels, notify, i + 1, s.checks, files + [targets[i].filename], s.reports, f);
        }
      }
    }
  }

  /** The loop fails as cancelled only if some check from `k` on saw the flag. */
  lemma {:induction false} FetchCancelledOnlyIfAsked(targets: seq<Target>, responses: seq<Response>,
                                                     cancels: seq<bool>, notify: bool, i: nat, k: nat,
                                                     files: seq<string>, reports: seq<int>)
    requires |responses| == |targets| && i <= |targets|
    ensures var r := FetchFrom(targets, responses, cancels, notify, i, k, files, reports);
      r.FetchFailed? && r.failure == Cancelled ==> exists m :: k <= m && CancelSeen(cancels, m)
    decreases |targets| - i
  {
    if i < |targets| && !CancelSeen(cancels, k) && responses[i].Reply? {
      var Reply(status, length, chunks, breaksOff) := responses[i];
      if status == 404 {
        FetchCancelledOnlyIfAsked(targets, responses, cancels, notify, i + 1, k + 1, files, reports);
      } else if !IsErrorStatus(status) && Openable(targets[i].filename) {
        var s := StreamFrom(chunks, breaksOff, 0, length, i, |targets|, cancels, k + 1, 0, reports, notify);
        StreamShape(chunks, breaksOff, 0, length, i, |targets|, cancels, k + 1, 0, reports, notify);
        if s.Streamed? {
          FetchCancelledOnlyIfAsked(targets, responses, cancels, notify, i + 1, s.checks,
                                    files + [targets[i].filename], s.reports);
        }
      }
    }
  }

  /** Over a harmless target whose checks all miss the flag, the loop moves
      on to the next target with that many checks made. */
  lemma FetchStep(targets: seq<Target>, responses: seq<Response>, cancels: seq<bool>, notify: bool,
                  i: nat, k: nat, files: seq<string>, reports: seq<int>)
    returns (files': seq<string>, reports': seq<int>)
    requires |responses| == |targets| && i < |targets|
    requires Harmless(targets[i], responses[i])
    requires QuietBetween(cancels, k, ChecksOf(responses[i]))
    ensures FetchFrom(targets, responses, cancels, notify, i, k, files, reports)
         == FetchFrom(targets, responses, cancels, notify, i + 1, k + ChecksOf(responses[i]), files', reports')
  {
    var Reply(status, length, chunks, breaksOff) := responses[i];
    assert !CancelSeen(cancels, k);
    if status == 404 {
      files', reports' := files, reports;
    } else {
      var s := StreamFrom(chunks, breaksOff, 0, length, i, |targets|, cancels, k + 1, 0, reports, notify);
      StreamShape(chunks, breaksOff, 0, length, i, |targets|, cancels, k + 1, 0, reports, notify);
      QuietSplit(cancels, k, 1, |chunks|);
      files', reports' := files + [targets[i].filename], s.reports;
    }
  }

  /** Over harmless targets `i .. f - 1` whose checks all miss the flag,
      the loop reaches target `f` with their checks made. */
  lemma {:induction false} FetchSkip(targets: seq<Target>, responses: seq<Response>, cancels: seq<bool>,
                                     notify: bool, i: nat, k: nat, files: seq<string>, reports: seq<int>, f: nat)
    returns (files': seq<string>, reports': seq<int>)
    requires |responses| == |targets| && i <= f <= |targets|
    requires forall m :: i <= m < f ==> Harmless(targets[m], responses[m])
    requires QuietBetween(cancels, k, ChecksBetween(responses, i, f))
    ensures FetchFrom(targets, responses, cancels, notify, i, k, files, reports)
         == FetchFrom(targets, responses, cancels, notify, f, k + ChecksBetween(responses, i, f), files', reports')
    decreases f - i
  {
    if i == f {
      files', reports' := files, reports;
    } else {
      QuietSplit(cancels, k, ChecksOf(responses[i]), ChecksBetween(responses, i + 1, f));
      var files1, reports1 := FetchStep(targets, responses, cancels, notify, i, k, files, reports);
      files', reports' := FetchSkip(targets, responses, cancels, notify, i + 1, k + ChecksOf(responses[i]),
                                    files1, reports1, f);
    }
  }

  /** A flag first seen at the check before chunk `q` of a streamed target
      `f` stops the loop inside that file: `f` was requested, no later
      target is. */
  lemma FetchCancelledInFile(targets: seq<Target>, responses: seq<Response>, cancels: seq<bool>,
                             notify: bool, f: nat, k: nat, files: seq<string>, reports: seq<int>, q: nat)
    requires |responses| == |targets| && f < |targets|
    requires Streams(targets[f], responses[f]) && q < |responses[f].chunks|
    requires QuietBetween(cancels, k, 1 + q) && CancelSeen(cancels, k + 1 + q)
    ensures var r := FetchFrom(targets, responses, cancels, notify, f, k, files, reports);
      r.FetchFailed? && r.failure == Cancelled && r.requested == f + 1
  {
    var Reply(status, length, chunks, breaksOff) := responses[f];
    assert !CancelSeen(cancels, k);
    assert !QuietBetween(cancels, k + 1, |chunks|);
    StreamShape(chunks, breaksOff, 0, length, f, |targets|, cancels, k + 1, 0, reports, notify);
  }

  /** The loop over all targets, cancelled inside the file of target `f`. */
  lemma FetchCancelledInChunk(targets: seq<Target>, responses: seq<Response>, cancels: seq<bool>,
                              notify: bool, f: nat, q: nat)
    requires |responses| == |targets| && f < |targets|
    requires forall m :: 0 <= m < f ==> Harmless(targets[m], responses[m])
    requires Streams(targets[f], responses[f]) && q < |responses[f].chunks|
    requires QuietBetween(cancels, 0, ChecksBetween(responses, 0, f) + 1 + q)
    requires CancelSeen(cancels, ChecksBetween(responses, 0, f) + 1 + q)
    ensures var r := FetchFrom(targets, responses, cancels, notify, 0, 0, [], []);
      r.FetchFailed? && r.failure == Cancelled && r.requested == f + 1
  {
    var before := ChecksBetween(responses, 0, f);
    QuietSplit(cancels, 0, before, 1 + q);
    var files, reports := FetchSkip(targets, responses, cancels, notify, 0, 0, [], [], f);
    FetchCancelledInFile(targets, responses, cancels, notify, f, before, files, reports, q);
  }

  /** Under the conditions of `FetchCancelledInChunk`, the loop ends the
      same way for any responses that agree before target `f` and agree at
      `f` on the status, the declared length and the chunks before `q`. */
  lemma {:induction false} FetchCancelledAgree(targets: seq<Target>, responses: seq<Response>,
                                               responses': seq<Response>, cancels: seq<bool>, notify: bool,
                                               i: nat, k: nat, files: seq<string>, reports: seq<int>, f: nat, q: nat)
    requires |responses| == |targets| && |responses'| == |targets| && i <= f < |targets|
    requires forall m :: i <= m < f ==> responses'[m] == responses[m] && Harmless(targets[m], responses[m])
    requires Streams(targets[f], responses[f]) && Streams(targets[f], responses'[f])
    requires responses'[f].status == responses[f].status && responses'[f].contentLength == responses[f].contentLength
    requires q < |responses[f].chunks| && q < |responses'[f].chunks|
    requires responses'[f].chunks[..q] == responses[f].chunks[..q]
    requires QuietBetween(cancels, k, ChecksBetween(responses, i, f) + 1 + q)
    requires CancelSeen(cancels, k + ChecksBetween(responses, i, f) + 1 + q)
    ensures FetchFrom(targets, responses', cancels, notify, i, k, files, reports)
         == FetchFrom(targets, responses, cancels, notify, i, k, files, reports)
    decreases f - i
  {
    if i < f {
      var rest := ChecksBetween(responses, i + 1, f) + 1 + q;
      QuietSplit(cancels, k, ChecksOf(responses[i]), rest);
      var Reply(status, length, chunks, breaksOff) := responses[i];
      assert !CancelSeen(cancels, k);
      if status == 404 {
        FetchCancelledAgree(targets, responses, responses', cancels, notify, i + 1, k + 1, files, reports, f, q);
      } else {
        var s := StreamFrom(chunks, breaksOff, 0, length, i, |targets|, cancels, k + 1, 0, reports, notify);
        StreamShape(chunks, breaksOff, 0, length, i, |targets|, cancels, k + 1, 0, reports, notify);
        QuietSplit(cancels, k, 1, |chunks|);
        FetchCancelledAgree(targets, responses, responses', cancels, notify, i + 1, s.checks,
                            files + [targets[i].filename], s.reports, f, q);
      }
    } else {
      var Reply(status, length, chunks, breaksOff) := responses[f];
      var Reply(_, _, chunks', breaksOff') := responses'[f];
      assert !CancelSeen(cancels, k);
      QuietSplit(cancels, k, 1, q);
      StreamCancelledAgree(chunks, chunks', breaksOff, breaksOff', 0, length, f, |targets|, cancels,
                           k + 1, 0, reports, notify, q);
    }
  }

  /** The loop over all targets, cancelled inside the file of target `f`,
      ends the same way whatever follows chunk `q` of `f`. */
  lemma FetchCancelledIgnoresRest(targets: seq<Target>, responses: seq<Response>,
                                  responses': seq<Response>, cancels: seq<bool>, notify: bool, f: nat, q: nat)
    requires |responses| == |targets| && |responses'| == |targets| && f < |targets|
    requires forall m :: 0 <= m < f ==> Harmless(targets[m], responses[m])
    requires Streams(targets[f], responses[f]) && q < |responses[f].chunks|
    requires QuietBetween(cancels, 0, ChecksBetween(responses, 0, f) + 1 + q)
    requires CancelSeen(cancels, ChecksBetween(responses, 0, f) + 1 + q)
    requires responses'[..f] == responses[..f]
    requires Streams(targets[f], responses'[f])
    requires responses'[f].status == responses[f].status && responses'[f].contentLength == responses[f].contentLength
    requires q < |responses'[f].chunks| && responses'[f].chunks[..q] == responses[f].chunks[..q]
    ensures FetchFrom(targets, responses', cancels, notify, 0, 0, [], [])
         == FetchFrom(targets, responses, cancels, notify, 0, 0, [], [])
  {
    forall m | 0 <= m < f
      ensures responses'[m] == responses[m]
    {
      assert responses'[m] == responses'[..f][m];
    }
    FetchCancelledAgree(targets, responses, responses', cancels, notify, 0, 0, [], [], f, q);
  }

  /** With honest lengths, the values reported across the whole loop rise
      and are percentages. Without a callback nothing is reported. */
  lemma {:induction false} FetchReports(targets: seq<Target>, responses: seq<Response>, cancels: seq<bool>,
                                        notify: bool, i: nat, k: nat, files: seq<string>, reports: seq<int>)
    requires |responses| == |targets| && i <= |targets|
    requires HonestLengths(responses)
    requires Sorted(reports) && Percentages(reports)
    requires reports == [] || (|targets| > 0 && Last(reports) <= FilesBehind(i, |targets|))
    ensures var r := FetchFrom(targets, responses, cancels, notify, i, k, files, reports);
      Sorted(r.reports) && Percentages(r.reports)
    decreases |targets| - i
  {
    if i < |targets| && !CancelSeen(cancels, k) && responses[i].Reply? {
      var Reply(status, length, chunks, breaksOff) := responses[i];
      if status == 404 {
        if reports != [] {
          FilesBehindMonotone(i, i + 1, |targets|);
        }
        FetchReports(targets, responses, cancels, notify, i + 1, k + 1, files, reports);
      } else if !IsErrorStatus(status) && Openable(targets[i].filename) {
        assert chunks[0..] == chunks;
        if length > 0 && reports != [] {
          PercentAtStart(i, length, |targets|);
        }
        var s := StreamFrom(chunks, breaksOff, 0, length, i, |targets|, cancels, k + 1, 0, reports, notify);
        StreamReports(chunks, breaksOff, 0, length, i, |targets|, cancels, k + 1, 0, reports, notify);
        if s.Streamed? {
          FetchReports(targets, responses, cancels, notify, i + 1, s.checks, files + [targets[i].filename], s.reports);
        }
      }
    }
  }

  /** Without a callback the loop reports nothing. */
  lemma {:induction false} FetchSilent(targets: seq<Target>, responses: seq<Response>, cancels: seq<bool>,
                                       i: nat, k: nat, files: seq<string>, reports: seq<int>)
    requires |responses| == |targets| && i <= |targets|
    ensures FetchFrom(targets, responses, cancels, false, i, k, files, reports).reports == reports
    decreases |targets| - i
  {
    if i < |targets| && !CancelSeen(cancels, k) && responses[i].Reply? {
      var Reply(status, length, chunks, breaksOff) := responses[i];
      if status == 404 {
        FetchSilent(targets, responses, cancels, i + 1, k + 1, files, reports);
      } else if !IsErrorStatus(status) && Openable(targets[i].filename) {
        var s := StreamFrom(chunks, breaksOff, 0, length, i, |targets|, cancels, k + 1, 0, reports, false);
        StreamShape(chunks, breaksOff, 0, length, i, |targets|, cancels, k + 1, 0, reports, false);
        if s.Streamed? {
          FetchSilent(targets, responses, cancels, i + 1, s.checks, files + [targets[i].filename], s.reports);
        }
      }
    }
  }

  // ---------------------------------------------------------------------------
  // A whole run

  /** A run that produces an archive got through every target without a
      harmful response; the archive holds exactly the delivered files, in
      target order, and is named after the first of them; the last value
      reported is 100. */
  lemma RunArchived(targets: seq<Target>, responses: seq<Response>, cancels: seq<bool>, notify: bool)
    requires |responses| == |targets|
    ensures var run := RunOf(targets, responses, cancels, notify);
      run.outcome.Archived? ==>
        && run.outcome.entries == DeliveredFrom(targets, responses, 0) != []
        && run.outcome.name == ArchiveName(run.outcome.entries[0])
        && run.requested == |targets|
        && (forall m :: 0 <= m < |targets| ==> Harmless(targets[m], responses[m]))
        && (notify ==> run.reports != [] && Last(run.reports) == 100)
  {
    FetchedFiles(targets, responses, cancels, notify, 0, 0, [], []);
  }

  /** Over harmless responses the outcome is decided in full: cancelled if
      any check saw the flag, else a failure when nothing was delivered,
      else the archive of the delivered files. */
  lemma RunHarmless(targets: seq<Target>, responses: seq<Response>, cancels: seq<bool>, notify: bool)
    requires |responses| == |targets|
    requires forall m :: 0 <= m < |targets| ==> Harmless(targets[m], responses[m])
    ensures var delivered := DeliveredFrom(targets, responses, 0);
      RunOf(targets, responses, cancels, notify).outcome ==
        if !QuietBetween(cancels, 0, ChecksFrom(responses, 0)) then Failed(Cancelled)
        else if delivered == [] then Failed(NothingDownloaded)
        else Archived(ArchiveName(delivered[0]), delivered)
  {
    FetchHarmless(targets, responses, cancels, notify, 0, 0, [], []);
    FetchedFiles(targets, responses, cancels, notify, 0, 0, [], []);
  }

  /** With `cancel()` never called, the first harmful response decides the
      failure, and the targets after it are never requested. */
  lemma RunFirstHarmful(targets: seq<Target>, responses: seq<Response>, cancels: seq<bool>, notify: bool, f: nat)
    requires |responses| == |targets| && f < |targets|
    requires NeverCancelled(cancels)
    requires forall m :: 0 <= m < f ==> Harmless(targets[m], responses[m])
    requires !Harmless(targets[f], responses[f])
    ensures RunOf(targets, responses, cancels, notify).outcome == Failed(FailureOf(targets[f], responses[f]))
    ensures RunOf(targets, responses, cancels, notify).requested == f + 1
  {
    FetchFirstHarmful(targets, responses, cancels, notify, 0, 0, [], [], f);
  }

  /** A run ends as cancelled only if `cancel()` was called during it. */
  lemma RunCancelledOnlyIfAsked(targets: seq<Target>, responses: seq<Response>, cancels: seq<bool>, notify: bool)
    requires |responses| == |targets|
    ensures RunOf(targets, responses, cancels, notify).outcome == Failed(Cancelled) ==>
              exists m :: CancelSeen(cancels, m)
  {
    FetchCancelledOnlyIfAsked(targets, responses, cancels, notify, 0, 0, [], []);
  }

  /** After harmless targets whose checks all miss the flag, a flag seen
      at the check before target `f` cancels the run with `f` GETs issued. */
  lemma RunCancelledBeforeTarget(targets: seq<Target>, responses: seq<Response>, cancels: seq<bool>,
                                 notify: bool, f: nat)
    requires |responses| == |targets| && f < |targets|
    requires forall m :: 0 <= m < f ==> Harmless(targets[m], responses[m])
    requires QuietBetween(cancels, 0, ChecksBetween(responses, 0, f))
    requires CancelSeen(cancels, ChecksBetween(responses, 0, f))
    ensures var run := RunOf(targets, responses, cancels, notify);
      run.outcome == Failed(Cancelled) && run.requested == f
  {
    var fetched := FetchFrom(targets, responses, cancels, notify, 0, 0, [], []);
    assert fetched.FetchFailed? && fetched.failure == Cancelled && fetched.requested == f by {
      var files, reports := FetchSkip(targets, responses, cancels, notify, 0, 0, [], [], f);
    }
    RunOfFailedFetch(targets, responses, cancels, notify);
  }

  /** After harmless targets whose checks all miss the flag, a flag seen
      at the check before chunk `q` of a streamed target `f` cancels the
      run with `f + 1` GETs issued, whatever the later responses are. */
  lemma RunCancelledInChunk(targets: seq<Target>, responses: seq<Response>, cancels: seq<bool>,
                            notify: bool, f: nat, q: nat)
    requires |responses| == |targets| && f < |targets|
    requires forall m :: 0 <= m < f ==> Harmless(targets[m], responses[m])
    requires Streams(targets[f], responses[f]) && q < |responses[f].chunks|
    requires QuietBetween(cancels, 0, ChecksBetween(responses, 0, f) + 1 + q)
    requires CancelSeen(cancels, ChecksBetween(responses, 0, f) + 1 + q)
    ensures var run := RunOf(targets, responses, cancels, notify);
      run.outcome == Failed(Cancelled) && run.requested == f + 1
  {
    FetchCancelledInChunk(targets, responses, cancels, notify, f, q);
    RunOfFailedFetch(targets, responses, cancels, notify);
  }

  /** A run whose loop over targets fails ends with that failure. */
  lemma RunOfFailedFetch(targets: seq<Target>, responses: seq<Response>, cancels: seq<bool>, notify: bool)
    requires |responses| == |targets|
    ensures var fetched := FetchFrom(targets, responses, cancels, notify, 0, 0, [], []);
      fetched.FetchFailed? ==>
        RunOf(targets, responses, cancels, notify) == Run(Failed(fetched.failure), fetched.requested, fetched.reports)
  {
  }

  /** A flag seen before chunk `q` of target `f` leaves no trace of what
      would have come after it: the chunks of `f` from `q` on and every
      later response change nothing about the run, reports included. */
  lemma RunCancelledInChunkIgnoresRest(targets: seq<Target>, responses: seq<Response>,
                                       responses': seq<Response>, cancels: seq<bool>, notify: bool, f: nat, q: nat)
    requires |responses| == |targets| && |responses'| == |targets| && f < |targets|
    requires forall m :: 0 <= m < f ==> Harmless(targets[m], responses[m])
    requires Streams(targets[f], responses[f]) && q < |responses[f].chunks|
    requires QuietBetween(cancels, 0, ChecksBetween(responses, 0, f) + 1 + q)
    requires CancelSeen(cancels, ChecksBetween(responses, 0, f) + 1 + q)
    requires responses'[..f] == responses[..f]
    requires Streams(targets[f], responses'[f])
    requires responses'[f].status == responses[f].status && responses'[f].contentLength == responses[f].contentLength
    requires q < |responses'[f].chunks| && responses'[f].chunks[..q] == responses[f].chunks[..q]
    ensures RunOf(targets, responses', cancels, notify) == RunOf(targets, responses, cancels, notify)
  {
    FetchCancelledIgnoresRest(targets, responses, responses', cancels, notify, f, q);
    RunOfSameFetch(targets, responses, responses', cancels, notify);
  }

  /** A run depends on the responses only through its loop over targets. */
  lemma RunOfSameFetch(targets: seq<Target>, responses: seq<Response>, responses': seq<Response>,
                       cancels: seq<bool>, notify: bool)
    requires |responses| == |targets| && |responses'| == |targets|
    requires FetchFrom(targets, responses', cancels, notify, 0, 0, [], [])
          == FetchFrom(targets, responses, cancels, notify, 0, 0, [], [])
    ensures RunOf(targets, responses', cancels, notify) == RunOf(targets, responses, cancels, notify)
  {
  }

  /** A cancel seen before the second chunk of a single ten-byte file:
      the first chunk is reported as 50, and the run then stops as
      cancelled without reporting anything more. */
  lemma RunCancelledMidFile(t: Target)
    requires Openable(t.filename)
    ensures RunOf([t], [Reply(200, 10, [5, 5], false)], [false, false, true], true)
         == Run(Failed(Cancelled), 1, [50])
  {
    var cancels := [false, false, true];
    assert Percent(0, 5, 10, 1) == 50;
    assert StreamFrom([5, 5], false, 1, 10, 0, 1, cancels, 2, 5, [50], true) == StreamFailed(Cancelled, [50]);
    assert StreamFrom([5, 5], false, 0, 10, 0, 1, cancels, 1, 0, [], true) == StreamFailed(Cancelled, [50]);
  }

  /** A flag seen at the very first check stops the run before any GET is
      issued and before anything is reported. */
  lemma RunCancelledAtStart(targets: seq<Target>, responses: seq<Response>, cancels: seq<bool>, notify: bool)
    requires |responses| == |targets| && |targets| > 0
    requires CancelSeen(cancels, 0)
    ensures RunOf(targets, responses, cancels, notify) == Run(Failed(Cancelled), 0, [])
  {
  }

  /** With honest lengths every reported value is a percentage and they
      never go down; without a callback nothing is reported. */
  lemma RunReports(targets: seq<Target>, responses: seq<Response>, cancels: seq<bool>, notify: bool)
    requires |responses| == |targets|
    ensures var run := RunOf(targets, responses, cancels, notify);
      && (HonestLengths(responses) ==> Sorted(run.reports) && Percentages(run.reports))
      && (!notify ==> run.reports == [])
  {
    var fetched := FetchFrom(targets, responses, cancels, notify, 0, 0, [], []);
    if HonestLengths(responses) {
      FetchReports(targets, responses, cancels, notify, 0, 0, [], []);
      if fetched.Fetched? && fetched.files != [] && notify {
        AppendReport(fetched.reports, 100);
      }
    }
    FetchSilent(targets, responses, cancels, 0, 0, [], []);
  }

  /** Progress is not clamped: a reply whose chunks add up to more than its
      declared length (a gzip-encoded body declares its compressed size)
      makes the callback see a value above 100, and the final 100 then goes
      down from it. */
  lemma RunOverlongReply(t: Target)
    requires Openable(t.filename)
    ensures RunOf([t], [Reply(200, 1, [2], false)], [], true).reports == [200, 100]
  {
    var targets, responses := [t], [Reply(200, 1, [2], false)];
    assert Percent(0, 2, 1, 1) == 200;
    assert StreamFrom([2], false, 1, 1, 0, 1, [], 2, 2, [200], true) == Streamed(2, [200]);
    assert StreamFrom([2], false, 0, 1, 0, 1, [], 1, 0, [], true) == Streamed(2, [200]);
    assert FetchFrom(targets, responses, [], true, 1, 2, [t.filename], [200]) == Fetched([t.filename], [200]);
    assert FetchFrom(targets, responses, [], true, 0, 0, [], []) == Fetched([t.filename], [200]);
  }

  /** A run whose only target has the empty name, which the scratch
      directory cannot hold, fails with a write error once its GET is
      answered with neither 404 nor an error status, and produces no
      archive. */
  lemma RunEmptyName(url: string, reply: Response, cancels: seq<bool>, notify: bool)
    requires reply.Reply? && reply.status != 404 && !IsErrorStatus(reply.status)
    requires !CancelSeen(cancels, 0)
    ensures RunOf([Target(url, "")], [reply], cancels, notify) == Run(Failed(WriteError), 1, [])
  {
  }

  /** An address ending in `/` without the repository marker resolves to
      one target with the empty name, and downloading it fails with a write
      error after one GET, reporting no progress, whenever the server
      answers with a status that is neither 404 nor an error and the check
      before that GET does not see the flag. */
  lemma RunTrailingSlash(dir: string, reply: Response, cancels: seq<bool>, notify: bool)
    requires !Contains(dir + "/", Marker)
    requires reply.Reply? && reply.status != 404 && !IsErrorStatus(reply.status)
    requires !CancelSeen(cancels, 0)
    ensures var parsed := ParseUrl(dir + "/");
      |parsed.targets| == 1 && parsed.targets[0].filename == ""
      && RunOf(parsed.targets, [reply], cancels, notify) == Run(Failed(WriteError), 1, [])
  {
    FallbackOf(dir + "/", dir, "");
    RunEmptyName(dir + "/", reply, cancels, notify);
  }

  /** A missing descriptor does not spoil the run: jar delivered, pom not
      found, gives an archive holding the jar alone, named after it. */
  lemma RunSkipsMissingPom(jar: Target, pom: Target, jarReply: Response, pomReply: Response,
                           cancels: seq<bool>, notify: bool)
    requires Delivers(jar, jarReply)
    requires pomReply.Reply? && pomReply.status == 404
    requires NeverCancelled(cancels)
    ensures RunOf([jar, pom], [jarReply, pomReply], cancels, notify).outcome
         == Archived(ArchiveName(jar.filename), [jar.filename])
  {
    var targets, responses := [jar, pom], [jarReply, pomReply];
    assert DeliveredFrom(targets, responses, 0) == [jar.filename] by {
      assert DeliveredFrom(targets, responses, 1) == [];
    }
    RunHarmless(targets, responses, cancels, notify);
  }

  /** When every target is missing the run fails with nothing downloaded. */
  lemma RunAllMissing(targets: seq<Target>, responses: seq<Response>, cancels: seq<bool>, notify: bool)
    requires |responses| == |targets|
    requires forall m :: 0 <= m < |targets| ==> responses[m].Reply? && responses[m].status == 404
    requires NeverCancelled(cancels)
    ensures RunOf(targets, responses, cancels, notify).outcome == Failed(NothingDownloaded)
  {
    NothingDelivered(targets, responses, 0);
    RunHarmless(targets, responses, cancels, notify);
  }

  lemma {:induction false} NothingDelivered(targets: seq<Target>, responses: seq<Response>, i: nat)
    requires |responses| == |targets| && i <= |targets|
    requires forall m :: i <= m < |targets| ==> responses[m].Reply? && responses[m].status == 404
    ensures DeliveredFrom(targets, responses, i) == []
    decreases |targets| - i
  {
    if i < |targets| {
      NothingDelivered(targets, responses, i + 1);
    }
  }
}
