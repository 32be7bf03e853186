/** The downloader object and the part of the file system it touches. The
    methods are proved to compute the functions of `DownloadSpec`, so every
    lemma of `DownloadFacts` holds of them. */
module Downloads {
  import opened Text
  import opened UrlParsing
  import opened ArchiveNaming
  import opened Progress
  import opened DownloadSpec

  /** How the handling of one target ends: the loop goes on with the next
      target, at check `checks`, with the progress `reports` and with the
      target's file `delivered` or skipped; or the loop stops with `end`. */
  datatype Step = Next(checks: nat, reports: seq<int>, delivered: bool) | Stop(end: FetchEnd)

  /** The files the downloader creates: the scratch directory
      `.temp_download` under the output directory with the names written
      into it, and the zip archives in the output directory, each by name
      with the names of its entries in order. */
  class Disk {
    var scratchExists: bool
    var scratchFiles: set<string>
    var archives: map<string, seq<string>>

    /** A directory that does not exist holds no files. */
    predicate Valid()
      reads this
    {
      !scratchExists ==> scratchFiles == {}
    }

    constructor()
      ensures Valid()
      ensures !scratchExists && scratchFiles == {} && archives == map[]
    {
      scratchExists := false;
      scratchFiles := {};
      archives := map[];
    }

    /** Create the scratch directory unless it exists; an existing one
        keeps its files. */
    method MakeScratch()
      requires Valid()
      modifies this
      ensures Valid()
      ensures scratchExists
      ensures scratchFiles == old(scratchFiles) && archives == old(archives)
    {
      scratchExists := true;
    }

    /** Open a scratch file for writing, creating or truncating it. The
        open fails, and nothing is created, for a name that does not denote
        a file directly inside the scratch directory. */
    method OpenScratchFile(name: string) returns (created: bool)
      requires Valid() && scratchExists
      modifies this
      ensures Valid()
      ensures scratchExists
      ensures created <==> Openable(name)
      ensures scratchFiles == (if created then old(scratchFiles) + {name} else old(scratchFiles))
      ensures archives == old(archives)
    {
      created := Openable(name);
      if created {
        scratchFiles := scratchFiles + {name};
      }
    }

    /** Write the archive `name` holding the scratch files `entries`, in
        that order; an archive of the same name is replaced. */
    method WriteArchive(name: string, entries: seq<string>)
      requires Valid() && scratchExists
      requires forall e :: e in entries ==> e in scratchFiles
      modifies this
      ensures Valid()
      ensures scratchExists && scratchFiles == old(scratchFiles)
      ensures archives == old(archives)[name := entries]
    {
      archives := archives[name := entries];
    }

    /** Remove the scratch directory and everything in it. */
    method RemoveScratch()
      modifies this
      ensures Valid()
      ensures !scratchExists && scratchFiles == {} && archives == old(archives)
    {
      scratchExists := false;
      scratchFiles := {};
    }
  }

  class Downloader {
    var cancelRequested: bool

    constructor()
      ensures !cancelRequested
    {
      cancelRequested := false;
    }

    /** Ask a running download to stop at its next check. */
    method Cancel()
      modifies this
      ensures cancelRequested
    {
      cancelRequested := true;
    }

    /** One run: reset the flag, make the scratch directory, fetch every
        target, and archive what arrived; the scratch directory is removed
        whatever happens. The result is the run `RunOf` describes, the
        flag ends set exactly when the run was cancelled, and the only
        archive written is the one the run produces. */
    method DownloadAndZip(targets: seq<Target>, responses: seq<Response>, cancels: seq<bool>,
                          notify: bool, disk: Disk)
      returns (outcome: Outcome, requested: nat, reports: seq<int>)
      requires |responses| == |targets|
      requires disk.Valid()
      modifies this, disk
      ensures Run(outcome, requested, reports) == RunOf(targets, responses, cancels, notify)
      ensures cancelRequested <==> outcome == Failed(Cancelled)
      ensures disk.Valid() && !disk.scratchExists && disk.scratchFiles == {}
      ensures disk.archives == if outcome.Archived? then old(disk.archives)[outcome.name := outcome.entries]
                               else old(disk.archives)
    {
      cancelRequested := false;
      disk.MakeScratch();
      var fetched := FetchAll(targets, responses, cancels, notify, disk);
      match fetched
      case FetchFailed(failure, req, rs) =>
        disk.RemoveScratch();
        return Failed(failure), req, rs;
      case Fetched(files, rs) =>
        if files == [] {
          disk.RemoveScratch();
          return Failed(NothingDownloaded), |targets|, rs;
        }
        var name := ArchiveName(files[0]);
        disk.WriteArchive(name, files);
        disk.RemoveScratch();
        reports := if notify then rs + [100] else rs;
        return Archived(name, files), |targets|, reports;
    }

    /** The loop over targets: handle each target in turn until one of
        them stops the loop. */
    method FetchAll(targets: seq<Target>, responses: seq<Response>, cancels: seq<bool>,
                    notify: bool, disk: Disk)
      returns (fetched: FetchEnd)
      requires |responses| == |targets|
      requires !cancelRequested && disk.Valid() && disk.scratchExists
      modifies this, disk
      ensures fetched == FetchFrom(targets, responses, cancels, notify, 0, 0, [], [])
      ensures cancelRequested <==> fetched.FetchFailed? && fetched.failure == Cancelled
      ensures disk.Valid() && disk.scratchExists
      ensures disk.archives == old(disk.archives)
      ensures fetched.Fetched? ==> forall f :: f in fetched.files ==> f in disk.scratchFiles
      ensures fetched.FetchFailed? ==> fetched.requested <= |targets|
      ensures disk.scratchFiles == old(disk.scratchFiles)
              + OpenedBefore(targets, responses, if fetched.Fetched? then |targets| else fetched.requested)
    {
      var i, k, files, reports := 0, 0, [], [];
      while i < |targets|
        invariant i <= |targets|
        invariant !cancelRequested && disk.Valid() && disk.scratchExists
        invariant FetchFrom(targets, responses, cancels, notify, i, k, files, reports)
               == FetchFrom(targets, responses, cancels, notify, 0, 0, [], [])
        invariant disk.archives == old(disk.archives)
        invariant forall f :: f in files ==> f in disk.scratchFiles
        invariant disk.scratchFiles == old(disk.scratchFiles) + OpenedBefore(targets, responses, i)
        decreases |targets| - i
      {
        var step := FetchTarget(targets, responses, cancels, notify, disk, i, k, files, reports);
        assert OpenedBefore(targets, responses, i + 1) == OpenedBefore(targets, responses, i)
          + (if Streams(targets[i], responses[i]) then {targets[i].filename} else {});
        if step.Stop? {
          return step.end;
        }
        if step.delivered {
          files := files + [targets[i].filename];
        }
        i, k, reports := i + 1, step.checks, step.reports;
      }
      return Fetched(files, reports);
    }

    /** Target `i`, at check `k`: check the flag, issue the GET, skip a
        404, fail on any other error, open the scratch file and stream the
        file into it. The scratch file is opened exactly when the response
        is streamed and the flag was not seen before the GET. */
    method FetchTarget(targets: seq<Target>, responses: seq<Response>, cancels: seq<bool>,
                       notify: bool, disk: Disk, i: nat, k: nat, ghost files: seq<string>,
                       reports: seq<int>)
      returns (step: Step)
      requires |responses| == |targets| && i < |targets|
      requires !cancelRequested && disk.Valid() && disk.scratchExists
      modifies this, disk
      ensures step.Next? ==>
                FetchFrom(targets, responses, cancels, notify, i, k, files, reports)
                == FetchFrom(targets, responses, cancels, notify, i + 1, step.checks,
                             if step.delivered then files + [targets[i].filename] else files, step.reports)
      ensures step.Stop? ==>
                step.end == FetchFrom(targets, responses, cancels, notify, i, k, files, reports)
                && step.end.FetchFailed? && step.end.requested <= i + 1
      ensures cancelRequested <==> step.Stop? && step.end.failure == Cancelled
      ensures step.Next? && step.delivered ==> Streams(targets[i], responses[i])
      ensures disk.Valid() && disk.scratchExists && disk.archives == old(disk.archives)
      ensures disk.scratchFiles == old(disk.scratchFiles)
              + (if (step.Stop? && step.end.requested == i) || !Streams(targets[i], responses[i]) then {}
                 else {targets[i].filename})
    {
      if CancelSeen(cancels, k) {
        Cancel();
      }
      if cancelRequested {
        return Stop(FetchFailed(Cancelled, i, reports));
      }
      if responses[i].Unreachable? {
        return Stop(FetchFailed(ConnectionError, i + 1, reports));
      }
      var Reply(status, length, chunks, breaksOff) := responses[i];
      if status == 404 {
        return Next(k + 1, reports, false);
      }
      if IsErrorStatus(status) {
        return Stop(FetchFailed(HttpError(status), i + 1, reports));
      }
      var created := disk.OpenScratchFile(targets[i].filename);
      if !created {
        return Stop(FetchFailed(WriteError, i + 1, reports));
      }
      var streamed := Stream(chunks, breaksOff, length, i, |targets|, cancels, k + 1, reports, notify);
      if streamed.StreamFailed? {
        return Stop(FetchFailed(streamed.failure, i + 1, streamed.reports));
      }
      return Next(streamed.checks, streamed.reports, true);
    }

    /** The chunk loop of file `index` of `count`: check the flag before
        each chunk, count the bytes of each non-empty chunk and report
        progress when a callback is given and the length is positive. */
    method Stream(chunks: seq<nat>, breaksOff: bool, total: int, index: nat, count: nat,
                  cancels: seq<bool>, k0: nat, reports0: seq<int>, notify: bool)
      returns (streamed: StreamEnd)
      requires index < count && !cancelRequested
      modifies this
      ensures streamed == StreamFrom(chunks, breaksOff, 0, total, index, count, cancels, k0, 0, reports0, notify)
      ensures cancelRequested <==> streamed.StreamFailed? && streamed.failure == Cancelled
    {
      var j, k, received, reports := 0, k0, 0, reports0;
      while j < |chunks|
        invariant j <= |chunks| && !cancelRequested
        invariant StreamFrom(chunks, breaksOff, j, total, index, count, cancels, k, received, reports, notify)
               == StreamFrom(chunks, breaksOff, 0, total, index, count, cancels, k0, 0, reports0, notify)
        decreases |chunks| - j
      {
        if CancelSeen(cancels, k) {
          Cancel();
        }
        if cancelRequested {
          return StreamFailed(Cancelled, reports);
        }
        if chunks[j] != 0 {
          received := received + chunks[j];
          if total > 0 && notify {
            reports := reports + [Percent(index, received, total, count)];
          }
        }
        j, k := j + 1, k + 1;
      }
      if breaksOff {
        return StreamFailed(ConnectionError, reports);
      }
      return Streamed(k, reports);
    }
  }
}
