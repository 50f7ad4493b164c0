/** One conversion job (worker's loop body) and the pool that runs every job.
    The filesystem is the set of paths that exist. The encoder, CreateTemp's
    random name, rename, the copy fallback, remove and stat are outside the
    program; their outcomes for one job are given as a JobOracle. */
module Worker {
  import opened Text
  import opened Paths
  import opened Records
  import opened Namer
  import opened Uniquifier

  /** How copyFile ends: opening the temporary file or creating the
      destination fails before anything is written, or io.Copy fails after
      the destination has been created (a partial file stays behind). */
  datatype CopyOutcome = Copied | OpenFailed | CreateFailed | WriteFailed

  /** The outcomes of everything a job asks of the system. */
  datatype JobOracle = JobOracle(
    entropy: Entropy,         // the random part of a timestamped name
    tempRand: nat,            // the number CreateTemp puts in place of '*'
    createOk: bool,           // CreateTemp's own errors (permissions, ...)
    encodeOk: bool,           // avifenc exits with status zero
    encoderOutput: string,    // avifenc's combined output
    renameOk: bool,
    copy: CopyOutcome,        // consulted only when the rename fails
    removeOk: bool,           // os.Remove of the temporary file; its error is ignored
    statOk: bool,             // os.Stat of an existing output succeeds
    convSize: nat)            // the size that stat reports

  const TempPrefix: string := "avif_tmp_"
  const TempSuffix: string := ".avif"

  /** The file name CreateTemp makes from the pattern "avif_tmp_*.avif". */
  function TempName(n: nat): string {
    TempPrefix + DecimalString(n) + TempSuffix
  }

  /** The temporary file, created in the directory of the final output. */
  function TempPath(dst: string, n: nat): (r: string)
    ensures EndsWith(r, TempName(n))
  {
    JoinPath(Dir(dst), TempName(n))
  }

  lemma TempNameIsElement(n: nat)
    ensures TempName(n) != [] && NoSlash(TempName(n))
  {
    var d := DecimalString(n);
    assert NoSlash(d) by {
      forall k | 0 <= k < |d| ensures d[k] != Separator {
        assert IsDecimalDigit(d[k]);
      }
    }
    ConcatNoSlash(TempPrefix, d);
    ConcatNoSlash(TempPrefix + d, TempSuffix);
  }

  /** The temporary file lies in the same directory as the final output, so
      the rename that publishes it stays within one filesystem where possible,
      and its name carries the .avif extension. */
  lemma TempBesideOutput(dst: string, n: nat)
    ensures Dir(TempPath(dst, n)) == Dir(dst)
    ensures Base(TempPath(dst, n)) == TempName(n)
    ensures Ext(TempPath(dst, n)) == ".avif"
  {
    TempNameIsElement(n);
    JoinKeepsDir(dst, TempName(n));
    BaseOfJoin(Dir(dst), TempName(n));
    TempExt(dst, n);
  }

  lemma TempExt(dst: string, n: nat)
    ensures Ext(TempPath(dst, n)) == ".avif"
  {
    var p := TempPath(dst, n);
    var front := p[..|p| - 5];
    assert p == front + ".avif";
    AvifName(front);
  }

  /** The path the job asks for before collision avoidance. */
  function PlannedPath(fi: FileInfo, outDir: string, prefix: string, keepName: bool, o: JobOracle): (r: string)
    ensures EndsWith(r, OutputName(fi, prefix, keepName, o.entropy))
    ensures Ext(r) == ".avif"
  {
    var r := JoinPath(outDir, OutputName(fi, prefix, keepName, o.entropy));
    assert EndsWith(r, ".avif");
    AvifName(r[..|r| - 5]);
    assert r == r[..|r| - 5] + ".avif";
    r
  }

  /** The job got as far as a temporary file. */
  predicate TempCreated(fs: set<string>, dst: string, o: JobOracle) {
    dst != "" && o.createOk && TempPath(dst, o.tempRand) !in fs
  }

  /** The encoded image was moved or copied to the destination. */
  predicate Saved(fs: set<string>, dst: string, o: JobOracle) {
    TempCreated(fs, dst, o) && o.encodeOk && (o.renameOk || o.copy == Copied)
  }

  /** Every path of the uniquifier's answer is a nonempty path. */
  lemma FirstFreeNonEmpty(fs: set<string>, path: string, unique: string)
    requires path != "" && FirstFree(fs, path, unique)
    ensures unique != ""
  {
    if path in fs {
      var i :| 1 <= i <= MaxSuffix && unique == Candidate(path, i) && unique !in fs
               && (forall j :: 1 <= j < i ==> Candidate(path, j) in fs);
      assert |CandidateName(path, i)| >= 1;
    }
  }

  /** Removing a file: os.Remove's error is ignored, so a failed removal
      leaves the file in place. */
  function RemoveIf(fs: set<string>, path: string, ok: bool): set<string> {
    if ok then fs - {path} else fs
  }

  /** The filesystem after a job whose destination is dst. Rename moves the
      temporary file onto dst; the copy fallback creates dst (also when the
      copy itself fails) and then removes the temporary file. */
  function AfterJob(fs: set<string>, dst: string, o: JobOracle): (r: set<string>)
    // a job never deletes a file that existed before it
    ensures fs <= r
    // it adds at most its output and its temporary file
    ensures r <= fs + {dst, TempPath(dst, o.tempRand)}
    // and no temporary file once removal works
    ensures o.removeOk ==> r <= fs + {dst}
    // a job that created no temporary file changed nothing
    ensures !TempCreated(fs, dst, o) ==> r == fs
  {
    var tmp := TempPath(dst, o.tempRand);
    if !TempCreated(fs, dst, o) then fs
    else if !o.encodeOk then RemoveIf(fs + {tmp}, tmp, o.removeOk)
    else if o.renameOk then fs + {dst}
    else if o.copy in {Copied, WriteFailed} then RemoveIf(fs + {tmp} + {dst}, tmp, o.removeOk)
    else RemoveIf(fs + {tmp}, tmp, o.removeOk)
  }

  /** The error a job reports, step by step: no free name, no temporary
      file, the encoder failed, neither rename nor copy saved the output, or
      the output cannot be stat'ed afterwards. */
  function JobOutcome(fs: set<string>, dst: string, o: JobOracle): (r: Option<JobError>)
    ensures r == Some(UniquePathFailed) <==> dst == ""
    ensures r == None <==> Saved(fs, dst, o) && o.statOk && dst in AfterJob(fs, dst, o)
  {
    if dst == "" then Some(UniquePathFailed)
    else if !TempCreated(fs, dst, o) then Some(CreateTempFailed)
    else if !o.encodeOk then Some(EncoderFailed(o.encoderOutput))
    else if !o.renameOk && o.copy != Copied then Some(SaveFailed)
    else if !(o.statOk && dst in AfterJob(fs, dst, o)) then Some(StatFailed)
    else None
  }

  /** The steps of a job after its destination is fixed: create the
      temporary file beside it, run the encoder into it, rename it onto the
      destination or copy it there, and stat the result. */
  method EncodeAndSave(fs: set<string>, dst: string, o: JobOracle)
    returns (err: Option<JobError>, convBytes: nat, fs': set<string>, tmpRemoved: bool)
    requires dst != "" && dst !in fs
    ensures err == JobOutcome(fs, dst, o)
    ensures fs' == AfterJob(fs, dst, o)
    ensures convBytes == (if err == None then o.convSize else 0)
    ensures tmpRemoved <==> TempCreated(fs, dst, o)
  {
    fs' := fs;
    convBytes := 0;
    tmpRemoved := false;
    var tmpPath := TempPath(dst, o.tempRand);
    if !o.createOk || tmpPath in fs' {
      return Some(CreateTempFailed), convBytes, fs', tmpRemoved;
    }
    fs' := fs' + {tmpPath};

    if !o.encodeOk {
      if !tmpRemoved {
        if o.removeOk {
          fs' := fs' - {tmpPath};
        }
        tmpRemoved := true;
      }
      return Some(EncoderFailed(o.encoderOutput)), convBytes, fs', tmpRemoved;
    }

    if !o.renameOk {
      if o.copy != Copied {
        if o.copy == WriteFailed {
          fs' := fs' + {dst};
        }
        if !tmpRemoved {
          if o.removeOk {
            fs' := fs' - {tmpPath};
          }
          tmpRemoved := true;
        }
        return Some(SaveFailed), convBytes, fs', tmpRemoved;
      }
      fs' := fs' + {dst};
      if o.removeOk {
        fs' := fs' - {tmpPath};
      }
      tmpRemoved := true;
    } else {
      assert fs' - {tmpPath} == fs;
      fs' := (fs' - {tmpPath}) + {dst};
      tmpRemoved := true;
    }

    if o.statOk && dst in fs' {
      convBytes := o.convSize;
    } else {
      return Some(StatFailed), convBytes, fs', tmpRemoved;
    }
    err := None;
  }

  /** The body of worker's loop for one file: returns the result it sends,
      the filesystem afterwards and whether the temporary file was dealt with. */
  method ProcessJob(fs: set<string>, fi: FileInfo, outDir: string, prefix: string, keepName: bool, o: JobOracle)
    returns (res: ConvertResult, fs': set<string>, tmpRemoved: bool)
    // the result describes this file
    ensures res.src == fi.path && res.origBytes == fi.size
    // the destination is the first free variant of the planned path, never an existing file
    ensures res.dst == "" <==> !HasFree(fs, PlannedPath(fi, outDir, prefix, keepName, o))
    ensures res.dst != "" ==> FirstFree(fs, PlannedPath(fi, outDir, prefix, keepName, o), res.dst) && res.dst !in fs
    // the outcome and the new filesystem
    ensures res.err == JobOutcome(fs, res.dst, o)
    ensures fs' == AfterJob(fs, res.dst, o)
    // the converted size is reported only for a success
    ensures res.convBytes == (if res.err == None then o.convSize else 0)
    // once created, the temporary file is always handed to rename or remove
    ensures tmpRemoved <==> TempCreated(fs, res.dst, o)
    // nothing is deleted; a success leaves its output; removal that works leaves no temporary file
    ensures fs <= fs'
    ensures res.err == None ==> res.dst != "" && res.dst in fs'
    ensures o.removeOk ==> fs' <= fs + {res.dst}
  {
    var outName := OutputName(fi, prefix, keepName, o.entropy);
    var outPath := JoinPath(outDir, outName);
    var uniquePath, found := EnsureUniquePath(fs, outPath);
    if !found {
      res := ConvertResult(fi.path, "", fi.size, 0, Some(UniquePathFailed));
      return res, fs, false;
    }
    FirstFreeNonEmpty(fs, outPath, uniquePath);
    var err, convBytes;
    err, convBytes, fs', tmpRemoved := EncodeAndSave(fs, uniquePath, o);
    res := ConvertResult(fi.path, uniquePath, fi.size, convBytes, err);
    OutcomeAndFilesystem(fs, res.dst, o);
  }

  /** Where the output and the temporary file are different paths: the
      output is there exactly when it was renamed or copied into place (a
      copy that fails half-way leaves it too), and the temporary file stays
      exactly when it was not renamed and its removal failed. */
  lemma AfterJobLeftovers(fs: set<string>, dst: string, o: JobOracle)
    requires dst != "" && dst !in fs && TempPath(dst, o.tempRand) != dst
    ensures dst in AfterJob(fs, dst, o) <==>
              TempCreated(fs, dst, o) && o.encodeOk && (o.renameOk || o.copy in {Copied, WriteFailed})
    ensures TempPath(dst, o.tempRand) in AfterJob(fs, dst, o) - fs <==>
              TempCreated(fs, dst, o) && !o.removeOk && !(o.encodeOk && o.renameOk)
  {
  }

  /** A job whose encoder fails leaves the filesystem as it found it, once
      the temporary file can be removed. */
  lemma EncoderFailureLeavesNoTrace(fs: set<string>, dst: string, o: JobOracle)
    requires JobOutcome(fs, dst, o) == Some(EncoderFailed(o.encoderOutput)) && o.removeOk
    ensures AfterJob(fs, dst, o) == fs
  {
  }

  /** A successful job adds exactly its output once the temporary file was
      renamed or could be removed; a job that failed before the encoder ran
      changed nothing. */
  lemma OutcomeAndFilesystem(fs: set<string>, dst: string, o: JobOracle)
    ensures JobOutcome(fs, dst, o) == None && (o.renameOk || o.removeOk) ==> AfterJob(fs, dst, o) == fs + {dst}
    ensures JobOutcome(fs, dst, o) in {Some(UniquePathFailed), Some(CreateTempFailed)} ==> AfterJob(fs, dst, o) == fs
  {
  }

  /** The destinations named by a list of results. */
  function Destinations(results: seq<ConvertResult>): set<string> {
    set k | 0 <= k < |results| :: results[k].dst
  }

  lemma DestinationsAppend(results: seq<ConvertResult>, r: ConvertResult)
    ensures Destinations(results + [r]) == Destinations(results) + {r.dst}
  {
    var rs := results + [r];
    assert rs[|results|] == r;
    forall d | d in Destinations(results) ensures d in Destinations(rs) {
      var k :| 0 <= k < |results| && results[k].dst == d;
      assert rs[k] == results[k];
    }
  }

  /** Every destination a job reported, failed or not, is a path that did
      not exist before the pool ran: no job writes over an existing file. */
  ghost predicate OutputsNew(fs: set<string>, results: seq<ConvertResult>) {
    forall k :: 0 <= k < |results| && results[k].dst != "" ==> results[k].dst !in fs
  }

  /** Every successful output still exists. */
  ghost predicate OutputsKept(results: seq<ConvertResult>, cur: set<string>) {
    forall k :: 0 <= k < |results| && results[k].err == None ==> results[k].dst != "" && results[k].dst in cur
  }

  /** No result names the output of an earlier successful job. */
  ghost predicate OutputsDistinct(results: seq<ConvertResult>) {
    forall j, k :: 0 <= j < k < |results| && results[j].err == None ==> results[k].dst != results[j].dst
  }

  /** What holds after the first |results| jobs of the pool have run. */
  ghost predicate PoolInvariant(fs: set<string>, jobs: seq<FileInfo>, oracles: seq<JobOracle>,
                                results: seq<ConvertResult>, cur: set<string>)
    requires |results| <= |jobs| == |oracles|
  {
    && (forall k :: 0 <= k < |results| ==> results[k].src == jobs[k].path && results[k].origBytes == jobs[k].size)
    && (forall k :: 0 <= k < |results| ==>
          results[k].convBytes == (if results[k].err == None then oracles[k].convSize else 0))
    && fs <= cur
    && OutputsNew(fs, results)
    && OutputsKept(results, cur)
    && OutputsDistinct(results)
    && ((forall k :: 0 <= k < |results| ==> oracles[k].removeOk) ==> cur <= fs + Destinations(results))
  }

  lemma OutputsNewStep(fs: set<string>, results: seq<ConvertResult>, cur: set<string>, r: ConvertResult)
    requires OutputsNew(fs, results) && fs <= cur
    requires r.dst != "" ==> r.dst !in cur
    ensures OutputsNew(fs, results + [r])
  {
    var rs := results + [r];
    forall k | 0 <= k < |rs| && rs[k].dst != "" ensures rs[k].dst !in fs {
      if k < |results| { assert rs[k] == results[k]; }
    }
  }

  lemma OutputsKeptStep(results: seq<ConvertResult>, cur: set<string>, r: ConvertResult, next: set<string>)
    requires OutputsKept(results, cur) && cur <= next
    requires r.err == None ==> r.dst != "" && r.dst in next
    ensures OutputsKept(results + [r], next)
  {
    var rs := results + [r];
    forall k | 0 <= k < |rs| && rs[k].err == None ensures rs[k].dst != "" && rs[k].dst in next {
      if k < |results| { assert rs[k] == results[k]; }
    }
  }

  lemma OutputsDistinctStep(results: seq<ConvertResult>, cur: set<string>, r: ConvertResult)
    requires OutputsKept(results, cur) && OutputsDistinct(results)
    requires r.dst != "" ==> r.dst !in cur
    ensures OutputsDistinct(results + [r])
  {
    var rs := results + [r];
    forall j, k | 0 <= j < k < |rs| && rs[j].err == None ensures rs[k].dst != rs[j].dst {
      assert rs[j] == results[j];
      if k < |results| { assert rs[k] == results[k]; }
    }
  }

  lemma CleanupStep(fs: set<string>, oracles: seq<JobOracle>, results: seq<ConvertResult>,
                    cur: set<string>, r: ConvertResult, next: set<string>)
    requires |results| < |oracles|
    requires (forall k :: 0 <= k < |results| ==> oracles[k].removeOk) ==> cur <= fs + Destinations(results)
    requires oracles[|results|].removeOk ==> next <= cur + {r.dst}
    ensures (forall k :: 0 <= k < |results| + 1 ==> oracles[k].removeOk) ==> next <= fs + Destinations(results + [r])
  {
    DestinationsAppend(results, r);
    if forall k :: 0 <= k < |results| + 1 ==> oracles[k].removeOk {
      assert oracles[|results|].removeOk;
    }
  }

  /** One more job keeps the pool invariant, given what ProcessJob promises
      about its result r and the filesystem next it leaves. */
  lemma PoolStep(fs: set<string>, jobs: seq<FileInfo>, oracles: seq<JobOracle>,
                 results: seq<ConvertResult>, cur: set<string>, r: ConvertResult, next: set<string>)
    requires |results| < |jobs| == |oracles|
    requires PoolInvariant(fs, jobs, oracles, results, cur)
    requires r.src == jobs[|results|].path && r.origBytes == jobs[|results|].size
    requires r.convBytes == (if r.err == None then oracles[|results|].convSize else 0)
    requires r.dst != "" ==> r.dst !in cur
    requires cur <= next
    requires r.err == None ==> r.dst != "" && r.dst in next
    requires oracles[|results|].removeOk ==> next <= cur + {r.dst}
    ensures PoolInvariant(fs, jobs, oracles, results + [r], next)
  {
    OutputsNewStep(fs, results, cur, r);
    OutputsKeptStep(results, cur, r, next);
    OutputsDistinctStep(results, cur, r);
    CleanupStep(fs, oracles, results, cur, r, next);
  }

  /** The worker pool run as one worker taking the jobs in order: job k sees
      the filesystem the earlier jobs left and the k-th set of outcomes.
      Every job yields exactly one result, in job order. */
  method RunPool(fs: set<string>, jobs: seq<FileInfo>, outDir: string, prefix: string, keepName: bool,
                 oracles: seq<JobOracle>)
    returns (results: seq<ConvertResult>, fs': set<string>)
    requires |oracles| == |jobs|
    ensures |results| == |jobs|
    ensures forall k :: 0 <= k < |jobs| ==> results[k].src == jobs[k].path && results[k].origBytes == jobs[k].size
    ensures forall k :: 0 <= k < |jobs| ==>
              results[k].convBytes == (if results[k].err == None then oracles[k].convSize else 0)
    // no file that existed before is deleted, and no job reports (and so
    // renames or copies onto) a path that existed before
    ensures fs <= fs'
    ensures forall k :: 0 <= k < |jobs| && results[k].dst != "" ==> results[k].dst !in fs
    // every successful output is still there at the end, and no later job took its name
    ensures forall k :: 0 <= k < |jobs| && results[k].err == None ==> results[k].dst in fs'
    ensures forall j, k :: 0 <= j < k < |jobs| && results[j].err == None ==> results[k].dst != results[j].dst
    // when removal always works, no temporary file is left behind
    ensures (forall k :: 0 <= k < |jobs| ==> oracles[k].removeOk) ==> fs' <= fs + Destinations(results)
  {
    results := [];
    fs' := fs;
    for i := 0 to |jobs|
      invariant |results| == i
      invariant PoolInvariant(fs, jobs, oracles, results, fs')
    {
      var r, next, _ := ProcessJob(fs', jobs[i], outDir, prefix, keepName, oracles[i]);
      PoolStep(fs, jobs, oracles, results, fs', r, next);
      results := results + [r];
      fs' := next;
    }
  }
}
