/**
 * One invocation of the merger against the files it persists in the merge
 * directory: the ledger `mergedfiles.txt`, the artifact `merged_video.mp4`
 * and the engine's working output `temp.mp4`.
 */
module Orchestrator {
  import opened Wrappers
  import opened Text
  import opened Paths
  import opened Merge

  /** A video file, known by the engine inputs that were concatenated into it, in order. */
  datatype Video = Video(sources: seq<string>)

  /** A filesystem or process operation, recorded in the order the run performs it. */
  datatype Effect =
    | WriteFile(path: string, text: string)
    | MergeToFile(target: string)
    | Rename(source: string, target: string)
    | Kill(signal: string)

  /** How a run ends: guard false, engine `end`, or engine `error`. */
  datatype Outcome = NothingToMerge | Merged | EngineFailed

  /**
   * The operations that follow the merge decision: none; the engine writing
   * `temp.mp4`, the ledger rewrite and then the rename; or the engine and
   * its SIGSTOP.
   */
  function MergeEffects(cfg: Config, outcome: Outcome, existsMp4Files: seq<string>): seq<Effect>
  {
    match outcome
    case NothingToMerge => []
    case Merged =>
      [MergeToFile(cfg.TempPath()), WriteFile(cfg.LedgerPath(), CommittedLedger(cfg, existsMp4Files)),
       Rename(cfg.TempPath(), cfg.OutPath())]
    case EngineFailed => [MergeToFile(cfg.TempPath()), Kill("SIGSTOP")]
  }

  /**
   * The artifact is never written directly: the engine writes `temp.mp4`,
   * only the ledger is rewritten, and the artifact changes only through the
   * rename, which is the last operation and happens exactly on success.
   */
  lemma ArtifactOnlyReplacedByRename(cfg: Config, outcome: Outcome, existsMp4Files: seq<string>)
    ensures var effects := MergeEffects(cfg, outcome, existsMp4Files);
            (forall e :: e in effects && e.WriteFile? ==> e.path == cfg.LedgerPath() && e.path != cfg.OutPath()) &&
            (forall e :: e in effects && e.MergeToFile? ==> e.target == cfg.TempPath() && e.target != cfg.OutPath()) &&
            ((exists e :: e in effects && e.Rename?) <==> outcome == Merged) &&
            (outcome == Merged ==> effects[|effects| - 1] == Rename(cfg.TempPath(), cfg.OutPath()) &&
                                   effects[|effects| - 2].WriteFile?)
  {
    ConfigPathsDistinct(cfg);
    var effects := MergeEffects(cfg, outcome, existsMp4Files);
    if outcome == Merged {
      assert effects[2] in effects;
    }
  }

  /** The persisted state of the merge directory and the engine command of the running process. */
  class MergeDir {
    const cfg: Config
    /** `mergedfiles.txt`, `None` while it does not exist. */
    var ledger: Option<string>
    /** `merged_video.mp4`. */
    var output: Option<Video>
    /** `temp.mp4`. */
    var temp: Option<Video>
    /** The module-level list of scanned mp4 files, read again by the `end` handler. */
    var existsMp4Files: seq<string>
    /** The inputs queued on the engine command `proc`. */
    var inputs: seq<string>
    /** Everything written, renamed or signalled so far, in order. */
    var effects: seq<Effect>

    /** A fresh process over a directory in the given state; `proc` starts with no inputs. */
    constructor (cfg: Config, ledger: Option<string>, output: Option<Video>, temp: Option<Video>)
      ensures this.cfg == cfg && this.ledger == ledger && this.output == output && this.temp == temp
      ensures existsMp4Files == [] && inputs == [] && effects == []
    {
      this.cfg := cfg;
      this.ledger := ledger;
      this.output := output;
      this.temp := temp;
      existsMp4Files := [];
      inputs := [];
      effects := [];
    }

    /**
     * One invocation on the files found by the directory walk: filter to
     * mp4, diff against the ledger (writing it on a first run), decide, and
     * merge, publishing on success and leaving everything persisted
     * untouched on failure.
     */
    method Run(scanned: seq<string>, engineSucceeds: bool) returns (outcome: Outcome)
      modifies this
      ensures existsMp4Files == FilterMp4Files(scanned)
      ensures var pending := PendingFiles(existsMp4Files, old(ledger));
              (outcome == NothingToMerge <==> !ShouldMerge(cfg, pending)) &&
              (outcome == EngineFailed <==> ShouldMerge(cfg, pending) && !engineSucceeds) &&
              inputs == old(inputs) + (if outcome == NothingToMerge then [] else EngineInputs(cfg.cwd, pending))
      ensures ledger == if outcome == Merged then Some(CommittedLedger(cfg, existsMp4Files))
                        else if old(ledger).None? then Some(Join(existsMp4Files, '\n'))
                        else old(ledger)
      ensures output == if outcome == Merged then Some(Video(inputs)) else old(output)
      ensures temp == if outcome == Merged then None else old(temp)
      ensures effects == old(effects)
                         + (if old(ledger).None? then [WriteFile(cfg.LedgerPath(), Join(existsMp4Files, '\n'))] else [])
                         + MergeEffects(cfg, outcome, existsMp4Files)
    {
      existsMp4Files := FilterMp4Files(scanned);
      outcome := CheckMergedFiles(existsMp4Files, engineSucceeds);
    }

    /**
     * `checkMergedFiles`: with a ledger, merge what it does not list; without
     * one, first write the whole list to it, then offer the whole list.
     */
    method CheckMergedFiles(fileArr: seq<string>, engineSucceeds: bool) returns (outcome: Outcome)
      modifies this
      ensures existsMp4Files == old(existsMp4Files)
      ensures var pending := PendingFiles(fileArr, old(ledger));
              (outcome == NothingToMerge <==> !ShouldMerge(cfg, pending)) &&
              (outcome == EngineFailed <==> ShouldMerge(cfg, pending) && !engineSucceeds) &&
              inputs == old(inputs) + (if outcome == NothingToMerge then [] else EngineInputs(cfg.cwd, pending))
      ensures ledger == if outcome == Merged then Some(CommittedLedger(cfg, existsMp4Files))
                        else if old(ledger).None? then Some(Join(fileArr, '\n'))
                        else old(ledger)
      ensures output == if outcome == Merged then Some(Video(inputs)) else old(output)
      ensures temp == if outcome == Merged then None else old(temp)
      ensures effects == old(effects)
                         + (if old(ledger).None? then [WriteFile(cfg.LedgerPath(), Join(fileArr, '\n'))] else [])
                         + MergeEffects(cfg, outcome, existsMp4Files)
    {
      var toMergedFiles;
      if ledger.Some? {
        var existsFileArr := Split(ledger.value, '\n');
        toMergedFiles := ComputeDelta(fileArr, existsFileArr);
      } else {
        var buffer := Join(fileArr, '\n');
        ledger := Some(buffer);
        effects := effects + [WriteFile(cfg.LedgerPath(), buffer)];
        toMergedFiles := fileArr;
      }
      assert toMergedFiles == PendingFiles(fileArr, old(ledger));
      outcome := ProcessFfmpeg(toMergedFiles, engineSucceeds);
    }

    /** `processFfmpeg`: merge only when the guard of line 94 holds. */
    method ProcessFfmpeg(toMergedFilesArr: seq<string>, engineSucceeds: bool) returns (outcome: Outcome)
      modifies this
      ensures existsMp4Files == old(existsMp4Files)
      ensures outcome == NothingToMerge <==> !ShouldMerge(cfg, toMergedFilesArr)
      ensures outcome == EngineFailed <==> ShouldMerge(cfg, toMergedFilesArr) && !engineSucceeds
      ensures inputs == old(inputs) + (if outcome == NothingToMerge then [] else EngineInputs(cfg.cwd, toMergedFilesArr))
      ensures ledger == if outcome == Merged then Some(CommittedLedger(cfg, existsMp4Files)) else old(ledger)
      ensures output == if outcome == Merged then Some(Video(inputs)) else old(output)
      ensures temp == if outcome == Merged then None else old(temp)
      ensures effects == old(effects) + MergeEffects(cfg, outcome, existsMp4Files)
    {
      if |toMergedFilesArr| > 0 &&
         (|toMergedFilesArr| == 1 && Resolve(cfg.cwd, toMergedFilesArr[0]) != Resolve(cfg.cwd, cfg.OutPath())) {
        outcome := AddVideoes2Proc(toMergedFilesArr, engineSucceeds);
      } else {
        outcome := NothingToMerge;
      }
    }

    /**
     * `addVideoes2Proc`: queue the resolved mp4 names on the engine in list
     * order and merge into `temp.mp4`; on `end` commit the ledger and rename
     * over the artifact, on `error` send SIGSTOP to the engine and touch nothing else.
     */
    method AddVideoes2Proc(fileArr: seq<string>, engineSucceeds: bool) returns (outcome: Outcome)
      modifies this
      ensures existsMp4Files == old(existsMp4Files)
      ensures outcome == if engineSucceeds then Merged else EngineFailed
      ensures inputs == old(inputs) + EngineInputs(cfg.cwd, fileArr)
      ensures ledger == if engineSucceeds then Some(CommittedLedger(cfg, existsMp4Files)) else old(ledger)
      ensures output == if engineSucceeds then Some(Video(inputs)) else old(output)
      ensures temp == if engineSucceeds then None else old(temp)
      ensures effects == old(effects) + MergeEffects(cfg, outcome, existsMp4Files)
    {
      QueueInputs(fileArr);
      effects := effects + [MergeToFile(cfg.TempPath())];
      if engineSucceeds {
        temp := Some(Video(inputs));
        OnEnd();
        outcome := Merged;
      } else {
        effects := effects + [Kill("SIGSTOP")];
        outcome := EngineFailed;
      }
    }

    /** The loop of `addVideoes2Proc`: `proc.addInput(path.resolve(f))` for each `f` matching `/.mp4/`, in order. */
    method QueueInputs(fileArr: seq<string>)
      modifies this`inputs
      ensures inputs == old(inputs) + EngineInputs(cfg.cwd, fileArr)
    {
      var i := 0;
      while i < |fileArr|
        invariant 0 <= i <= |fileArr|
        invariant inputs == old(inputs) + EngineInputs(cfg.cwd, fileArr[..i])
      {
        assert fileArr[..i + 1][..i] == fileArr[..i];
        if MatchesMp4(fileArr[i]) {
          inputs := inputs + [Resolve(cfg.cwd, fileArr[i])];
        }
        i := i + 1;
      }
      assert fileArr[..i] == fileArr;
    }

    /**
     * The engine's `end` handler: rewrite the ledger to every scanned mp4
     * except the artifact, then rename `temp.mp4` over the artifact (a
     * failed rename is ignored and leaves the artifact as it was).
     */
    method OnEnd()
      modifies this
      ensures existsMp4Files == old(existsMp4Files) && inputs == old(inputs)
      ensures ledger == Some(CommittedLedger(cfg, existsMp4Files))
      ensures output == if old(temp).Some? then old(temp) else old(output)
      ensures temp == None
      ensures effects == old(effects)
                         + [WriteFile(cfg.LedgerPath(), CommittedLedger(cfg, existsMp4Files)),
                            Rename(cfg.TempPath(), cfg.OutPath())]
    {
      var buffer := CommittedLedger(cfg, existsMp4Files);
      ledger := Some(buffer);
      effects := effects + [WriteFile(cfg.LedgerPath(), buffer)];
      if temp.Some? {
        output := temp;
        temp := None;
      }
      effects := effects + [Rename(cfg.TempPath(), cfg.OutPath())];
    }
  }

  /**
   * Idempotence: after a run that merged, a second process over the same
   * directory that finds no new mp4 (the old files and the published
   * artifact) merges nothing and leaves the ledger and the artifact as the
   * first run left them.
   */
  method RerunIsNoOp(cfg: Config, ledger: Option<string>, output: Option<Video>, temp: Option<Video>,
                     scanned: seq<string>, rescanned: seq<string>)
    returns (first: Outcome, second: Outcome, unchangedByRerun: bool)
    requires forall i :: 0 <= i < |scanned| ==> '\n' !in scanned[i]
    requires forall x :: x in rescanned && MatchesMp4(x) ==> x in scanned || Resolve(cfg.cwd, x) == cfg.OutPath()
    ensures first == Merged ==> second == NothingToMerge && unchangedByRerun
  {
    var dir := new MergeDir(cfg, ledger, output, temp);
    first := dir.Run(scanned, true);
    var ledger1, output1 := dir.ledger, dir.output;
    var mp4 := dir.existsMp4Files;
    var again := new MergeDir(cfg, ledger1, output1, dir.temp);
    second := again.Run(rescanned, true);
    unchangedByRerun := again.ledger == ledger1 && again.output == output1;
    if first == Merged {
      forall i | 0 <= i < |mp4| ensures '\n' !in mp4[i] {
        assert mp4[i] in mp4;
      }
      var mp4Again := again.existsMp4Files;
      forall x | x in mp4Again ensures x in mp4 || Resolve(cfg.cwd, x) == cfg.OutPath() {
        if x !in mp4 {
          assert x in rescanned && MatchesMp4(x);
        }
      }
      RerunWithoutNewFilesDoesNotMerge(cfg, mp4, mp4Again);
    }
  }
}
