/**
 * The decision logic of the incremental video merger (app.js): which scanned
 * files are videos, which of them the ledger `mergedfiles.txt` has not seen,
 * whether to merge, what the engine is given, and what the ledger becomes.
 */
module Merge {
  import opened Text
  import opened Paths
  import opened Seqs
  import opened Wrappers

  /**
   * The fixed paths of one run, derived from the working directory and the
   * directory named on the command line.
   */
  datatype Config = Config(cwd: string, mergeDir: string) {
    function Root(): string { Resolve(cwd, mergeDir) }
    function LedgerPath(): string { JoinPath(Root(), "mergedfiles.txt") }
    function OutPath(): string { JoinPath(Root(), "merged_video.mp4") }
    function TempPath(): string { JoinPath(Root(), "temp.mp4") }
  }

  /** The characters a JavaScript `.` does not match (no `s` flag). */
  predicate IsLineTerminator(c: char)
  {
    c == '\n' || c == '\r' || c == '\U{2028}' || c == '\U{2029}'
  }

  /** The regular expression `/.mp4/` matches `s` with its `.` at position `j`. */
  ghost predicate Mp4MatchAt(s: string, j: int)
  {
    0 <= j && j + 4 <= |s| && !IsLineTerminator(s[j]) && s[j + 1..j + 4] == "mp4"
  }

  /**
   * `/.mp4/.test(s)`: some character other than a line terminator followed by
   * `mp4`, anywhere in `s` and case-sensitively; not an extension test.
   */
  function MatchesMp4(s: string): (r: bool)
    ensures r <==> exists j :: Mp4MatchAt(s, j)
    decreases |s|
  {
    if |s| < 4 then false
    else if !IsLineTerminator(s[0]) && s[1..4] == "mp4" then
      assert Mp4MatchAt(s, 0);
      true
    else
      MatchShift(s);
      MatchesMp4(s[1..])
  }

  /** A match not at position 0 is a match in the rest of the string. */
  lemma MatchShift(s: string)
    requires |s| >= 1 && !Mp4MatchAt(s, 0)
    ensures (exists j :: Mp4MatchAt(s, j)) <==> exists j :: Mp4MatchAt(s[1..], j)
  {
    forall j | Mp4MatchAt(s, j) ensures Mp4MatchAt(s[1..], j - 1) {
      assert s[1..][j - 1 + 1..j - 1 + 4] == s[j + 1..j + 4];
    }
    forall j | Mp4MatchAt(s[1..], j) ensures Mp4MatchAt(s, j + 1) {
      assert s[1..][j + 1..j + 4] == s[j + 2..j + 5];
    }
  }

  /** Names the pattern accepts although they are not mp4 videos. */
  lemma Mp4PatternAccepts()
    ensures MatchesMp4("clip.mp4v.txt")
    ensures MatchesMp4("/mp4s/mergedfiles.txt")
  {
    assert Mp4MatchAt("clip.mp4v.txt", 4);
    assert Mp4MatchAt("/mp4s/mergedfiles.txt", 0);
  }

  /** Names the pattern rejects: upper case, nothing before `mp4`, a line break before it. */
  lemma Mp4PatternRejects()
    ensures !MatchesMp4("X.MP4")
    ensures !MatchesMp4("mp4")
    ensures !MatchesMp4("\nmp4")
  {
    assert "X.MP4"[1..4] == ".MP" && "X.MP4"[1..] == ".MP4";
    assert ".MP4"[1..4] == "MP4" && ".MP4"[1..] == "MP4";
    assert IsLineTerminator("\nmp4"[0]) && "\nmp4"[1..] == "mp4";
  }

  /** `filterMp4Files`: the scanned names the pattern accepts, in scan order. */
  function FilterMp4Files(fileArr: seq<string>): (r: seq<string>)
    ensures forall x :: x in r <==> x in fileArr && exists j :: Mp4MatchAt(x, j)
  {
    Filter(fileArr, MatchesMp4)
  }

  /** The accepted names stay in scan order, every copy of each kept. */
  lemma FilterMp4FilesOrder(fileArr: seq<string>)
    ensures IsSubseq(FilterMp4Files(fileArr), fileArr)
    ensures forall x :: multiset(FilterMp4Files(fileArr))[x] == if MatchesMp4(x) then multiset(fileArr)[x] else 0
  {
    FilterIsSubseq(fileArr, MatchesMp4);
    FilterCounts(fileArr, MatchesMp4);
  }

  /** `path.resolve(v) == path.resolve(OutPath)`. */
  predicate IsOutFile(cfg: Config, v: string)
  {
    Resolve(cfg.cwd, v) == Resolve(cfg.cwd, cfg.OutPath())
  }

  /** The root directory as a prefix: empty for `/`, which carries its own separator. */
  function RootPrefix(cfg: Config): string
  {
    if cfg.Root() == "/" then "" else cfg.Root()
  }

  /** `path.join(Absolute_Merge_Dir, name)` is the root, one separator and the name. */
  lemma ChildOfRoot(cfg: Config, name: string)
    requires IsPlainSegment(name)
    ensures JoinPath(cfg.Root(), name) == RootPrefix(cfg) + "/" + name
  {
    ResolveIdempotent(cfg.cwd, cfg.cwd, cfg.mergeDir);
    JoinPathChild(cfg.Root(), name);
  }

  /** The output artifact's path is already resolved, so `path.resolve(OutPath)` is `OutPath`. */
  lemma OutPathResolved(cfg: Config)
    ensures Resolve(cfg.cwd, cfg.OutPath()) == cfg.OutPath()
  {
    var out := cfg.OutPath();
    NormalizeIdempotent(cfg.Root() + "/" + "merged_video.mp4");
    assert NormalizeAbsolute(out) == out;
    assert IsAbsolute(out);
  }

  /** The ledger, the output and the temporary file are three different files. */
  lemma ConfigPathsDistinct(cfg: Config)
    ensures cfg.OutPath() != cfg.TempPath()
    ensures cfg.OutPath() != cfg.LedgerPath() && cfg.TempPath() != cfg.LedgerPath()
  {
    ChildOfRoot(cfg, "merged_video.mp4");
    ChildOfRoot(cfg, "temp.mp4");
    ChildOfRoot(cfg, "mergedfiles.txt");
    var out, tmp, ledger := cfg.OutPath(), cfg.TempPath(), cfg.LedgerPath();
    assert |out| != |tmp| && |tmp| != |ledger|;
    assert out[|out| - 1] == '4' && ledger[|ledger| - 1] == 't';
  }

  /** A match inside a name is still a match after a directory is put in front of it. */
  lemma MatchInSuffix(prefix: string, name: string)
    requires MatchesMp4(name)
    ensures MatchesMp4(prefix + name)
  {
    var j :| Mp4MatchAt(name, j);
    assert (prefix + name)[|prefix| + j + 1..|prefix| + j + 4] == name[j + 1..j + 4];
    assert Mp4MatchAt(prefix + name, |prefix| + j);
  }

  /** Both videos the merger writes are themselves accepted by `/.mp4/`. */
  lemma ConfigVideosMatch(cfg: Config)
    ensures MatchesMp4(cfg.OutPath()) && MatchesMp4(cfg.TempPath())
  {
    ChildOfRoot(cfg, "merged_video.mp4");
    ChildOfRoot(cfg, "temp.mp4");
    assert Mp4MatchAt("merged_video.mp4", 12);
    assert Mp4MatchAt("temp.mp4", 4);
    MatchInSuffix(RootPrefix(cfg) + "/", "merged_video.mp4");
    MatchInSuffix(RootPrefix(cfg) + "/", "temp.mp4");
  }

  /** `filterMergedFile`: the names that do not resolve to the output artifact, in order. */
  function FilterMergedFile(cfg: Config, fileArr: seq<string>): (r: seq<string>)
    ensures forall x :: x in r <==> x in fileArr && Resolve(cfg.cwd, x) != cfg.OutPath()
  {
    OutPathResolved(cfg);
    Filter(fileArr, v => !IsOutFile(cfg, v))
  }

  /** The other names stay in order, every copy of each kept. */
  lemma FilterMergedFileOrder(cfg: Config, fileArr: seq<string>)
    ensures IsSubseq(FilterMergedFile(cfg, fileArr), fileArr)
    ensures forall x :: multiset(FilterMergedFile(cfg, fileArr))[x] ==
                        if Resolve(cfg.cwd, x) == cfg.OutPath() then 0 else multiset(fileArr)[x]
  {
    OutPathResolved(cfg);
    FilterIsSubseq(fileArr, v => !IsOutFile(cfg, v));
    FilterCounts(fileArr, v => !IsOutFile(cfg, v));
  }

  /** Removing the output artifact twice removes nothing more. */
  lemma FilterMergedFileIdempotent(cfg: Config, fileArr: seq<string>)
    ensures FilterMergedFile(cfg, FilterMergedFile(cfg, fileArr)) == FilterMergedFile(cfg, fileArr)
  {
    FilterIdempotent(fileArr, v => !IsOutFile(cfg, v));
  }

  /**
   * `isExistOutFile`: whether some name resolves to the output artifact. The
   * `every` callback always returns true, so the whole list is scanned.
   */
  method IsExistOutFile(cfg: Config, fileArr: seq<string>) returns (found: bool)
    ensures found <==> exists i :: 0 <= i < |fileArr| && Resolve(cfg.cwd, fileArr[i]) == cfg.OutPath()
  {
    OutPathResolved(cfg);
    found := false;
    var i := 0;
    while i < |fileArr|
      invariant 0 <= i <= |fileArr|
      invariant found <==> exists k :: 0 <= k < i && Resolve(cfg.cwd, fileArr[k]) == cfg.OutPath()
    {
      if Resolve(cfg.cwd, fileArr[i]) == Resolve(cfg.cwd, cfg.OutPath()) {
        found := true;
      }
      i := i + 1;
    }
  }

  /** The output artifact is present exactly when `filterMergedFile` removes something. */
  lemma ExistOutFileIffFiltered(cfg: Config, fileArr: seq<string>)
    ensures (exists i :: 0 <= i < |fileArr| && Resolve(cfg.cwd, fileArr[i]) == cfg.OutPath())
            <==> FilterMergedFile(cfg, fileArr) != fileArr
  {
    OutPathResolved(cfg);
    FilterChangesIff(fileArr, v => !IsOutFile(cfg, v));
  }

  /**
   * The names of `fileArr` equal to no line of the ledger, in order and with
   * their duplicates: the set difference computed by `checkMergedFiles`.
   */
  function Delta(fileArr: seq<string>, ledgerLines: seq<string>): (r: seq<string>)
    ensures forall x :: x in r <==> x in fileArr && x !in ledgerLines
  {
    Filter(fileArr, f => f !in ledgerLines)
  }

  /** The difference keeps the scan order, and every copy of a name the ledger lacks. */
  lemma DeltaOrder(fileArr: seq<string>, ledgerLines: seq<string>)
    ensures IsSubseq(Delta(fileArr, ledgerLines), fileArr)
    ensures forall x :: multiset(Delta(fileArr, ledgerLines))[x] == if x in ledgerLines then 0 else multiset(fileArr)[x]
  {
    FilterIsSubseq(fileArr, f => f !in ledgerLines);
    FilterCounts(fileArr, f => f !in ledgerLines);
  }

  /** The difference grows by one name at a time, as `checkMergedFiles` pushes. */
  lemma DeltaSnoc(prefix: seq<string>, x: string, ledgerLines: seq<string>)
    ensures Delta(prefix + [x], ledgerLines) == Delta(prefix, ledgerLines) + (if x in ledgerLines then [] else [x])
  {
    FilterAppend(prefix, [x], f => f !in ledgerLines);
  }

  /**
   * The ledger branch of `checkMergedFiles`, given the ledger's lines:
   * record each line as seen, then keep the names not seen.
   */
  method ComputeDelta(fileArr: seq<string>, existsFileArr: seq<string>) returns (toMergedFiles: seq<string>)
    ensures toMergedFiles == Delta(fileArr, existsFileArr)
  {
    var seen: set<string> := {};
    var i := 0;
    while i < |existsFileArr|
      invariant 0 <= i <= |existsFileArr|
      invariant forall x :: x in seen <==> x in existsFileArr[..i]
    {
      seen := seen + {existsFileArr[i]};
      i := i + 1;
      assert existsFileArr[..i] == existsFileArr[..i - 1] + [existsFileArr[i - 1]];
    }
    assert existsFileArr[..i] == existsFileArr;
    toMergedFiles := [];
    var j := 0;
    while j < |fileArr|
      invariant 0 <= j <= |fileArr|
      invariant toMergedFiles == Delta(fileArr[..j], existsFileArr)
    {
      assert fileArr[..j + 1] == fileArr[..j] + [fileArr[j]];
      DeltaSnoc(fileArr[..j], fileArr[j], existsFileArr);
      if fileArr[j] !in seen {
        toMergedFiles := toMergedFiles + [fileArr[j]];
      }
      j := j + 1;
    }
    assert fileArr[..j] == fileArr;
  }

  /**
   * The list handed to `processFfmpeg`: the whole scan on a first run
   * (no ledger), the names missing from the ledger otherwise.
   */
  function PendingFiles(fileArr: seq<string>, ledger: Option<string>): seq<string>
  {
    if ledger.None? then fileArr else Delta(fileArr, Split(ledger.value, '\n'))
  }

  /** The guard of `processFfmpeg`, as written. */
  predicate ShouldMerge(cfg: Config, toMergedFilesArr: seq<string>)
  {
    |toMergedFilesArr| > 0 &&
    (|toMergedFilesArr| == 1 && Resolve(cfg.cwd, toMergedFilesArr[0]) != Resolve(cfg.cwd, cfg.OutPath()))
  }

  /**
   * A merge happens for exactly one pending file that is not the output
   * artifact; no file, or two or more, is a no-op.
   */
  lemma MergeDecision(cfg: Config, toMergedFilesArr: seq<string>)
    ensures ShouldMerge(cfg, toMergedFilesArr) <==>
            |toMergedFilesArr| == 1 && Resolve(cfg.cwd, toMergedFilesArr[0]) != cfg.OutPath()
  {
    OutPathResolved(cfg);
  }

  /** Every name resolved, in order. */
  function ResolveAll(cwd: string, paths: seq<string>): seq<string>
  {
    seq(|paths|, i requires 0 <= i < |paths| => Resolve(cwd, paths[i]))
  }

  /**
   * The inputs `addVideoes2Proc` queues on the engine for `fileArr`: each
   * name matching `/.mp4/`, resolved, in list order (built from the back,
   * one `addInput` at a time).
   */
  function EngineInputs(cwd: string, fileArr: seq<string>): seq<string>
    decreases |fileArr|
  {
    if fileArr == [] then []
    else
      var last := fileArr[|fileArr| - 1];
      EngineInputs(cwd, fileArr[..|fileArr| - 1]) + if MatchesMp4(last) then [Resolve(cwd, last)] else []
  }

  /** Resolving distributes over concatenation. */
  lemma ResolveAllAppend(cwd: string, a: seq<string>, b: seq<string>)
    ensures ResolveAll(cwd, a + b) == ResolveAll(cwd, a) + ResolveAll(cwd, b)
  {
    var lhs, rhs := ResolveAll(cwd, a + b), ResolveAll(cwd, a) + ResolveAll(cwd, b);
    assert |lhs| == |rhs|;
    forall i | 0 <= i < |lhs| ensures lhs[i] == rhs[i] {
      if i < |a| {
        assert (a + b)[i] == a[i];
      } else {
        assert (a + b)[i] == b[i - |a|];
      }
    }
  }

  /** The engine inputs of a one-name list. */
  lemma ResolvedMp4Single(cwd: string, f: string)
    ensures ResolveAll(cwd, FilterMp4Files([f])) == if MatchesMp4(f) then [Resolve(cwd, f)] else []
  {
    assert [f][1..] == [];
    assert Filter([f], MatchesMp4) == (if MatchesMp4(f) then [f] else []) + Filter([], MatchesMp4);
    assert FilterMp4Files([f]) == if MatchesMp4(f) then [f] else [];
  }

  /**
   * The engine gets exactly `filterMp4Files` of the list, each name
   * resolved, in the same order.
   */
  lemma {:induction false} EngineInputsAreResolvedMp4Files(cwd: string, fileArr: seq<string>)
    ensures EngineInputs(cwd, fileArr) == ResolveAll(cwd, FilterMp4Files(fileArr))
    decreases |fileArr|
  {
    if fileArr != [] {
      var init, last := fileArr[..|fileArr| - 1], fileArr[|fileArr| - 1];
      var tail := if MatchesMp4(last) then [Resolve(cwd, last)] else [];
      assert EngineInputs(cwd, fileArr) == EngineInputs(cwd, init) + tail;
      EngineInputsAreResolvedMp4Files(cwd, init);
      ResolvedMp4Single(cwd, last);
      ResolveAllAppend(cwd, FilterMp4Files(init), FilterMp4Files([last]));
      assert fileArr == init + [last];
      FilterAppend(init, [last], MatchesMp4);
      assert FilterMp4Files(fileArr) == FilterMp4Files(init) + FilterMp4Files([last]);
    }
  }

  /**
   * Everything pending was scanned as an mp4, so the re-test of `/.mp4/` in
   * `addVideoes2Proc` drops nothing: the engine gets every pending file,
   * resolved, in the order of the scan.
   */
  lemma PendingInputsAllQueued(scanned: seq<string>, ledger: Option<string>, cwd: string)
    ensures var pending := PendingFiles(FilterMp4Files(scanned), ledger);
            EngineInputs(cwd, pending) == ResolveAll(cwd, pending)
  {
    var mp4 := FilterMp4Files(scanned);
    var pending := PendingFiles(mp4, ledger);
    forall i | 0 <= i < |pending| ensures MatchesMp4(pending[i]) {
      assert pending[i] in pending;
    }
    FilterKeepsAll(pending, MatchesMp4);
    EngineInputsAreResolvedMp4Files(cwd, pending);
  }

  /** The ledger written after a successful merge: every scanned mp4 except the output, one per line. */
  function CommittedLedger(cfg: Config, existsMp4Files: seq<string>): string
  {
    Join(FilterMergedFile(cfg, existsMp4Files), '\n')
  }

  /**
   * Read back, the committed ledger is exactly the list of scanned mp4 files
   * that are not the output artifact, in order and with their copies; a
   * single blank line only when that list is empty.
   */
  lemma CommittedLedgerLines(cfg: Config, existsMp4Files: seq<string>)
    requires forall i :: 0 <= i < |existsMp4Files| ==> '\n' !in existsMp4Files[i]
    ensures var kept := FilterMergedFile(cfg, existsMp4Files);
            Split(CommittedLedger(cfg, existsMp4Files), '\n') == if kept == [] then [""] else kept
    ensures var lines := Split(CommittedLedger(cfg, existsMp4Files), '\n');
            (forall x :: x in lines ==> x == "" || (x in existsMp4Files && Resolve(cfg.cwd, x) != cfg.OutPath())) &&
            (forall x :: x in existsMp4Files && Resolve(cfg.cwd, x) != cfg.OutPath() ==> x in lines)
  {
    var kept := FilterMergedFile(cfg, existsMp4Files);
    forall i | 0 <= i < |kept| ensures '\n' !in kept[i] {
      assert kept[i] in kept;
      var k :| 0 <= k < |existsMp4Files| && existsMp4Files[k] == kept[i];
    }
    LedgerRoundTrip(kept, '\n');
  }

  /**
   * First run: the ledger written before any merge already lists every
   * scanned file, and with two or more of them nothing is merged, so a later
   * run never offers any of them to the engine. The first two clauses only
   * unfold `PendingFiles` and the guard; the third is the round trip through
   * the ledger.
   */
  lemma FirstRunBaseline(cfg: Config, existsMp4Files: seq<string>, later: seq<string>)
    requires forall i :: 0 <= i < |existsMp4Files| ==> '\n' !in existsMp4Files[i]
    ensures PendingFiles(existsMp4Files, None) == existsMp4Files
    ensures |existsMp4Files| >= 2 ==> !ShouldMerge(cfg, PendingFiles(existsMp4Files, None))
    ensures forall x :: x in existsMp4Files ==> x !in Delta(later, Split(Join(existsMp4Files, '\n'), '\n'))
  {
    LedgerRoundTrip(existsMp4Files, '\n');
  }

  /**
   * After a successful merge, a re-run that finds no new mp4 (only the old
   * ones and the published artifact) does not merge again.
   */
  lemma RerunWithoutNewFilesDoesNotMerge(cfg: Config, existsMp4Files: seq<string>, later: seq<string>)
    requires forall i :: 0 <= i < |existsMp4Files| ==> '\n' !in existsMp4Files[i]
    requires forall x :: x in later ==> x in existsMp4Files || Resolve(cfg.cwd, x) == cfg.OutPath()
    ensures !ShouldMerge(cfg, PendingFiles(later, Some(CommittedLedger(cfg, existsMp4Files))))
  {
    var lines := Split(CommittedLedger(cfg, existsMp4Files), '\n');
    var pending := Delta(later, lines);
    CommittedLedgerLines(cfg, existsMp4Files);
    MergeDecision(cfg, pending);
    if |pending| == 1 {
      assert pending[0] in pending;
    }
  }

  /**
   * A name holding a line break breaks the ledger: its line is split in two
   * when read back, so it never equals a ledger line and stays pending even
   * right after the ledger that lists it was committed. It is merged again
   * by a run whose scan holds nothing else pending (see
   * `ArtifactBlocksLaterMerges` for why a scan that holds the artifact does not).
   */
  lemma LineBreakNameMergedAgain(cfg: Config, name: string)
    requires '\n' in name
    requires Resolve(cfg.cwd, name) != cfg.OutPath()
    ensures ShouldMerge(cfg, PendingFiles([name], None))
    ensures ShouldMerge(cfg, PendingFiles([name], Some(CommittedLedger(cfg, [name]))))
  {
    assert FilterMergedFile(cfg, [name]) == [name] by {
      OutPathResolved(cfg);
      assert Filter([name], v => !IsOutFile(cfg, v)) == [name] + Filter([], v => !IsOutFile(cfg, v));
    }
    assert CommittedLedger(cfg, [name]) == name;
    var lines := Split(name, '\n');
    assert name !in lines;
    assert Delta([name], lines) == [name] by {
      DeltaSnoc([], name, lines);
      assert [] + [name] == [name];
    }
    MergeDecision(cfg, [name]);
  }

  /**
   * Once a merge has committed its ledger, a later scan that lists the
   * artifact never merges: the committed ledger omits the artifact, so it is
   * pending, and the guard takes only a single pending file that is not the
   * artifact.
   */
  lemma ArtifactBlocksLaterMerges(cfg: Config, existsMp4Files: seq<string>, later: seq<string>, art: string)
    requires forall i :: 0 <= i < |existsMp4Files| ==> '\n' !in existsMp4Files[i]
    requires art in later && art != ""
    requires Resolve(cfg.cwd, art) == cfg.OutPath()
    ensures art in PendingFiles(later, Some(CommittedLedger(cfg, existsMp4Files)))
    ensures !ShouldMerge(cfg, PendingFiles(later, Some(CommittedLedger(cfg, existsMp4Files))))
  {
    var lines := Split(CommittedLedger(cfg, existsMp4Files), '\n');
    var pending := Delta(later, lines);
    CommittedLedgerLines(cfg, existsMp4Files);
    assert art !in lines;
    assert art in pending;
    MergeDecision(cfg, pending);
    if |pending| == 1 {
      assert pending[0] in pending;
    }
  }
}
