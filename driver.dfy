/** The driver `main`: the project and version layout under the base
    directory, one scan per version, the records it appends and the JSON file
    it overwrites after every project. */
module Driver {
  import opened Types
  import opened Loader
  import opened Interpreter
  import opened Scanner

  /** A directory as the walk sees it: its files and its subdirectories, both
      in listing order. */
  datatype Dir = Dir(files: seq<FileEntry>, subdirs: seq<SubDir>)

  /** A named entry of a directory listing that is itself a directory. */
  datatype SubDir = SubDir(name: string, dir: Dir)

  /** `os.walk` from `d`, top-down: the file list of `d`, then the walk of
      each subdirectory in listing order. */
  function Walk(d: Dir): FileLists
    decreases d, 1
  {
    [d.files] + WalkAll(d.subdirs)
  }

  function WalkAll(subs: seq<SubDir>): FileLists
    decreases subs, 0
  {
    if subs == [] then [] else Walk(subs[0].dir) + WalkAll(subs[1..])
  }

  /** The files `scan_path` visits for the target `d`, in walk order. */
  function Files(d: Dir): seq<FileEntry> {
    Flatten(Walk(d))
  }

  /** `ver or "default"`: never empty, a subdirectory keeps its own name, and
      "default" shows up only for the project itself or for a subdirectory of
      that name. */
  function VersionLabel(ver: string): (shown: string)
    ensures shown != []
    ensures ver != [] ==> shown == ver
    ensures shown == "default" <==> ver == [] || ver == "default"
  {
    if ver == [] then "default" else ver
  }

  /** The scan targets of one project: its subdirectories, or the project
      directory itself under the empty version name when it has none. */
  function Targets(project: Dir): seq<SubDir> {
    if project.subdirs == [] then [SubDir("", project)] else project.subdirs
  }

  /** One element of the `results` list written to the output file. */
  datatype ScanRecord = ScanRecord(project: string, version: string, reason: string, isMalicious: bool)

  /** The record appended for one version, or a crash: the scan itself
      aborts, or its result has no `"reason"` key. */
  function RecordFor(project: string, target: SubDir, examine: FileEntry -> Step): Outcome<ScanRecord> {
    match Scan(Files(target.dir), examine)
    case Crash => Crash
    case Done(v) =>
      if v.reason.None? then Crash
      else Done(ScanRecord(project, VersionLabel(target.name), v.reason.value, v.isMalicious))
  }

  /** The records of the versions `targets` of one project, in order, or a
      crash at the first version that crashes. */
  function VersionRecords(project: string, targets: seq<SubDir>, examine: FileEntry -> Step): (r: Outcome<seq<ScanRecord>>)
    ensures r.Done? ==> |r.value| == |targets|
    ensures r.Done? ==> forall i :: 0 <= i < |targets| ==>
      r.value[i].project == project && r.value[i].version == VersionLabel(targets[i].name)
  {
    if targets == [] then Done([])
    else
      match VersionRecords(project, targets[..|targets| - 1], examine)
      case Crash => Crash
      case Done(rs) =>
        match RecordFor(project, targets[|targets| - 1], examine)
        case Crash => Crash
        case Done(r) => Done(rs + [r])
  }

  /** The records of one project. */
  function ProjectRecords(project: SubDir, examine: FileEntry -> Step): Outcome<seq<ScanRecord>> {
    VersionRecords(project.name, Targets(project.dir), examine)
  }

  /** One record per version, in listing order, each labelled with its
      project and version and carrying the reason and flag of that version's
      scan. */
  lemma {:induction false} VersionRecordsShape(project: string, targets: seq<SubDir>, examine: FileEntry -> Step)
    requires VersionRecords(project, targets, examine).Done?
    ensures var rs := VersionRecords(project, targets, examine).value;
      |rs| == |targets| &&
      forall i :: 0 <= i < |rs| ==>
        RecordFor(project, targets[i], examine) == Done(rs[i])
  {
    if targets != [] {
      var front := targets[..|targets| - 1];
      VersionRecordsShape(project, front, examine);
      forall i | 0 <= i < |front| ensures targets[i] == front[i] { }
    }
  }

  /** A version that crashes ends the project, and with it the run. */
  lemma {:induction false} CrashedVersionCrashesProject(project: string, targets: seq<SubDir>, examine: FileEntry -> Step, i: nat)
    requires i < |targets| && RecordFor(project, targets[i], examine).Crash?
    ensures VersionRecords(project, targets, examine).Crash?
  {
    if i < |targets| - 1 {
      CrashedVersionCrashesProject(project, targets[..|targets| - 1], examine, i);
    }
  }

  /** A project without subdirectories yields exactly one record, labelled
      "default", for a scan of the whole project directory. */
  lemma DefaultVersionRecord(project: SubDir, examine: FileEntry -> Step)
    requires project.dir.subdirs == []
    requires ProjectRecords(project, examine).Done?
    ensures var rs := ProjectRecords(project, examine).value;
      |rs| == 1 && rs[0].project == project.name && rs[0].version == "default" &&
      Scan(project.dir.files, examine).Done? &&
      Some(rs[0].reason) == Scan(project.dir.files, examine).value.reason &&
      rs[0].isMalicious == Scan(project.dir.files, examine).value.isMalicious
  {
    var target := SubDir("", project.dir);
    VersionRecordsShape(project.name, [target], examine);
    assert Files(project.dir) == project.dir.files by {
      assert WalkAll([]) == [];
      assert Walk(project.dir) == [project.dir.files];
      assert Flatten([project.dir.files]) == project.dir.files + Flatten([]);
    }
  }

  /** When a project has versions, files directly inside the project
      directory are never scanned: replacing them changes no record. */
  lemma TopLevelFilesIgnored(project: SubDir, other: seq<FileEntry>, examine: FileEntry -> Step)
    requires project.dir.subdirs != []
    ensures ProjectRecords(project, examine) ==
      ProjectRecords(SubDir(project.name, Dir(other, project.dir.subdirs)), examine)
  {
  }

  /** What each project contributes to `results`, in listing order: its
      records, or a crash. */
  function ProjectOutcomes(projects: seq<SubDir>, examine: FileEntry -> Step): seq<Outcome<seq<ScanRecord>>> {
    seq(|projects|, i requires 0 <= i < |projects| => ProjectRecords(projects[i], examine))
  }

  /** The `results` list after projects with the given outcomes: their
      records concatenated in order, or a crash if any of them crashed. */
  function Results(outs: seq<Outcome<seq<ScanRecord>>>): Outcome<seq<ScanRecord>>
  {
    if outs == [] then Done([])
    else
      match Results(outs[..|outs| - 1])
      case Crash => Crash
      case Done(rs) =>
        match outs[|outs| - 1]
        case Crash => Crash
        case Done(ps) => Done(rs + ps)
  }

  /** The `results` list of `main` over the given projects, or a crash. */
  function CorpusRecords(projects: seq<SubDir>, examine: FileEntry -> Step): Outcome<seq<ScanRecord>> {
    Results(ProjectOutcomes(projects, examine))
  }

  /** The results after one more project. */
  lemma ResultsStep(outs: seq<Outcome<seq<ScanRecord>>>, p: nat)
    requires p < |outs| && Results(outs[..p]).Done?
    ensures outs[p].Crash? ==> Results(outs[..p + 1]).Crash?
    ensures outs[p].Done? ==> Results(outs[..p + 1]) == Done(Results(outs[..p]).value + outs[p].value)
  {
    assert outs[..p + 1][..p] == outs[..p];
  }

  /** The results grow project by project: the results after the first `k`
      projects are a prefix of the results after all of them, and a crash
      among the first `k` is a crash of the whole run. */
  lemma {:induction false} ResultsPrefix(outs: seq<Outcome<seq<ScanRecord>>>, k: nat)
    requires k <= |outs|
    ensures Results(outs[..k]).Crash? ==> Results(outs).Crash?
    ensures Results(outs).Done? ==> Results(outs[..k]).Done? && Results(outs[..k]).value <= Results(outs).value
  {
    if k < |outs| {
      var front := outs[..|outs| - 1];
      assert front[..k] == outs[..k];
      ResultsPrefix(front, k);
    } else {
      assert outs[..k] == outs;
    }
  }

  /** Every record is "not detected". */
  predicate AllClean(rs: seq<ScanRecord>) {
    forall i :: 0 <= i < |rs| ==> !rs[i].isMalicious && rs[i].reason == NotDetectedReason
  }

  /** Projects that all complete with clean records give clean results. */
  lemma {:induction false} ResultsAllClean(outs: seq<Outcome<seq<ScanRecord>>>)
    requires forall i :: 0 <= i < |outs| ==> outs[i].Done? && AllClean(outs[i].value)
    ensures Results(outs).Done? && AllClean(Results(outs).value)
  {
    if outs != [] {
      var front := outs[..|outs| - 1];
      forall i | 0 <= i < |front| ensures front[i].Done? && AllClean(front[i].value) {
        assert front[i] == outs[i];
      }
      ResultsAllClean(front);
    }
  }

  lemma {:induction false} UnboundClientVersionsClean(project: string, targets: seq<SubDir>, parse: string -> ParseOutcome)
    ensures var r := VersionRecords(project, targets, Examiner(UnboundClient, parse));
      r.Done? && |r.value| == |targets| && AllClean(r.value)
  {
    if targets != [] {
      UnboundClientVersionsClean(project, targets[..|targets| - 1], parse);
      UnboundClientDetectsNothing(Files(targets[|targets| - 1].dir), parse);
    }
  }

  /** As written, and when every directory can be listed, the run never
      crashes and records every version of every project as "not detected",
      whatever the files contain. */
  lemma UnboundClientRecordsAllClean(projects: seq<SubDir>, parse: string -> ParseOutcome)
    ensures var r := CorpusRecords(projects, Examiner(UnboundClient, parse));
      r.Done? && AllClean(r.value)
  {
    var outs := ProjectOutcomes(projects, Examiner(UnboundClient, parse));
    forall i | 0 <= i < |outs| ensures outs[i].Done? && AllClean(outs[i].value) {
      UnboundClientVersionsClean(projects[i].name, Targets(projects[i].dir), parse);
    }
    ResultsAllClean(outs);
  }

  /** Storage of the output file between runs of the loop. */
  datatype StoreState = NoFile | Saved(records: seq<ScanRecord>) | Damaged

  /** How one checkpoint write ends: written in full, `open` raised (the
      file is untouched), or `json.dump` raised after `open` truncated it. */
  datatype WriteResult = Written | OpenFailed | DumpFailed

  /** The output file after one checkpoint attempt. */
  function Persist(prev: StoreState, records: seq<ScanRecord>, w: WriteResult): StoreState {
    match w
    case Written => Saved(records)
    case OpenFailed => prev
    case DumpFailed => Damaged
  }

  /** The output file after the loop has run over projects with outcomes
      `outs`, starting from `initial`, when checkpoint `k` ends as
      `writes(k)`. A crash stops the checkpoints: the file keeps what the
      last completed project left. The run never removes the file. */
  function Checkpoint(initial: StoreState, outs: seq<Outcome<seq<ScanRecord>>>, writes: nat -> WriteResult): (s: StoreState)
    ensures s == initial || s.Saved? || s == Damaged
  {
    if outs == [] then initial
    else
      var before := Checkpoint(initial, outs[..|outs| - 1], writes);
      match Results(outs)
      case Crash => before
      case Done(rs) => Persist(before, rs, writes(|outs| - 1))
  }

  /** The output file after one more project, from the one before. */
  lemma CheckpointStep(initial: StoreState, outs: seq<Outcome<seq<ScanRecord>>>, p: nat, writes: nat -> WriteResult)
    requires p < |outs|
    ensures var before := Checkpoint(initial, outs[..p], writes);
      Checkpoint(initial, outs[..p + 1], writes) ==
        if Results(outs[..p + 1]).Done? then Persist(before, Results(outs[..p + 1]).value, writes(p)) else before
  {
    assert outs[..p + 1][..p] == outs[..p];
  }

  /** Once project `k` completes and its checkpoint is written, the file
      holds exactly the records of projects 1..k, in order, whatever earlier
      writes did. */
  lemma WrittenCheckpointHoldsResults(initial: StoreState, outs: seq<Outcome<seq<ScanRecord>>>, k: nat,
                                      writes: nat -> WriteResult)
    requires 1 <= k <= |outs|
    requires Results(outs[..k]).Done? && writes(k - 1) == Written
    ensures Checkpoint(initial, outs[..k], writes) == Saved(Results(outs[..k]).value)
  {
    CheckpointStep(initial, outs, k - 1, writes);
    assert outs[..k - 1 + 1] == outs[..k];
  }

  /** Checkpoint `k` wrote `rs` in full: the results after the first `k`
      projects. */
  predicate WrittenAt(outs: seq<Outcome<seq<ScanRecord>>>, k: int, writes: nat -> WriteResult, rs: seq<ScanRecord>) {
    1 <= k <= |outs| && Results(outs[..k]) == Done(rs) && writes(k - 1) == Written
  }

  /** Whatever the write failures, a saved file that the run wrote holds
      exactly the results after some number of completed projects, the last
      of which was written in full. */
  lemma {:induction false} SavedIsCompletedPrefix(initial: StoreState, outs: seq<Outcome<seq<ScanRecord>>>,
                                                  writes: nat -> WriteResult, rs: seq<ScanRecord>)
    requires Checkpoint(initial, outs, writes) == Saved(rs)
    requires Saved(rs) != initial
    ensures exists k :: WrittenAt(outs, k, writes, rs)
  {
    var n := |outs|;
    var front := outs[..n - 1];
    assert outs[..n] == outs;
    CheckpointStep(initial, outs, n - 1, writes);
    if Results(outs).Done? && writes(n - 1) == Written {
      assert WrittenAt(outs, n, writes, rs);
    } else {
      SavedIsCompletedPrefix(initial, front, writes, rs);
      var k :| WrittenAt(front, k, writes, rs);
      assert front[..k] == outs[..k];
      assert WrittenAt(outs, k, writes, rs);
    }
  }

  /** After a crash at project `m`, nothing more is written: the file stays
      as the first `m` projects left it. */
  lemma {:induction false} CheckpointFrozenAfterCrash(initial: StoreState, outs: seq<Outcome<seq<ScanRecord>>>, m: nat,
                                                      writes: nat -> WriteResult)
    requires m < |outs|
    requires Results(outs[..m + 1]).Crash?
    ensures Results(outs).Crash?
    ensures Checkpoint(initial, outs, writes) == Checkpoint(initial, outs[..m], writes)
  {
    var n := |outs|;
    var front := outs[..n - 1];
    assert outs[..n] == outs;
    CheckpointStep(initial, outs, n - 1, writes);
    if m + 1 < n {
      assert front[..m + 1] == outs[..m + 1] && front[..m] == outs[..m];
      CheckpointFrozenAfterCrash(initial, front, m, writes);
    }
  }

  /** When every checkpoint is written, the file ends holding the results of
      all projects, or of those completed before the one that crashed. */
  lemma AllWrittenSavesResults(initial: StoreState, outs: seq<Outcome<seq<ScanRecord>>>, k: nat, writes: nat -> WriteResult)
    requires forall i :: writes(i) == Written
    requires 1 <= k <= |outs|
    requires Results(outs[..k]).Done?
    requires k == |outs| || Results(outs[..k + 1]).Crash?
    ensures Checkpoint(initial, outs, writes) == Saved(Results(outs[..k]).value)
  {
    CheckpointStep(initial, outs, k - 1, writes);
    assert outs[..k - 1 + 1] == outs[..k];
    if k == |outs| {
      assert outs[..k] == outs;
    } else {
      CheckpointFrozenAfterCrash(initial, outs, k, writes);
    }
  }

  /** The output file. `json.dump` replaces its whole contents. */
  class OutputFile {
    var state: StoreState

    constructor (initial: StoreState)
      ensures state == initial
    {
      state := initial;
    }

    /** The checkpoint in `main`: open for writing, dump the whole list,
        and log any exception instead of raising it. */
    method Overwrite(records: seq<ScanRecord>, w: WriteResult)
      modifies this
      ensures state == Persist(old(state), records, w)
    {
      match w
      case Written => state := Saved(records);
      case OpenFailed =>
      case DumpFailed => state := Damaged;
    }
  }

  /** The records after one more version, from the scan's result for it:
      a crash or a missing reason crashes the project, and otherwise the
      version's record is appended. */
  lemma VersionRecordStep(project: string, versions: seq<SubDir>, j: nat, examine: FileEntry -> Step,
                          records: seq<ScanRecord>, verdict: Outcome<Verdict>)
    requires j < |versions|
    requires VersionRecords(project, versions[..j], examine) == Done(records)
    requires verdict == Scan(Files(versions[j].dir), examine)
    ensures verdict.Crash? || verdict.value.reason.None? ==> VersionRecords(project, versions, examine).Crash?
    ensures verdict.Done? && verdict.value.reason.Some? ==>
      VersionRecords(project, versions[..j + 1], examine) ==
        Done(records + [ScanRecord(project, VersionLabel(versions[j].name),
                                   verdict.value.reason.value, verdict.value.isMalicious)])
  {
    assert versions[..j + 1][..j] == versions[..j];
    if verdict.Crash? || verdict.value.reason.None? {
      CrashedVersionCrashesProject(project, versions, examine, j);
    }
  }

  /** The version loop of `main` for one project: list the versions, scan
      each one and build its record. `crashed` is set when a scan aborts or
      its result has no reason. `examine` is `Examine` as a function value. */
  method ScanProject(project: SubDir, classify: string -> CallResult, parse: string -> ParseOutcome,
                     ghost examine: FileEntry -> Step)
    returns (records: seq<ScanRecord>, crashed: bool)
    requires forall f {:trigger Examine(f, classify, parse)} :: examine(f) == Examine(f, classify, parse)
    ensures crashed <==> ProjectRecords(project, examine).Crash?
    ensures !crashed ==> records == ProjectRecords(project, examine).value
  {
    var versions := Targets(project.dir);
    records := [];
    var j := 0;
    while j < |versions|
      invariant 0 <= j <= |versions|
      invariant VersionRecords(project.name, versions[..j], examine) == Done(records)
    {
      var ver := versions[j];
      var verdict, _ := ScanPath(Walk(ver.dir), classify, parse, examine);
      VersionRecordStep(project.name, versions, j, examine, records, verdict);
      if verdict.Crash? || verdict.value.reason.None? {
        return records, true;
      }
      records := records + [ScanRecord(project.name, VersionLabel(ver.name), verdict.value.reason.value, verdict.value.isMalicious)];
      j := j + 1;
    }
    assert versions[..j] == versions;
    crashed := false;
  }

  /** `main`: scan every project under the base directory, append the
      records of its versions and overwrite the output file after every
      project. Files directly in the base directory are not projects. When
      `crashed` is set the run aborted with an exception and the results in
      memory are lost. */
  method ScanCorpus(base: Dir, classify: string -> CallResult, parse: string -> ParseOutcome,
                    writes: nat -> WriteResult, out: OutputFile)
    returns (results: seq<ScanRecord>, crashed: bool)
    modifies out
    ensures crashed <==> CorpusRecords(base.subdirs, Examiner(classify, parse)).Crash?
    ensures !crashed ==> results == CorpusRecords(base.subdirs, Examiner(classify, parse)).value
    ensures out.state == Checkpoint(old(out.state), ProjectOutcomes(base.subdirs, Examiner(classify, parse)), writes)
  {
    ghost var examine := Examiner(classify, parse);
    ghost var initial := out.state;
    var projects := base.subdirs;
    ghost var outs := ProjectOutcomes(projects, examine);
    assert outs[..0] == [];
    results := [];
    var p := 0;
    while p < |projects|
      invariant 0 <= p <= |projects|
      invariant Results(outs[..p]) == Done(results)
      invariant out.state == Checkpoint(initial, outs[..p], writes)
    {
      var records, failed := ScanProject(projects[p], classify, parse, examine);
      ResultsStep(outs, p);
      CheckpointStep(initial, outs, p, writes);
      if failed {
        CheckpointFrozenAfterCrash(initial, outs, p, writes);
        return results, true;
      }
      results := results + records;
      out.Overwrite(results, writes(p));
      p := p + 1;
    }
    assert outs[..p] == outs;
    crashed := false;
  }
}
