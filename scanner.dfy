/** The path scanner: `scan_path` walks one scan target, classifies each
    eligible readable file and stops at the first flagged one. */
module Scanner {
  import opened Types
  import opened Loader
  import opened Interpreter

  /** What the scan does with one entry of a file list. */
  datatype Step =
    | Skipped                    // ineligible or unreadable: no model call
    | Cleared                    // classified, not flagged: go on
    | Flagged(verdict: Verdict)  // classified with a truthy `is_malicious`: return it
    | Crashed                    // the decoded reply is not an object: `.get` raises

  /** The entry is handed to the model: eligible by name, and readable. */
  predicate Classified(f: FileEntry) {
    IsTextFile(f.name) && f.content.Some?
  }

  /** The text `scan_path` sends for a classified entry. */
  function Sample(f: FileEntry): (code: string)
    requires Classified(f)
    ensures |code| <= MaxContentLength && code <= f.content.value
  {
    Truncate(f.content.value)
  }

  /** One iteration of the inner loop of `scan_path`. */
  function Examine(f: FileEntry, classify: string -> CallResult, parse: string -> ParseOutcome): Step {
    if !Classified(f) then Skipped
    else
      match Interpret(Sample(f), classify, parse)
      case NonObject => Crashed
      case Object(v) => if v.isMalicious then Flagged(v) else Cleared
  }

  /** A file is skipped exactly when it is ineligible or unreadable; it is
      flagged exactly for a decoded malicious object; a decoded non-object
      crashes the scan at `result.get`; a failed call and an undecodable reply
      clear it (fail-open). */
  lemma ExamineCases(f: FileEntry, classify: string -> CallResult, parse: string -> ParseOutcome)
    ensures Examine(f, classify, parse).Skipped? <==> !Classified(f)
    ensures Examine(f, classify, parse).Flagged? ==>
      Examine(f, classify, parse).verdict.isMalicious && classify(Sample(f)).Replied? &&
      parse(ExtractJson(classify(Sample(f)).text)) == Decoded(Object(Examine(f, classify, parse).verdict))
    ensures Classified(f) && classify(Sample(f)).CallFailed? ==> Examine(f, classify, parse) == Cleared
    ensures (Classified(f) && classify(Sample(f)).Replied? &&
             parse(ExtractJson(classify(Sample(f)).text)).DecodeError?) ==> Examine(f, classify, parse) == Cleared
    ensures (Classified(f) && classify(Sample(f)).Replied? &&
             parse(ExtractJson(classify(Sample(f)).text)) == Decoded(NonObject)) ==> Examine(f, classify, parse) == Crashed
    ensures forall v :: (Classified(f) && classify(Sample(f)).Replied? &&
             parse(ExtractJson(classify(Sample(f)).text)) == Decoded(Object(v))) ==>
      Examine(f, classify, parse) == if v.isMalicious then Flagged(v) else Cleared
  {
    if Classified(f) {
      var reply := Interpret(Sample(f), classify, parse);
      assert Examine(f, classify, parse) ==
        match reply
        case NonObject => Crashed
        case Object(v) => if v.isMalicious then Flagged(v) else Cleared;
    }
  }

  /** The scan ends at this file. */
  predicate Stops(step: Step) {
    step.Flagged? || step.Crashed?
  }

  /** The per-file behaviour of `scan_path` with the given model endpoint and
      JSON parser. The scan below is stated for any such per-file function. */
  function Examiner(classify: string -> CallResult, parse: string -> ParseOutcome): FileEntry -> Step {
    f => Examine(f, classify, parse)
  }

  /** `scan_path`'s result over the files in walk order: the first flagged
      verdict, a crash, or the fixed "not detected" verdict. */
  function Scan(files: seq<FileEntry>, examine: FileEntry -> Step): Outcome<Verdict>
  {
    if files == [] then Done(NotDetected)
    else
      match examine(files[0])
      case Flagged(v) => Done(v)
      case Crashed => Crash
      case _ => Scan(files[1..], examine)
  }

  /** The entries handed to the model, in order, by `scan_path`. */
  function Calls(files: seq<FileEntry>, examine: FileEntry -> Step): seq<FileEntry>
  {
    if files == [] then []
    else
      (if examine(files[0]).Skipped? then [] else [files[0]]) +
      (if Stops(examine(files[0])) then [] else Calls(files[1..], examine))
  }

  /** Position of the first file at which the scan ends, or `|files|`. */
  function FirstStop(files: seq<FileEntry>, examine: FileEntry -> Step): (n: nat)
    ensures n <= |files|
    ensures forall k :: 0 <= k < n ==> !Stops(examine(files[k]))
    ensures n < |files| ==> Stops(examine(files[n]))
  {
    if files == [] || Stops(examine(files[0])) then 0
    else
      var m := FirstStop(files[1..], examine);
      assert forall k :: 1 <= k <= m ==> files[k] == files[1..][k - 1];
      1 + m
  }

  /** The entries of `files` that are not skipped, in order. */
  function Handled(files: seq<FileEntry>, examine: FileEntry -> Step): (r: seq<FileEntry>)
    ensures |r| <= |files|
  {
    if files == [] then []
    else (if examine(files[0]).Skipped? then [] else [files[0]]) + Handled(files[1..], examine)
  }

  /** An entry is handled exactly when it is in the list and not skipped. */
  lemma {:induction false} HandledMembers(files: seq<FileEntry>, examine: FileEntry -> Step, x: FileEntry)
    ensures x in Handled(files, examine) <==> x in files && !examine(x).Skipped?
  {
    if files != [] {
      HandledMembers(files[1..], examine, x);
      assert files == [files[0]] + files[1..];
    }
  }

  /** The step that ends a scan, as the scan's result. */
  function StopOutcome(step: Step): Outcome<Verdict>
    requires Stops(step)
  {
    if step.Flagged? then Done(step.verdict) else Crash
  }

  /** The scan's result is decided by the first file at which it stops. */
  lemma {:induction false} ScanEndsAtFirstStop(files: seq<FileEntry>, examine: FileEntry -> Step)
    ensures var n := FirstStop(files, examine);
      Scan(files, examine) == if n < |files| then StopOutcome(examine(files[n])) else Done(NotDetected)
  {
    if files != [] && !Stops(examine(files[0])) {
      ScanEndsAtFirstStop(files[1..], examine);
      var n := FirstStop(files, examine);
      assert n < |files| ==> files[n] == files[1..][n - 1];
    }
  }

  /** The model sees exactly the handled files up to and including the one
      at which the scan stops. */
  lemma {:induction false} CallsEndAtFirstStop(files: seq<FileEntry>, examine: FileEntry -> Step)
    ensures var n := FirstStop(files, examine);
      Calls(files, examine) == Handled(files[..if n < |files| then n + 1 else n], examine)
  {
    if files != [] {
      var n := FirstStop(files, examine);
      var cut := if n < |files| then n + 1 else n;
      if !Stops(examine(files[0])) {
        CallsEndAtFirstStop(files[1..], examine);
        assert files[..cut][1..] == files[1..][..cut - 1];
      } else {
        assert files[..cut] == [files[0]];
      }
    }
  }

  /** The scan returns a malicious verdict exactly when that verdict is the
      flagged result of a file before which the scan went on. */
  lemma ScanReportsFirstFlagged(files: seq<FileEntry>, examine: FileEntry -> Step, v: Verdict)
    requires forall f :: examine(f).Flagged? ==> examine(f).verdict.isMalicious
    ensures (Scan(files, examine) == Done(v) && v.isMalicious) <==>
      (exists k :: 0 <= k < |files| && examine(files[k]) == Flagged(v) &&
        forall j :: 0 <= j < k ==> !Stops(examine(files[j])))
  {
    ScanEndsAtFirstStop(files, examine);
    var n := FirstStop(files, examine);
    if k :| (0 <= k < |files| && examine(files[k]) == Flagged(v) &&
             forall j :: 0 <= j < k ==> !Stops(examine(files[j]))) {
      assert k == n;
    }
    if Scan(files, examine) == Done(v) && v.isMalicious {
      assert n < |files|;
      assert examine(files[n]) == Flagged(v);
    }
  }

  lemma ConsSplit(a: seq<FileEntry>, b: seq<FileEntry>)
    requires a != []
    ensures (a + b)[0] == a[0] && (a + b)[1..] == a[1..] + b
  {
  }

  lemma InsertSplit(before: seq<FileEntry>, f: FileEntry, after: seq<FileEntry>)
    requires before != []
    ensures (before + [f] + after)[0] == before[0]
    ensures (before + [f] + after)[1..] == before[1..] + [f] + after
  {
    ConsSplit(before, [f]);
    ConsSplit(before + [f], after);
  }

  /** The scan at a first file that ends it. */
  lemma ScanAtStop(files: seq<FileEntry>, examine: FileEntry -> Step)
    requires files != [] && Stops(examine(files[0]))
    ensures Scan(files, examine) == StopOutcome(examine(files[0]))
    ensures Calls(files, examine) == [files[0]]
  {
  }

  /** The scan past a first file that does not end it. */
  lemma ScanPast(files: seq<FileEntry>, examine: FileEntry -> Step)
    requires files != [] && !Stops(examine(files[0]))
    ensures Scan(files, examine) == Scan(files[1..], examine)
    ensures Calls(files, examine) == (if examine(files[0]).Skipped? then [] else [files[0]]) + Calls(files[1..], examine)
  {
  }

  /** Nothing after the file that ends the scan is read or classified, and
      nothing there changes the result. */
  lemma {:induction false} LaterFilesNeverExamined(files: seq<FileEntry>, rest: seq<FileEntry>, examine: FileEntry -> Step)
    requires exists k :: 0 <= k < |files| && Stops(examine(files[k]))
    ensures Scan(files + rest, examine) == Scan(files, examine)
    ensures Calls(files + rest, examine) == Calls(files, examine)
  {
    assert files != [];
    ConsSplit(files, rest);
    if Stops(examine(files[0])) {
      ScanAtStop(files, examine);
      ScanAtStop(files + rest, examine);
    } else {
      var k :| 0 <= k < |files| && Stops(examine(files[k]));
      assert Stops(examine(files[1..][k - 1]));
      LaterFilesNeverExamined(files[1..], rest, examine);
      ScanPast(files, examine);
      ScanPast(files + rest, examine);
    }
  }

  /** A skipped file is invisible: removing it changes neither the result
      nor the model calls. */
  lemma {:induction false} SkippedFileIsInvisible(before: seq<FileEntry>, f: FileEntry, after: seq<FileEntry>, examine: FileEntry -> Step)
    requires examine(f).Skipped?
    ensures Scan(before + [f] + after, examine) == Scan(before + after, examine)
    ensures Calls(before + [f] + after, examine) == Calls(before + after, examine)
  {
    if before == [] {
      assert before + [f] + after == [f] + after && before + after == after;
      ScanStep(f, after, examine);
    } else {
      InsertSplit(before, f, after);
      ConsSplit(before, after);
      if Stops(examine(before[0])) {
        ScanAtStop(before + [f] + after, examine);
        ScanAtStop(before + after, examine);
      } else {
        SkippedFileIsInvisible(before[1..], f, after, examine);
        ScanPast(before + [f] + after, examine);
        ScanPast(before + after, examine);
      }
    }
  }

  /** A file classified as not malicious, which includes every failed call
      and every undecodable reply, leaves the result as if it were absent. */
  lemma {:induction false} ClearedFileDoesNotStop(before: seq<FileEntry>, f: FileEntry, after: seq<FileEntry>, examine: FileEntry -> Step)
    requires examine(f) == Cleared
    ensures Scan(before + [f] + after, examine) == Scan(before + after, examine)
  {
    if before == [] {
      assert before + [f] + after == [f] + after && before + after == after;
      ScanStep(f, after, examine);
    } else {
      InsertSplit(before, f, after);
      ConsSplit(before, after);
      if Stops(examine(before[0])) {
        ScanAtStop(before + [f] + after, examine);
        ScanAtStop(before + after, examine);
      } else {
        ClearedFileDoesNotStop(before[1..], f, after, examine);
        ScanPast(before + [f] + after, examine);
        ScanPast(before + after, examine);
      }
    }
  }

  /** A file classified as not malicious that the scan reaches adds its own
      model call and the scan goes on past it. */
  lemma {:induction false} ClearedFileAddsOneCall(before: seq<FileEntry>, f: FileEntry, after: seq<FileEntry>, examine: FileEntry -> Step)
    requires examine(f) == Cleared
    requires forall k :: 0 <= k < |before| ==> !Stops(examine(before[k]))
    ensures Calls(before + [f] + after, examine) == Handled(before, examine) + ([f] + Calls(after, examine))
  {
    if before == [] {
      assert before + [f] + after == [f] + after;
      ScanStep(f, after, examine);
    } else {
      var tail := before[1..];
      forall k | 0 <= k < |tail| ensures !Stops(examine(tail[k])) {
        assert tail[k] == before[k + 1];
      }
      ClearedFileAddsOneCall(tail, f, after, examine);
      InsertSplit(before, f, after);
      assert !Stops(examine(before[0]));
      ScanPast(before + [f] + after, examine);
      var head := if examine(before[0]).Skipped? then [] else [before[0]];
      AppendAssoc(head, Handled(tail, examine), [f] + Calls(after, examine));
    }
  }

  /** Every entry handed to the model is eligible by name, readable and part
      of the walk; an ineligible name never reaches the model. */
  lemma CallsOnlyEligible(files: seq<FileEntry>, classify: string -> CallResult, parse: string -> ParseOutcome, x: FileEntry)
    requires x in Calls(files, Examiner(classify, parse))
    ensures IsTextFile(x.name) && x.content.Some? && x in files
  {
    var examine := Examiner(classify, parse);
    CallsEndAtFirstStop(files, examine);
    var n := FirstStop(files, examine);
    var cut := if n < |files| then n + 1 else n;
    HandledMembers(files[..cut], examine, x);
    assert !Examine(x, classify, parse).Skipped?;
    var j :| 0 <= j < cut && files[..cut][j] == x;
    assert files[j] == x;
  }

  /** Three files in walk order, the second and third flagged: the result is
      the second file's verdict and the third is never classified. */
  lemma EarlyExitExample(f1: FileEntry, f2: FileEntry, f3: FileEntry, examine: FileEntry -> Step)
    requires examine(f1) == Cleared
    requires examine(f2).Flagged? && examine(f3).Flagged?
    ensures Scan([f1, f2, f3], examine) == Done(examine(f2).verdict)
    ensures Calls([f1, f2, f3], examine) == [f1, f2]
  {
    assert [f1, f2, f3][1..] == [f2, f3];
  }

  /** The model call as written: the module never binds `client`, so the
      call raises `NameError` before any request leaves. */
  function UnboundClient(code: string): (r: CallResult)
    ensures r.CallFailed?
  {
    CallFailed("name 'client' is not defined")
  }

  /** As written, every classified file falls into the generic handler and
      is cleared: the scan of any target reports nothing, after handing every
      eligible readable file to the failing call. */
  lemma {:induction false} UnboundClientDetectsNothing(files: seq<FileEntry>, parse: string -> ParseOutcome)
    ensures Scan(files, Examiner(UnboundClient, parse)) == Done(NotDetected)
    ensures Calls(files, Examiner(UnboundClient, parse)) == Handled(files, Examiner(UnboundClient, parse))
  {
    if files != [] {
      var step := Examine(files[0], UnboundClient, parse);
      assert step == Skipped || step == Cleared;
      UnboundClientDetectsNothing(files[1..], parse);
    }
  }

  /** With a working model call, a file whose reply decodes to a malicious
      verdict is reported, provided the scan reaches it. */
  lemma ModelReplyFlagsFile(before: seq<FileEntry>, f: FileEntry, after: seq<FileEntry>,
                            classify: string -> CallResult, parse: string -> ParseOutcome, v: Verdict)
    requires Classified(f)
    requires classify(Sample(f)).Replied?
    requires parse(ExtractJson(classify(Sample(f)).text)) == Decoded(Object(v)) && v.isMalicious
    requires forall k :: 0 <= k < |before| ==> !Stops(Examine(before[k], classify, parse))
    ensures Scan(before + [f] + after, Examiner(classify, parse)) == Done(v)
  {
    var examine := Examiner(classify, parse);
    var files := before + [f] + after;
    assert files[|before|] == f;
    assert examine(f) == Flagged(v);
    forall j | 0 <= j < |before| ensures !Stops(examine(files[j])) {
      assert files[j] == before[j];
    }
    ScanReportsFirstFlagged(files, examine, v);
  }

  /** One step of the scan: the first file either ends it or the scan goes
      on with the rest. */
  lemma ScanStep(f: FileEntry, rest: seq<FileEntry>, examine: FileEntry -> Step)
    ensures Scan([f] + rest, examine) == if Stops(examine(f)) then StopOutcome(examine(f)) else Scan(rest, examine)
    ensures Calls([f] + rest, examine) ==
      (if examine(f).Skipped? then [] else [f]) + (if Stops(examine(f)) then [] else Calls(rest, examine))
  {
    assert ([f] + rest)[0] == f && ([f] + rest)[1..] == rest;
  }

  /** The scan from position `i` of a file list, by what happens to the
      file there. */
  lemma ScanAt(files: seq<FileEntry>, i: nat, examine: FileEntry -> Step)
    requires i < |files|
    ensures var f := files[i];
      match examine(f)
      case Skipped =>
        Scan(files[i..], examine) == Scan(files[i + 1..], examine) &&
        Calls(files[i..], examine) == Calls(files[i + 1..], examine)
      case Cleared =>
        Scan(files[i..], examine) == Scan(files[i + 1..], examine) &&
        Calls(files[i..], examine) == [f] + Calls(files[i + 1..], examine)
      case _ =>
        Scan(files[i..], examine) == StopOutcome(examine(f)) &&
        Calls(files[i..], examine) == [f]
  {
    assert files[i..][0] == files[i] && files[i..][1..] == files[i + 1..];
  }

  /** Files none of which ends the scan pass it on to what follows, adding
      their own calls. */
  lemma {:induction false} NoStopPassesThrough(files: seq<FileEntry>, rest: seq<FileEntry>, examine: FileEntry -> Step)
    requires forall k :: 0 <= k < |files| ==> !Stops(examine(files[k]))
    ensures Scan(files + rest, examine) == Scan(rest, examine)
    ensures Calls(files + rest, examine) == Calls(files, examine) + Calls(rest, examine)
  {
    if files == [] {
      assert files + rest == rest;
    } else {
      ConsSplit(files, rest);
      forall k | 0 <= k < |files| - 1 ensures !Stops(examine(files[1..][k])) {
        assert files[1..][k] == files[k + 1];
      }
      NoStopPassesThrough(files[1..], rest, examine);
      assert !Stops(examine(files[0]));
      ScanPast(files, examine);
      ScanPast(files + rest, examine);
      var head := if examine(files[0]).Skipped? then [] else [files[0]];
      AppendAssoc(head, Calls(files[1..], examine), Calls(rest, examine));
    }
  }

  lemma AppendAssoc(a: seq<FileEntry>, b: seq<FileEntry>, c: seq<FileEntry>)
    ensures a + (b + c) == (a + b) + c
  {
  }

  /** `os.walk` output flattened into walk order. */
  function Flatten(walk: FileLists): seq<FileEntry> {
    if walk == [] then [] else walk[0] + Flatten(walk[1..])
  }

  lemma FlattenCons(walk: FileLists, d: nat)
    requires d < |walk|
    ensures Flatten(walk[d..]) == walk[d] + Flatten(walk[d + 1..])
  {
    assert walk[d..][1..] == walk[d + 1..];
  }

  /** The body of the inner loop of `scan_path` for one file: the eligibility
      test, the read, the truncation and the guarded model call. Its step is
      `Examine`'s, passed in as the function value `examine`. */
  method ScanFile(f: FileEntry, classify: string -> CallResult, parse: string -> ParseOutcome,
                  ghost examine: FileEntry -> Step)
    returns (step: Step)
    requires forall f {:trigger Examine(f, classify, parse)} :: examine(f) == Examine(f, classify, parse)
    ensures step == examine(f)
  {
    assert examine(f) == Examine(f, classify, parse);
    if !IsTextFile(f.name) {
      return Skipped;
    }
    if f.content.None? {
      return Skipped;
    }
    var code := f.content.value;
    if |code| > MaxContentLength {
      code := code[..MaxContentLength];
    }
    assert code == Sample(f);
    var reply := Interpret(code, classify, parse);
    match reply
    case NonObject =>
      return Crashed;
    case Object(v) =>
      if v.isMalicious {
        return Flagged(v);
      }
      return Cleared;
  }

  /** The inner loop of `scan_path` over the file list of one directory.
      `stopped` says that it returned from `scan_path`: some file there ended
      the scan, and `result` is the scan's result. The ghost `examine` names
      the per-file behaviour `Examine` as a function value, so that the
      contract can be stated with `Scan`, `Calls` and `FirstStop`. */
  method ScanDirectory(files: seq<FileEntry>, classify: string -> CallResult, parse: string -> ParseOutcome,
                       ghost examine: FileEntry -> Step)
    returns (stopped: bool, result: Outcome<Verdict>, classified: seq<FileEntry>)
    requires forall f {:trigger Examine(f, classify, parse)} :: examine(f) == Examine(f, classify, parse)
    ensures stopped ==> FirstStop(files, examine) < |files| && result == Scan(files, examine)
    ensures !stopped ==> FirstStop(files, examine) == |files|
    ensures classified == Calls(files, examine)
  {
    assert files[0..] == files;
    classified := [];
    var i := 0;
    while i < |files|
      invariant 0 <= i <= |files|
      invariant i <= FirstStop(files, examine)
      invariant Scan(files, examine) == Scan(files[i..], examine)
      invariant Calls(files, examine) == classified + Calls(files[i..], examine)
    {
      var f := files[i];
      var step := ScanFile(f, classify, parse, examine);
      ScanAt(files, i, examine);
      match step {
        case Skipped =>
        case Cleared =>
          AppendAssoc(classified, [f], Calls(files[i + 1..], examine));
          classified := classified + [f];
        case _ =>
          return true, StopOutcome(step), classified + [f];
      }
      i := i + 1;
    }
    return false, Done(NotDetected), classified;
  }

  /** `scan_path`: the walk over the directories of one scan target and
      their files, with the early return. `classified` logs the entries handed
      to the model; `examine` is `Examine` as in `ScanDirectory`. */
  method ScanPath(walk: FileLists, classify: string -> CallResult, parse: string -> ParseOutcome,
                  ghost examine: FileEntry -> Step)
    returns (result: Outcome<Verdict>, classified: seq<FileEntry>)
    requires forall f {:trigger Examine(f, classify, parse)} :: examine(f) == Examine(f, classify, parse)
    ensures result == Scan(Flatten(walk), examine)
    ensures classified == Calls(Flatten(walk), examine)
  {
    ghost var all := Flatten(walk);
    assert walk[0..] == walk;
    classified := [];
    var d := 0;
    while d < |walk|
      invariant 0 <= d <= |walk|
      invariant Scan(all, examine) == Scan(Flatten(walk[d..]), examine)
      invariant Calls(all, examine) == classified + Calls(Flatten(walk[d..]), examine)
    {
      FlattenCons(walk, d);
      var stopped, r, called := ScanDirectory(walk[d], classify, parse, examine);
      if stopped {
        assert Stops(examine(walk[d][FirstStop(walk[d], examine)]));
        LaterFilesNeverExamined(walk[d], Flatten(walk[d + 1..]), examine);
        return r, classified + called;
      }
      NoStopPassesThrough(walk[d], Flatten(walk[d + 1..]), examine);
      AppendAssoc(classified, called, Calls(Flatten(walk[d + 1..]), examine));
      classified := classified + called;
      d := d + 1;
    }
    result := Done(NotDetected);
  }
}
