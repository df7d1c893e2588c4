/** main (mp3m4a.py:37-69): resolve the two directory arguments, create
    the output directory, then convert every ".m4a" entry of the input
    directory in listing order, printing one line after each conversion.
    No exception is caught, so the first failure ends the run. */
module Batch {
  import opened Wrappers
  import opened PathNames
  import opened Mp4Metadata
  import Decimal
  import opened Id3Frames
  import opened Platform
  import opened Converter

  const CurrentDir: string := "."
  const M4aSuffix: string := ".m4a"
  const Mp3Suffix: string := ".mp3"

  /** A directory argument: "." stands for the current working directory,
      any other string is used as it is. */
  function ResolveDir(arg: string, cwd: string): (r: string)
    ensures arg == CurrentDir ==> r == cwd
    ensures arg != CurrentDir ==> r == arg
  {
    if arg == CurrentDir then cwd else arg
  }

  /** `os.path.splitext(filename)[0] + ".mp3"` */
  function OutputName(name: string): string {
    Splitext(name).0 + Mp3Suffix
  }

  /** For an entry "X.m4a": the output is "X.mp3" when X has a character
      other than '.', and otherwise (X is dots only, e.g. ".m4a") splitext
      finds no extension and the output is "X.m4a.mp3". */
  lemma OutputNameOfM4a(name: string)
    requires EndsWith(name, M4aSuffix) && Sep !in name
    ensures var stem := name[..|name| - |M4aSuffix|];
            OutputName(name) == (if HasNonDot(stem, 0, |stem|) then stem else name) + Mp3Suffix
  {
    var n := |name|;
    var stem := name[..n - 4];
    assert name[n - 4..] == ".m4a";
    assert name[n - 4] == '.' && name[n - 3] == 'm' && name[n - 2] == '4' && name[n - 1] == 'a';
    assert LastIndexOf(name[..n - 3], ExtSep) == n - 4;
    assert name[..n - 2][..n - 3] == name[..n - 3];
    assert LastIndexOf(name[..n - 2], ExtSep) == n - 4;
    assert name[..n - 1][..n - 2] == name[..n - 2];
    assert LastIndexOf(name[..n - 1], ExtSep) == n - 4;
    assert LastIndexOf(name, ExtSep) == n - 4;
    LastIndexOfIsLast(name, Sep);
    assert LastIndexOf(name, Sep) == -1;
    assert HasNonDot(stem, 0, |stem|) <==> HasNonDot(name, 0, n - 4) by {
      if HasNonDot(stem, 0, |stem|) {
        var i :| 0 <= i < |stem| && stem[i] != ExtSep;
        assert name[i] == stem[i];
      }
      if HasNonDot(name, 0, n - 4) {
        var i :| 0 <= i < n - 4 && name[i] != ExtSep;
        assert stem[i] == name[i];
      }
    }
  }

  /** Output names are not injective: for any run of dots D, the distinct
      entries D + "m4a" and D + "m4a.m4a" both give D + "m4a.mp3". */
  lemma OutputNameCollision(dots: string)
    requires |dots| > 0 && forall i :: 0 <= i < |dots| ==> dots[i] == ExtSep
    ensures var a, b := dots + "m4a", dots + "m4a" + M4aSuffix;
            && a != b && EndsWith(a, M4aSuffix) && EndsWith(b, M4aSuffix)
            && OutputName(a) == OutputName(b) == a + Mp3Suffix
  {
    var a, b := dots + "m4a", dots + "m4a" + M4aSuffix;
    assert |a| != |b|;
    assert a[|a| - 4..] == M4aSuffix;
    assert b[|b| - 4..] == M4aSuffix;
    assert Sep !in a by {
      forall i | 0 <= i < |a| ensures a[i] != Sep {
        if i < |dots| { assert a[i] == dots[i]; }
      }
    }
    assert Sep !in b by {
      forall i | 0 <= i < |b| ensures b[i] != Sep {
        if i < |dots| { assert b[i] == dots[i]; } else if i < |a| { assert b[i] == a[i]; }
      }
    }
    OutputNameOfM4a(a);
    OutputNameOfM4a(b);
    var stemA := a[..|a| - 4];
    assert !HasNonDot(stemA, 0, |stemA|) by {
      forall i | 0 <= i < |stemA| ensures stemA[i] == ExtSep {
        assert stemA[i] == dots[i];
      }
    }
    var stemB := b[..|b| - 4];
    assert stemB == a;
    assert stemB[|dots|] == 'm';
  }

  /** The work for one listing entry: its name, the path read, the path
      written and the line printed once it is converted. */
  datatype Job = Job(name: string, input: string, output: string, message: string)

  /** Lines 66-69 for one entry. For an entry "X.m4a" (no '/', as listdir
      gives) the output is written to "X.mp3" in the output directory, or
      to "X.m4a.mp3" when X is dots only. */
  function JobFor(lib: Library, directory: string, outputDir: string, name: string): (job: Job)
    ensures job.name == name && job.input == lib.join(directory, name)
    ensures EndsWith(name, M4aSuffix) && Sep !in name ==>
              var stem := name[..|name| - |M4aSuffix|];
              job.output == lib.join(outputDir, (if HasNonDot(stem, 0, |stem|) then stem else name) + Mp3Suffix)
    ensures job.message == Report(name, job.output)
  {
    var output := lib.join(outputDir, OutputName(name));
    if EndsWith(name, M4aSuffix) && Sep !in name then
      OutputNameOfM4a(name);
      Job(name, lib.join(directory, name), output, Report(name, output))
    else
      Job(name, lib.join(directory, name), output, Report(name, output))
  }

  /** How the loop turns an entry name into a job. */
  type Derive = string -> Job

  /** JobFor for fixed directories and library. */
  function JobMaker(lib: Library, directory: string, outputDir: string): (derive: Derive)
    ensures forall name :: derive(name) == JobFor(lib, directory, outputDir, name)
    ensures forall name :: derive(name).name == name
  {
    name => JobFor(lib, directory, outputDir, name)
  }

  /** The jobs of a listing: one per entry ending in ".m4a", in listing order. */
  function Jobs(derive: Derive, listing: seq<string>): (jobs: seq<Job>)
    ensures |jobs| <= |listing|
    decreases |listing|
  {
    if listing == [] then []
    else
      var name := listing[|listing| - 1];
      Jobs(derive, listing[..|listing| - 1])
        + (if EndsWith(name, M4aSuffix) then [derive(name)] else [])
  }

  /** The jobs of a concatenated listing are the jobs of its parts, in the
      same order. */
  lemma {:induction false} JobsAppend(derive: Derive, a: seq<string>, b: seq<string>)
    ensures Jobs(derive, a + b) == Jobs(derive, a) + Jobs(derive, b)
    decreases |b|
  {
    if b == [] {
      assert a + b == a;
    } else {
      var b' := b[..|b| - 1];
      assert (a + b)[..|a + b| - 1] == a + b';
      JobsAppend(derive, a, b');
    }
  }

  lemma JobsOfPrefix(derive: Derive, listing: seq<string>, i: nat)
    requires i < |listing|
    ensures Jobs(derive, listing[..i + 1])
         == Jobs(derive, listing[..i]) + (if EndsWith(listing[i], M4aSuffix) then [derive(listing[i])] else [])
  {
    assert listing[..i + 1][..i] == listing[..i];
  }

  /** An entry gives a job exactly when its name ends with the literal,
      case-sensitive ".m4a"; each job is the one derived from its own name. */
  lemma {:induction false} JobsSelect(derive: Derive, listing: seq<string>)
    requires forall name :: derive(name).name == name
    ensures var jobs := Jobs(derive, listing);
            forall i :: 0 <= i < |jobs| ==>
              && jobs[i] == derive(jobs[i].name)
              && jobs[i].name in listing && EndsWith(jobs[i].name, M4aSuffix)
    ensures var jobs := Jobs(derive, listing);
            forall name :: name in listing && EndsWith(name, M4aSuffix) ==>
              exists i :: 0 <= i < |jobs| && jobs[i].name == name
    decreases |listing|
  {
    if listing != [] {
      var pre := listing[..|listing| - 1];
      var name := listing[|listing| - 1];
      assert listing == pre + [name];
      JobsSelect(derive, pre);
      var jobs := Jobs(derive, listing);
      var preJobs := Jobs(derive, pre);
      forall n | n in listing && EndsWith(n, M4aSuffix)
        ensures exists i :: 0 <= i < |jobs| && jobs[i].name == n
      {
        if n in pre {
          var i :| 0 <= i < |preJobs| && preJobs[i].name == n;
          assert jobs[i] == preJobs[i];
        } else {
          assert n == name;
          assert jobs[|jobs| - 1].name == n;
        }
      }
    }
  }

  /** Entries such as "notes.txt" and "a.M4A" are not converted. */
  lemma OtherEntriesIgnored(derive: Derive)
    ensures Jobs(derive, ["notes.txt", "a.M4A"]) == []
  {
    assert !EndsWith("a.M4A", M4aSuffix) by {
      assert "a.M4A"[1..] != M4aSuffix by { assert "a.M4A"[1..][1] != M4aSuffix[1]; }
    }
    assert !EndsWith("notes.txt", M4aSuffix) by {
      assert "notes.txt"[5..] != M4aSuffix by { assert "notes.txt"[5..][1] != M4aSuffix[1]; }
    }
    assert ["notes.txt", "a.M4A"][..1] == ["notes.txt"];
    assert ["notes.txt"][..0] == [];
  }

  /** The line printed after a conversion: the entry's name and the
      basename of the path written. */
  function Report(name: string, output: string): string {
    "Converted " + name + " to " + Basename(output)
  }

  /** The basename of a path that ends in "/" + b, for b without '/', is b. */
  lemma {:induction false} BasenameAfterSep(p: string, b: string)
    requires Sep !in b && EndsWith(p, [Sep] + b)
    ensures Basename(p) == b
  {
    var n := |p|;
    LastIndexOfIsLast(p, Sep);
    assert p[n - |b| - 1] == Sep by { assert p[n - |b| - 1..][0] == ([Sep] + b)[0]; }
    assert p[n - |b|..] == p[n - |b| - 1..][1..];
  }

  /** When join places the name after a '/', as os.path.join does, the
      printed line names the entry and the derived output name. */
  lemma ReportNamesOutput(lib: Library, directory: string, outputDir: string, name: string)
    requires EndsWith(name, M4aSuffix) && Sep !in name
    requires EndsWith(lib.join(outputDir, OutputName(name)), [Sep] + OutputName(name))
    ensures JobFor(lib, directory, outputDir, name).message == "Converted " + name + " to " + OutputName(name)
  {
    var root := Splitext(name).0;
    SplitextParts(name);
    assert Sep !in root by {
      assert root + Splitext(name).1 == name;
      forall i | 0 <= i < |root| ensures root[i] != Sep {
        assert root[i] == name[i];
      }
    }
    assert Sep !in OutputName(name);
    BasenameAfterSep(lib.join(outputDir, OutputName(name)), OutputName(name));
  }

  /** What a run has done so far: the lines printed, the ID3 frames saved
      on each output path, and the exception that ended it, if any. */
  datatype BatchState = BatchState(messages: seq<string>, saved: map<string, FrameMap>, error: Option<Failure>)

  const Start: BatchState := BatchState([], map[], None)

  /** A conversion procedure: the outcome of converting an input path to
      an output path. */
  type Convert = (string, string) -> Result<FrameMap, Failure>

  /** convert_m4a_to_mp3 on the given library. */
  function ConvertWith(lib: Library): (convert: Convert)
    ensures forall input, output :: convert(input, output) == Conversion(lib, input, output)
  {
    (input, output) => Conversion(lib, input, output)
  }

  predicate Converts(convert: Convert, job: Job) {
    convert(job.input, job.output).Ok?
  }

  /** One loop iteration on a job whose conversion ended with outcome:
      print after a successful conversion, record the exception otherwise;
      nothing happens once an exception has been raised. */
  function Step(st: BatchState, job: Job, outcome: Result<FrameMap, Failure>): BatchState {
    if st.error.Some? then st
    else
      match outcome
      case Err(e) => st.(error := Some(e))
      case Ok(frames) => BatchState(st.messages + [job.message], st.saved[job.output := frames], None)
  }

  /** The jobs run one after the other, in order. */
  function Execute(convert: Convert, jobs: seq<Job>): BatchState
    decreases |jobs|
  {
    if jobs == [] then Start
    else
      var job := jobs[|jobs| - 1];
      Step(Execute(convert, jobs[..|jobs| - 1]), job, convert(job.input, job.output))
  }

  /** The first k jobs convert and job k, if there is one, fails. */
  predicate FailsFirstAt(convert: Convert, jobs: seq<Job>, k: nat) {
    && k <= |jobs|
    && (forall i :: 0 <= i < k ==> Converts(convert, jobs[i]))
    && (k < |jobs| ==> !Converts(convert, jobs[k]))
  }

  /** The index of the first job whose conversion fails, or the number of
      jobs when none does. */
  function FirstFailure(convert: Convert, jobs: seq<Job>): (k: nat)
    ensures FailsFirstAt(convert, jobs, k)
    decreases |jobs|
  {
    if jobs == [] then 0
    else if !Converts(convert, jobs[0]) then 0
    else 1 + FirstFailure(convert, jobs[1..])
  }

  /** No later job among the first k writes the output of job i. */
  predicate LastWriter(jobs: seq<Job>, k: nat, i: nat)
    requires i < k <= |jobs|
  {
    forall j :: i < j < k ==> jobs[j].output != jobs[i].output
  }

  lemma ExecuteSnoc(convert: Convert, jobs: seq<Job>, job: Job)
    ensures Execute(convert, jobs + [job]) == Step(Execute(convert, jobs), job, convert(job.input, job.output))
  {
    assert (jobs + [job])[..|jobs|] == jobs;
  }

  lemma ExecuteSingle(convert: Convert, job: Job)
    requires convert(job.input, job.output).Ok?
    ensures Execute(convert, [job]) == BatchState([job.message], map[job.output := convert(job.input, job.output).value], None)
  {
    assert [job][..0] == [];
  }

  lemma FailsFirstAtPrefix(convert: Convert, jobs: seq<Job>, k: nat)
    requires jobs != [] && FailsFirstAt(convert, jobs, k)
    ensures FailsFirstAt(convert, jobs[..|jobs| - 1], if k < |jobs| then k else |jobs| - 1)
  {
  }

  /** When job k is the first to fail, the run ends with job k's exception,
      and with none when every job converts (k the number of jobs). */
  lemma {:induction false} ExecuteRaises(convert: Convert, jobs: seq<Job>, k: nat)
    requires FailsFirstAt(convert, jobs, k)
    ensures Execute(convert, jobs).error
         == if k < |jobs| then Some(convert(jobs[k].input, jobs[k].output).error) else None
    decreases |jobs|
  {
    if jobs != [] {
      var n := |jobs|;
      var pre, last := jobs[..n - 1], jobs[n - 1];
      ExecuteSnoc(convert, pre, last);
      assert jobs == pre + [last];
      FailsFirstAtPrefix(convert, jobs, k);
      if k < n - 1 {
        ExecuteRaises(convert, pre, k);
        assert pre[k] == jobs[k];
      } else {
        ExecuteRaises(convert, pre, n - 1);
      }
    }
  }

  /** When job k is the first to fail, the run prints exactly the lines of
      the first k jobs, in order, and ends with job k's exception: no later
      entry is converted or reported. With no failure (k the number of
      jobs) it prints one line per job and raises nothing. */
  lemma {:induction false} ExecuteReports(convert: Convert, jobs: seq<Job>, k: nat)
    requires FailsFirstAt(convert, jobs, k)
    ensures |Execute(convert, jobs).messages| == k
    ensures forall i :: 0 <= i < k ==> Execute(convert, jobs).messages[i] == jobs[i].message
    ensures Execute(convert, jobs).error
         == if k < |jobs| then Some(convert(jobs[k].input, jobs[k].output).error) else None
    decreases |jobs|
  {
    if jobs != [] {
      var n := |jobs|;
      var pre, last := jobs[..n - 1], jobs[n - 1];
      assert jobs == pre + [last];
      ExecuteSnoc(convert, pre, last);
      FailsFirstAtPrefix(convert, jobs, k);
      if k < n - 1 {
        ExecuteReports(convert, pre, k);
        assert pre[k] == jobs[k];
      } else {
        ExecuteReports(convert, pre, n - 1);
      }
    }
  }

  /** The output paths of a sequence of jobs. */
  function Outputs(jobs: seq<Job>): set<string>
    decreases |jobs|
  {
    if jobs == [] then {} else Outputs(jobs[..|jobs| - 1]) + {jobs[|jobs| - 1].output}
  }

  lemma {:induction false} OutputsMembers(jobs: seq<Job>, path: string)
    ensures path in Outputs(jobs) <==> exists i :: 0 <= i < |jobs| && jobs[i].output == path
    decreases |jobs|
  {
    if jobs != [] {
      var pre := jobs[..|jobs| - 1];
      OutputsMembers(pre, path);
      if exists i :: 0 <= i < |pre| && pre[i].output == path {
        var i :| 0 <= i < |pre| && pre[i].output == path;
        assert jobs[i] == pre[i];
      }
      if exists i :: 0 <= i < |jobs| && jobs[i].output == path {
        var i :| 0 <= i < |jobs| && jobs[i].output == path;
        if i < |pre| { assert pre[i] == jobs[i]; }
      }
    }
  }

  /** When job k is the first to fail, the run has saved frames on exactly
      the outputs of the first k jobs. */
  lemma {:induction false} ExecuteSavesOutputs(convert: Convert, jobs: seq<Job>, k: nat)
    requires FailsFirstAt(convert, jobs, k)
    ensures Execute(convert, jobs).saved.Keys == Outputs(jobs[..k])
    decreases |jobs|
  {
    if jobs != [] {
      var n := |jobs|;
      var pre, last := jobs[..n - 1], jobs[n - 1];
      FailsFirstAtPrefix(convert, jobs, k);
      var k' := if k < n then k else n - 1;
      SavedAfterLast(convert, jobs, k);
      ExecuteSavesOutputs(convert, pre, k');
      if k == n {
        assert jobs[..k] == jobs && pre[..k'] == pre;
      } else {
        assert jobs[..k] == pre[..k];
      }
    }
  }

  /** How the last job of a run changes what the run has saved. */
  lemma SavedAfterLast(convert: Convert, jobs: seq<Job>, k: nat)
    requires jobs != [] && FailsFirstAt(convert, jobs, k)
    ensures Execute(convert, jobs).saved
         == if k == |jobs|
            then Execute(convert, jobs[..|jobs| - 1]).saved[jobs[|jobs| - 1].output := convert(jobs[|jobs| - 1].input, jobs[|jobs| - 1].output).value]
            else Execute(convert, jobs[..|jobs| - 1]).saved
  {
    var n := |jobs|;
    var pre, last := jobs[..n - 1], jobs[n - 1];
    var outcome := convert(last.input, last.output);
    var preSt := Execute(convert, pre);
    assert Execute(convert, jobs) == Step(preSt, last, outcome);
    FailsFirstAtPrefix(convert, jobs, k);
    if k == n {
      ExecuteRaises(convert, pre, n - 1);
      assert preSt.error == None && outcome.Ok?;
    } else if k == n - 1 {
      ExecuteRaises(convert, pre, n - 1);
      assert preSt.error == None && outcome.Err?;
    } else {
      ExecuteRaises(convert, pre, k);
      assert preSt.error.Some?;
    }
  }

  /** Each saved output holds the frames of the last job, among the first
      k, that wrote it: two entries with the same output name overwrite one
      another, the later one winning. */
  lemma {:induction false} ExecuteSavesLastWriter(convert: Convert, jobs: seq<Job>, k: nat, i: nat)
    requires FailsFirstAt(convert, jobs, k) && i < k && LastWriter(jobs, k, i)
    ensures jobs[i].output in Execute(convert, jobs).saved
    ensures Execute(convert, jobs).saved[jobs[i].output] == convert(jobs[i].input, jobs[i].output).value
    decreases |jobs|
  {
    var n := |jobs|;
    var pre, last := jobs[..n - 1], jobs[n - 1];
    FailsFirstAtPrefix(convert, jobs, k);
    SavedAfterLast(convert, jobs, k);
    var k' := if k < n then k else n - 1;
    if i < n - 1 {
      assert pre[i] == jobs[i];
      assert LastWriter(pre, k', i);
      ExecuteSavesLastWriter(convert, pre, k', i);
    }
  }

  /** Every run of jobs, described through the index of its first failure. */
  lemma ExecuteOutcome(convert: Convert, jobs: seq<Job>)
    ensures var st, k := Execute(convert, jobs), FirstFailure(convert, jobs);
            && |st.messages| == k
            && (forall i :: 0 <= i < k ==> st.messages[i] == jobs[i].message)
            && (st.error.None? <==> k == |jobs|)
            && st.saved.Keys == Outputs(jobs[..k])
  {
    var k := FirstFailure(convert, jobs);
    ExecuteReports(convert, jobs, k);
    ExecuteRaises(convert, jobs, k);
    ExecuteSavesOutputs(convert, jobs, k);
  }

  /** Once a job has failed, the jobs after it change nothing. */
  lemma {:induction false} ExecuteAfterFailure(convert: Convert, a: seq<Job>, b: seq<Job>)
    requires Execute(convert, a).error.Some?
    ensures Execute(convert, a + b) == Execute(convert, a)
    decreases |b|
  {
    if b == [] {
      assert a + b == a;
    } else {
      assert (a + b)[..|a + b| - 1] == a + b[..|b| - 1];
      ExecuteAfterFailure(convert, a, b[..|b| - 1]);
    }
  }

  /** main as a whole: what it prints, saves and raises for the given
      arguments, current working directory and library answers. */
  function Run(lib: Library, directoryArg: string, outputDirArg: string, cwd: string): BatchState {
    var directory := ResolveDir(directoryArg, cwd);
    var outputDir := ResolveDir(outputDirArg, cwd);
    if !lib.makedirs(outputDir) then Start.(error := Some(CannotCreateDir(outputDir)))
    else
      match lib.listdir(directory)
      case None => Start.(error := Some(CannotList(directory)))
      case Some(listing) => Execute(ConvertWith(lib), Jobs(JobMaker(lib, directory, outputDir), listing))
  }

  /** Passing "." for either directory is the same as passing the current
      working directory. */
  lemma RunResolvesCurrentDir(lib: Library, directoryArg: string, outputDirArg: string, cwd: string)
    ensures Run(lib, CurrentDir, outputDirArg, cwd) == Run(lib, cwd, outputDirArg, cwd)
    ensures Run(lib, directoryArg, CurrentDir, cwd) == Run(lib, directoryArg, cwd, cwd)
  {
  }

  /** Lines 48-69: resolve the arguments, create the output directory,
      list the input directory and convert its entries. */
  method RunMain(lib: Library, directoryArg: string, outputDirArg: string, cwd: string) returns (st: BatchState)
    ensures st == Run(lib, directoryArg, outputDirArg, cwd)
  {
    var directory := directoryArg;
    if directory == CurrentDir {
      directory := cwd;
    }
    var outputDir := outputDirArg;
    if outputDir == CurrentDir {
      outputDir := cwd;
    }
    if !lib.makedirs(outputDir) {
      return Start.(error := Some(CannotCreateDir(outputDir)));
    }
    var entries := lib.listdir(directory);
    if entries.None? {
      return Start.(error := Some(CannotList(directory)));
    }
    st := ConvertListing(lib, directory, outputDir, entries.value);
  }

  /** One more entry of the listing: a ".m4a" entry runs its job, any
      other entry changes nothing. */
  lemma ListingStep(convert: Convert, derive: Derive, listing: seq<string>, i: nat)
    requires i < |listing|
    ensures Execute(convert, Jobs(derive, listing[..i + 1]))
         == if EndsWith(listing[i], M4aSuffix)
            then var job := derive(listing[i]);
                 Step(Execute(convert, Jobs(derive, listing[..i])), job, convert(job.input, job.output))
            else Execute(convert, Jobs(derive, listing[..i]))
  {
    JobsOfPrefix(derive, listing, i);
    var done := Jobs(derive, listing[..i]);
    if EndsWith(listing[i], M4aSuffix) {
      ExecuteSnoc(convert, done, derive(listing[i]));
    } else {
      assert done + [] == done;
    }
  }

  /** Once the entries of a have raised an exception, the entries of b
      change nothing. */
  lemma ListingStops(convert: Convert, derive: Derive, a: seq<string>, b: seq<string>)
    requires Execute(convert, Jobs(derive, a)).error.Some?
    ensures Execute(convert, Jobs(derive, a + b)) == Execute(convert, Jobs(derive, a))
  {
    JobsAppend(derive, a, b);
    ExecuteAfterFailure(convert, Jobs(derive, a), Jobs(derive, b));
  }

  /** Lines 65-69, one iteration: an entry ending in ".m4a" is converted
      and, once converted, reported; any other entry is skipped. */
  method ConvertEntry(lib: Library, directory: string, outputDir: string, filename: string, st: BatchState)
      returns (next: BatchState)
    requires st.error == None
    ensures var job := JobFor(lib, directory, outputDir, filename);
            next == if EndsWith(filename, M4aSuffix) then Step(st, job, Conversion(lib, job.input, job.output)) else st
  {
    next := st;
    if EndsWith(filename, M4aSuffix) {
      var inputFile := lib.join(directory, filename);
      var outputFile := lib.join(outputDir, OutputName(filename));
      var r := ConvertM4aToMp3(lib, inputFile, outputFile);
      if r.Err? {
        return st.(error := Some(r.error));
      }
      next := BatchState(st.messages + [Report(filename, outputFile)], st.saved[outputFile := r.value], None);
    }
  }

  /** What ConvertEntry does to the state after the first i entries is
      the state after the first i + 1. */
  lemma ListingAdvance(lib: Library, directory: string, outputDir: string, listing: seq<string>, i: nat,
                       st: BatchState, next: BatchState)
    requires i < |listing|
    requires st == Execute(ConvertWith(lib), Jobs(JobMaker(lib, directory, outputDir), listing[..i]))
    requires st.error == None
    requires var job := JobFor(lib, directory, outputDir, listing[i]);
             next == if EndsWith(listing[i], M4aSuffix) then Step(st, job, Conversion(lib, job.input, job.output)) else st
    ensures next == Execute(ConvertWith(lib), Jobs(JobMaker(lib, directory, outputDir), listing[..i + 1]))
  {
    ListingStep(ConvertWith(lib), JobMaker(lib, directory, outputDir), listing, i);
  }

  /** Lines 64-69: the loop over the listing, converting and printing one
      ".m4a" entry at a time, in listing order, until an exception. */
  method ConvertListing(lib: Library, directory: string, outputDir: string, listing: seq<string>) returns (st: BatchState)
    ensures st == Execute(ConvertWith(lib), Jobs(JobMaker(lib, directory, outputDir), listing))
  {
    st := Start;
    var i := 0;
    while i < |listing|
      invariant 0 <= i <= |listing|
      invariant st == Execute(ConvertWith(lib), Jobs(JobMaker(lib, directory, outputDir), listing[..i]))
      invariant st.error == None
    {
      var next := ConvertEntry(lib, directory, outputDir, listing[i], st);
      ListingAdvance(lib, directory, outputDir, listing, i, st, next);
      st := next;
      if st.error.Some? {
        ListingStops(ConvertWith(lib), JobMaker(lib, directory, outputDir), listing[..i + 1], listing[i + 1..]);
        assert listing[..i + 1] + listing[i + 1..] == listing;
        return;
      }
      i := i + 1;
    }
    assert listing[..i] == listing;
  }

  /** The atoms of the file in the scenario below. */
  const SongAtoms: Mp4Tags := map[TitleAtom := [Text("Test")], ArtistAtom := [Text("Artist")], TrackAtom := [Pair(3, 0)]]

  lemma SongOutputName()
    ensures OutputName("song.m4a") == "song.mp3"
  {
    var name := "song.m4a";
    assert name[4..] == M4aSuffix;
    assert Sep !in name;
    OutputNameOfM4a(name);
    assert name[..4] == "song";
    assert HasNonDot(name[..4], 0, 4) by { assert name[..4][0] != ExtSep; }
  }

  lemma SongJobs(derive: Derive)
    ensures Jobs(derive, ["song.m4a", "notes.txt"]) == [derive("song.m4a")]
  {
    var listing := ["song.m4a", "notes.txt"];
    assert EndsWith("song.m4a", M4aSuffix) by { assert "song.m4a"[4..] == M4aSuffix; }
    assert !EndsWith("notes.txt", M4aSuffix) by {
      assert "notes.txt"[5..] != M4aSuffix by { assert "notes.txt"[5..][1] != M4aSuffix[1]; }
    }
    JobsOfPrefix(derive, listing, 0);
    JobsOfPrefix(derive, listing, 1);
    assert listing[..2] == listing && listing[..0] == [];
  }

  /** The metadata of song.m4a. */
  const SongMetadata: Metadata := Metadata("Test", "Artist", "", "", 3, "", "")

  lemma SongExtract()
    ensures Extract(SongAtoms) == Ok(SongMetadata)
  {
    assert forall k :: 0 <= k < |TextAtoms| ==> Readable(SongAtoms, TextAtoms[k]);
    ExtractReadsFields(SongAtoms);
  }

  lemma SongReport(outputDir: string)
    ensures Report("song.m4a", outputDir + "/song.mp3") == "Converted song.m4a to song.mp3"
  {
    var output := outputDir + "/song.mp3";
    assert EndsWith(output, [Sep] + "song.mp3") by {
      assert output[|output| - 9..] == [Sep] + "song.mp3";
    }
    BasenameAfterSep(output, "song.mp3");
  }

  /** The frames written on song.mp3 when it had none: title "Test",
      artist "Artist", track "3". */
  lemma SongFrames()
    ensures var frames := Tagged(map[], SongMetadata);
            && MetadataKeys <= frames.Keys
            && frames["TIT2"] == TextFrame(Utf8, "Test")
            && frames["TPE1"] == TextFrame(Utf8, "Artist")
            && frames["TRCK"] == TextFrame(Utf8, "3")
  {
    assert Decimal.IntToString(3) == "3";
    TaggedFrames(map[], SongMetadata);
  }

  lemma SongConversion(lib: Library, input: string, output: string)
    requires lib.readMp4(input) == Some(SongAtoms)
    requires lib.transcode(input, output)
    requires lib.loadId3(input, output) == Some(map[])
    requires lib.saveId3(output, Tagged(map[], SongMetadata))
    ensures Conversion(lib, input, output) == Ok(Tagged(map[], SongMetadata))
  {
    SongExtract();
  }

  lemma SongJob(lib: Library, directory: string, outputDir: string)
    requires lib.join(outputDir, "song.mp3") == outputDir + "/song.mp3"
    ensures JobMaker(lib, directory, outputDir)("song.m4a")
         == Job("song.m4a", lib.join(directory, "song.m4a"), outputDir + "/song.mp3", "Converted song.m4a to song.mp3")
  {
    SongOutputName();
    SongReport(outputDir);
  }

  /** A directory holding song.m4a (title "Test", artist "Artist", track 3)
      and notes.txt: one line is printed, and song.mp3 alone is written,
      carrying the frames of SongFrames. */
  lemma SongScenario(lib: Library, directory: string, outputDir: string)
    requires lib.join(outputDir, "song.mp3") == outputDir + "/song.mp3"
    requires lib.readMp4(lib.join(directory, "song.m4a")) == Some(SongAtoms)
    requires lib.transcode(lib.join(directory, "song.m4a"), outputDir + "/song.mp3")
    requires lib.loadId3(lib.join(directory, "song.m4a"), outputDir + "/song.mp3") == Some(map[])
    requires forall frames :: lib.saveId3(outputDir + "/song.mp3", frames)
    ensures Execute(ConvertWith(lib), Jobs(JobMaker(lib, directory, outputDir), ["song.m4a", "notes.txt"]))
         == BatchState(["Converted song.m4a to song.mp3"], map[outputDir + "/song.mp3" := Tagged(map[], SongMetadata)], None)
  {
    var output := outputDir + "/song.mp3";
    var input := lib.join(directory, "song.m4a");
    var derive := JobMaker(lib, directory, outputDir);
    SongJobs(derive);
    SongJob(lib, directory, outputDir);
    var job := Job("song.m4a", input, output, "Converted song.m4a to song.mp3");
    SongConversion(lib, input, output);
    ExecuteSingle(ConvertWith(lib), job);
  }
}
