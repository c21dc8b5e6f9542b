/**
 * One pass of the batch over the matched file names: read each file, transform it, resolve
 * its output name against the current filesystem, write it, and remove the source if asked.
 * A file that cannot be read or whose output cannot be opened is skipped; the pass goes on.
 */
module Processing {

  import opened Transform
  import opened Naming
  import opened Storage

  /** The settings the pass reads (mask and poll interval only matter outside it). */
  datatype Config = Config(outputPath: Path, deleteInput: bool, overwrite: bool, key: Key, singleRun: bool)

  /** What became of one listed file. */
  datatype Outcome = Succeeded(output: Path) | SkippedUnreadable | SkippedUnwritable(output: Path)

  datatype Processed = Processed(disk: DiskState, outcome: Outcome)

  datatype Batch = Batch(disk: DiskState, report: seq<Outcome>)

  /** A name as the directory listing gives it: no directory part. */
  predicate Bare(p: Path)
  {
    '/' !in p
  }

  predicate AllBare(names: seq<Path>)
  {
    forall i :: 0 <= i < |names| ==> Bare(names[i])
  }

  predicate Distinct(names: seq<Path>)
  {
    forall i, j :: 0 <= i < j < |names| ==> names[i] != names[j]
  }

  /** The output name for `name`, resolved against the files that exist in `d`. */
  function OutputName(d: DiskState, name: Path, cfg: Config): Path
  {
    ResolvedName(d.files.Keys, Candidate(cfg.outputPath, name), cfg.overwrite)
  }

  /** One iteration of the loop over the listed files. */
  function Step(d: DiskState, name: Path, cfg: Config): (r: Processed)
    ensures SamePermissions(d, r.disk)
    ensures r.outcome.SkippedUnreadable? <==> ReadFile(d, name).None?
    ensures !r.outcome.SkippedUnreadable? ==> r.outcome.output == OutputName(d, name, cfg) && '/' in r.outcome.output
    ensures r.outcome.SkippedUnwritable? <==> ReadFile(d, name).Some? && OutputName(d, name, cfg) in d.unwritable
    ensures !r.outcome.Succeeded? ==> r.disk == d
    ensures r.outcome.Succeeded? ==>
              && r.outcome.output in r.disk.files
              && r.disk.files[r.outcome.output] == Xored(d.files[name], cfg.key)
              && (name in r.disk.files <==> !cfg.deleteInput || name in d.undeletable)
              && (name in r.disk.files ==> r.disk.files[name] == d.files[name])
              && (forall p :: p != name && p != r.outcome.output ==> SameAt(d.files, r.disk.files, p))
  {
    match ReadFile(d, name)
    case None => Processed(d, SkippedUnreadable)
    case Some(data) =>
      var out := OutputName(d, name, cfg);
      ResolvedNameHasSlash(d.files.Keys, cfg.outputPath, name, cfg.overwrite);
      match WriteFile(d, out, Xored(data, cfg.key))
      case None => Processed(d, SkippedUnwritable(out))
      case Some(written) =>
        Processed(if cfg.deleteInput then RemoveFile(written, name) else written, Succeeded(out))
  }

  /** The whole pass over `names`, in list order, each file seeing what the earlier ones left. */
  function Run(d: DiskState, names: seq<Path>, cfg: Config): (b: Batch)
    ensures |b.report| == |names|
    ensures SamePermissions(d, b.disk)
    decreases |names|
  {
    if names == [] then Batch(d, [])
    else
      var prev := Run(d, names[..|names| - 1], cfg);
      var last := Step(prev.disk, names[|names| - 1], cfg);
      Batch(last.disk, prev.report + [last.outcome])
  }

  /** Running two lists one after the other is running their concatenation. */
  lemma {:induction false} RunAppend(d: DiskState, a: seq<Path>, b: seq<Path>, cfg: Config)
    ensures Run(d, a + b, cfg)
            == Batch(Run(Run(d, a, cfg).disk, b, cfg).disk, Run(d, a, cfg).report + Run(Run(d, a, cfg).disk, b, cfg).report)
    decreases |b|
  {
    if b == [] {
      assert a + b == a;
    } else {
      var b' := b[..|b| - 1];
      RunAppend(d, a, b', cfg);
      assert (a + b)[..|a + b| - 1] == a + b';
    }
  }

  /** The i-th report entry is what the i-th file's step gives on the state the first i files left. */
  lemma {:induction false} RunAt(d: DiskState, names: seq<Path>, cfg: Config, i: nat)
    requires i < |names|
    ensures Run(d, names, cfg).report[i] == Step(Run(d, names[..i], cfg).disk, names[i], cfg).outcome
    decreases |names|
  {
    var init := names[..|names| - 1];
    if i < |names| - 1 {
      RunAt(d, init, cfg, i);
      assert init[..i] == names[..i];
    }
  }

  /** The state after the whole list is the rest of the list run on the state after file i. */
  lemma RunSplit(d: DiskState, names: seq<Path>, cfg: Config, i: nat)
    requires i < |names|
    ensures Run(d, names, cfg).disk
            == Run(Step(Run(d, names[..i], cfg).disk, names[i], cfg).disk, names[i + 1..], cfg).disk
  {
    assert names == names[..i + 1] + names[i + 1..];
    RunAppend(d, names[..i + 1], names[i + 1..], cfg);
    assert names[..i + 1][..i] == names[..i];
  }

  /** A bare path that is not listed is neither created, changed nor removed by the pass. */
  lemma {:induction false} RunLeavesUnlisted(d: DiskState, names: seq<Path>, cfg: Config, p: Path)
    requires Bare(p) && p !in names
    ensures SameAt(d.files, Run(d, names, cfg).disk.files, p)
    decreases |names|
  {
    if names != [] {
      var init := names[..|names| - 1];
      assert p !in init by {
        forall k | 0 <= k < |init| ensures init[k] != p { assert init[k] == names[k]; }
      }
      RunLeavesUnlisted(d, init, cfg, p);
    }
  }

  /** The pass never writes a bare path: one that is there afterwards was there before, with the same bytes. */
  lemma {:induction false} RunBareOnlyShrinks(d: DiskState, names: seq<Path>, cfg: Config, p: Path)
    requires Bare(p)
    ensures p in Run(d, names, cfg).disk.files ==> p in d.files && Run(d, names, cfg).disk.files[p] == d.files[p]
    decreases |names|
  {
    if names != [] {
      RunBareOnlyShrinks(d, names[..|names| - 1], cfg, p);
    }
  }

  /**
   * A path with a directory part that exists stays, with its bytes, provided the listed names are
   * bare and, when overwriting, none of them has it as its candidate.
   */
  lemma {:induction false} RunKeepsOutput(d: DiskState, names: seq<Path>, cfg: Config, p: Path)
    requires '/' in p && p in d.files && AllBare(names)
    requires cfg.overwrite ==> forall j :: 0 <= j < |names| ==> Candidate(cfg.outputPath, names[j]) != p
    ensures p in Run(d, names, cfg).disk.files && Run(d, names, cfg).disk.files[p] == d.files[p]
    decreases |names|
  {
    if names != [] {
      var init := names[..|names| - 1];
      var last := names[|names| - 1];
      RunKeepsOutput(d, init, cfg, p);
      assert Bare(last);
      if cfg.overwrite {
        assert Candidate(cfg.outputPath, last) != p;
      }
    }
  }

  /**
   * Failure isolation and resolution against the current state: file i is skipped as unreadable
   * exactly when it could not be read before the pass; otherwise its output name is resolved
   * against what the files before it left, and it is skipped as unwritable exactly when that name is unwritable.
   */
  lemma RunOutcomeAt(d: DiskState, names: seq<Path>, cfg: Config, i: nat)
    requires AllBare(names) && Distinct(names) && i < |names|
    ensures Run(d, names, cfg).report[i].SkippedUnreadable? <==> ReadFile(d, names[i]).None?
    ensures !Run(d, names, cfg).report[i].SkippedUnreadable? ==>
              Run(d, names, cfg).report[i].output == OutputName(Run(d, names[..i], cfg).disk, names[i], cfg)
    ensures Run(d, names, cfg).report[i].SkippedUnwritable? <==>
              ReadFile(d, names[i]).Some? && Run(d, names, cfg).report[i].output in d.unwritable
  {
    RunAt(d, names, cfg, i);
    assert names[i] !in names[..i];
    RunLeavesUnlisted(d, names[..i], cfg, names[i]);
  }

  /**
   * What becomes of listed file i: it is gone afterwards exactly when it was missing, or it was
   * processed successfully with deletion on and could be removed; otherwise its bytes are unchanged.
   */
  lemma InputFate(d: DiskState, names: seq<Path>, cfg: Config, i: nat)
    requires AllBare(names) && Distinct(names) && i < |names|
    ensures names[i] in Run(d, names, cfg).disk.files <==>
              names[i] in d.files
              && !(Run(d, names, cfg).report[i].Succeeded? && cfg.deleteInput && names[i] !in d.undeletable)
    ensures names[i] in Run(d, names, cfg).disk.files ==> Run(d, names, cfg).disk.files[names[i]] == d.files[names[i]]
  {
    var n := names[i];
    var before := Run(d, names[..i], cfg).disk;
    var after := Step(before, n, cfg).disk;
    RunAt(d, names, cfg, i);
    RunSplit(d, names, cfg, i);
    assert n !in names[..i];
    RunLeavesUnlisted(d, names[..i], cfg, n);
    assert n !in names[i + 1..];
    RunLeavesUnlisted(after, names[i + 1..], cfg, n);
  }

  /**
   * The output of a successfully processed file is still there at the end of the pass and holds
   * the transform of the input; transforming it again with the same key gives the input back.
   */
  lemma OutputHoldsTransform(d: DiskState, names: seq<Path>, cfg: Config, i: nat)
    requires AllBare(names) && Distinct(names) && i < |names|
    requires Run(d, names, cfg).report[i].Succeeded?
    ensures names[i] in d.files
    ensures Run(d, names, cfg).report[i].output in Run(d, names, cfg).disk.files
    ensures Run(d, names, cfg).disk.files[Run(d, names, cfg).report[i].output] == Xored(d.files[names[i]], cfg.key)
    ensures Xored(Run(d, names, cfg).disk.files[Run(d, names, cfg).report[i].output], cfg.key) == d.files[names[i]]
  {
    var n := names[i];
    var before := Run(d, names[..i], cfg).disk;
    var after := Step(before, n, cfg).disk;
    var out := Run(d, names, cfg).report[i].output;
    var rest := names[i + 1..];
    RunAt(d, names, cfg, i);
    RunSplit(d, names, cfg, i);
    assert n !in names[..i];
    RunLeavesUnlisted(d, names[..i], cfg, n);
    if cfg.overwrite {
      forall j | 0 <= j < |rest|
        ensures Candidate(cfg.outputPath, rest[j]) != out
      {
        assert rest[j] == names[i + 1 + j];
        CandidateDistinct(cfg.outputPath, rest[j], n);
      }
    }
    RunKeepsOutput(after, rest, cfg, out);
    XoredInvolution(d.files[n], cfg.key);
  }

  /** With overwriting off, every file that exists before and after the pass keeps its bytes. */
  lemma RunNoClobber(d: DiskState, names: seq<Path>, cfg: Config)
    requires !cfg.overwrite && AllBare(names)
    ensures forall p :: p in d.files && p in Run(d, names, cfg).disk.files ==> Run(d, names, cfg).disk.files[p] == d.files[p]
  {
    forall p | p in d.files && p in Run(d, names, cfg).disk.files
      ensures Run(d, names, cfg).disk.files[p] == d.files[p]
    {
      if '/' in p {
        RunKeepsOutput(d, names, cfg, p);
      } else {
        RunBareOnlyShrinks(d, names, cfg, p);
      }
    }
  }

  /** A file is removed only when deletion is on, it is removable, and it was a listed file processed successfully. */
  lemma {:induction false} RunRemovesOnlyProcessedInputs(d: DiskState, names: seq<Path>, cfg: Config)
    ensures forall p :: p in d.files && p !in Run(d, names, cfg).disk.files ==>
              && cfg.deleteInput && p !in d.undeletable
              && exists i :: 0 <= i < |names| && names[i] == p && Run(d, names, cfg).report[i].Succeeded?
    decreases |names|
  {
    if names != [] {
      var init := names[..|names| - 1];
      var mid := Run(d, init, cfg);
      var b := Run(d, names, cfg);
      RunRemovesOnlyProcessedInputs(d, init, cfg);
      forall p | p in d.files && p !in b.disk.files
        ensures cfg.deleteInput && p !in d.undeletable
        ensures exists i :: 0 <= i < |names| && names[i] == p && b.report[i].Succeeded?
      {
        if p in mid.disk.files {
          assert b.report[|names| - 1].Succeeded?;
        } else {
          var i :| 0 <= i < |init| && init[i] == p && mid.report[i].Succeeded?;
          assert b.report[i] == mid.report[i];
        }
      }
    }
  }

  /** A file is created or changed only as the reported output of a successfully processed file. */
  lemma {:induction false} RunWritesOnlyReportedOutputs(d: DiskState, names: seq<Path>, cfg: Config)
    ensures forall p :: p in Run(d, names, cfg).disk.files && !SameAt(d.files, Run(d, names, cfg).disk.files, p) ==>
              exists i :: 0 <= i < |names| && Run(d, names, cfg).report[i] == Succeeded(p)
    decreases |names|
  {
    if names != [] {
      var init := names[..|names| - 1];
      var mid := Run(d, init, cfg);
      var b := Run(d, names, cfg);
      RunWritesOnlyReportedOutputs(d, init, cfg);
      forall p | p in b.disk.files && !SameAt(d.files, b.disk.files, p)
        ensures exists i :: 0 <= i < |names| && b.report[i] == Succeeded(p)
      {
        if SameAt(mid.disk.files, b.disk.files, p) {
          var i :| 0 <= i < |init| && mid.report[i] == Succeeded(p);
          assert b.report[i] == mid.report[i];
        } else {
          assert b.report[|names| - 1] == Succeeded(p);
        }
      }
    }
  }

  /**
   * The loop of the batch over the listed files, on the filesystem `fs`. The returned flag says
   * whether the pass asks the application to quit: in single-run mode, unless the list was empty,
   * because the empty list returns before reaching that request.
   */
  method ProcessFiles(fs: FileStore, names: seq<Path>, cfg: Config) returns (report: seq<Outcome>, quit: bool)
    modifies fs
    ensures Batch(fs.State(), report) == Run(old(fs.State()), names, cfg)
    ensures names == [] ==> report == [] && fs.files == old(fs.files)
    ensures quit <==> cfg.singleRun && names != []
  {
    report := [];
    quit := false;
    if names == [] {
      return;
    }
    ghost var start := fs.State();
    for i := 0 to |names|
      invariant Batch(fs.State(), report) == Run(start, names[..i], cfg)
    {
      assert names[..i + 1][..i] == names[..i];
      var name := names[i];
      var data := fs.Read(name);
      if data.None? {
        report := report + [SkippedUnreadable];
        continue;
      }
      var buffer := new Byte[|data.value|](j requires 0 <= j < |data.value| => data.value[j]);
      assert buffer[..] == data.value;
      XorInPlace(buffer, cfg.key);
      var out := ResolveOutputName(fs.files.Keys, cfg.outputPath, name, cfg.overwrite);
      var ok := fs.Write(out, buffer[..]);
      if !ok {
        report := report + [SkippedUnwritable(out)];
        continue;
      }
      if cfg.deleteInput {
        fs.Remove(name);
      }
      report := report + [Succeeded(out)];
    }
    assert names[..|names|] == names;
    quit := cfg.singleRun;
  }
}
