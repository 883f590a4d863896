/**
 * The per-file step of the cleaner (index.js:60-99, 146-160, 198-236): the
 * file is classified, dated and copied into its bucket under the output
 * directory; a file whose target already exists goes to
 * `duplicates/<name>/<index>_<name>` instead, and only a file copied to its
 * own target gets its date tags rewritten. The output directory is modelled
 * as the map from each file path written under it to the source file
 * copied there.
 */
module Placement {
  import opened Optional
  import opened Text
  import opened Reports
  import opened Validation
  import opened Dates
  import opened Resolver
  import opened Identity

  /** `splited[splited.length - 1]` of `path.split("/")`: the text after the last '/'. */
  function LastSegment(p: string): (r: string)
    ensures '/' !in r
  {
    var parts := SplitOn(p, '/');
    SplitOnPieces(p, '/');
    parts[|parts| - 1]
  }

  /** The last segment of a path is the name after its last '/', whatever the directories before it. */
  lemma {:induction false} LastSegmentOf(dir: string, name: string)
    requires '/' !in name
    ensures LastSegment(dir + "/" + name) == name
    decreases |dir|
  {
    if '/' in dir {
      var i := IndexOf(dir, '/');
      var head, tail := dir[..i], dir[i + 1..];
      assert dir == head + "/" + tail;
      Regroup(head, tail, name);
      LastSegmentAfter(head, tail + "/" + name);
      LastSegmentOf(tail, name);
    } else {
      LastSegmentAfter(dir, name);
      assert SplitOn(name, '/') == [name];
    }
  }

  /** A first directory without '/' does not change the last segment. */
  lemma LastSegmentAfter(head: string, rest: string)
    requires '/' !in head
    ensures LastSegment(head + "/" + rest) == LastSegment(rest)
  {
    SplitOnFirst(head, rest, '/');
    var parts := SplitOn(rest, '/');
    assert ([head] + parts)[|parts|] == parts[|parts| - 1];
  }

  /** `(a/b)/c` and `a/(b/c)` are the same path. */
  lemma Regroup(a: string, b: string, c: string)
    ensures a + "/" + b + "/" + c == a + "/" + (b + "/" + c)
  {
    AppendAssoc(a + "/" + b, "/", c);
    AppendAssoc(a + "/", b, "/" + c);
    AppendAssoc(a, "/", b + "/" + c);
    AppendAssoc(b, "/", c);
  }

  /**
   * `path.extname(fileName)` on a name without '/': from the last '.' to the
   * end, except that a name whose last '.' is its first character, or the
   * name "..", has none.
   */
  function ExtName(name: string): string
  {
    if '.' !in name then []
    else
      var i := LastIndexOf(name, '.');
      if i == 0 || name == ".." then [] else name[i..]
  }

  /** `path.extname(fileName).toLowerCase().slice(1)`. */
  function FileExtension(fileName: string): string
  {
    var e := ExtName(fileName);
    if e == [] then [] else Lower(e[1..])
  }

  /**
   * The file's extension is the lowercased text after the last '.' of its
   * name, unless nothing comes before that '.' or the name is "..".
   */
  lemma ExtensionAfterLastDot(stem: string, ext: string)
    requires '.' !in ext
    ensures FileExtension(stem + "." + ext) == if stem == [] || (stem == "." && ext == []) then [] else Lower(ext)
  {
    var name := stem + "." + ext;
    LastSeparator(stem, ext, '.');
    if stem != [] && name != ".." {
      assert name[|stem|..][1..] == ext;
    }
  }

  /** A name without a '.' has no extension. */
  lemma ExtensionWithoutDot(fileName: string)
    requires '.' !in fileName
    ensures FileExtension(fileName) == []
  {
  }

  /** `${duplicatesDir}/${outputBasename}/${currentFileIndex}_${outputFileName}`. */
  function DuplicatePath(outputDir: string, name: string, index: nat): string
  {
    BucketPath(outputDir, Duplicates, name) + "/" + NatToString(index) + "_" + name
  }

  /** Paths under the duplicates directory. */
  predicate InDuplicates(outputDir: string, p: string)
  {
    StartsWith(p, BucketDir(outputDir, Duplicates) + "/")
  }

  /** A duplicate path is the duplicates directory and a '/', then `<name>/<index>_<name>`. */
  lemma DuplicatePathSplit(outputDir: string, name: string, index: nat)
    ensures DuplicatePath(outputDir, name, index) ==
      (BucketDir(outputDir, Duplicates) + "/") + (name + "/" + (NatToString(index) + "_" + name))
  {
    var pre, a := BucketDir(outputDir, Duplicates) + "/", NatToString(index);
    AppendAssoc(a, "_", name);
    AppendAssoc(pre + name, "/", a + "_" + name);
    AppendAssoc(pre, name, "/" + (a + "_" + name));
    AppendAssoc(name, "/", a + "_" + name);
    assert DuplicatePath(outputDir, name, index) == (pre + name) + "/" + (a + "_" + name);
  }

  /** Every duplicate copy lies under the duplicates directory. */
  lemma DuplicateInDuplicates(outputDir: string, name: string, index: nat)
    ensures InDuplicates(outputDir, DuplicatePath(outputDir, name, index))
  {
    var prefix := BucketDir(outputDir, Duplicates) + "/";
    DuplicatePathSplit(outputDir, name, index);
    AfterPrefix(prefix, name + "/" + (NatToString(index) + "_" + name));
  }

  /** The target of a file in any other bucket lies outside the duplicates directory. */
  lemma BucketOutsideDuplicates(outputDir: string, b: Bucket, name: string)
    requires b != Duplicates
    ensures !InDuplicates(outputDir, BucketPath(outputDir, b, name))
  {
    var p := BucketPath(outputDir, b, name);
    var prefix := BucketDir(outputDir, Duplicates) + "/";
    if |prefix| <= |p| {
      assert p[|outputDir| + 1] == DirName(b)[0] != 'd';
      assert p[..|prefix|][|outputDir| + 1] != prefix[|outputDir| + 1];
    }
  }

  /** Duplicate copies of different names or different indices never share a path. */
  lemma DuplicatePathInjective(outputDir: string, n1: string, j1: nat, n2: string, j2: nat)
    requires '/' !in n1 && '/' !in n2
    ensures DuplicatePath(outputDir, n1, j1) == DuplicatePath(outputDir, n2, j2) <==> n1 == n2 && j1 == j2
  {
    if DuplicatePath(outputDir, n1, j1) == DuplicatePath(outputDir, n2, j2) {
      var pre := BucketDir(outputDir, Duplicates) + "/";
      var a1, a2 := NatToString(j1), NatToString(j2);
      DuplicatePathSplit(outputDir, n1, j1);
      DuplicatePathSplit(outputDir, n2, j2);
      AfterPrefix(pre, n1 + "/" + (a1 + "_" + n1));
      AfterPrefix(pre, n2 + "/" + (a2 + "_" + n2));
      SplitAtSeparator(n1, a1 + "_" + n1, n2, a2 + "_" + n2, '/');
      assert '_' !in a1 && '_' !in a2;
      SplitAtSeparator(a1, n1, a2, n2, '_');
      NatToStringInjective(j1, j2);
    }
  }

  /** Every path of `before` is still in `after`, with the same source file: nothing was overwritten or removed. */
  predicate Keeps(before: map<string, string>, after: map<string, string>)
  {
    forall k :: k in before ==> k in after && after[k] == before[k]
  }

  /** Writing a file to a free path keeps everything and adds one path. */
  lemma FreshInsert(m: map<string, string>, key: string, v: string)
    requires key !in m
    ensures Keeps(m, m[key := v]) && |m[key := v]| == |m| + 1
  {
  }

  /** Keeping is transitive. */
  lemma KeepsTrans(m1: map<string, string>, m2: map<string, string>, m3: map<string, string>)
    requires Keeps(m1, m2) && Keeps(m2, m3)
    ensures Keeps(m1, m3)
  {
  }

  /** The arguments of the `exiftool -overwrite_original` call that stamps a copied file with its date. */
  function WriteCommand(exifCreateDate: string, outputFilePath: string): seq<string>
  {
    var quoted := "\"" + exifCreateDate + "\"";
    ["-overwrite_original", "-CreateDate=" + quoted, "-DateTimeOriginal=" + quoted,
     "-DateCreated=" + quoted, "-FileCreateDate=" + quoted, outputFilePath]
  }

  /** `${validationStatus} ${++currentFileIndex}/${totalFilesCount} [${fileName}]`. */
  function ProgressLine(status: Status, index: nat, total: nat, fileName: string): string
  {
    StatusName(status) + " " + NatToString(index) + "/" + NatToString(total) + " [" + fileName + "]"
  }

  /** The progress line of `file` when it is the `n`-th of `total`. */
  function FileLine(outputDir: string, offsetMs: int, file: MediaFile, n: nat, total: nat): string
  {
    ProgressLine(PlanFor(outputDir, file, offsetMs).status, n, total, LastSegment(file.path))
  }

  /**
   * What the cleaner learns about one file before touching the output
   * directory: the path of the file, ExifTool's two reports on it, its JSON
   * sidecar and the file system's size and times.
   */
  datatype MediaFile = MediaFile(
    path: string, size: nat, validationReport: string, timeReport: string,
    sidecar: Sidecar, ctimeMs: int, mtimeMs: int)

  /** Where a file is meant to go: its status, its target path and, unless it is corrupted, the date to write into it. */
  datatype Plan = Plan(status: Status, target: string, stamp: Option<string>)

  /** The plan for a file: the classifier, the date, the output name and the bucket, composed as the callback does. */
  function PlanFor(outputDir: string, file: MediaFile, offsetMs: int): Plan
  {
    var fileName := LastSegment(file.path);
    var v := Classify(Entries(NonBlankLines(file.validationReport)), Verdict(Ok, FileExtension(fileName)));
    if v.status == Error then
      Plan(Error, BucketPath(outputDir, Corrupted, fileName), None)
    else
      var r := Resolve(file.timeReport, file.sidecar, file.ctimeMs, file.mtimeMs, offsetMs);
      var name := OutputFileName(r.date, file.size, v.extension);
      Plan(v.status, BucketPath(outputDir, BucketFor(v.status, r.safe).value, name), Some(FormatExif(r.date)))
  }

  /**
   * A corrupted file keeps its own name in the corrupted directory and gets no
   * date written; any other file gets a date and a target in the bucket of
   * its status, which is never the corrupted or the duplicates directory.
   */
  lemma PlanTargets(outputDir: string, file: MediaFile, offsetMs: int)
    ensures var p := PlanFor(outputDir, file, offsetMs);
      && (p.stamp.None? <==> p.status == Error)
      && (p.status == Error ==> p.target == BucketPath(outputDir, Corrupted, LastSegment(file.path)))
      && (p.status != Error ==>
            var r := Resolve(file.timeReport, file.sidecar, file.ctimeMs, file.mtimeMs, offsetMs);
            exists b, name :: b != Corrupted && b != Duplicates && BucketFor(p.status, r.safe) == Some(b) &&
              p.target == BucketPath(outputDir, b, name))
      && !InDuplicates(outputDir, p.target)
  {
    var p := PlanFor(outputDir, file, offsetMs);
    var fileName := LastSegment(file.path);
    if p.status == Error {
      BucketOutsideDuplicates(outputDir, Corrupted, fileName);
    } else {
      var v := Classify(Entries(NonBlankLines(file.validationReport)), Verdict(Ok, FileExtension(fileName)));
      var r := Resolve(file.timeReport, file.sidecar, file.ctimeMs, file.mtimeMs, offsetMs);
      var name := OutputFileName(r.date, file.size, v.extension);
      var b := BucketFor(v.status, r.safe).value;
      BucketRouting(v.status, r.safe);
      BucketOutsideDuplicates(outputDir, b, name);
    }
  }

  /** No file is planned into the duplicates directory. */
  lemma PlanOutsideDuplicates(outputDir: string, file: MediaFile, offsetMs: int)
    ensures !InDuplicates(outputDir, PlanFor(outputDir, file, offsetMs).target)
  {
    PlanTargets(outputDir, file, offsetMs);
  }

  /**
   * The part of the callback that decides where the file goes: classify it;
   * a corrupted file keeps its name in the corrupted directory and gets no
   * date; any other file is dated, named `<date>.<size>.<extension>` and
   * sent to the bucket of its status.
   */
  method PlanFile(outputDir: string, offsetMs: int, file: MediaFile) returns (plan: Plan)
    ensures plan == PlanFor(outputDir, file, offsetMs)
  {
    var fileName := LastSegment(file.path);
    var fileExt := FileExtension(fileName);
    var validationStatus, finalExtension := ClassifyReport(file.validationReport, fileExt);
    if validationStatus == Error {
      var outputPath := BucketPath(outputDir, Corrupted, fileName);
      return Plan(Error, outputPath, None);
    }
    var r := Resolve(file.timeReport, file.sidecar, file.ctimeMs, file.mtimeMs, offsetMs);
    var outputFileName := OutputFileName(r.date, file.size, finalExtension);
    var exifCreateDate := FormatExif(r.date);
    BucketRouting(validationStatus, r.safe);
    var bucket := BucketFor(validationStatus, r.safe).value;
    var outputFilePath := BucketPath(outputDir, bucket, outputFileName);
    plan := Plan(validationStatus, outputFilePath, Some(exifCreateDate));
  }

  /** The state of a run: the output tree, `currentFileIndex`, the ExifTool write calls and the two console streams. */
  datatype Run = Run(tree: map<string, string>, index: nat, writes: seq<seq<string>>,
                     stdout: seq<string>, stderr: seq<string>)

  /** The state before the first file: an empty output directory and nothing done. */
  function Start(): Run
  {
    Run(map[], 0, [], [], [])
  }

  /** Where a file with plan `p` lands: its target when that is free, else the duplicate path of index `index`. */
  function Landing(outputDir: string, p: Plan, tree: map<string, string>, index: nat): string
  {
    if p.target in tree then DuplicatePath(outputDir, LastSegment(p.target), index) else p.target
  }

  /**
   * One file of a run: the file is copied to where it lands, the date is
   * written only into a copy at its own target, a duplicate is reported on
   * the warning stream, the raw report is echoed for errors and warnings,
   * the index goes up by one and the progress line is printed.
   */
  function Step(outputDir: string, offsetMs: int, total: nat, r: Run, file: MediaFile): Run
  {
    var p := PlanFor(outputDir, file, offsetMs);
    var dup := p.target in r.tree;
    Run(r.tree[Landing(outputDir, p, r.tree, r.index) := file.path],
        r.index + 1,
        r.writes + (if !dup && p.stamp.Some? then [WriteCommand(p.stamp.value, p.target)] else []),
        r.stdout + [FileLine(outputDir, offsetMs, file, r.index + 1, total)],
        r.stderr + (if dup then ["Duplicate " + file.path] else []) +
          (if p.status == Error || p.status == Warning then [file.validationReport] else []))
  }

  /** A step spelled out for a file whose plan is known. */
  lemma StepOfPlan(outputDir: string, offsetMs: int, total: nat, r: Run, file: MediaFile, p: Plan)
    requires p == PlanFor(outputDir, file, offsetMs)
    ensures var dup := p.target in r.tree;
      Step(outputDir, offsetMs, total, r, file) ==
      Run(r.tree[Landing(outputDir, p, r.tree, r.index) := file.path],
          r.index + 1,
          r.writes + (if !dup && p.stamp.Some? then [WriteCommand(p.stamp.value, p.target)] else []),
          r.stdout + [ProgressLine(p.status, r.index + 1, total, LastSegment(file.path))],
          r.stderr + (if dup then ["Duplicate " + file.path] else []) +
            (if p.status == Error || p.status == Warning then [file.validationReport] else []))
  {
    hide PlanFor;
  }

  /** The files taken one after another, in order. */
  function RunAll(outputDir: string, offsetMs: int, total: nat, r: Run, files: seq<MediaFile>): Run
    decreases |files|
  {
    if files == [] then r
    else Step(outputDir, offsetMs, total, RunAll(outputDir, offsetMs, total, r, files[..|files| - 1]), files[|files| - 1])
  }

  /** A run over no file leaves the state as it was. */
  lemma RunAllEmpty(outputDir: string, offsetMs: int, total: nat, r: Run, files: seq<MediaFile>)
    ensures RunAll(outputDir, offsetMs, total, r, files[..0]) == r
  {
    assert files[..0] == [];
  }

  /** A run over one more file is one more step. */
  lemma RunAllStep(outputDir: string, offsetMs: int, total: nat, r: Run, files: seq<MediaFile>, i: nat)
    requires i < |files|
    ensures RunAll(outputDir, offsetMs, total, r, files[..i + 1]) ==
      Step(outputDir, offsetMs, total, RunAll(outputDir, offsetMs, total, r, files[..i]), files[i])
  {
    assert files[..i + 1][..i] == files[..i];
  }

  /**
   * Each file of a run advances the index by one and prints its own progress
   * line, numbered from the index the run started at; each issues at most
   * one write.
   */
  lemma {:induction false} RunAllCounts(outputDir: string, offsetMs: int, total: nat, r: Run, files: seq<MediaFile>)
    ensures var e := RunAll(outputDir, offsetMs, total, r, files);
      && e.index == r.index + |files|
      && |e.stdout| == |r.stdout| + |files| && e.stdout[..|r.stdout|] == r.stdout
      && (forall k :: 0 <= k < |files| ==>
            e.stdout[|r.stdout| + k] == FileLine(outputDir, offsetMs, files[k], r.index + k + 1, total))
      && |r.writes| <= |e.writes| <= |r.writes| + |files|
    decreases |files|
  {
    // Only the shape of a step matters here, not what the plan and the progress line hold.
    hide PlanFor, FileLine, Landing, WriteCommand;
    if files != [] {
      var n := |files| - 1;
      var init := files[..n];
      RunAllCounts(outputDir, offsetMs, total, r, init);
      var m := RunAll(outputDir, offsetMs, total, r, init);
      var e := Step(outputDir, offsetMs, total, m, files[n]);
      forall k | 0 <= k < |files|
        ensures e.stdout[|r.stdout| + k] == FileLine(outputDir, offsetMs, files[k], r.index + k + 1, total)
      {
        if k < n {
          assert init[k] == files[k];
          assert e.stdout[|r.stdout| + k] == m.stdout[|r.stdout| + k];
        }
      }
    }
  }

  /** Every write stamps a copy that sits in the tree, at a path outside the duplicates directory. */
  predicate StampsCopies(outputDir: string, r: Run)
  {
    forall k :: 0 <= k < |r.writes| ==>
      |r.writes[k]| == 6 && r.writes[k][5] in r.tree && !InDuplicates(outputDir, r.writes[k][5])
  }

  /** One file keeps every write aimed at a copy in the tree and outside the duplicates directory. */
  lemma StepStampsCopies(outputDir: string, offsetMs: int, total: nat, r: Run, file: MediaFile)
    requires StampsCopies(outputDir, r)
    ensures StampsCopies(outputDir, Step(outputDir, offsetMs, total, r, file))
  {
    var p := PlanFor(outputDir, file, offsetMs);
    var e := Step(outputDir, offsetMs, total, r, file);
    PlanOutsideDuplicates(outputDir, file, offsetMs);
    // The plan's target is all that matters, and PlanTargets says where it lies.
    hide PlanFor, FileLine;
    forall k | 0 <= k < |e.writes|
      ensures |e.writes[k]| == 6 && e.writes[k][5] in e.tree && !InDuplicates(outputDir, e.writes[k][5])
    {
      if k < |r.writes| {
        assert e.writes[k] == r.writes[k];
      } else {
        assert e.writes[k] == WriteCommand(p.stamp.value, p.target);
      }
    }
  }

  /**
   * The date is never written into a duplicate copy: every write of a run
   * that starts from an empty directory stamps a file copied to its own
   * target.
   */
  lemma {:induction false} RunStampsCopies(outputDir: string, offsetMs: int, total: nat, r: Run, files: seq<MediaFile>)
    requires StampsCopies(outputDir, r)
    ensures StampsCopies(outputDir, RunAll(outputDir, offsetMs, total, r, files))
    decreases |files|
  {
    if files != [] {
      var n := |files| - 1;
      RunStampsCopies(outputDir, offsetMs, total, r, files[..n]);
      StepStampsCopies(outputDir, offsetMs, total, RunAll(outputDir, offsetMs, total, r, files[..n]), files[n]);
    }
  }

  /**
   * The same file found twice: the first copy goes to its target and gets the
   * date, the second goes to `duplicates/<name>/1_<name>`, is reported as a
   * duplicate and is not stamped.
   */
  lemma SameFileTwice(outputDir: string, offsetMs: int, file: MediaFile)
    ensures var p := PlanFor(outputDir, file, offsetMs);
      var dup := DuplicatePath(outputDir, LastSegment(p.target), 1);
      var e := RunAll(outputDir, offsetMs, 2, Start(), [file, file]);
      var echo := if p.status == Error || p.status == Warning then [file.validationReport] else [];
      && dup != p.target
      && e.tree == map[p.target := file.path, dup := file.path]
      && e.writes == (if p.stamp.Some? then [WriteCommand(p.stamp.value, p.target)] else [])
      && e.stderr == echo + ["Duplicate " + file.path] + echo
      && e.index == 2
  {
    // The plan and the paths enter only through the facts established below.
    hide PlanFor, FileLine, DuplicatePath, WriteCommand, RunAll;
    var p := PlanFor(outputDir, file, offsetMs);
    PlanOutsideDuplicates(outputDir, file, offsetMs);
    var dup := DuplicatePath(outputDir, LastSegment(p.target), 1);
    DuplicateInDuplicates(outputDir, LastSegment(p.target), 1);
    var echo := if p.status == Error || p.status == Warning then [file.validationReport] else [];
    TwoSteps(outputDir, offsetMs, 2, Start(), file, file);
    var e1 := Step(outputDir, offsetMs, 2, Start(), file);
    assert e1.tree == map[p.target := file.path] && e1.index == 1;
    assert e1.writes == (if p.stamp.Some? then [WriteCommand(p.stamp.value, p.target)] else []);
    assert e1.stderr == echo;
    var e2 := Step(outputDir, offsetMs, 2, e1, file);
    assert Landing(outputDir, p, e1.tree, e1.index) == dup;
    assert e2.tree == e1.tree[dup := file.path];
    assert e2.writes == e1.writes;
    assert e2.stderr == e1.stderr + ["Duplicate " + file.path] + echo;
  }

  /** A run over two files is two steps. */
  lemma TwoSteps(outputDir: string, offsetMs: int, total: nat, r: Run, a: MediaFile, b: MediaFile)
    ensures RunAll(outputDir, offsetMs, total, r, [a, b]) ==
      Step(outputDir, offsetMs, total, Step(outputDir, offsetMs, total, r, a), b)
  {
    hide PlanFor, FileLine;
    RunAllStep(outputDir, offsetMs, total, r, [a, b], 0);
    RunAllStep(outputDir, offsetMs, total, r, [a, b], 1);
    assert [a, b][..2] == [a, b];
    assert [a, b][..0] == [];
  }

  /**
   * The state the callback works on: the output tree, `currentFileIndex`,
   * the ExifTool write calls issued and the two console streams.
   */
  class Organizer {
    const outputDir: string
    /** Offset of local time from UTC, in milliseconds. */
    const offsetMs: int
    const totalFilesCount: nat
    /** Each file path written under the output directory, mapped to the source file copied there. */
    var tree: map<string, string>
    var currentFileIndex: nat
    /** The arguments of each `exiftool -overwrite_original` call, in order. */
    var writes: seq<seq<string>>
    /** console.log lines. */
    var stdout: seq<string>
    /** console.warn lines. */
    var stderr: seq<string>

    /** Every duplicate copy in the tree was made for a file with an index below `k`. */
    ghost predicate FreshFrom(k: nat)
      reads this
    {
      forall n: string, j: nat :: '/' !in n && DuplicatePath(outputDir, n, j) in tree ==> j < k
    }

    /** Between files: duplicate paths of the next index are still free, so no copy ever overwrites another. */
    ghost predicate Valid()
      reads this
    {
      FreshFrom(currentFileIndex)
    }

    /** The fields as a value, to compare with a run. */
    function State(): Run
      reads this
    {
      Run(tree, currentFileIndex, writes, stdout, stderr)
    }

    /** The start of the glob callback, on a freshly created, empty output directory. */
    constructor (outputDir: string, offsetMs: int, totalFilesCount: nat)
      ensures this.outputDir == outputDir && this.offsetMs == offsetMs && this.totalFilesCount == totalFilesCount
      ensures tree == map[] && currentFileIndex == 0 && writes == [] && stdout == [] && stderr == []
      ensures Valid()
    {
      this.outputDir := outputDir;
      this.offsetMs := offsetMs;
      this.totalFilesCount := totalFilesCount;
      tree := map[];
      currentFileIndex := 0;
      writes := [];
      stdout := [];
      stderr := [];
    }

    /** The `duplicate` helper: the file goes to `duplicates/<name>/<index>_<name>`, a path still free. */
    method Duplicate(file: string, outputPath: string)
      requires FreshFrom(currentFileIndex)
      modifies this
      ensures var dup := DuplicatePath(outputDir, LastSegment(outputPath), currentFileIndex);
        dup !in old(tree) && tree == old(tree)[dup := file]
      ensures stderr == old(stderr) + ["Duplicate " + file]
      ensures currentFileIndex == old(currentFileIndex) && writes == old(writes) && stdout == old(stdout)
      ensures FreshFrom(currentFileIndex + 1)
    {
      stderr := stderr + ["Duplicate " + file];
      var outputFileName := LastSegment(outputPath);
      var dir := BucketPath(outputDir, Duplicates, outputFileName);
      var dup := dir + "/" + NatToString(currentFileIndex) + "_" + outputFileName;
      assert dup == DuplicatePath(outputDir, outputFileName, currentFileIndex);
      tree := tree[dup := file];
      forall n: string, j: nat | '/' !in n && DuplicatePath(outputDir, n, j) in tree
        ensures j < currentFileIndex + 1
      {
        DuplicatePathInjective(outputDir, n, j, outputFileName, currentFileIndex);
      }
    }

    /** `copyTo`: copies to the target when it is free and reports true; otherwise hands the file to `duplicate` and reports false. */
    method CopyTo(file: string, outputPath: string) returns (copied: bool)
      requires FreshFrom(currentFileIndex) && !InDuplicates(outputDir, outputPath)
      modifies this
      ensures copied <==> outputPath !in old(tree)
      ensures copied ==> tree == old(tree)[outputPath := file] && stderr == old(stderr)
      ensures !copied ==>
        var dup := DuplicatePath(outputDir, LastSegment(outputPath), currentFileIndex);
        dup !in old(tree) && tree == old(tree)[dup := file] && stderr == old(stderr) + ["Duplicate " + file]
      ensures currentFileIndex == old(currentFileIndex) && writes == old(writes) && stdout == old(stdout)
      ensures FreshFrom(currentFileIndex + 1)
    {
      if outputPath in tree {
        Duplicate(file, outputPath);
        copied := false;
      } else {
        tree := tree[outputPath := file];
        copied := true;
        forall n: string, j: nat | '/' !in n && DuplicatePath(outputDir, n, j) in tree
          ensures j < currentFileIndex + 1
        {
          DuplicateInDuplicates(outputDir, n, j);
        }
      }
    }

    /** `next`: the raw report is echoed for errors and warnings, the index advances and the progress line is printed. */
    method Next(status: Status, rawValidation: string, fileName: string)
      requires FreshFrom(currentFileIndex + 1)
      modifies this
      ensures currentFileIndex == old(currentFileIndex) + 1
      ensures stderr == old(stderr) + (if status == Error || status == Warning then [rawValidation] else [])
      ensures stdout == old(stdout) + [ProgressLine(status, currentFileIndex, totalFilesCount, fileName)]
      ensures tree == old(tree) && writes == old(writes)
      ensures Valid()
    {
      if status == Error || status == Warning {
        stderr := stderr + [rawValidation];
      }
      currentFileIndex := currentFileIndex + 1;
      stdout := stdout + [ProgressLine(status, currentFileIndex, totalFilesCount, fileName)];
    }

    /**
     * `copyTo(target)`, followed, when the copy went to the target itself and
     * a date is given, by the ExifTool call that writes the date into the copy.
     */
    method Place(source: string, target: string, stamp: Option<string>) returns (copied: bool)
      requires FreshFrom(currentFileIndex) && !InDuplicates(outputDir, target)
      modifies this
      ensures copied <==> target !in old(tree)
      ensures var key := if copied then target else DuplicatePath(outputDir, LastSegment(target), currentFileIndex);
        key !in old(tree) && tree == old(tree)[key := source]
      ensures writes == old(writes) + (if copied && stamp.Some? then [WriteCommand(stamp.value, target)] else [])
      ensures stderr == old(stderr) + (if copied then [] else ["Duplicate " + source])
      ensures currentFileIndex == old(currentFileIndex) && stdout == old(stdout)
      ensures FreshFrom(currentFileIndex + 1)
    {
      copied := CopyTo(source, target);
      if copied && stamp.Some? {
        writes := writes + [WriteCommand(stamp.value, target)];
      }
    }

    /**
     * The `eachSeries` callback for one file: the file is planned, copied to
     * its target or, when that is taken, to a fresh duplicate path `key`, and
     * the index advances. Nothing already in the tree is overwritten and the
     * date is written only into a file copied to its own target.
     */
    method ProcessFile(file: MediaFile) returns (ghost key: string)
      requires Valid()
      modifies this
      ensures Valid()
      ensures State() == Step(outputDir, offsetMs, totalFilesCount, old(State()), file)
      ensures currentFileIndex == old(currentFileIndex) + 1
      ensures key == Landing(outputDir, PlanFor(outputDir, file, offsetMs), old(tree), old(currentFileIndex))
      ensures key !in old(tree) && tree == old(tree)[key := file.path]
    {
      // StepOfPlan spells the step out for the plan; neither definition is needed.
      hide PlanFor, Step;
      var plan := PlanFile(outputDir, offsetMs, file);
      PlanOutsideDuplicates(outputDir, file, offsetMs);
      StepOfPlan(outputDir, offsetMs, totalFilesCount, State(), file, plan);
      ghost var i0 := currentFileIndex;
      var copied := Place(file.path, plan.target, plan.stamp);
      key := if copied then plan.target else DuplicatePath(outputDir, LastSegment(plan.target), i0);
      Next(plan.status, file.validationReport, LastSegment(file.path));
    }

    /**
     * `eachSeries(files, ...)`: the files in order, each advancing the index
     * by one and printing its progress line. Each file lands at its own new
     * path, `placed[k]` for the `k`-th, and nothing present before is touched.
     */
    method ProcessAll(files: seq<MediaFile>) returns (ghost placed: seq<string>)
      requires Valid()
      modifies this
      ensures Valid()
      ensures currentFileIndex == old(currentFileIndex) + |files|
      ensures Keeps(old(tree), tree) && |tree| == |old(tree)| + |files|
      ensures |placed| == |files|
      ensures forall k :: 0 <= k < |files| ==>
        placed[k] !in old(tree) && placed[k] in tree && tree[placed[k]] == files[k].path
      ensures forall k :: 0 <= k < |files| ==>
        var target := PlanFor(outputDir, files[k], offsetMs).target;
        placed[k] == target || placed[k] == DuplicatePath(outputDir, LastSegment(target), old(currentFileIndex) + k)
      ensures State() == RunAll(outputDir, offsetMs, totalFilesCount, old(State()), files)
    {
      // The loop only moves the per-file facts along; it needs none of their definitions.
      hide Step, RunAll, PlanFor, FileLine, Valid, FreshFrom, DuplicatePath;
      RunAllEmpty(outputDir, offsetMs, totalFilesCount, State(), files);
      placed := [];
      var i := 0;
      while i < |files|
        invariant 0 <= i <= |files| && |placed| == i
        invariant Valid()
        invariant currentFileIndex == old(currentFileIndex) + i
        invariant Keeps(old(tree), tree) && |tree| == |old(tree)| + i
        invariant forall k :: 0 <= k < i ==>
          placed[k] !in old(tree) && placed[k] in tree && tree[placed[k]] == files[k].path
        invariant forall k :: 0 <= k < i ==>
          var target := PlanFor(outputDir, files[k], offsetMs).target;
          placed[k] == target || placed[k] == DuplicatePath(outputDir, LastSegment(target), old(currentFileIndex) + k)
        invariant State() == RunAll(outputDir, offsetMs, totalFilesCount, old(State()), files[..i])
      {
        ghost var before := tree;
        ghost var landed := placed;
        ghost var key := ProcessFile(files[i]);
        RunAllStep(outputDir, offsetMs, totalFilesCount, old(State()), files, i);
        FreshInsert(before, key, files[i].path);
        KeepsTrans(old(tree), before, tree);
        placed := placed + [key];
        forall k | 0 <= k < i + 1
          ensures placed[k] !in old(tree) && placed[k] in tree && tree[placed[k]] == files[k].path
        {
          if k < i {
            assert placed[k] in before && placed[k] != key;
          }
        }
        forall k | 0 <= k < i + 1
          ensures var target := PlanFor(outputDir, files[k], offsetMs).target;
            placed[k] == target || placed[k] == DuplicatePath(outputDir, LastSegment(target), old(currentFileIndex) + k)
        {
          if k < i {
            assert placed[k] == landed[k];
          }
        }
        i := i + 1;
      }
      assert files[..|files|] == files;
    }
  }

  /**
   * The glob callback: a fresh output directory and every file processed in
   * order. The end state is the run of the files from an empty directory;
   * each file lands at its target or at the duplicate path of its position,
   * nothing is overwritten, one progress line is printed per file, and every
   * date written stamps a copy at its own target.
   */
  method Clean(outputDir: string, offsetMs: int, files: seq<MediaFile>) returns (o: Organizer)
    ensures fresh(o) && o.outputDir == outputDir && o.offsetMs == offsetMs && o.totalFilesCount == |files|
    ensures o.State() == RunAll(outputDir, offsetMs, |files|, Start(), files)
    ensures o.Valid() && o.currentFileIndex == |files| && |o.tree| == |files|
    ensures forall i :: 0 <= i < |files| ==> files[i].path in o.tree.Values
    ensures |o.stdout| == |files|
    ensures forall k :: 0 <= k < |files| ==> o.stdout[k] == FileLine(outputDir, offsetMs, files[k], k + 1, |files|)
    ensures |o.writes| <= |files| && StampsCopies(outputDir, o.State())
  {
    // The lemmas below say all that is needed about a run.
    hide Step, RunAll, PlanFor, FileLine;
    o := new Organizer(outputDir, offsetMs, |files|);
    ghost var placed := o.ProcessAll(files);
    forall i | 0 <= i < |files|
      ensures files[i].path in o.tree.Values
    {
      assert o.tree[placed[i]] == files[i].path;
    }
    RunAllCounts(outputDir, offsetMs, |files|, Start(), files);
    RunStampsCopies(outputDir, offsetMs, |files|, Start(), files);
  }
}
