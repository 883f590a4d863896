/**
 * Where a classified, dated file goes (index.js:19-24, 198-223): the output
 * file name `YYYY-MM-DD-HH-mm-ss.<size>.<extension>` inside one of the
 * bucket directories, chosen by the validation status and by whether the
 * date is safe.
 */
module Identity {
  import opened Optional
  import opened Text
  import opened Validation
  import opened Dates

  /** The six directories created under the output directory. */
  datatype Bucket = Safe | Unsafe | Corrupted | Warnings | Duplicates | ChangedExtensions

  function DirName(b: Bucket): string
  {
    match b
    case Safe => "safe"
    case Unsafe => "unsafe"
    case Corrupted => "corrupted"
    case Warnings => "warnings"
    case Duplicates => "duplicates"
    case ChangedExtensions => "changed-extensions"
  }

  /** `${outputDir}/safe` and its siblings. */
  function BucketDir(outputDir: string, b: Bucket): string
  {
    outputDir + "/" + DirName(b)
  }

  /** A file directly inside a bucket directory. */
  function BucketPath(outputDir: string, b: Bucket, name: string): string
  {
    BucketDir(outputDir, b) + "/" + name
  }

  /** `${createDate.format("YYYY-MM-DD-HH-mm-ss")}.${fileSize}.${finalExtension}`. */
  function OutputFileName(date: DateTime, size: nat, extension: string): string
  {
    FormatStamp(date) + "." + NatToString(size) + "." + extension
  }

  /**
   * The `switch (validationStatus)`: `ok` goes to safe or unsafe by the date,
   * `warning` and `change extensions` to their own directories, and anything
   * else (only `error` is left, and the source handles it before) to the
   * `throw` of the default branch.
   */
  function BucketFor(status: Status, safe: bool): (r: Option<Bucket>)
    ensures r.None? <==> status == Error
  {
    match status
    case Ok => Some(if safe then Safe else Unsafe)
    case Warning => Some(Warnings)
    case ChangeExtensions => Some(ChangedExtensions)
    case Error => None
  }

  /**
   * Only an `ok` file with a safe date is filed as safe, an `ok` file without
   * one as unsafe; no status is routed to the corrupted or duplicates
   * directory by the switch.
   */
  lemma BucketRouting(status: Status, safe: bool)
    ensures BucketFor(status, safe) == Some(Safe) <==> status == Ok && safe
    ensures BucketFor(status, safe) == Some(Unsafe) <==> status == Ok && !safe
    ensures BucketFor(status, safe) == Some(Warnings) <==> status == Warning
    ensures BucketFor(status, safe) == Some(ChangedExtensions) <==> status == ChangeExtensions
    ensures BucketFor(status, safe) != Some(Corrupted) && BucketFor(status, safe) != Some(Duplicates)
  {
  }

  /** The bucket directories have distinct names, none holding a '/'. */
  lemma DirNamesDistinct(b1: Bucket, b2: Bucket)
    ensures '/' !in DirName(b1)
    ensures DirName(b1) == DirName(b2) <==> b1 == b2
  {
  }

  /** A bucket path is the output directory and a '/', then the bucket's name, a '/' and the file name. */
  lemma BucketPathSplit(outputDir: string, b: Bucket, name: string)
    ensures BucketPath(outputDir, b, name) == (outputDir + "/") + (DirName(b) + "/" + name)
  {
    AppendAssoc(outputDir + "/", DirName(b), "/");
    AppendAssoc(outputDir + "/", DirName(b) + "/", name);
  }

  /** Two files inside the bucket directories share a path exactly when they share the bucket and the name. */
  lemma BucketPathInjective(outputDir: string, b1: Bucket, n1: string, b2: Bucket, n2: string)
    ensures BucketPath(outputDir, b1, n1) == BucketPath(outputDir, b2, n2) <==> b1 == b2 && n1 == n2
  {
    if BucketPath(outputDir, b1, n1) == BucketPath(outputDir, b2, n2) {
      var t1, t2 := DirName(b1) + "/" + n1, DirName(b2) + "/" + n2;
      BucketPathSplit(outputDir, b1, n1);
      BucketPathSplit(outputDir, b2, n2);
      AfterPrefix(outputDir + "/", t1);
      AfterPrefix(outputDir + "/", t2);
      DirNamesDistinct(b1, b2);
      DirNamesDistinct(b2, b1);
      SplitAtSeparator(DirName(b1), n1, DirName(b2), n2, '/');
    }
  }

  /**
   * The output name tells its parts apart: for dates with four-digit years,
   * two files get the same name exactly when they have the same date to the
   * second, the same size in bytes and the same extension.
   */
  lemma OutputFileNameInjective(d1: DateTime, s1: nat, e1: string, d2: DateTime, s2: nat, e2: string)
    requires Valid(d1) && 0 <= d1.year <= 9999 && Valid(d2) && 0 <= d2.year <= 9999
    ensures OutputFileName(d1, s1, e1) == OutputFileName(d2, s2, e2) <==> d1 == d2 && s1 == s2 && e1 == e2
  {
    StampInjective(d1, d2);
    StampInjective(d2, d1);
    if OutputFileName(d1, s1, e1) == OutputFileName(d2, s2, e2) {
      var t1, t2 := FormatStamp(d1), FormatStamp(d2);
      var a1, a2 := NatToString(s1), NatToString(s2);
      OutputFileNameSplit(d1, s1, e1);
      OutputFileNameSplit(d2, s2, e2);
      AfterPrefix(t1, "." + (a1 + "." + e1));
      AfterPrefix(t2, "." + (a2 + "." + e2));
      assert ("." + (a1 + "." + e1))[1..] == a1 + "." + e1;
      assert ("." + (a2 + "." + e2))[1..] == a2 + "." + e2;
      assert '.' !in a1 && '.' !in a2;
      SplitAtSeparator(a1, e1, a2, e2, '.');
      NatToStringInjective(s1, s2);
    }
  }

  /** An output name is the stamp, then a '.', the size, a '.' and the extension. */
  lemma OutputFileNameSplit(date: DateTime, size: nat, extension: string)
    ensures OutputFileName(date, size, extension) == FormatStamp(date) + ("." + (NatToString(size) + "." + extension))
  {
    var t, a := FormatStamp(date), NatToString(size);
    AppendAssoc(t + "." + a, ".", extension);
    AppendAssoc(t + ".", a, "." + extension);
    AppendAssoc(t, ".", a + ("." + extension));
    AppendAssoc(".", a, "." + extension);
    AppendAssoc(a, ".", extension);
  }

  /**
   * Two files collide in the output tree, which is what sends the second to
   * the duplicates directory, exactly when they fall in the same bucket with
   * the same date, size and extension.
   */
  lemma SameOutputPath(outputDir: string, b1: Bucket, d1: DateTime, s1: nat, e1: string, b2: Bucket, d2: DateTime, s2: nat, e2: string)
    requires Valid(d1) && 0 <= d1.year <= 9999 && Valid(d2) && 0 <= d2.year <= 9999
    ensures BucketPath(outputDir, b1, OutputFileName(d1, s1, e1)) == BucketPath(outputDir, b2, OutputFileName(d2, s2, e2))
      <==> b1 == b2 && d1 == d2 && s1 == s2 && e1 == e2
  {
    BucketPathInjective(outputDir, b1, OutputFileName(d1, s1, e1), b2, OutputFileName(d2, s2, e2));
    OutputFileNameInjective(d1, s1, e1, d2, s2, e2);
  }
}
