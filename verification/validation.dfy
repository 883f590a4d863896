/**
 * The validation-report classifier (index.js:104-144). ExifTool's
 * `-validate -error -warning` report is folded, line by line in report
 * order, into a status and the extension the file will be renamed with.
 * Each line either assigns a status or, for a `Validate` line that is
 * neither `ok` nor "all minor", assigns nothing; the last assignment wins.
 */
module Validation {
  import opened Optional
  import opened Text
  import opened Reports

  /** The four values `validationStatus` can take. */
  datatype Status = Ok | Error | Warning | ChangeExtensions

  /** The status as the source spells it in the console line. */
  function StatusName(s: Status): string
  {
    match s
    case Ok => "ok"
    case Error => "error"
    case Warning => "warning"
    case ChangeExtensions => "change extensions"
  }

  /** The two variables the fold updates: `validationStatus` and `finalExtension`. */
  datatype Verdict = Verdict(status: Status, extension: string)

  /** `\w` of a JavaScript regular expression without the `u` flag. */
  predicate IsWordChar(c: char)
  {
    ('a' <= c <= 'z') || ('A' <= c <= 'Z') || IsDigit(c) || c == '_'
  }

  /** Where a greedy `\w*` that starts at `i` stops. */
  function WordEnd(s: string, i: nat): (j: nat)
    requires i <= |s|
    ensures i <= j <= |s|
    ensures forall k :: i <= k < j ==> IsWordChar(s[k])
    ensures j == |s| || !IsWordChar(s[j])
    decreases |s| - i
  {
    if i < |s| && IsWordChar(s[i]) then WordEnd(s, i + 1) else i
  }

  /** A match of `/be (\w+), not (\w+)/`: its first group and the index just past it. */
  datatype Capture = Capture(group: string, end: nat)

  /**
   * The match of `/be (\w+), not (\w+)/` that starts exactly at `i`, if any.
   * Both groups are greedy; since neither `,` nor the end of the text is a
   * word character, backtracking can never shorten them, so each group is
   * the whole run of word characters.
   */
  function MatchAt(s: string, i: nat): (m: Option<Capture>)
    requires i <= |s|
    ensures m.Some? ==> i < m.value.end <= |s|
  {
    if StartsWith(s[i..], "be ") then
      var g1 := WordEnd(s, i + 3);
      if g1 > i + 3 && StartsWith(s[g1..], ", not ") then
        var g2 := WordEnd(s, g1 + 6);
        if g2 > g1 + 6 then Some(Capture(s[i + 3..g1], g2)) else None
      else None
    else None
  }

  /**
   * The first groups of the matches a global (`g`) search finds from `i` on:
   * after a match the search resumes where it ended, after a failure one
   * character further.
   */
  function Captures(s: string, i: nat): seq<string>
    requires i <= |s|
    decreases |s| - i
  {
    if i == |s| then []
    else
      match MatchAt(s, i)
      case Some(m) => [m.group] + Captures(s, m.end)
      case None => Captures(s, i + 1)
  }

  /** One step of the global search, seen from the captures already collected. */
  lemma CapturesStep(s: string, i: nat, seen: seq<string>)
    requires i < |s|
    ensures var m := MatchAt(s, i);
      seen + Captures(s, i) ==
        if m.Some? then (seen + [m.value.group]) + Captures(s, m.value.end) else seen + Captures(s, i + 1)
  {
    var m := MatchAt(s, i);
    if m.Some? {
      assert (seen + [m.value.group]) + Captures(s, m.value.end) == seen + ([m.value.group] + Captures(s, m.value.end));
    }
  }

  /**
   * The status a line assigns, or None. The branches are tried in the
   * source's order, so a `Validate` line never reaches the "error" test.
   */
  function AssignedStatus(e: Entry): Option<Status>
  {
    if e.key == "Validate" then
      if e.value == "ok" || Contains(e.value, "all minor") then Some(Ok) else None
    else if Contains(Lower(e.key), "error") || Contains(Lower(e.value), "error") then Some(Error)
    else if StartsWith(e.value, "File has wrong extension") then Some(ChangeExtensions)
    else if StartsWith(e.value, "[minor]") then Some(Ok)
    else Some(Warning)
  }

  /** `value.replace(regex, (match, toExtension) => ...)`: every match overwrites the extension, so the last one stays. */
  function ExtensionAfter(extension: string, value: string): string
  {
    var cs := Captures(value, 0);
    if cs == [] then extension else Lower(cs[|cs| - 1])
  }

  /** One run of the `forEach` callback, on a line already split into key and value. */
  function StepLine(v: Verdict, e: Entry): Verdict
  {
    match AssignedStatus(e)
    case None => v
    case Some(ChangeExtensions) => Verdict(ChangeExtensions, ExtensionAfter(v.extension, e.value))
    case Some(s) => v.(status := s)
  }

  /** The fold over the lines, in report order. */
  function Classify(lines: seq<Entry>, init: Verdict): Verdict
    decreases |lines|
  {
    if lines == [] then init else StepLine(Classify(lines[..|lines| - 1], init), lines[|lines| - 1])
  }

  /** The fold over one more line is one more step. */
  lemma ClassifyStep(lines: seq<Entry>, i: nat, init: Verdict)
    requires i < |lines|
    ensures Classify(lines[..i + 1], init) == StepLine(Classify(lines[..i], init), lines[i])
  {
    assert lines[..i + 1][..i] == lines[..i];
  }

  /**
   * The classifier as the source runs it: start from `ok` and the file's own
   * extension, and let each non-blank line of the report update the two
   * variables.
   */
  method ClassifyReport(rawValidation: string, fileExt: string) returns (validationStatus: Status, finalExtension: string)
    ensures Verdict(validationStatus, finalExtension) == Classify(Entries(NonBlankLines(rawValidation)), Verdict(Ok, fileExt))
  {
    validationStatus, finalExtension := Ok, fileExt;
    var lines := NonBlankLines(rawValidation);
    ghost var entries := Entries(lines);
    var i := 0;
    while i < |lines|
      invariant i <= |lines|
      invariant Verdict(validationStatus, finalExtension) == Classify(entries[..i], Verdict(Ok, fileExt))
    {
      validationStatus, finalExtension := ClassifyLine(lines[i], validationStatus, finalExtension);
      ClassifyStep(entries, i, Verdict(Ok, fileExt));
      i := i + 1;
    }
    assert entries[..|lines|] == entries;
  }

  /** The `forEach` callback: split the line at its first colon and update the two variables as its key and value say. */
  method ClassifyLine(line: string, status: Status, extension: string) returns (validationStatus: Status, finalExtension: string)
    ensures Verdict(validationStatus, finalExtension) == StepLine(Verdict(status, extension), KeyValue(line))
  {
    validationStatus, finalExtension := status, extension;
    var e := KeyValue(line);
    var key, value := e.key, e.value;
    if key == "Validate" {
      if value == "ok" || Contains(value, "all minor") {
        validationStatus := Ok;
      }
    } else if Contains(Lower(key), "error") || Contains(Lower(value), "error") {
      validationStatus := Error;
    } else if StartsWith(value, "File has wrong extension") {
      finalExtension := CorrectExtension(value, finalExtension);
      validationStatus := ChangeExtensions;
    } else if StartsWith(value, "[minor]") {
      validationStatus := Ok;
    } else {
      validationStatus := Warning;
    }
  }

  /** The replace loop: each match of the regular expression sets the extension to its lowercased first group. */
  method CorrectExtension(value: string, current: string) returns (finalExtension: string)
    ensures finalExtension == ExtensionAfter(current, value)
  {
    // The step lemma says all the loop needs about a match.
    hide MatchAt, Lower;
    finalExtension := current;
    var pos := 0;
    ghost var seen: seq<string> := [];
    while pos < |value|
      invariant pos <= |value|
      invariant seen + Captures(value, pos) == Captures(value, 0)
      invariant finalExtension == if seen == [] then current else Lower(seen[|seen| - 1])
      decreases |value| - pos
    {
      var found := MatchAt(value, pos);
      CapturesStep(value, pos, seen);
      match found
      case Some(m) =>
        finalExtension := Lower(m.group);
        seen := seen + [m.group];
        pos := m.end;
      case None =>
        pos := pos + 1;
    }
  }

  /** A report with nothing but white space leaves the status `ok` and the extension the file's own. */
  lemma NoDiagnostics(rawValidation: string, fileExt: string)
    requires forall i :: 0 <= i < |rawValidation| ==> IsSpace(rawValidation[i])
    ensures Classify(Entries(NonBlankLines(rawValidation)), Verdict(Ok, fileExt)) == Verdict(Ok, fileExt)
  {
    BlankReportHasNoLines(rawValidation);
  }

  /**
   * Last write wins: the status is the one assigned by the last line that
   * assigns one, whatever earlier lines said (no severity ranking).
   */
  lemma {:induction false} LastWriteWins(lines: seq<Entry>, init: Verdict, j: nat)
    requires j < |lines| && AssignedStatus(lines[j]).Some?
    requires forall k :: j < k < |lines| ==> AssignedStatus(lines[k]).None?
    ensures Classify(lines, init).status == AssignedStatus(lines[j]).value
    decreases |lines|
  {
    var n := |lines|;
    if j < n - 1 {
      assert AssignedStatus(lines[n - 1]).None?;
      var prefix := lines[..n - 1];
      assert forall k :: j <= k < n - 1 ==> prefix[k] == lines[k];
      LastWriteWins(prefix, init, j);
    }
  }

  /** Lines that assign nothing (`Validate` lines that are not ok) leave both variables as they were. */
  lemma {:induction false} NothingAssigned(lines: seq<Entry>, init: Verdict)
    requires forall k :: 0 <= k < |lines| ==> AssignedStatus(lines[k]).None?
    ensures Classify(lines, init) == init
    decreases |lines|
  {
    if lines != [] {
      var prefix := lines[..|lines| - 1];
      assert forall k :: 0 <= k < |prefix| ==> prefix[k] == lines[k];
      NothingAssigned(prefix, init);
    }
  }

  /** A `Validate` line assigns `ok` when its value is `ok` or mentions "all minor", and nothing otherwise, even when it mentions an error. */
  lemma ValidateLine(e: Entry)
    requires e.key == "Validate"
    ensures AssignedStatus(e) == (if e.value == "ok" || Contains(e.value, "all minor") then Some(Ok) else None)
    ensures AssignedStatus(e) != Some(Error)
  {
  }

  /** Any other line whose key or value mentions "error", in any letter case, assigns `error`. */
  lemma ErrorLine(e: Entry)
    requires e.key != "Validate"
    requires Contains(Lower(e.key), "error") || Contains(Lower(e.value), "error")
    ensures AssignedStatus(e) == Some(Error)
  {
  }

  /** Every extension correction found in the lines, in order: the first groups of the matches in each wrong-extension line. */
  function Corrections(lines: seq<Entry>): seq<string>
    decreases |lines|
  {
    if lines == [] then []
    else
      var e := lines[|lines| - 1];
      Corrections(lines[..|lines| - 1]) +
        (if AssignedStatus(e) == Some(ChangeExtensions) then Captures(e.value, 0) else [])
  }

  /**
   * The final extension is the lowercased last correction of the whole
   * report, or the file's own when there is none: a later line that changes
   * the status does not bring the original extension back.
   */
  lemma {:induction false} ExtensionIsLastCorrection(lines: seq<Entry>, init: Verdict)
    ensures var cs := Corrections(lines);
      Classify(lines, init).extension == if cs == [] then init.extension else Lower(cs[|cs| - 1])
    decreases |lines|
  {
    // Which status a line assigns matters here, not how it is found.
    hide Contains, StartsWith, Lower, Captures;
    if lines != [] {
      var prefix, e := lines[..|lines| - 1], lines[|lines| - 1];
      ExtensionIsLastCorrection(prefix, init);
      var v := Classify(prefix, init);
      var before := Corrections(prefix);
      var r := Classify(lines, init);
      assert r == StepLine(v, e);
      if AssignedStatus(e) == Some(ChangeExtensions) {
        var cs := Captures(e.value, 0);
        assert r.extension == ExtensionAfter(v.extension, e.value);
        assert Corrections(lines) == before + cs;
        if cs != [] {
          assert (before + cs)[|before + cs| - 1] == cs[|cs| - 1];
        }
      } else {
        assert r.extension == v.extension;
        assert Corrections(lines) == before;
      }
    }
  }

  /** Positions where no match starts do not change what the global search collects. */
  lemma {:induction false} SkipNoMatch(s: string, i: nat, j: nat)
    requires i <= j <= |s|
    requires forall k :: i <= k < j ==> MatchAt(s, k).None?
    ensures Captures(s, i) == Captures(s, j)
    decreases j - i
  {
    if i < j {
      SkipNoMatch(s, i + 1, j);
    }
  }

  /** No match starts where the text does not read "be ". */
  lemma NoMatchWithoutBe(s: string, k: nat)
    requires k <= |s|
    requires k + 3 <= |s| ==> s[k..k + 3] != "be "
    ensures MatchAt(s, k).None?
  {
    if k + 3 <= |s| {
      assert s[k..][..3] == s[k..k + 3];
    }
  }

  /** A window of `s` that starts inside a head `p` free of "be " and reaches the "be " right after it is not "be ". */
  lemma NoBeStraddling(s: string, p: string, k: nat)
    requires |p| + 3 <= |s| && s[..|p|] == p && s[|p|..|p| + 3] == "be "
    requires !Contains(p, "be ") && k < |p|
    ensures s[k..k + 3] != "be "
  {
    if k + 3 <= |p| {
      NotContainsAt(p, "be ", k);
      assert s[k..k + 3] == p[k..k + 3];
    } else {
      var c := s[|p|..|p| + 3][k + 2 - |p|];
      assert c == 'b' || c == 'e';
      assert s[k..k + 3][2] == c;
    }
  }

  /** A head `p` of `s` free of "be " and followed by "be " contributes no match. */
  lemma NoMatchBefore(s: string, p: string)
    requires |p| + 3 <= |s| && s[..|p|] == p && s[|p|..|p| + 3] == "be "
    requires !Contains(p, "be ")
    ensures Captures(s, 0) == Captures(s, |p|)
  {
    forall k | 0 <= k < |p| ensures MatchAt(s, k).None? {
      NoBeStraddling(s, p, k);
      NoMatchWithoutBe(s, k);
    }
    SkipNoMatch(s, 0, |p|);
  }

  /** No match starts in a tail of `s` that does not hold "be ". */
  lemma NoMatchFrom(s: string, g: nat)
    requires g <= |s| && !Contains(s[g..], "be ")
    ensures forall k :: g <= k <= |s| ==> MatchAt(s, k).None?
  {
    forall k | g <= k <= |s| ensures MatchAt(s, k).None? {
      if k + 3 <= |s| {
        NotContainsAt(s[g..], "be ", k - g);
        assert s[k..k + 3] == s[g..][k - g..k - g + 3];
      }
      NoMatchWithoutBe(s, k);
    }
  }

  /** A tail of `s` that does not hold "be " contributes no match. */
  lemma NoMatchAfter(s: string, g: nat)
    requires g <= |s| && !Contains(s[g..], "be ")
    ensures Captures(s, g) == []
  {
    NoMatchFrom(s, g);
    SkipNoMatch(s, g, |s|);
  }

  /** A greedy word run stops exactly at the end of a non-empty run of word characters. */
  lemma WordRun(s: string, i: nat, j: nat)
    requires i <= j <= |s|
    requires forall k :: i <= k < j ==> IsWordChar(s[k])
    requires j == |s| || !IsWordChar(s[j])
    ensures WordEnd(s, i) == j
  {
  }

  /** The match of `be x, not y` where both groups are whole word runs. */
  lemma MatchOfCorrection(s: string, a: nat, x: string, y: string, g: nat)
    requires x != [] && forall k :: 0 <= k < |x| ==> IsWordChar(x[k])
    requires y != [] && forall k :: 0 <= k < |y| ==> IsWordChar(y[k])
    requires a + 3 + |x| + 6 + |y| <= |s|
    requires s[a..a + 3] == "be " && s[a + 3..a + 3 + |x|] == x
    requires s[a + 3 + |x|..a + 9 + |x|] == ", not " && s[a + 9 + |x|..a + 9 + |x| + |y|] == y
    requires g == a + 9 + |x| + |y|
    requires g == |s| || !IsWordChar(s[g])
    ensures MatchAt(s, a) == Some(Capture(x, g))
  {
    var g1 := a + 3 + |x|;
    assert s[g1] == s[g1..g1 + 6][0];
    RunOfWord(s, a + 3, x);
    RunOfWord(s, g1 + 6, y);
    assert StartsWith(s[a..], "be ") by {
      assert s[a..][..3] == s[a..a + 3];
    }
    assert StartsWith(s[g1..], ", not ") by {
      assert s[g1..][..6] == s[g1..g1 + 6];
    }
  }

  /**
   * Every match is an occurrence of `be X, not Y`: "be ", the captured group
   * as a whole non-empty run of word characters, ", not ", and a second
   * non-empty word run that ends where the match ends and is not followed
   * by a word character.
   */
  lemma MatchShape(s: string, i: nat)
    requires i <= |s| && MatchAt(s, i).Some?
    ensures var c := MatchAt(s, i).value;
      var x := c.group;
      var g1 := i + 3 + |x|;
      && g1 + 6 < c.end <= |s|
      && s[i..i + 3] == "be " && x != [] && s[i + 3..g1] == x
      && (forall k :: 0 <= k < |x| ==> IsWordChar(x[k]))
      && s[g1..g1 + 6] == ", not "
      && (forall k :: g1 + 6 <= k < c.end ==> IsWordChar(s[k]))
      && (c.end == |s| || !IsWordChar(s[c.end]))
  {
    var g1 := WordEnd(s, i + 3);
    var x := s[i + 3..g1];
    assert s[i..][..3] == s[i..i + 3];
    assert s[g1..][..6] == s[g1..g1 + 6];
    forall k | 0 <= k < |x|
      ensures IsWordChar(x[k])
    {
      assert x[k] == s[i + 3 + k];
    }
  }

  /** A greedy word run over a word `w` written at `i` and not followed by a word character ends right after `w`. */
  lemma RunOfWord(s: string, i: nat, w: string)
    requires i + |w| <= |s| && s[i..i + |w|] == w
    requires forall k :: 0 <= k < |w| ==> IsWordChar(w[k])
    requires i + |w| == |s| || !IsWordChar(s[i + |w|])
    ensures WordEnd(s, i) == i + |w|
  {
    forall k | i <= k < i + |w|
      ensures IsWordChar(s[k])
    {
      assert s[k] == w[k - i];
    }
    WordRun(s, i, i + |w|);
  }

  /** A text whose only match starts at `a` and ends at `g` yields that match's group alone. */
  lemma OnlyMatch(s: string, a: nat, x: string, g: nat)
    requires a < |s| && MatchAt(s, a) == Some(Capture(x, g))
    requires Captures(s, 0) == Captures(s, a) && Captures(s, g) == []
    ensures Captures(s, 0) == [x]
  {
  }

  /** A text whose one match starts right after a head `p` free of "be " and is followed by a tail free of "be " yields that match's group alone. */
  lemma CapturesOfCorrection(s: string, p: string, x: string, g: nat)
    requires |p| + 3 <= |s| && s[..|p|] == p && s[|p|..|p| + 3] == "be " && !Contains(p, "be ")
    requires MatchAt(s, |p|) == Some(Capture(x, g))
    requires !Contains(s[g..], "be ")
    ensures Captures(s, 0) == [x]
  {
    NoMatchBefore(s, p);
    NoMatchAfter(s, g);
    OnlyMatch(s, |p|, x, g);
  }

  /** A slice within the first part of a concatenation is a slice of that part. */
  lemma SliceOfAppend(u: string, v: string, i: nat, j: nat)
    requires i <= j <= |u|
    ensures (u + v)[i..j] == u[i..j]
  {
  }

  /** The head `p` and the "be " after it. */
  lemma LayoutHead(p: string, x: string, y: string, q: string)
    ensures var s := p + "be " + x + ", not " + y + q;
      |s| == |p| + 9 + |x| + |y| + |q| && s[..|p|] == p && s[|p|..|p| + 3] == "be "
  {
    var a := |p|;
    var s2 := p + "be ";
    var s3 := s2 + x;
    var s4 := s3 + ", not ";
    var s5 := s4 + y;
    SliceOfAppend(s5, q, 0, a + 3);
    SliceOfAppend(s4, y, 0, a + 3);
    SliceOfAppend(s3, ", not ", 0, a + 3);
    SliceOfAppend(s2, x, 0, a + 3);
    assert (s5 + q)[..a] == s2[..a + 3][..a];
    assert (s5 + q)[a..a + 3] == s2[..a + 3][a..a + 3];
  }

  /** The first group `x` and the ", not " after it. */
  lemma LayoutFirst(p: string, x: string, y: string, q: string)
    ensures var s := p + "be " + x + ", not " + y + q;
      |p| + 9 + |x| <= |s| && s[|p| + 3..|p| + 3 + |x|] == x && s[|p| + 3 + |x|..|p| + 9 + |x|] == ", not "
  {
    var a := |p|;
    var s3 := p + "be " + x;
    var s4 := s3 + ", not ";
    var s5 := s4 + y;
    SliceOfAppend(s5, q, a + 3, a + 9 + |x|);
    SliceOfAppend(s4, y, a + 3, a + 9 + |x|);
    assert s4[a + 3..a + 9 + |x|] == x + ", not ";
  }

  /** The second group `y` and the tail `q`. */
  lemma LayoutSecond(p: string, x: string, y: string, q: string)
    ensures var s := p + "be " + x + ", not " + y + q; var g := |p| + 9 + |x| + |y|;
      g <= |s| && s[|p| + 9 + |x|..g] == y && s[g..] == q
  {
    var s4 := p + "be " + x + ", not ";
    var s5 := s4 + y;
    SliceOfAppend(s5, q, |s4|, |s5|);
  }

  /** Where each piece of `p + "be " + x + ", not " + y + q` sits. */
  lemma Layout(s: string, p: string, x: string, y: string, q: string, g: nat)
    requires s == p + "be " + x + ", not " + y + q && g == |p| + 9 + |x| + |y|
    ensures |s| == g + |q| && s[..|p|] == p && s[|p|..|p| + 3] == "be " && s[|p| + 3..|p| + 3 + |x|] == x
    ensures s[|p| + 3 + |x|..|p| + 9 + |x|] == ", not " && s[|p| + 9 + |x|..g] == y && s[g..] == q
  {
    LayoutHead(p, x, y, q);
    LayoutFirst(p, x, y, q);
    LayoutSecond(p, x, y, q);
  }

  /** The match right after `p` in a text laid out as `p`, "be ", `x`, ", not ", `y`, `q`. */
  lemma MatchOfLayout(s: string, p: string, x: string, y: string, q: string, g: nat)
    requires x != [] && forall k :: 0 <= k < |x| ==> IsWordChar(x[k])
    requires y != [] && forall k :: 0 <= k < |y| ==> IsWordChar(y[k])
    requires q == [] || !IsWordChar(q[0])
    requires g == |p| + 9 + |x| + |y|
    requires |s| == g + |q| && s[..|p|] == p && s[|p|..|p| + 3] == "be " && s[|p| + 3..|p| + 3 + |x|] == x
    requires s[|p| + 3 + |x|..|p| + 9 + |x|] == ", not " && s[|p| + 9 + |x|..g] == y && s[g..] == q
    ensures MatchAt(s, |p|) == Some(Capture(x, g))
  {
    var a := |p|;
    assert g < |s| ==> s[g] == s[g..][0];
    MatchOfCorrection(s, a, x, y, g);
  }

  /** In `p + "be " + x + ", not " + y + q`, with "be " nowhere else and both groups whole word runs, the global search finds `x` alone. */
  lemma CorrectionCaptures(p: string, x: string, y: string, q: string)
    requires !Contains(p, "be ") && !Contains(q, "be ")
    requires x != [] && forall k :: 0 <= k < |x| ==> IsWordChar(x[k])
    requires y != [] && forall k :: 0 <= k < |y| ==> IsWordChar(y[k])
    requires q == [] || !IsWordChar(q[0])
    ensures Captures(p + "be " + x + ", not " + y + q, 0) == [x]
  {
    var s := p + "be " + x + ", not " + y + q;
    var g := |p| + 9 + |x| + |y|;
    Layout(s, p, x, y, q, g);
    MatchOfLayout(s, p, x, y, q, g);
    CapturesOfCorrection(s, p, x, g);
  }

  /**
   * The wrong-extension diagnostic the source is written for: a value
   * `p + "be " + x + ", not " + y + q` that starts with "File has wrong
   * extension", mentions no error, and holds no other "be " sets the
   * status to `change extensions` and the extension to `x` lowercased,
   * whatever the extension was before.
   */
  lemma WrongExtensionLine(v: Verdict, key: string, p: string, x: string, y: string, q: string)
    requires key != "Validate" && !Contains(Lower(key), "error")
    requires StartsWith(p, "File has wrong extension") && !Contains(p, "be ") && !Contains(q, "be ")
    requires x != [] && forall k :: 0 <= k < |x| ==> IsWordChar(x[k])
    requires y != [] && forall k :: 0 <= k < |y| ==> IsWordChar(y[k])
    requires q == [] || !IsWordChar(q[0])
    requires !Contains(Lower(p + "be " + x + ", not " + y + q), "error")
    ensures StepLine(v, Entry(key, p + "be " + x + ", not " + y + q)) == Verdict(ChangeExtensions, Lower(x))
  {
    var s := p + "be " + x + ", not " + y + q;
    assert StartsWith(s, "File has wrong extension") by {
      assert s[..24] == p[..24];
    }
    assert AssignedStatus(Entry(key, s)) == Some(ChangeExtensions);
    assert ExtensionAfter(v.extension, s) == Lower(x) by {
      CorrectionCaptures(p, x, y, q);
    }
  }
}
