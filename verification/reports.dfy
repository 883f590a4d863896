/**
 * The shape shared by both of ExifTool's text reports that the cleaner reads:
 * the report is cut at line feeds, blank lines are dropped, and each
 * remaining line is read as `key: value` (index.js:113-122 and 162-172).
 */
module Reports {
  import opened Text

  /** One report line read as `key: value`. */
  datatype Entry = Entry(key: string, value: string)

  /** The filter of both reports: `s.trim().length > 0`. */
  predicate NonBlank(s: string)
  {
    Trim(s) != []
  }

  /** `parts.filter(s => s.trim().length > 0)`: the parts that hold something besides white space, in order. */
  function KeepNonBlank(parts: seq<string>): (r: seq<string>)
    ensures forall k :: 0 <= k < |r| ==> NonBlank(r[k])
  {
    if parts == [] then []
    else if NonBlank(parts[0]) then
      var rest := KeepNonBlank(parts[1..]);
      assert forall k :: 1 <= k <= |rest| ==> ([parts[0]] + rest)[k] == rest[k - 1];
      [parts[0]] + rest
    else KeepNonBlank(parts[1..])
  }

  /** `report.split("\n").filter(s => s.trim().length > 0)`. */
  function NonBlankLines(report: string): (lines: seq<string>)
    ensures forall k :: 0 <= k < |lines| ==> NonBlank(lines[k]) && '\n' !in lines[k]
  {
    var parts := SplitOn(report, '\n');
    SplitOnPieces(report, '\n');
    NonBlankKeepsParts(parts, '\n');
    KeepNonBlank(parts)
  }

  /** Filtering a concatenation filters each part and keeps them in order. */
  lemma {:induction false} KeepNonBlankAppend(a: seq<string>, b: seq<string>)
    ensures KeepNonBlank(a + b) == KeepNonBlank(a) + KeepNonBlank(b)
  {
    if a == [] {
      assert a + b == b;
    } else {
      assert (a + b)[0] == a[0];
      assert (a + b)[1..] == a[1..] + b;
      KeepNonBlankAppend(a[1..], b);
    }
  }

  /** A single piece is kept exactly when it is not blank. */
  lemma KeepNonBlankSingle(x: string)
    ensures KeepNonBlank([x]) == if NonBlank(x) then [x] else []
  {
    assert [x][1..] == [];
  }

  /** A non-blank piece is among the kept pieces, and a kept piece is a non-blank piece of the input. */
  lemma {:induction false} KeepNonBlankMembers(parts: seq<string>, x: string)
    ensures x in KeepNonBlank(parts) <==> x in parts && NonBlank(x)
  {
    if parts != [] {
      KeepNonBlankMembers(parts[1..], x);
      assert parts == [parts[0]] + parts[1..];
    }
  }

  /** Filtering keeps only pieces free of a character the pieces were free of. */
  lemma {:induction false} NonBlankKeepsParts(parts: seq<string>, c: char)
    requires forall k :: 0 <= k < |parts| ==> c !in parts[k]
    ensures forall k :: 0 <= k < |KeepNonBlank(parts)| ==> c !in KeepNonBlank(parts)[k]
  {
    if parts != [] {
      NonBlankKeepsParts(parts[1..], c);
    }
  }

  /** Every character of a piece of a join is a character of the joined text. */
  lemma {:induction false} JoinedCharacters(parts: seq<string>, c: char, k: nat, x: char)
    requires k < |parts| && x in parts[k]
    ensures x in JoinWith(parts, c)
  {
    if |parts| > 1 {
      if k == 0 {
        assert parts[0] <= JoinWith(parts, c);
        var i :| 0 <= i < |parts[0]| && parts[0][i] == x;
        assert JoinWith(parts, c)[i] == x;
      } else {
        JoinedCharacters(parts[1..], c, k - 1, x);
        var rest := JoinWith(parts[1..], c);
        var i :| 0 <= i < |rest| && rest[i] == x;
        assert JoinWith(parts, c)[|parts[0]| + 1 + i] == x;
      }
    }
  }

  /**
   * Lines written one after another with line feeds between them come back
   * as exactly the non-blank ones, in order: together with the filter lemmas
   * above, every non-blank line of a report is read and no other.
   */
  lemma NonBlankLinesOfJoin(lines: seq<string>)
    requires forall k :: 0 <= k < |lines| ==> '\n' !in lines[k]
    ensures NonBlankLines(JoinWith(lines, '\n')) == KeepNonBlank(lines)
  {
    if lines == [] {
      // The empty report splits into one empty, blank line.
      assert SplitOn([], '\n') == [[]];
      KeepNonBlankSingle([]);
      return;
    }
    SplitJoin(lines, '\n');
  }

  /** A report made of white space only, the empty report among them, has no lines to read. */
  lemma BlankReportHasNoLines(report: string)
    requires forall i :: 0 <= i < |report| ==> IsSpace(report[i])
    ensures NonBlankLines(report) == []
  {
    var parts := SplitOn(report, '\n');
    SplitOnJoin(report, '\n');
    forall k | 0 <= k < |parts| ensures !NonBlank(parts[k]) {
      forall i | 0 <= i < |parts[k]| ensures IsSpace(parts[k][i]) {
        JoinedCharacters(parts, '\n', k, parts[k][i]);
      }
      TrimEmptyIffBlank(parts[k]);
    }
    AllBlankDropped(parts);
  }

  /** Filtering pieces that are all blank leaves nothing. */
  lemma {:induction false} AllBlankDropped(parts: seq<string>)
    requires forall k :: 0 <= k < |parts| ==> !NonBlank(parts[k])
    ensures KeepNonBlank(parts) == []
  {
    if parts != [] {
      AllBlankDropped(parts[1..]);
    }
  }

  /**
   * `const splited = line.split(":")`, the key is the first piece trimmed and
   * the value is the remaining pieces joined back with ":" and trimmed.
   */
  function KeyValue(line: string): Entry
  {
    var parts := SplitOn(line, ':');
    Entry(Trim(parts[0]), Trim(JoinWith(parts[1..], ':')))
  }

  /** Each line of a report read as `key: value`, in report order. */
  function Entries(lines: seq<string>): (r: seq<Entry>)
    ensures |r| == |lines|
    ensures forall k :: 0 <= k < |lines| ==> r[k] == KeyValue(lines[k])
  {
    seq(|lines|, k requires 0 <= k < |lines| => KeyValue(lines[k]))
  }

  /**
   * The key is the trimmed text before the first colon and the value the
   * trimmed text after it, further colons included; a line without a colon
   * is all key.
   */
  lemma KeyValueAtFirstColon(line: string)
    ensures ':' in line ==>
      var i := IndexOf(line, ':');
      KeyValue(line) == Entry(Trim(line[..i]), Trim(line[i + 1..]))
    ensures ':' !in line ==> KeyValue(line) == Entry(Trim(line), [])
  {
    if ':' in line {
      var i := IndexOf(line, ':');
      var parts := SplitOn(line, ':');
      assert parts == [line[..i]] + SplitOn(line[i + 1..], ':');
      assert parts[1..] == SplitOn(line[i + 1..], ':');
      SplitOnJoin(line[i + 1..], ':');
    } else {
      assert SplitOn(line, ':') == [line];
    }
  }

  /** A line written as `k: v` with a colon-free key reads back as key `k` and value `v`, whatever colons `v` holds. */
  lemma KeyValueOfPair(k: string, v: string)
    requires ':' !in k
    ensures KeyValue(k + ":" + v) == Entry(Trim(k), Trim(v))
  {
    var line := k + ":" + v;
    FirstSeparator(k, v, ':');
    assert line == k + [':'] + v;
    KeyValueAtFirstColon(line);
    assert line[..|k|] == k && line[|k| + 1..] == v;
  }
}
