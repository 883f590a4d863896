/**
 * How the cleaner settles on the creation date of a file (index.js:162-196):
 * the first date-like tag ExifTool reports, else the photo-taken time of a
 * Google Takeout JSON sidecar, else the earlier of the file's change and
 * modification times; only the first two count as safe.
 */
module Resolver {
  import opened Optional
  import opened Text
  import opened Reports
  import opened Dates

  /**
   * `lines.reduce((map, line) => { map[key] = value; return map; }, {})`:
   * the tags of the time report, where a tag reported twice keeps its last value.
   */
  function TimeFields(entries: seq<Entry>): map<string, string>
  {
    if entries == [] then map[]
    else
      var e := entries[|entries| - 1];
      TimeFields(entries[..|entries| - 1])[e.key := e.value]
  }

  /** The tags of an `exiftool -time:all -a -s` report. */
  function TimeReport(report: string): map<string, string>
  {
    TimeFields(Entries(NonBlankLines(report)))
  }

  /** The map holds exactly the keys of the entries. */
  lemma {:induction false} TimeFieldsKeys(entries: seq<Entry>, k: string)
    ensures k in TimeFields(entries) <==> exists i :: 0 <= i < |entries| && entries[i].key == k
  {
    if entries != [] {
      var n := |entries| - 1;
      var init := entries[..n];
      TimeFieldsKeys(init, k);
      if k in TimeFields(init) {
        var i :| 0 <= i < |init| && init[i].key == k;
        assert entries[i].key == k;
      }
      if exists i :: 0 <= i < |entries| && entries[i].key == k {
        var i :| 0 <= i < |entries| && entries[i].key == k;
        if i < n {
          assert init[i].key == k;
        }
      }
    }
  }

  /** A key maps to the value of its last entry: later lines override earlier ones. */
  lemma {:induction false} LastValueWins(entries: seq<Entry>, i: nat)
    requires i < |entries|
    requires forall j :: i < j < |entries| ==> entries[j].key != entries[i].key
    ensures entries[i].key in TimeFields(entries)
    ensures TimeFields(entries)[entries[i].key] == entries[i].value
  {
    var n := |entries| - 1;
    if i < n {
      var init := entries[..n];
      assert forall j :: i < j < |init| ==> init[j] == entries[j];
      LastValueWins(init, i);
    }
  }

  /** `exif.Tag`, where a missing tag reads as undefined and, like the empty string, is falsy. */
  function Lookup(m: map<string, string>, key: string): string
  {
    if key in m then m[key] else []
  }

  /** The tags tried in turn by `exif.CreateDate || exif.DateTimeOriginal || exif.DateCreated || exif.FileCreateDate`. */
  const DateFields: seq<string> := ["CreateDate", "DateTimeOriginal", "DateCreated", "FileCreateDate"]

  /** The first of `keys` whose value is not empty. */
  function FirstNonEmpty(m: map<string, string>, keys: seq<string>): Option<string>
  {
    if keys == [] then None
    else if Lookup(m, keys[0]) != [] then Some(Lookup(m, keys[0]))
    else FirstNonEmpty(m, keys[1..])
  }

  /**
   * The text handed to moment: the first date tag with a value. When all four
   * are empty or missing the `||` chain yields an empty or undefined value,
   * which moment never parses as valid, so no text is handed on.
   */
  function DateSource(m: map<string, string>): Option<string>
  {
    FirstNonEmpty(m, DateFields)
  }

  /** The first non-empty key wins and the keys after it are never looked at; none at all when every key is empty. */
  lemma {:induction false} FirstNonEmptyChoice(m: map<string, string>, keys: seq<string>)
    ensures FirstNonEmpty(m, keys) == None <==> forall i :: 0 <= i < |keys| ==> Lookup(m, keys[i]) == []
    ensures FirstNonEmpty(m, keys).Some? ==>
      exists i :: 0 <= i < |keys| && FirstNonEmpty(m, keys) == Some(Lookup(m, keys[i])) &&
        Lookup(m, keys[i]) != [] && forall j :: 0 <= j < i ==> Lookup(m, keys[j]) == []
  {
    if keys != [] {
      FirstNonEmptyChoice(m, keys[1..]);
      if Lookup(m, keys[0]) == [] {
        assert forall i :: 1 <= i < |keys| ==> keys[i] == keys[1..][i - 1];
        if FirstNonEmpty(m, keys).Some? {
          var i :| 0 <= i < |keys[1..]| && FirstNonEmpty(m, keys[1..]) == Some(Lookup(m, keys[1..][i])) &&
            Lookup(m, keys[1..][i]) != [] && forall j :: 0 <= j < i ==> Lookup(m, keys[1..][j]) == [];
          assert FirstNonEmpty(m, keys) == Some(Lookup(m, keys[i + 1]));
          assert forall j :: 0 <= j < i + 1 ==> Lookup(m, keys[j]) == [] by {
            forall j | 0 <= j < i + 1 ensures Lookup(m, keys[j]) == [] {
              if j > 0 {
                assert keys[j] == keys[1..][j - 1];
              }
            }
          }
        }
      }
    }
  }

  /** The date written by ExifTool into the file itself, if its first date tag reads as a date. */
  function EmbeddedDate(timeReport: string): Option<DateTime>
  {
    match DateSource(TimeReport(timeReport))
    case None => None
    case Some(text) => ParseExif(text)
  }

  /** The `photoTakenTime.timestamp` of the JSON sidecar: no sidecar, a value that is not a number, or whole seconds. */
  datatype Sidecar = Absent | NotANumber | Seconds(timestamp: int)

  /** `moment(photoTakenTime.timestamp * 1000)`, when it is valid. */
  function SidecarDate(sidecar: Sidecar, offsetMs: int): Option<DateTime>
  {
    match sidecar
    case Seconds(t) =>
      if EpochInRange(t * 1000) then Some(FromEpochMs(t * 1000, offsetMs)) else None
    case _ => None
  }

  /** The date a file is filed under, and whether it came from the file's own metadata or its sidecar. */
  datatype Resolved = Resolved(date: DateTime, safe: bool)

  /** `ctime.isSameOrBefore(mtime) ? ctime : mtime`. */
  function Earlier(ctimeMs: int, mtimeMs: int): int
  {
    if ctimeMs <= mtimeMs then ctimeMs else mtimeMs
  }

  /**
   * index.js:177-196. Times are epoch milliseconds; `offsetMs` is the offset of
   * local time from UTC.
   */
  function Resolve(timeReport: string, sidecar: Sidecar, ctimeMs: int, mtimeMs: int, offsetMs: int): (r: Resolved)
    ensures Valid(r.date)
  {
    match EmbeddedDate(timeReport)
    case Some(d) =>
      assert ParseExif(DateSource(TimeReport(timeReport)).value) == Some(d);
      Resolved(d, true)
    case None =>
      match SidecarDate(sidecar, offsetMs)
      case Some(d) => Resolved(d, true)
      case None => Resolved(FromEpochMs(Earlier(ctimeMs, mtimeMs), offsetMs), false)
  }

  /**
   * The fallback chain: the embedded date when there is one, else the sidecar
   * date when it is valid, and only these two are safe; otherwise the
   * earlier of the two file times.
   */
  lemma ResolveCases(timeReport: string, sidecar: Sidecar, ctimeMs: int, mtimeMs: int, offsetMs: int)
    ensures var r := Resolve(timeReport, sidecar, ctimeMs, mtimeMs, offsetMs);
      && (r.safe <==> EmbeddedDate(timeReport).Some? || SidecarDate(sidecar, offsetMs).Some?)
      && (EmbeddedDate(timeReport).Some? ==> r.date == EmbeddedDate(timeReport).value)
      && (EmbeddedDate(timeReport).None? && SidecarDate(sidecar, offsetMs).Some? ==>
            r.date == SidecarDate(sidecar, offsetMs).value)
      && (!r.safe ==> r.date == FromEpochMs(Earlier(ctimeMs, mtimeMs), offsetMs))
  {
  }

  /** A date parsed from the file's metadata is read from its first 19 characters, and formatting it gives those characters back. */
  lemma EmbeddedCanonical(timeReport: string, sidecar: Sidecar, ctimeMs: int, mtimeMs: int, offsetMs: int)
    requires EmbeddedDate(timeReport).Some?
    ensures var text := DateSource(TimeReport(timeReport)).value;
      |text| >= 19 && FormatExif(Resolve(timeReport, sidecar, ctimeMs, mtimeMs, offsetMs).date) == text[..19]
  {
    var text := DateSource(TimeReport(timeReport)).value;
    ExifCanonical(text, EmbeddedDate(timeReport).value);
  }

  /** A `CreateDate` tag that reads as a date decides the date, whatever the other tags, the sidecar and the file times say. */
  lemma CreateDateDecides(timeReport: string, d: DateTime, sidecar: Sidecar, ctimeMs: int, mtimeMs: int, offsetMs: int)
    requires Lookup(TimeReport(timeReport), "CreateDate") != []
    requires ParseExif(Lookup(TimeReport(timeReport), "CreateDate")) == Some(d)
    ensures Resolve(timeReport, sidecar, ctimeMs, mtimeMs, offsetMs) == Resolved(d, true)
  {
  }

  /**
   * Only the first date tag with a value is parsed: when it does not read as a
   * date, a later tag that would is ignored and the date falls back to the sidecar.
   */
  lemma FirstTagOnly(timeReport: string, text: string, sidecar: Sidecar, ctimeMs: int, mtimeMs: int, offsetMs: int)
    requires DateSource(TimeReport(timeReport)) == Some(text)
    requires ParseExif(text) == None
    ensures var r := Resolve(timeReport, sidecar, ctimeMs, mtimeMs, offsetMs);
      && (r.safe <==> SidecarDate(sidecar, offsetMs).Some?)
      && (r.safe ==> r.date == SidecarDate(sidecar, offsetMs).value)
  {
  }

  /** A sidecar date lies on the sidecar's second, shifted to local time. */
  lemma SidecarSecond(t: int, offsetMs: int)
    requires SidecarDate(Seconds(t), offsetMs).Some?
    ensures EpochSeconds(SidecarDate(Seconds(t), offsetMs).value) == t + offsetMs / 1000
  {
    EpochRoundTrip(t * 1000, offsetMs);
    assert (t * 1000 + offsetMs) / 1000 == t + offsetMs / 1000;
  }

  /** An unsafe date is the second of the earlier of the two file times, never later than either of them. */
  lemma FallbackIsEarlier(timeReport: string, sidecar: Sidecar, ctimeMs: int, mtimeMs: int, offsetMs: int)
    requires !Resolve(timeReport, sidecar, ctimeMs, mtimeMs, offsetMs).safe
    ensures var s := EpochSeconds(Resolve(timeReport, sidecar, ctimeMs, mtimeMs, offsetMs).date);
      s == (Earlier(ctimeMs, mtimeMs) + offsetMs) / 1000 &&
      s <= (ctimeMs + offsetMs) / 1000 && s <= (mtimeMs + offsetMs) / 1000
  {
    EpochRoundTrip(Earlier(ctimeMs, mtimeMs), offsetMs);
    FloorMonotone(Earlier(ctimeMs, mtimeMs) + offsetMs, ctimeMs + offsetMs);
    FloorMonotone(Earlier(ctimeMs, mtimeMs) + offsetMs, mtimeMs + offsetMs);
  }

  /** Whole seconds never run backwards. */
  lemma FloorMonotone(a: int, b: int)
    requires a <= b
    ensures a / 1000 <= b / 1000
  {
  }
}
