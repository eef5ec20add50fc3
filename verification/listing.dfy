/** The parser for the bare table that `7za l -ba <archive>` prints, one line per
    entry:

        2025-06-02 19:16:52 ....A      1398256         3082  vehicle/truck/acc_0.dds

    date, time, attributes (`D` marks a directory), uncompressed size, compressed
    size, path. The current parser keeps every non-directory path; the legacy
    parser additionally applies the top-level and `automat/` filters itself and
    crashes on a short file line. */
module Listing {
  import opened Wrappers
  import opened Text
  import opened Seqs
  import opened Host

  /** The noise the tool's bare mode injects into lines damaged by control bytes. */
  const UndefinedToken := "undefined"
  const ScanToken := "0M Scan"

  /** What V8 throws for `undefined.includes(...)`. */
  const MissingPathError := ErrorObject("Cannot read properties of undefined (reading 'includes')")

  /** A path as the parsers can produce it: non-empty, with neither whitespace nor
      control characters. */
  predicate CleanPath(p: string) {
    p != [] && NoWs(p) && NoControl(p)
  }

  /** A line after normalisation has the space as its only whitespace
      character (runs of spaces can remain where a control line lost
      `undefined` or `0M Scan`), holds no control characters, and does not
      start or end with a space. */
  predicate Normalized(e: string) {
    SpacesOnly(e) && NoControl(e) && (e == [] || (e[0] != ' ' && e[|e| - 1] != ' '))
  }

  lemma SpacesOnlyOfChars(r: string, s: string)
    requires SpacesOnly(s)
    requires forall c :: c in r ==> c in s
    ensures SpacesOnly(r)
  {
    forall i | 0 <= i < |r| && IsWs(r[i]) ensures r[i] == ' ' {
      assert r[i] in s;
      var k :| 0 <= k < |s| && s[k] == r[i];
    }
  }

  lemma CollapseOfTrimmed(t: string)
    requires t == [] || (!IsWs(t[0]) && !IsWs(t[|t| - 1]))
    ensures var e := CollapseWs(t);
      SpacesOnly(e) && (e == [] || (e[0] != ' ' && e[|e| - 1] != ' '))
  {
    CollapseWsSpaces(t);
    CollapseWsFirst(t);
    if t != [] {
      CollapseWsLast(t);
    }
  }

  /** Lines 31-37 of the current parser (71-77 of the legacy one): trim, collapse
      whitespace runs to one space, and only if a control character is left,
      delete the control characters, the first `undefined` and every `0M Scan`,
      then trim again. */
  function NormalizeLine(line: string): (e: string)
    ensures Normalized(e)
  {
    var entry := CollapseWs(Trim(line));
    CollapseOfTrimmed(Trim(line));
    if !NoControl(entry) then
      var cleaned := RemoveAllOccurrences(RemoveFirstOccurrence(RemoveControl(entry), UndefinedToken), ScanToken);
      var e := Trim(cleaned);
      assert forall c :: c in e ==> c in entry && !IsControl(c);
      SpacesOnlyOfChars(e, entry);
      e
    else
      entry
  }

  /** The destructuring `let [_date, _time, attributes, _sizeUncomp, _sizeComp, filePath, ...rest]`
      of the split line, after the extra fields are stitched onto the path
      (`filePath += rest.join('_')`); `None` is `undefined`. */
  datatype Columns = Columns(attributes: Option<string>, filePath: Option<string>)

  function ColumnsOf(entry: string): (c: Columns)
    ensures c.filePath.Some? ==> c.attributes.Some?
  {
    var f := Split(entry, ' ');
    Columns(
      if |f| > 2 then Some(f[2]) else None,
      if |f| > 5 then Some(if |f| > 6 then f[5] + Join(f[6..], "_") else f[5]) else None)
  }

  lemma ColumnsOfNormalized(e: string)
    requires Normalized(e)
    ensures var c := ColumnsOf(e);
      c.filePath.Some? ==> NoWs(c.filePath.value) && NoControl(c.filePath.value)
  {
    var f := Split(e, ' ');
    if |f| > 5 {
      var p := if |f| > 6 then f[5] + Join(f[6..], "_") else f[5];
      forall i | 0 <= i < |p| ensures !IsWs(p[i]) && !IsControl(p[i]) {
        var ch := p[i];
        assert ch in p;
        if |f| > 6 {
          assert ch in f[5] || ch in Join(f[6..], "_");
          if ch in Join(f[6..], "_") {
            if ch != '_' {
              var j :| 0 <= j < |f[6..]| && ch in f[6..][j];
              assert ch in f[6 + j];
            }
          }
        }
        if ch != '_' {
          var j :| 0 <= j < |f| && ch in f[j];
          assert ch in e && ch != ' ';
          var k :| 0 <= k < |e| && e[k] == ch;
        }
      }
    }
  }

  // ---------------------------------------------------------------------------
  // Current parser (src/analysis.ts)

  /** Lines 39-52: the path one listing line contributes. A line whose attribute
      column contains `D` is a directory and contributes nothing; a line with
      fewer than six columns pushes `''`, which the final `filter(Boolean)` drops. */
  function EntryPath(line: string): (r: Option<string>)
    ensures r.Some? ==> CleanPath(r.value)
  {
    var e := NormalizeLine(line);
    var c := ColumnsOf(e);
    ColumnsOfNormalized(e);
    if c.attributes.Some? && 'D' in c.attributes.value then None
    else if c.filePath.Some? && c.filePath.value != "" then Some(c.filePath.value)
    else None
  }

  /** A line contributes only the path field of a line whose attribute
      field lacks `D`. */
  lemma EntryPathColumns(line: string)
    ensures var c := ColumnsOf(NormalizeLine(line));
      EntryPath(line).Some? ==> c.filePath == EntryPath(line) && 'D' !in c.attributes.value
  {
  }

  /** The paths of the lines, in line order. */
  function PathsOfLines(lines: seq<string>): (r: seq<string>)
    ensures |r| <= |lines|
    ensures forall i :: 0 <= i < |r| ==> CleanPath(r[i])
  {
    if |lines| == 0 then []
    else
      var rest := PathsOfLines(lines[1..]);
      match EntryPath(lines[0])
      case Some(p) => [p] + rest
      case None => rest
  }

  /** `output.trim().split('\n')` followed by the per-line parse (lines 28-55):
      every path it yields is non-empty and free of whitespace and control
      characters, and no line yields more than one path. */
  function ParseListing(output: string): (r: seq<string>)
    ensures |r| <= |Split(Trim(output), '\n')|
    ensures forall i :: 0 <= i < |r| ==> CleanPath(r[i])
  {
    PathsOfLines(Split(Trim(output), '\n'))
  }

  /** `_listFilesOfArchive`: a failure of the tool is re-thrown unchanged
      (lines 7-15); otherwise its stdout is parsed. */
  function ListFilesOfArchive(fs: Fs, archivePath: string): (r: Result<seq<string>, Thrown>)
    ensures fs.listArchive(archivePath).Failure? <==> r.Failure?
    ensures r.Failure? ==> r.error == fs.listArchive(archivePath).error
    ensures r.Success? ==> r.value == ParseListing(fs.listArchive(archivePath).value)
  {
    match fs.listArchive(archivePath)
    case Failure(t) => Failure(t)
    case Success(out) => Success(ParseListing(out))
  }

  // ---------------------------------------------------------------------------
  // Legacy parser (src/archive.js)

  /** The legacy keep rule (lines 93-96): attribute column present, non-empty and
      without `D`, a `/` somewhere in the path, and no `automat/` prefix unless
      automat files are wanted. */
  predicate LegacyKeep(attributes: string, path: string, withAutomatFiles: bool) {
    && attributes != ""
    && 'D' !in attributes
    && Contains(path, "/")
    && (withAutomatFiles || !StartsWith(path, "automat/"))
  }

  /** What every path the legacy parser yields satisfies. */
  predicate Kept(p: string, withAutomatFiles: bool) {
    CleanPath(p) && Contains(p, "/") && (withAutomatFiles || !StartsWith(p, "automat/"))
  }

  /** Lines 79-99 for one line. When the attribute column is a non-empty string
      without `D` but the line has fewer than six columns, `filePath.includes`
      is called on `undefined` and throws. */
  function LegacyEntryPath(line: string, withAutomatFiles: bool): (r: Result<Option<string>, Thrown>)
    ensures r.Failure? ==> r.error == MissingPathError
    ensures r.Success? && r.value.Some? ==> Kept(r.value.value, withAutomatFiles)
  {
    var e := NormalizeLine(line);
    var c := ColumnsOf(e);
    ColumnsOfNormalized(e);
    match c.attributes
    case None => Success(None)
    case Some(a) =>
      if a == "" || 'D' in a then Success(None)
      else
        match c.filePath
        case None => Failure(MissingPathError)
        case Some(p) =>
          if LegacyKeep(a, p, withAutomatFiles) then Success(Some(p)) else Success(None)
  }

  /** The per-line throw: an attribute field that is non-empty and lacks `D`,
      with no path field. A kept path is the path field of such a line. */
  lemma LegacyEntryPathColumns(line: string, withAutomatFiles: bool)
    ensures var c := ColumnsOf(NormalizeLine(line));
      && (LegacyEntryPath(line, withAutomatFiles).Failure? <==>
            c.attributes.Some? && c.attributes.value != "" && 'D' !in c.attributes.value && c.filePath.None?)
      && (LegacyEntryPath(line, withAutomatFiles).Success? && LegacyEntryPath(line, withAutomatFiles).value.Some? ==>
            c.filePath == LegacyEntryPath(line, withAutomatFiles).value && c.attributes.value != "" && 'D' !in c.attributes.value)
  {
  }

  /** Every line's outcome, in line order. */
  function LineOutcomes(lines: seq<string>, withAutomatFiles: bool): (rs: seq<Result<Option<string>, Thrown>>)
    ensures |rs| == |lines|
    ensures forall i :: 0 <= i < |lines| ==> rs[i] == LegacyEntryPath(lines[i], withAutomatFiles)
  {
    seq(|lines|, i requires 0 <= i < |lines| => LegacyEntryPath(lines[i], withAutomatFiles))
  }

  /** The `for` loop over the outcomes: the first throw escapes, otherwise the
      produced paths are collected in order. */
  function Collect(rs: seq<Result<Option<string>, Thrown>>): (r: Result<seq<string>, Thrown>)
    ensures r.Success? ==> |r.value| <= |rs|
  {
    if |rs| == 0 then Success([])
    else
      match rs[0]
      case Failure(t) => Failure(t)
      case Success(first) =>
        match Collect(rs[1..])
        case Failure(t) => Failure(t)
        case Success(rest) => Success(if first.Some? then [first.value] + rest else rest)
  }

  /** `Collect` fails exactly when some outcome is a throw, and it then reports the
      first throw. */
  lemma {:induction false} CollectFailure(rs: seq<Result<Option<string>, Thrown>>)
    ensures Collect(rs).Failure? <==> exists i :: 0 <= i < |rs| && rs[i].Failure?
    ensures Collect(rs).Failure? ==>
              exists i :: 0 <= i < |rs| && rs[i].Failure? && Collect(rs).error == rs[i].error
                && forall j :: 0 <= j < i ==> rs[j].Success?
  {
    if |rs| > 0 {
      var tail := rs[1..];
      CollectFailure(tail);
      if rs[0].Failure? {
      } else if Collect(tail).Failure? {
        var i :| 0 <= i < |tail| && tail[i].Failure? && Collect(tail).error == tail[i].error
                 && forall j :: 0 <= j < i ==> tail[j].Success?;
        assert rs[i + 1] == tail[i];
        assert forall j :: 1 <= j < i + 1 ==> rs[j] == tail[j - 1];
      } else {
        forall i | 0 <= i < |rs| ensures rs[i].Success? {
          if i > 0 {
            assert rs[i] == tail[i - 1];
          }
        }
      }
    }
  }

  /** Every collected path is the value of some outcome. */
  lemma {:induction false} CollectFrom(rs: seq<Result<Option<string>, Thrown>>, p: string)
    requires Collect(rs).Success? && p in Collect(rs).value
    ensures exists i :: 0 <= i < |rs| && rs[i] == Success(Some(p))
  {
    var tail := rs[1..];
    if rs[0] != Success(Some(p)) {
      CollectFrom(tail, p);
      var i :| 0 <= i < |tail| && tail[i] == Success(Some(p));
      assert rs[i + 1] == tail[i];
    }
  }

  function LegacyPathsOfLines(lines: seq<string>, withAutomatFiles: bool): (r: Result<seq<string>, Thrown>)
    ensures r.Success? ==> |r.value| <= |lines|
    ensures r.Success? ==> forall i :: 0 <= i < |r.value| ==> Kept(r.value[i], withAutomatFiles)
  {
    var rs := LineOutcomes(lines, withAutomatFiles);
    var r := Collect(rs);
    if r.Success? then
      forall i | 0 <= i < |r.value| ensures Kept(r.value[i], withAutomatFiles) {
        CollectFrom(rs, r.value[i]);
      }
      r
    else r
  }

  /** The parse in the legacy `_listFilesOfArchive` (lines 68-100). It throws
      exactly when some line has a file attribute column but no path column, and
      then with the `undefined.includes` TypeError of the first such line. */
  function LegacyParseListing(output: string, withAutomatFiles: bool): (r: Result<seq<string>, Thrown>)
    ensures r.Failure? ==> r.error == MissingPathError
    ensures r.Success? ==> forall i :: 0 <= i < |r.value| ==> Kept(r.value[i], withAutomatFiles)
  {
    var lines := Split(Trim(output), '\n');
    var rs := LineOutcomes(lines, withAutomatFiles);
    CollectFailure(rs);
    var r := LegacyPathsOfLines(lines, withAutomatFiles);
    if r.Failure? then
      var i :| 0 <= i < |rs| && rs[i].Failure? && r.error == rs[i].error;
      r
    else r
  }

  /** The legacy parse throws exactly when one of the lines does. */
  lemma LegacyParseThrowsIff(output: string, withAutomatFiles: bool)
    ensures LegacyParseListing(output, withAutomatFiles).Failure?
            <==> SomeLineThrows(Split(Trim(output), '\n'), withAutomatFiles)
  {
    var lines := Split(Trim(output), '\n');
    var rs := LineOutcomes(lines, withAutomatFiles);
    CollectFailure(rs);
    if SomeLineThrows(lines, withAutomatFiles) {
      var i :| 0 <= i < |lines| && LegacyEntryPath(lines[i], withAutomatFiles).Failure?;
      assert rs[i].Failure?;
    }
  }

  /** Some line of `lines` makes the legacy per-line parse throw. */
  predicate SomeLineThrows(lines: seq<string>, withAutomatFiles: bool) {
    exists i :: 0 <= i < |lines| && LegacyEntryPath(lines[i], withAutomatFiles).Failure?
  }
}
