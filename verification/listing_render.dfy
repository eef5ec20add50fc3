/** The other side of the listing parser: the bare table as the archive tool
    prints it, built from rows, and the proof that both parsers read every row
    back. Columns are separated by arbitrary runs of non-newline whitespace, a
    row may carry trailing whitespace (a `\r` before the newline, say), and a
    path may contain single whitespace runs, which the parser stitches with
    `_` after the first piece. */
module ListingRender {
  import opened Wrappers
  import opened Text
  import opened Host
  import opened Listing
  import Seqs

  /** A column of the table: non-empty, no whitespace, no control character. */
  predicate Field(s: string) {
    s != [] && NoWs(s) && NoControl(s)
  }

  /** A run of whitespace that stays on its line. */
  predicate Blank(w: string) {
    AllWs(w) && '\n' !in w
  }

  predicate AllFields(cols: seq<string>) {
    forall i :: 0 <= i < |cols| ==> Field(cols[i])
  }

  predicate AllGaps(gaps: seq<string>) {
    forall i :: 0 <= i < |gaps| ==> gaps[i] != [] && Blank(gaps[i])
  }

  /** One row of the table. `pathWords` are the whitespace-separated pieces of
      the entry path; `gaps` are the separators between consecutive columns,
      path pieces included; `trailer` is what follows the last column. */
  datatype Row = Row(
    date: string, time: string, attributes: string, size: string, packed: string,
    pathWords: seq<string>, gaps: seq<string>, trailer: string)

  /** The columns of a row as they appear left to right. */
  function Cells(r: Row): seq<string> {
    [r.date, r.time, r.attributes, r.size, r.packed] + r.pathWords
  }

  predicate WellFormedRow(r: Row) {
    && |r.pathWords| >= 1
    && AllFields(Cells(r))
    && |r.gaps| == |Cells(r)| - 1
    && AllGaps(r.gaps)
    && Blank(r.trailer)
  }

  /** The columns interleaved with their separators. */
  function Spaced(cols: seq<string>, gaps: seq<string>): (s: string)
    requires |cols| >= 1 && |gaps| == |cols| - 1
    decreases |cols|
  {
    if |cols| == 1 then cols[0] else cols[0] + gaps[0] + Spaced(cols[1..], gaps[1..])
  }

  function RenderRow(r: Row): string
    requires WellFormedRow(r)
  {
    Spaced(Cells(r), r.gaps) + r.trailer
  }

  function RenderListing(rows: seq<Row>): string
    requires forall i :: 0 <= i < |rows| ==> WellFormedRow(rows[i])
  {
    Join(seq(|rows|, i requires 0 <= i < |rows| => RenderRow(rows[i])), "\n")
  }

  /** The key a row's path is compared under: the first piece, then the other
      pieces joined with `_`. */
  function Stitched(words: seq<string>): string {
    if |words| == 0 then [] else words[0] + Join(words[1..], "_")
  }

  /** What one row contributes to the current parser's result. */
  function RowPath(r: Row): Option<string> {
    if 'D' in r.attributes then None else Some(Stitched(r.pathWords))
  }

  /** What one row contributes to the legacy parser's result. */
  function LegacyRowPath(r: Row, withAutomatFiles: bool): Option<string> {
    if LegacyKeep(r.attributes, Stitched(r.pathWords), withAutomatFiles) then Some(Stitched(r.pathWords)) else None
  }

  /** The paths the current parser should report: those of the rows that are not
      directories, in row order. */
  function FilePaths(rows: seq<Row>): seq<string>
    requires forall i :: 0 <= i < |rows| ==> WellFormedRow(rows[i])
  {
    if |rows| == 0 then []
    else
      var rest := FilePaths(rows[1..]);
      if 'D' in rows[0].attributes then rest else [Stitched(rows[0].pathWords)] + rest
  }

  /** The paths the legacy parser should report: file rows whose path reaches
      below the top level and, unless automat files are wanted, is not under
      `automat/`. */
  function LegacyFilePaths(rows: seq<Row>, withAutomatFiles: bool): seq<string>
    requires forall i :: 0 <= i < |rows| ==> WellFormedRow(rows[i])
  {
    if |rows| == 0 then []
    else
      var rest := LegacyFilePaths(rows[1..], withAutomatFiles);
      if LegacyKeep(rows[0].attributes, Stitched(rows[0].pathWords), withAutomatFiles)
      then [Stitched(rows[0].pathWords)] + rest
      else rest
  }

  // ---------------------------------------------------------------------------
  // Shape of rendered text

  lemma {:induction false} SpacedShape(cols: seq<string>, gaps: seq<string>)
    requires |cols| >= 1 && |gaps| == |cols| - 1
    requires AllFields(cols) && AllGaps(gaps)
    ensures var s := Spaced(cols, gaps);
      && |s| > 0 && s[0] == cols[0][0] && s[|s| - 1] == cols[|cols| - 1][|cols[|cols| - 1]| - 1]
      && '\n' !in s
    decreases |cols|
  {
    var s := Spaced(cols, gaps);
    assert Field(cols[0]);
    if |cols| > 1 {
      var t := Spaced(cols[1..], gaps[1..]);
      assert AllFields(cols[1..]) by {
        forall i | 0 <= i < |cols[1..]| ensures Field(cols[1..][i]) {
          assert cols[1..][i] == cols[i + 1];
        }
      }
      assert AllGaps(gaps[1..]) by {
        forall i | 0 <= i < |gaps[1..]| ensures gaps[1..][i] != [] && Blank(gaps[1..][i]) {
          assert gaps[1..][i] == gaps[i + 1];
        }
      }
      SpacedShape(cols[1..], gaps[1..]);
      assert Blank(gaps[0]);
      assert s == cols[0] + gaps[0] + t;
      assert cols[|cols| - 1] == cols[1..][|cols[1..]| - 1];
      assert s[|s| - 1] == t[|t| - 1];
    }
  }

  /** Collapsing the separators of a spaced row gives the columns joined by
      single spaces. */
  lemma {:induction false} CollapseSpaced(cols: seq<string>, gaps: seq<string>)
    requires |cols| >= 1 && |gaps| == |cols| - 1
    requires AllFields(cols) && AllGaps(gaps)
    ensures CollapseWs(Spaced(cols, gaps)) == Join(cols, " ")
    decreases |cols|
  {
    if |cols| == 1 {
      CollapseNoWs(cols[0], []);
      assert cols[0] + [] == cols[0];
    } else {
      var t := Spaced(cols[1..], gaps[1..]);
      assert AllFields(cols[1..]) by {
        forall i | 0 <= i < |cols[1..]| ensures Field(cols[1..][i]) {
          assert cols[1..][i] == cols[i + 1];
        }
      }
      assert AllGaps(gaps[1..]) by {
        forall i | 0 <= i < |gaps[1..]| ensures gaps[1..][i] != [] && Blank(gaps[1..][i]) {
          assert gaps[1..][i] == gaps[i + 1];
        }
      }
      CollapseSpaced(cols[1..], gaps[1..]);
      SpacedShape(cols[1..], gaps[1..]);
      assert Field(cols[0]) && Field(cols[1]);
      assert t[0] == cols[1][0];
      assert !IsWs(t[0]);
      Seqs.AppendAssoc(cols[0], gaps[0], t);
      assert Spaced(cols, gaps) == cols[0] + (gaps[0] + t);
      CollapseNoWs(cols[0], gaps[0] + t);
      CollapseRun(gaps[0], t);
      Seqs.AppendAssoc(cols[0], " ", Join(cols[1..], " "));
      assert Join(cols, " ") == cols[0] + (" " + Join(cols[1..], " "));
    }
  }

  /** A line that trims and collapses to text without control characters is
      normalised to that text. */
  lemma NormalizeClean(t: string, j: string)
    requires CollapseWs(Trim(t)) == j && NoControl(j)
    ensures NormalizeLine(t) == j
  {
  }

  lemma JoinFieldsClean(cols: seq<string>)
    requires AllFields(cols)
    ensures NoControl(Join(cols, " "))
  {
    var s := Join(cols, " ");
    forall i | 0 <= i < |s| ensures !IsControl(s[i]) {
      var ch := s[i];
      assert ch in s;
      if ch != ' ' {
        var j :| 0 <= j < |cols| && ch in cols[j];
        assert Field(cols[j]);
      }
    }
  }

  /** A rendered row trims to its spaced columns, with or without its trailer. */
  lemma TrimRow(r: Row, t: string)
    requires WellFormedRow(r)
    requires t == RenderRow(r) || t == Spaced(Cells(r), r.gaps)
    ensures Trim(t) == Spaced(Cells(r), r.gaps)
  {
    var cols := Cells(r);
    var c := Spaced(cols, r.gaps);
    SpacedShape(cols, r.gaps);
    assert Field(cols[0]) && Field(cols[|cols| - 1]);
    if t == RenderRow(r) {
      TrimTrailing(c, r.trailer);
    } else {
      TrimTrailing(c, []);
      assert c + [] == c;
    }
  }

  /** A rendered row normalises to its columns joined by single spaces, with or
      without its trailer. */
  lemma NormalizeRow(r: Row, t: string)
    requires WellFormedRow(r)
    requires t == RenderRow(r) || t == Spaced(Cells(r), r.gaps)
    ensures NormalizeLine(t) == Join(Cells(r), " ")
  {
    TrimRow(r, t);
    CollapseSpaced(Cells(r), r.gaps);
    JoinFieldsClean(Cells(r));
    NormalizeClean(t, Join(Cells(r), " "));
  }

  /** The split of a normalised row finds the attribute column third and the
      stitched path from the sixth column on. */
  lemma ColumnsOfRow(r: Row)
    requires WellFormedRow(r)
    ensures ColumnsOf(Join(Cells(r), " ")) == Columns(Some(r.attributes), Some(Stitched(r.pathWords)))
  {
    var cols := Cells(r);
    forall i | 0 <= i < |cols| ensures ' ' !in cols[i] {
      assert Field(cols[i]);
    }
    SplitJoin(cols, ' ');
    var f := Split(Join(cols, " "), ' ');
    assert f == cols;
    assert f[2] == r.attributes && f[5] == r.pathWords[0];
    assert f[6..] == r.pathWords[1..];
    if |f| == 6 {
      assert f[5] + Join(f[6..], "_") == f[5];
    }
  }

  lemma EntryPathOfRow(r: Row, t: string)
    requires WellFormedRow(r)
    requires t == RenderRow(r) || t == Spaced(Cells(r), r.gaps)
    ensures EntryPath(t) == RowPath(r)
  {
    NormalizeRow(r, t);
    ColumnsOfRow(r);
    assert Field(Cells(r)[5]);
  }

  lemma LegacyEntryPathOfRow(r: Row, t: string, withAutomatFiles: bool)
    requires WellFormedRow(r)
    requires t == RenderRow(r) || t == Spaced(Cells(r), r.gaps)
    ensures LegacyEntryPath(t, withAutomatFiles) == Success(LegacyRowPath(r, withAutomatFiles))
  {
    NormalizeRow(r, t);
    ColumnsOfRow(r);
    assert Field(Cells(r)[2]);
  }

  // ---------------------------------------------------------------------------
  // Whole listings

  lemma {:induction false} JoinAppendLast(ps: seq<string>, x: string, w: string, sep: string)
    ensures Join(ps + [x + w], sep) == Join(ps + [x], sep) + w
    decreases |ps|
  {
    if |ps| == 0 {
      assert ps + [x + w] == [x + w] && ps + [x] == [x];
    } else {
      JoinAppendLast(ps[1..], x, w, sep);
      assert (ps + [x + w])[1..] == ps[1..] + [x + w];
      assert (ps + [x])[1..] == ps[1..] + [x];
    }
  }

  lemma {:induction false} JoinEnds(ps: seq<string>, sep: string)
    requires |ps| >= 1 && forall i :: 0 <= i < |ps| ==> ps[i] != []
    ensures var s := Join(ps, sep);
      |s| > 0 && s[0] == ps[0][0] && s[|s| - 1] == ps[|ps| - 1][|ps[|ps| - 1]| - 1]
    decreases |ps|
  {
    if |ps| > 1 {
      var t := Join(ps[1..], sep);
      assert forall i :: 0 <= i < |ps[1..]| ==> ps[1..][i] == ps[i + 1];
      JoinEnds(ps[1..], sep);
      assert Join(ps, sep) == ps[0] + sep + t;
      assert ps[|ps| - 1] == ps[1..][|ps[1..]| - 1];
    }
  }

  /** `ls` holds the rendered rows, each with or without its trailer. */
  predicate LinesOf(ls: seq<string>, rows: seq<Row>)
    requires forall i :: 0 <= i < |rows| ==> WellFormedRow(rows[i])
  {
    && |ls| == |rows|
    && forall i :: 0 <= i < |rows| ==>
         ls[i] == RenderRow(rows[i]) || ls[i] == Spaced(Cells(rows[i]), rows[i].gaps)
  }

  lemma {:induction false} PathsOfRowLines(ls: seq<string>, rows: seq<Row>)
    requires forall i :: 0 <= i < |rows| ==> WellFormedRow(rows[i])
    requires |ls| == |rows| && forall i :: 0 <= i < |rows| ==> EntryPath(ls[i]) == RowPath(rows[i])
    ensures PathsOfLines(ls) == FilePaths(rows)
    decreases |rows|
  {
    if |rows| > 0 {
      assert forall i :: 0 <= i < |rows[1..]| ==> ls[1..][i] == ls[i + 1] && rows[1..][i] == rows[i + 1];
      PathsOfRowLines(ls[1..], rows[1..]);
      assert EntryPath(ls[0]) == RowPath(rows[0]);
    }
  }

  lemma {:induction false} CollectRowOutcomes(rs: seq<Result<Option<string>, Thrown>>, rows: seq<Row>, withAutomatFiles: bool)
    requires forall i :: 0 <= i < |rows| ==> WellFormedRow(rows[i])
    requires |rs| == |rows| && forall i :: 0 <= i < |rows| ==> rs[i] == Success(LegacyRowPath(rows[i], withAutomatFiles))
    ensures Collect(rs) == Success(LegacyFilePaths(rows, withAutomatFiles))
    decreases |rows|
  {
    if |rows| > 0 {
      assert forall i :: 0 <= i < |rows[1..]| ==> rs[1..][i] == rs[i + 1] && rows[1..][i] == rows[i + 1];
      CollectRowOutcomes(rs[1..], rows[1..], withAutomatFiles);
    }
  }

  lemma PathsOfRenderedLines(ls: seq<string>, rows: seq<Row>)
    requires forall i :: 0 <= i < |rows| ==> WellFormedRow(rows[i])
    requires LinesOf(ls, rows)
    ensures PathsOfLines(ls) == FilePaths(rows)
  {
    forall i | 0 <= i < |rows| ensures EntryPath(ls[i]) == RowPath(rows[i]) {
      EntryPathOfRow(rows[i], ls[i]);
    }
    PathsOfRowLines(ls, rows);
  }

  lemma LegacyPathsOfRenderedLines(ls: seq<string>, rows: seq<Row>, withAutomatFiles: bool)
    requires forall i :: 0 <= i < |rows| ==> WellFormedRow(rows[i])
    requires LinesOf(ls, rows)
    ensures Collect(LineOutcomes(ls, withAutomatFiles)) == Success(LegacyFilePaths(rows, withAutomatFiles))
  {
    var rs := LineOutcomes(ls, withAutomatFiles);
    forall i | 0 <= i < |rows| ensures rs[i] == Success(LegacyRowPath(rows[i], withAutomatFiles)) {
      LegacyEntryPathOfRow(rows[i], ls[i], withAutomatFiles);
    }
    CollectRowOutcomes(rs, rows, withAutomatFiles);
  }

  /** The lines the parsers split a rendered listing into: the rendered rows, the
      last one without its trailer, which the initial `trim` removed. */
  lemma RowShape(r: Row)
    requires WellFormedRow(r)
    ensures var c := Spaced(Cells(r), r.gaps);
      && c != [] && !IsWs(c[0]) && !IsWs(c[|c| - 1]) && '\n' !in c
      && RenderRow(r) != [] && RenderRow(r)[0] == c[0] && '\n' !in RenderRow(r)
  {
    SpacedShape(Cells(r), r.gaps);
    assert Field(Cells(r)[0]) && Field(Cells(r)[|Cells(r)| - 1]);
  }

  lemma SplitRendered(rows: seq<Row>)
    requires |rows| >= 1
    requires forall i :: 0 <= i < |rows| ==> WellFormedRow(rows[i])
    ensures LinesOf(Split(Trim(RenderListing(rows)), '\n'), rows)
  {
    var n := |rows|;
    var full := seq(n, i requires 0 <= i < n => RenderRow(rows[i]));
    var last := rows[n - 1];
    var core := Spaced(Cells(last), last.gaps);
    var ls := full[..n - 1] + [core];
    assert full == full[..n - 1] + [core + last.trailer];
    JoinAppendLast(full[..n - 1], core, last.trailer, "\n");
    var text := Join(ls, "\n");
    assert RenderListing(rows) == text + last.trailer;
    forall i | 0 <= i < n ensures ls[i] != [] && '\n' !in ls[i] && !IsWs(ls[i][0]) {
      RowShape(rows[i]);
      if i < n - 1 {
        assert ls[i] == RenderRow(rows[i]);
      }
    }
    RowShape(last);
    assert ls[n - 1] == core;
    JoinEnds(ls, "\n");
    assert !IsWs(text[0]) && !IsWs(text[|text| - 1]);
    TrimTrailing(text, last.trailer);
    SplitJoin(ls, '\n');
    assert Split(Trim(RenderListing(rows)), '\n') == ls;
    forall i | 0 <= i < n ensures ls[i] == RenderRow(rows[i]) || ls[i] == Spaced(Cells(rows[i]), rows[i].gaps) {
      if i < n - 1 {
        assert ls[i] == full[i];
      }
    }
  }

  lemma EmptyLine(withAutomatFiles: bool)
    ensures EntryPath([]) == None && LegacyEntryPath([], withAutomatFiles) == Success(None)
  {
    assert Trim([]) == [] && CollapseWs([]) == [];
    assert NormalizeLine([]) == [];
    assert Split([], ' ') == [[]];
    assert ColumnsOf([]) == Columns(None, None);
  }

  lemma ParseEmpty()
    ensures ParseListing(RenderListing([])) == []
  {
    EmptyListing();
    EmptyLine(false);
    assert PathsOfLines([[]]) == [];
  }

  /** An empty listing has one empty line. */
  lemma EmptyListing()
    ensures Split(Trim(RenderListing([])), '\n') == [[]]
  {
    assert RenderListing([]) == [];
    assert Trim([]) == [];
    assert Split([], '\n') == [[]];
  }

  /** Round trip of the current parser: every listing rendered from rows parses
      to the paths of its file rows, in row order. */
  lemma ParseRendered(rows: seq<Row>)
    requires forall i :: 0 <= i < |rows| ==> WellFormedRow(rows[i])
    ensures ParseListing(RenderListing(rows)) == FilePaths(rows)
  {
    if |rows| == 0 {
      ParseEmpty();
    } else {
      SplitRendered(rows);
      PathsOfRenderedLines(Split(Trim(RenderListing(rows)), '\n'), rows);
    }
  }

  /** Round trip of the legacy parser: a rendered listing never throws and
      parses to the paths of the file rows below the top level, with `automat/`
      paths only when asked for. */
  lemma LegacyParseRendered(rows: seq<Row>, withAutomatFiles: bool)
    requires forall i :: 0 <= i < |rows| ==> WellFormedRow(rows[i])
    ensures LegacyParseListing(RenderListing(rows), withAutomatFiles) == Success(LegacyFilePaths(rows, withAutomatFiles))
  {
    if |rows| == 0 {
      EmptyListing();
      EmptyLine(withAutomatFiles);
      assert LineOutcomes([[]], withAutomatFiles) == [Success(None)];
      assert Collect([Success(None)]) == Success([]);
    } else {
      SplitRendered(rows);
      LegacyPathsOfRenderedLines(Split(Trim(RenderListing(rows)), '\n'), rows, withAutomatFiles);
    }
  }

  /** A path with spaces is compared with the first space dropped and the others
      turned into `_`. */
  lemma StitchedExample()
    ensures Stitched(["a/my", "file", "x.txt"]) == "a/myfile_x.txt"
  {
    assert Join(["file", "x.txt"], "_") == "file_x.txt";
  }
}
