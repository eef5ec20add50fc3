/** The text written by `writeResults` (src/result-files.js lines 7-91): an
    error summary, then one tree per mod drawn with box characters, then hints
    about the flags and the fine print. */
module ReportText {
  import opened Wrappers
  import opened Text
  import opened Seqs
  import opened Mods
  import opened Report
  import Analysis

  /** How many paths a clash shows unless all are asked for. */
  const ShownFiles: nat := 3

  const LastBranch: char := '└'
  const MidBranch: char := '├'
  const Trunk: char := '│'

  const ErrorsHeading: string := "Could not open/analyze the following mod archives:\n  - \""
  const ErrorsSeparator: string := "\"\n  - \""
  const AllFilesHint: string := "\nTo see all files that are causing conflicts, use the \"-a, --all-conflicting-files\" flag"
  const NamesOnlyHint: string := "\nTo only see conflicting mods without the files, use the \"-m, --mod-names-only\" flag"
  const FinePrint: string :=
    "\n\nThis analysis was brought to you by lRainZz - https://steamcommunity.com/id/rainzzonsteam/"
    + "\nIf you found this helpful, consider buying me Coffee - https://ko-fi.com/lrainzz"
    + "\n\nIf you have questions, issues or ideas, consider contributing via GitHub - https://github.com/lRainZz/scs-mod-comp-checker"

  // ---------------------------------------------------------------------------
  // Truncation (lines 51-59)

  function Min(a: nat, b: nat): nat {
    if a <= b then a else b
  }

  /** `s.splice(start, deleteCount)` for a non-negative start, as the array it
      leaves behind: the start is clamped to the length and the count to what
      lies after the start. */
  function Splice<T>(s: seq<T>, start: nat, deleteCount: int): (r: seq<T>)
    ensures IsSubsequencePrefix(r, s, Min(start, |s|))
  {
    var at := Min(start, |s|);
    var n := if deleteCount < 0 then 0 else Min(deleteCount, |s| - at);
    s[..at] + s[at + n..]
  }

  /** `r` keeps the first `k` elements of `s` and then some later ones. */
  ghost predicate IsSubsequencePrefix<T>(r: seq<T>, s: seq<T>, k: nat) {
    k <= |r| && k <= |s| && r[..k] == s[..k]
  }

  /** The hint that stands in for the paths not shown. */
  function SizeHint(n: nat): string
    requires n > ShownFiles
  {
    NatToString(n - ShownFiles) + " more ..."
  }

  predicate HasSizeHint(files: seq<string>, showAll: bool) {
    !showAll && |files| > ShownFiles
  }

  /** Lines 51-59: a copy of the paths, cut with `splice(3, length - 1)`
      unless all are wanted, and followed by the size hint when paths were
      cut. */
  function FilesToDisplay(files: seq<string>, showAll: bool): (d: seq<string>)
    ensures showAll ==> d == files
  {
    var kept := if showAll then files else Splice(files, ShownFiles, |files| - 1);
    if HasSizeHint(files, showAll) then kept + [SizeHint(|files|)] else kept
  }

  /** Without `showAll` the display is the first `min(3, n)` paths, followed by
      `"<n-3> more ..."` exactly when there are more than three. */
  lemma Truncation(files: seq<string>)
    ensures var n := |files|;
      FilesToDisplay(files, false)
      == files[..Min(ShownFiles, n)] + (if n > ShownFiles then [NatToString(n - ShownFiles) + " more ..."] else [])
  {
    var n := |files|;
    var kept := Splice(files, ShownFiles, n - 1);
    if n > ShownFiles {
      assert kept == files[..ShownFiles] + files[n..];
      assert files[n..] == [];
    } else {
      assert kept == files[..n] + files[n..];
      assert files[n..] == [];
    }
  }

  /** Five paths show as three and `2 more ...`. */
  lemma TruncationExample(a: string, b: string, c: string, d: string, e: string)
    ensures FilesToDisplay([a, b, c, d, e], false) == [a, b, c, "2 more ..."]
  {
    var fs := [a, b, c, d, e];
    Truncation(fs);
    assert Min(ShownFiles, |fs|) == 3 && |fs| - ShownFiles == 2;
    assert fs[..3] == [a, b, c];
    assert NatToString(2) + " more ..." == "2 more ...";
  }

  // ---------------------------------------------------------------------------
  // Tree connectors (lines 31-83)

  /** One file line: `\n<straight>  <curve>─ <keyword> <file>`. */
  datatype FileLine = FileLine(straight: char, curve: char, keyword: string, file: string)

  /** One clash: its branch, the partner, the continuation of the trunk, and
      the file lines under it. */
  datatype ConflictView = ConflictView(curve: char, partner: string, extension: string, lines: seq<FileLine>)

  /** Lines 61-77 for one displayed path. */
  function ViewFile(display: seq<string>, i: nat, isLastConflict: bool, hint: bool): FileLine
    requires i < |display|
  {
    var isLastFile := i == |display| - 1;
    FileLine(
      if isLastConflict then ' ' else Trunk,
      if isLastFile then LastBranch else MidBranch,
      if hint && isLastFile then "and" else "because of:",
      display[i])
  }

  /** Lines 34-80 for one clash: the header always, the file lines only when
      more than the names are wanted. */
  function ViewConflict(c: Conflict, isLast: bool, showAll: bool, namesOnly: bool): ConflictView {
    var display := FilesToDisplay(c.files, showAll);
    var hint := HasSizeHint(c.files, showAll);
    ConflictView(
      if isLast then LastBranch else MidBranch,
      c.modName,
      if isLast then "   " + [Trunk] else [Trunk] + "  " + [Trunk],
      if namesOnly then []
      else seq(|display|, i requires 0 <= i < |display| => ViewFile(display, i, isLast, hint)))
  }

  function Files(ls: seq<FileLine>): (fs: seq<string>)
    ensures |fs| == |ls| && forall i :: 0 <= i < |ls| ==> fs[i] == ls[i].file
  {
    seq(|ls|, i requires 0 <= i < |ls| => ls[i].file)
  }

  /** What a clash shows: nothing below its header with `namesOnly`, otherwise
      the displayed paths in order; the last clash branches off with `└` and
      leaves no trunk beside its files, the others with `├`; only the last
      file line uses `└`; the keyword is `and` on the size hint alone. */
  lemma ConflictConnectors(c: Conflict, isLast: bool, showAll: bool, namesOnly: bool)
    ensures var v := ViewConflict(c, isLast, showAll, namesOnly);
      && (v.curve == LastBranch <==> isLast)
      && (namesOnly ==> v.lines == [])
      && (!namesOnly ==> Files(v.lines) == FilesToDisplay(c.files, showAll))
      && (forall i :: 0 <= i < |v.lines| ==>
            && (v.lines[i].curve == LastBranch <==> i == |v.lines| - 1)
            && (v.lines[i].straight == ' ' <==> isLast)
            && (v.lines[i].keyword == "and" <==> HasSizeHint(c.files, showAll) && i == |v.lines| - 1))
      && (!namesOnly && HasSizeHint(c.files, showAll) ==>
            v.lines[|v.lines| - 1].keyword == "and" && v.lines[|v.lines| - 1].file == SizeHint(|c.files|))
  {
    var v := ViewConflict(c, isLast, showAll, namesOnly);
    if !namesOnly {
      assert Files(v.lines) == FilesToDisplay(c.files, showAll);
    }
  }

  // ---------------------------------------------------------------------------
  // Text

  function FileLineText(l: FileLine): string {
    "\n" + [l.straight] + "  " + [l.curve] + "─ " + l.keyword + " " + l.file
  }

  /** The clash as text: header, file lines, and a closing newline when the
      file lines were written. */
  function ConflictText(v: ConflictView, namesOnly: bool): string {
    [Trunk] + "\n" + [v.curve] + "─ conflicts with: \"" + v.partner + "\"\n" + v.extension
      + (if namesOnly then ""
         else Flatten(seq(|v.lines|, i requires 0 <= i < |v.lines| => FileLineText(v.lines[i]))) + "\n")
  }

  /** Lines 31-83 for one mod. */
  function SectionText(r: ResultStructure, showAll: bool, namesOnly: bool): string {
    var n := |r.conflicts|;
    "\"" + r.mod + "\"\n"
      + Flatten(seq(n, i requires 0 <= i < n =>
          ConflictText(ViewConflict(r.conflicts[i], i == n - 1, showAll, namesOnly), namesOnly)))
      + "\n"
  }

  /** Lines 8-10: the names of the mods that could not be analysed, each in
      quotes on its own line; `Array.prototype.join` writes a missing name as
      nothing. */
  function NameTexts(names: seq<Option<string>>): (ts: seq<string>)
    ensures |ts| == |names| && forall i :: 0 <= i < |names| ==> ts[i] == names[i].GetOr("")
  {
    seq(|names|, i requires 0 <= i < |names| => names[i].GetOr(""))
  }

  function ErrorString(names: seq<Option<string>>): (s: string)
    ensures names == [] <==> s == ""
    ensures forall i :: 0 <= i < |names| && names[i].Some? ==> Contains(s, names[i].value)
  {
    if |names| == 0 then ""
    else
      var parts := NameTexts(names);
      var s := ErrorsHeading + Join(parts, ErrorsSeparator) + "\"";
      forall i | 0 <= i < |names| && names[i].Some? ensures Contains(s, names[i].value) {
        JoinHasPart(parts, ErrorsSeparator, i);
        ContainsIff(Join(parts, ErrorsSeparator), parts[i]);
        var k: nat :| OccursAt(Join(parts, ErrorsSeparator), parts[i], k);
        assert OccursAt(s, parts[i], |ErrorsHeading| + k);
        ContainsIff(s, parts[i]);
      }
      s
  }

  /** Lines 85-91: the hint for `-a` whenever `-m` is used or not all files
      were shown (so `-m -a` still advertises `-a`), and the hint for `-m`
      unless it was used. */
  function FlagHints(showAll: bool, namesOnly: bool): string {
    (if namesOnly || !showAll then AllFilesHint else "") + (if !namesOnly then NamesOnlyHint else "")
  }

  /** Some hint is always given. */
  lemma FlagHintsCases(showAll: bool, namesOnly: bool)
    ensures namesOnly ==> FlagHints(showAll, namesOnly) == AllFilesHint
    ensures !namesOnly && showAll ==> FlagHints(showAll, namesOnly) == NamesOnlyHint
    ensures !namesOnly && !showAll ==> FlagHints(showAll, namesOnly) == AllFilesHint + NamesOnlyHint
  {
  }

  /** `writeResults`: nothing is written when there are no records (the
      process exits instead); otherwise the error summary and a blank line,
      one section per mod of the report structure in order, the flag hints and
      the fine print. */
  function WriteResults(ds: seq<Duplicate>, errorNames: seq<Option<string>>, showAll: bool, namesOnly: bool): (out: Option<string>)
    ensures out.None? <==> ds == []
    ensures out.Some? ==> StartsWith(out.value, ErrorString(errorNames) + "\n\n")
    ensures out.Some? ==> EndsWith(out.value, FlagHints(showAll, namesOnly) + FinePrint)
  {
    if |ds| == 0 then None
    else
      var head := ErrorString(errorNames) + "\n\n";
      var tail := FlagHints(showAll, namesOnly) + FinePrint;
      Framed(head, Sections(ds, showAll, namesOnly), tail);
      Some(head + Sections(ds, showAll, namesOnly) + tail)
  }

  /** The sections of all mods, one after the other. */
  function Sections(ds: seq<Duplicate>, showAll: bool, namesOnly: bool): string {
    Flatten(SectionTexts(BuildResultPrintStructure(ds), showAll, namesOnly))
  }

  function SectionTexts(rs: seq<ResultStructure>, showAll: bool, namesOnly: bool): (ts: seq<string>)
    ensures |ts| == |rs| && forall i :: 0 <= i < |rs| ==> ts[i] == SectionText(rs[i], showAll, namesOnly)
  {
    seq(|rs|, i requires 0 <= i < |rs| => SectionText(rs[i], showAll, namesOnly))
  }

  lemma Framed(head: string, body: string, tail: string)
    ensures StartsWith(head + body + tail, head) && EndsWith(head + body + tail, tail)
  {
    var out := head + body + tail;
    assert out[..|head|] == head;
    assert out[|out| - |tail|..] == tail;
  }

  /** Every mod of the report structure gets its section in the text. */
  lemma SectionsWritten(ds: seq<Duplicate>, errorNames: seq<Option<string>>, showAll: bool, namesOnly: bool)
    requires ds != []
    ensures forall r :: r in BuildResultPrintStructure(ds) ==>
              Contains(WriteResults(ds, errorNames, showAll, namesOnly).value, SectionText(r, showAll, namesOnly))
  {
    var rs := BuildResultPrintStructure(ds);
    var sections := SectionTexts(rs, showAll, namesOnly);
    var head := ErrorString(errorNames) + "\n\n";
    var tail := FlagHints(showAll, namesOnly) + FinePrint;
    assert WriteResults(ds, errorNames, showAll, namesOnly).value == head + Flatten(sections) + tail;
    forall r | r in rs ensures Contains(head + Flatten(sections) + tail, SectionText(r, showAll, namesOnly)) {
      var i :| 0 <= i < |rs| && rs[i] == r;
      PartInFramed(head, sections, tail, i);
    }
  }

  /** A piece of the glued middle occurs in the framed text. */
  lemma PartInFramed(head: string, ss: seq<string>, tail: string, i: nat)
    requires i < |ss|
    ensures Contains(head + Flatten(ss) + tail, ss[i])
  {
    var body := Flatten(ss);
    FlattenHasPart(ss, i);
    var k: nat :| OccursAt(body, ss[i], k);
    OccursShifted(head, body, tail, ss[i], k);
    ContainsIff(head + body + tail, ss[i]);
  }

  lemma OccursShifted(head: string, body: string, tail: string, sub: string, k: nat)
    requires OccursAt(body, sub, k)
    ensures OccursAt(head + body + tail, sub, |head| + k)
  {
    var out := head + body + tail;
    assert out[|head| + k..|head| + k + |sub|] == body[k..k + |sub|];
  }

  /** Every piece occurs where the pieces are glued together. */
  lemma {:induction false} FlattenHasPart(ss: seq<string>, i: nat)
    requires i < |ss|
    ensures exists k: nat :: OccursAt(Flatten(ss), ss[i], k)
    decreases |ss|
  {
    var init := ss[..|ss| - 1];
    var last := ss[|ss| - 1];
    if i == |ss| - 1 {
      assert OccursAt(Flatten(ss), ss[i], |Flatten(init)|);
    } else {
      FlattenHasPart(init, i);
      var k: nat :| OccursAt(Flatten(init), init[i], k);
      assert OccursAt(Flatten(ss), ss[i], k) by {
        assert Flatten(ss) == Flatten(init) + last;
        assert Flatten(ss)[k..k + |ss[i]|] == Flatten(init)[k..k + |ss[i]|];
      }
    }
  }

  // ---------------------------------------------------------------------------
  // The names in the error summary

  /** The current pipeline hands over the mods themselves; a mod without a
      name is written as nothing. */
  function ErrorNames(errors: seq<Mod>): (names: seq<Option<string>>)
    ensures |names| == |errors| && forall i :: 0 <= i < |errors| ==> names[i] == errors[i].modName
  {
    seq(|errors|, i requires 0 <= i < |errors| => errors[i].modName)
  }

  /** The current hand-over: `analyseModsContent` keeps the failed mods
      themselves, and the heading of `writeResults` is empty exactly when no
      mod failed and otherwise names every failed mod that has a name. */
  lemma CurrentErrorNamesShown(ms: seq<Mod>)
    ensures var s := ErrorString(ErrorNames(Analysis.AnalyseModsContent(ms).errors));
            && (s == "" <==> forall m :: m in ms ==> !Analysis.HasError(m))
            && forall m :: m in ms && Analysis.HasError(m) && m.modName.Some? ==> Contains(s, m.modName.value)
  {
    var errors := Analysis.AnalyseModsContent(ms).errors;
    var names := ErrorNames(errors);
    forall m | m in ms && Analysis.HasError(m) && m.modName.Some? ensures Contains(ErrorString(names), m.modName.value) {
      var i :| 0 <= i < |errors| && errors[i] == m;
      assert names[i] == m.modName;
    }
  }

  /** As written, the legacy entry point hands the legacy error list (plain
      names) to `writeResults`, whose `mod.modName` reads a property of a
      string, which is `undefined`: every name is lost. */
  function LegacyErrorNamesAsWritten(errors: seq<string>): (names: seq<Option<string>>)
    ensures |names| == |errors| && forall i :: 0 <= i < |names| ==> names[i].None?
  {
    seq(|errors|, _ => None)
  }

  /** One failing archive `a.scs` is reported as an empty pair of quotes,
      not as the text the corrected names give. */
  lemma LegacyErrorNamesLost()
    ensures ErrorString(LegacyErrorNamesAsWritten(["a.scs"])) == ErrorsHeading + "\""
    ensures ErrorString(LegacyErrorNamesAsWritten(["a.scs"])) != ErrorString(LegacyErrorNames(["a.scs"]))
  {
    var names := LegacyErrorNamesAsWritten(["a.scs"]);
    assert names == [None];
    assert NameTexts(names) == [""];
    var fixed := LegacyErrorNames(["a.scs"]);
    assert fixed == [Some("a.scs")];
    assert NameTexts(fixed) == ["a.scs"];
    assert |ErrorString(fixed)| == |ErrorsHeading| + 6;
  }

  /** The evident intent: the legacy names are written as they are, so each
      one shows up in the summary. */
  function LegacyErrorNames(errors: seq<string>): (names: seq<Option<string>>)
    ensures |names| == |errors| && forall i :: 0 <= i < |errors| ==> names[i] == Some(errors[i])
  {
    seq(|errors|, i requires 0 <= i < |errors| => Some(errors[i]))
  }

  lemma LegacyErrorNamesShown(errors: seq<string>)
    ensures forall e :: e in errors ==> Contains(ErrorString(LegacyErrorNames(errors)), e)
  {
    var names := LegacyErrorNames(errors);
    forall e | e in errors ensures Contains(ErrorString(names), e) {
      var i :| 0 <= i < |errors| && errors[i] == e;
      assert names[i] == Some(e);
    }
  }
}
