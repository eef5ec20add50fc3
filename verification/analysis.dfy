/** The current analysis (src/analysis.ts): containers become mods with their
    file lists, and the mods' file lists are compared for paths that more than
    one mod ships. */
module Analysis {
  import opened Wrappers
  import opened Text
  import opened Seqs
  import opened Host
  import opened Listing
  import opened Mods
  import opened Grouping
  import opened Detector

  const NoFilesPrefix: string := "Could not get files of mod: "
  const WorkshopPrefix: string := " [WORKSHOP MOD - "
  const NoName: string := "-"

  // ---------------------------------------------------------------------------
  // gatherModDataFromArchives (lines 58-97)

  /** `'' + archive.error`: JavaScript renders a missing error as `null`. */
  function ErrorText(e: Option<string>): string {
    match e
    case Some(s) => s
    case None => "null"
  }

  /** The file filter of lines 80-88: the path lies below the top level (it has
      a `/` or a `\`) and, unless automat files are wanted, does not start
      with `automat` (so `automaton/x` goes too). */
  predicate KeepFile(withAutomatFiles: bool, p: string) {
    && (Contains(p, "/") || Contains(p, "\\"))
    && (withAutomatFiles || !StartsWith(p, "automat"))
  }

  function Keep(withAutomatFiles: bool): string -> bool {
    p => KeepFile(withAutomatFiles, p)
  }

  /** Where the file list comes from: the archive listing, or the folder's
      top-level directory entries. */
  function FilesSource(fs: Fs, c: ModContainer): Result<seq<string>, Thrown>
    requires c.path.Some?
  {
    if c.isArchive then ListFilesOfArchive(fs, c.path.value) else fs.readDir(c.path.value)
  }

  /** A container that cannot be listed: no path, or an error from the scan. */
  predicate Unlistable(c: ModContainer) {
    !Truthy(c.path) || Truthy(c.error)
  }

  /** One iteration of the loop: the mod copies name and workshop id, and any
      failure is caught onto it with its file list left empty. */
  function GatherMod(fs: Fs, c: ModContainer, withAutomatFiles: bool): (m: Mod)
    ensures m.modName == c.modName && m.workshopId == c.workshopId
    ensures m.error.Some? ==> m.files == []
    ensures forall p :: p in m.files ==> KeepFile(withAutomatFiles, p)
    ensures Unlistable(c) ==> m.error == Some(ErrorObject(NoFilesPrefix + ErrorText(c.error)))
    ensures !Unlistable(c) ==>
              match FilesSource(fs, c)
              case Failure(t) => m.error == Some(t)
              case Success(listing) => m.error.None? && m.files == Filter(listing, Keep(withAutomatFiles))
  {
    if Unlistable(c) then
      Mod(c.modName, c.workshopId, [], Some(ErrorObject(NoFilesPrefix + ErrorText(c.error))))
    else
      match FilesSource(fs, c)
      case Failure(t) => Mod(c.modName, c.workshopId, [], Some(t))
      case Success(listing) =>
        var files := Filter(listing, Keep(withAutomatFiles));
        assert forall p :: p in files ==> KeepFile(withAutomatFiles, p) by {
          forall p | p in files ensures KeepFile(withAutomatFiles, p) {
            assert Keep(withAutomatFiles)(p);
          }
        }
        Mod(c.modName, c.workshopId, files, None)
  }

  /** A kept file list only leaves paths out of the listing; it never
      reorders or invents them, and a top-level name never survives. */
  lemma GatheredFilesInOrder(fs: Fs, c: ModContainer, withAutomatFiles: bool, listing: seq<string>)
    requires !Unlistable(c) && FilesSource(fs, c) == Success(listing)
    ensures IsSubsequence(GatherMod(fs, c, withAutomatFiles).files, listing)
    ensures forall p :: p in listing && !Contains(p, "/") && !Contains(p, "\\") ==>
              p !in GatherMod(fs, c, withAutomatFiles).files
  {
    FilterIsSubsequence(listing, Keep(withAutomatFiles));
  }

  /** `gatherModDataFromArchives`: exactly one mod per container, in order. */
  function GatherModData(fs: Fs, cs: seq<ModContainer>, withAutomatFiles: bool): (ms: seq<Mod>)
    ensures |ms| == |cs|
    ensures forall i :: 0 <= i < |cs| ==> ms[i] == GatherMod(fs, cs[i], withAutomatFiles)
  {
    seq(|cs|, i requires 0 <= i < |cs| => GatherMod(fs, cs[i], withAutomatFiles))
  }

  /** `automaton/x` is dropped unless automat files are wanted. */
  lemma AutomatPrefixDropsMore()
    ensures !KeepFile(false, "automaton/x")
    ensures KeepFile(true, "automaton/x")
  {
    assert StartsWith("automaton/x", "automat");
    assert OccursAt("automaton/x", "/", 9);
  }

  // ---------------------------------------------------------------------------
  // analyseModsContent (lines 99-159)

  /** `if (mod.error)`: the caught value is truthy. */
  predicate HasError(m: Mod) {
    m.error.Some? && m.error.value.Truthy()
  }

  function Erroneous(): Mod -> bool {
    m => HasError(m)
  }

  /** `'' + mod.modName`: a missing name renders as `undefined`. */
  function NameText(n: Option<string>): string {
    match n
    case Some(s) => s
    case None => "undefined"
  }

  /** The owner label of lines 132-136 and 145/151: the name with the
      workshop suffix when the mod has a workshop id, and `-` when that leaves
      nothing. */
  function Label(m: Mod): (l: string)
    ensures l != ""
  {
    if Truthy(m.workshopId) then NameText(m.modName) + WorkshopPrefix + m.workshopId.value + "]"
    else if Truthy(m.modName) then m.modName.value
    else NoName
  }

  /** What the suffix is for: two workshop copies of a mod with the same name
      are told apart by their labels. */
  lemma LabelsTellWorkshopCopiesApart(a: Mod, b: Mod)
    requires Truthy(a.workshopId) && Truthy(b.workshopId)
    requires a.modName == b.modName && a.workshopId != b.workshopId
    ensures Label(a) != Label(b)
  {
    var p := NameText(a.modName) + WorkshopPrefix;
    var x := a.workshopId.value;
    var y := b.workshopId.value;
    assert Label(a) == p + (x + "]") && Label(b) == p + (y + "]");
    assert Label(a)[|p|..] == x + "]" && Label(b)[|p|..] == y + "]";
    assert (x + "]")[..|x|] == x && (y + "]")[..|y|] == y;
  }

  /** How the detector sees a mod: compared by `modName`, recorded under its
      label, walked only when it carries no error. */
  function ListerOf(m: Mod): Lister {
    Lister(m.modName, Label(m), m.files, !HasError(m))
  }

  function Listers(ms: seq<Mod>): (ls: seq<Lister>)
    ensures |ls| == |ms| && forall i :: 0 <= i < |ms| ==> ls[i] == ListerOf(ms[i])
  {
    seq(|ms|, i requires 0 <= i < |ms| => ListerOf(ms[i]))
  }

  lemma ListersAppend(a: seq<Mod>, b: seq<Mod>)
    ensures Listers(a + b) == Listers(a) + Listers(b)
  {
  }

  /** `analyseModsContent`: the duplicate records, and the mods with errors in
      input order: every copy of an erroneous mod and nothing else, as a
      subsequence of the input. */
  function AnalyseModsContent(ms: seq<Mod>): (r: AnalysisResult<Mod>)
    ensures Distinct(Paths(r.duplicates))
    ensures forall m :: m in r.errors <==> m in ms && HasError(m)
    ensures IsSubsequence(r.errors, ms)
    ensures forall m :: multiset(r.errors)[m] == if HasError(m) then multiset(ms)[m] else 0
    ensures forall d :: d in r.duplicates ==> |d.mods| > 0
  {
    var ds := Duplicates(Listers(ms));
    DuplicatePaths(Listers(ms));
    DuplicateOwners(Listers(ms));
    forall d | d in ds ensures |d.mods| > 0 {
      OwnersOfRecorded(Listers(ms), d.filePath);
    }
    var errors := Filter(ms, Erroneous());
    assert forall m :: m in errors <==> m in ms && HasError(m) by {
      forall m ensures m in errors <==> m in ms && HasError(m) {
        assert Erroneous()(m) == HasError(m);
      }
    }
    FilterIsSubsequence(ms, Erroneous());
    forall m ensures multiset(errors)[m] == if HasError(m) then multiset(ms)[m] else 0 {
      FilterCounts(ms, Erroneous(), m);
    }
    AnalysisResult(ds, errors)
  }

  /** Some other mod, named differently from mod `i`, also lists `f`. */
  ghost predicate AlsoListedElsewhere(ms: seq<Mod>, i: nat, f: string)
    requires i < |ms|
  {
    exists j :: 0 <= j < |ms| && f in ms[j].files && ms[j].modName != ms[i].modName
  }

  /** A path gets a record exactly when a mod without error lists it and a
      mod with a different `modName` lists it too (lines 120-127). */
  lemma RecordedPaths(ms: seq<Mod>)
    ensures forall f :: f in Paths(AnalyseModsContent(ms).duplicates) <==>
              exists i :: 0 <= i < |ms| && !HasError(ms[i]) && f in ms[i].files && AlsoListedElsewhere(ms, i, f)
  {
    var ls := Listers(ms);
    DuplicatePaths(ls);
    forall f ensures Discovered(ls, f) <==>
                     exists i :: 0 <= i < |ms| && !HasError(ms[i]) && f in ms[i].files && AlsoListedElsewhere(ms, i, f)
    {
      forall i | 0 <= i < |ms| ensures SharedElsewhere(ls, ls[i], f) <==> AlsoListedElsewhere(ms, i, f) {
        SharedIffListedElsewhere(ms, i, f);
      }
    }
  }

  lemma SharedIffListedElsewhere(ms: seq<Mod>, i: nat, f: string)
    requires i < |ms|
    ensures SharedElsewhere(Listers(ms), ListerOf(ms[i]), f) <==> AlsoListedElsewhere(ms, i, f)
  {
    if AlsoListedElsewhere(ms, i, f) {
      var j :| 0 <= j < |ms| && f in ms[j].files && ms[j].modName != ms[i].modName;
      FoundOther(Listers(ms), ms[i].modName, f, j);
    }
  }

  /** Each record holds, mod by mod in input order, the label of every mod
      without error that lists the path, once per listing, provided a
      differently named mod lists it too; records come in order of first
      discovery. */
  lemma RecordedOwners(ms: seq<Mod>)
    ensures forall d :: d in AnalyseModsContent(ms).duplicates ==>
              d.mods == Owners(Listers(ms), Listers(ms), d.filePath)
    ensures Paths(AnalyseModsContent(ms).duplicates) == Dedup(EventKeys(Events(Listers(ms), Listers(ms))))
  {
    DuplicateOwners(Listers(ms));
    DuplicatePaths(Listers(ms));
  }

  /** A mod with an error adds no owner to any record, whatever it lists. */
  lemma ErrorModsOwnNothing(ms: seq<Mod>, k: nat, f: string)
    requires k < |ms| && HasError(ms[k])
    ensures Owners(Listers(ms), Listers(ms), f) == Owners(Listers(ms), Listers(ms[..k] + ms[k + 1..]), f)
  {
    var ls := Listers(ms);
    var a := Listers(ms[..k]);
    var b := Listers(ms[k + 1..]);
    var x := ListerOf(ms[k]);
    SplitAround(ms, k);
    ListersAppend(ms[..k] + [ms[k]], ms[k + 1..]);
    ListersAppend(ms[..k], [ms[k]]);
    assert Listers([ms[k]]) == [x];
    assert ls == (a + [x]) + b;
    ListersAppend(ms[..k], ms[k + 1..]);
    assert OwnLabels(ls, x, f) == [];
    OwnersSnoc(ls, a, x, f);
    OwnersAppend(ls, a + [x], b, f);
    OwnersAppend(ls, a, b, f);
  }
}
