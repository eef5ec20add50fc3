/** The legacy duplicate detector (src/analysis.js): every mod is walked, the
    tool's errors notwithstanding, and owners are recorded under their bare
    `modName`. */
module LegacyAnalysis {
  import opened Wrappers
  import opened Seqs
  import opened Grouping
  import opened Mods
  import opened Detector

  /** How the legacy detector sees a mod: named, labelled and always walked. */
  function LegacyListerOf(m: LegacyMod): Lister {
    Lister(Some(m.modName), m.modName, m.files, true)
  }

  function LegacyListers(ms: seq<LegacyMod>): (ls: seq<Lister>)
    ensures |ls| == |ms| && forall i :: 0 <= i < |ms| ==> ls[i] == LegacyListerOf(ms[i])
  {
    seq(|ms|, i requires 0 <= i < |ms| => LegacyListerOf(ms[i]))
  }

  /** The legacy `analyseModsContent`: the records of the shared paths, and the
      names of the archives that reported errors, in order (line 40). */
  function LegacyAnalyseModsContent(data: ModData): (r: AnalysisResult<string>)
    ensures Distinct(Paths(r.duplicates))
    ensures |r.errors| == |data.modErrors|
    ensures forall i :: 0 <= i < |data.modErrors| ==> r.errors[i] == data.modErrors[i].modName
  {
    var ls := LegacyListers(data.mods);
    AnalysisResult(Duplicates(ls), seq(|data.modErrors|, i requires 0 <= i < |data.modErrors| => data.modErrors[i].modName))
  }

  /** Mod `j` lists `f` under a name other than mod `i`'s. */
  ghost predicate SharedWith(ms: seq<LegacyMod>, i: nat, f: string)
    requires i < |ms|
  {
    exists j :: 0 <= j < |ms| && f in ms[j].files && ms[j].modName != ms[i].modName
  }

  lemma LegacySharedIff(ms: seq<LegacyMod>, i: nat, f: string)
    requires i < |ms|
    ensures SharedElsewhere(LegacyListers(ms), LegacyListerOf(ms[i]), f) <==> SharedWith(ms, i, f)
  {
    if SharedWith(ms, i, f) {
      var j :| 0 <= j < |ms| && f in ms[j].files && ms[j].modName != ms[i].modName;
      FoundOther(LegacyListers(ms), Some(ms[i].modName), f, j);
    }
  }

  /** One record per path that some mod lists and some differently named mod
      lists too (lines 10-33). */
  lemma LegacyRecordedPaths(data: ModData)
    ensures forall f :: f in Paths(LegacyAnalyseModsContent(data).duplicates) <==>
              exists i :: 0 <= i < |data.mods| && f in data.mods[i].files && SharedWith(data.mods, i, f)
  {
    var ms := data.mods;
    var ls := LegacyListers(ms);
    DuplicatePaths(ls);
    forall f ensures Discovered(ls, f) <==>
                     exists i :: 0 <= i < |ms| && f in ms[i].files && SharedWith(ms, i, f)
    {
      forall i | 0 <= i < |ms| ensures SharedElsewhere(ls, ls[i], f) <==> SharedWith(ms, i, f) {
        LegacySharedIff(ms, i, f);
      }
    }
  }

  /** When no two differently named mods share a path, there are no records. */
  lemma LegacyNoSharedNoRecords(data: ModData)
    requires forall i, j, f ::
               (0 <= i < |data.mods| && 0 <= j < |data.mods| && f in data.mods[i].files
                && data.mods[i].modName != data.mods[j].modName) ==> f !in data.mods[j].files
    ensures LegacyAnalyseModsContent(data).duplicates == []
  {
    var ds := LegacyAnalyseModsContent(data).duplicates;
    LegacyRecordedPaths(data);
    assert forall f :: f !in Paths(ds);
    EmptyIfNoMembers(Paths(ds));
  }

  /** Records come in order of first discovery (mods in order, then each mod's
      paths in order), and each one holds the bare `modName` of its mods, once
      per listing (lines 24-36). */
  lemma LegacyRecordedOwners(data: ModData)
    ensures Paths(LegacyAnalyseModsContent(data).duplicates)
            == Dedup(EventKeys(Events(LegacyListers(data.mods), LegacyListers(data.mods))))
    ensures forall d :: d in LegacyAnalyseModsContent(data).duplicates ==>
              d.mods == Owners(LegacyListers(data.mods), LegacyListers(data.mods), d.filePath)
    ensures forall d, o :: d in LegacyAnalyseModsContent(data).duplicates && o in d.mods ==>
              exists i :: 0 <= i < |data.mods| && data.mods[i].modName == o && d.filePath in data.mods[i].files
  {
    var ls := LegacyListers(data.mods);
    DuplicatePaths(ls);
    DuplicateOwners(ls);
    forall d, o | d in LegacyAnalyseModsContent(data).duplicates && o in d.mods
      ensures exists i :: 0 <= i < |data.mods| && data.mods[i].modName == o && d.filePath in data.mods[i].files
    {
      OwnersProvenance(ls, ls, d.filePath, o);
    }
  }

  /** The names of the mods that list `f`, in mod order. */
  function NamesListing(ms: seq<LegacyMod>, f: string): seq<string> {
    if |ms| == 0 then []
    else
      var m := ms[|ms| - 1];
      NamesListing(ms[..|ms| - 1], f) + (if f in m.files then [m.modName] else [])
  }

  lemma {:induction false} NamesAreListingLabels(ms: seq<LegacyMod>, f: string)
    ensures ListingLabels(LegacyListers(ms), f) == NamesListing(ms, f)
    decreases |ms|
  {
    if |ms| > 0 {
      var init := ms[..|ms| - 1];
      NamesAreListingLabels(init, f);
      assert LegacyListers(ms)[..|ms| - 1] == LegacyListers(init);
    }
  }

  /** A path listed once each by two or more mods with pairwise different
      names gets a record whose owners are exactly those mods' names, in mod
      order: k listing mods give k owners. */
  lemma LegacyDistinctOwners(data: ModData, f: string, i0: nat, j0: nat)
    requires forall m :: m in data.mods ==> Count(m.files, f) <= 1
    requires forall i, j :: 0 <= i < j < |data.mods| && f in data.mods[i].files && f in data.mods[j].files
               ==> data.mods[i].modName != data.mods[j].modName
    requires i0 < j0 < |data.mods| && f in data.mods[i0].files && f in data.mods[j0].files
    ensures exists d :: d in LegacyAnalyseModsContent(data).duplicates && d.filePath == f
    ensures forall d :: d in LegacyAnalyseModsContent(data).duplicates && d.filePath == f ==>
              d.mods == NamesListing(data.mods, f)
  {
    var ls := LegacyListers(data.mods);
    forall m | m in ls ensures m.walked && Count(m.files, f) <= 1 {
      var k :| 0 <= k < |ls| && ls[k] == m;
      assert data.mods[k] in data.mods;
    }
    OwnersOfDistinctListers(ls, f, i0, j0);
    NamesAreListingLabels(data.mods, f);
  }
}
