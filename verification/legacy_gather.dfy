/** The legacy archive side (src/archive.js): the archives of the mod folder
    are picked by extension, each is listed by the WebAssembly build of the
    archive tool, and the listings become `ModData`. */
module LegacyGather {
  import opened Wrappers
  import opened Text
  import opened Seqs
  import opened Host
  import opened Listing
  import opened Mods

  /** The legacy `ModContent`: the kept paths and what the tool printed on its
      error stream. */
  datatype ModContent = ModContent(pathList: seq<string>, errors: seq<string>)

  // ---------------------------------------------------------------------------
  // getArchivePathsOfDirectory (lines 10-25)

  /** The folder entries the game would load: names ending in `.scs` or `.zip`. */
  function ArchiveNames(entries: seq<string>): (names: seq<string>)
    ensures forall n :: n in names <==> n in entries && IsArchiveName(n)
    ensures IsSubsequence(names, entries)
  {
    FilterIsSubsequence(entries, IsArchiveName);
    Filter(entries, IsArchiveName)
  }

  lemma EndsWithAfter(prefix: string, s: string, p: string)
    requires EndsWith(s, p)
    ensures EndsWith(prefix + s, p)
  {
    assert (prefix + s)[|prefix + s| - |p|..] == s[|s| - |p|..];
  }

  /** `getArchivePathsOfDirectory`: one record per archive entry, in listing
      order, pointing into the folder and named after its last path segment. */
  function ArchivePathsOfDirectory(fs: Fs, dir: string): (r: Result<seq<LegacyArchive>, Thrown>)
    ensures r.Failure? <==> fs.readDir(dir).Failure?
    ensures r.Success? ==>
              var names := ArchiveNames(fs.readDir(dir).value);
              && |r.value| == |names|
              && forall i :: 0 <= i < |names| ==>
                   && r.value[i].path == JoinPath(dir, names[i])
                   && r.value[i].modName == Basename(r.value[i].path)
                   && r.value[i].error.None?
    ensures r.Success? ==> forall a :: a in r.value ==> IsArchiveName(a.path)
  {
    var entries :- fs.readDir(dir);
    var names := ArchiveNames(entries);
    forall i | 0 <= i < |names| ensures IsArchiveName(JoinPath(dir, names[i])) {
      assert names[i] in names;
      if EndsWith(names[i], ".scs") {
        EndsWithAfter(dir + "/", names[i], ".scs");
      } else {
        EndsWithAfter(dir + "/", names[i], ".zip");
      }
    }
    Success(seq(|names|, i requires 0 <= i < |names| =>
      LegacyArchive(JoinPath(dir, names[i]), Basename(JoinPath(dir, names[i])), None)))
  }

  /** A directory entry's name holds no `/`, so each archive is named after
      its entry: `foo.scs` becomes the mod `foo.scs`. */
  lemma ArchiveNamesAreEntries(fs: Fs, dir: string)
    requires fs.readDir(dir).Success?
    requires forall e :: e in fs.readDir(dir).value ==> '/' !in e
    ensures forall a :: a in ArchivePathsOfDirectory(fs, dir).value ==>
              a.modName in fs.readDir(dir).value && IsArchiveName(a.modName)
  {
    var names := ArchiveNames(fs.readDir(dir).value);
    var r := ArchivePathsOfDirectory(fs, dir).value;
    forall a | a in r ensures a.modName in fs.readDir(dir).value && IsArchiveName(a.modName) {
      var i :| 0 <= i < |r| && r[i] == a;
      assert names[i] in names;
      BasenameOfJoin(dir, names[i]);
    }
  }

  // ---------------------------------------------------------------------------
  // _listFilesOfArchive and gatherModDataFromArchives (lines 32-150)

  /** `_listFilesOfArchive`: the tool's stdout parsed by the legacy parser, with
      its error lines passed along. Reading the archive or parsing the output
      can throw. */
  function ListArchive(fs: Fs, path: string, withAutomatFiles: bool): (r: Result<ModContent, Thrown>)
    ensures fs.listWithWasm(path).Failure? ==> r == fs.listWithWasm(path).PropagateFailure()
    ensures fs.listWithWasm(path).Success? ==>
              var run := fs.listWithWasm(path).value;
              match LegacyParseListing(run.output, withAutomatFiles)
              case Failure(t) => r == Failure(t)
              case Success(paths) => r == Success(ModContent(paths, run.errors))
  {
    var run :- fs.listWithWasm(path);
    var paths :- LegacyParseListing(run.output, withAutomatFiles);
    Success(ModContent(paths, run.errors))
  }

  predicate Reported(e: ModError) {
    |e.errors| > 0
  }

  /** What listing each archive gives, in order. */
  function Outcomes(fs: Fs, archives: seq<LegacyArchive>, withAutomatFiles: bool): (rs: seq<Result<ModContent, Thrown>>)
    ensures |rs| == |archives|
    ensures forall i :: 0 <= i < |archives| ==> rs[i] == ListArchive(fs, archives[i].path, withAutomatFiles)
  {
    seq(|archives|, i requires 0 <= i < |archives| => ListArchive(fs, archives[i].path, withAutomatFiles))
  }

  /** The mod of each archive, holding its kept paths. */
  function ModsOf(archives: seq<LegacyArchive>, contents: seq<ModContent>): (ms: seq<LegacyMod>)
    requires |contents| == |archives|
    ensures |ms| == |archives|
    ensures forall i :: 0 <= i < |archives| ==> ms[i] == LegacyMod(archives[i].modName, contents[i].pathList)
  {
    seq(|archives|, i requires 0 <= i < |archives| => LegacyMod(archives[i].modName, contents[i].pathList))
  }

  /** The error record each archive would get, reported or not. */
  function ErrorRecords(archives: seq<LegacyArchive>, contents: seq<ModContent>): (es: seq<ModError>)
    requires |contents| == |archives|
    ensures |es| == |archives|
    ensures forall i :: 0 <= i < |archives| ==> es[i] == ModError(archives[i].modName, contents[i].errors)
  {
    seq(|archives|, i requires 0 <= i < |archives| => ModError(archives[i].modName, contents[i].errors))
  }

  /** `gatherModDataFromArchives`: one mod per archive, in order, holding the
      kept paths even when the tool complained; one `ModError` per archive with
      a non-empty error list, in the order of the archives. The first archive
      that cannot be read, or whose listing makes the parser throw, ends the
      run with that error. */
  function GatherModDataFromArchives(fs: Fs, archives: seq<LegacyArchive>, withAutomatFiles: bool): (r: Result<ModData, Thrown>)
    ensures r.Success? ==>
              && |r.value.mods| == |archives|
              && forall i :: 0 <= i < |archives| ==>
                   && Outcomes(fs, archives, withAutomatFiles)[i].Success?
                   && r.value.mods[i] == LegacyMod(archives[i].modName, Outcomes(fs, archives, withAutomatFiles)[i].value.pathList)
    ensures r.Success? ==>
              var es := ErrorRecords(archives, Sequence(Outcomes(fs, archives, withAutomatFiles)).value);
              && IsSubsequence(r.value.modErrors, es)
              && (forall e :: e in r.value.modErrors <==> e in es && |e.errors| > 0)
              && forall e :: multiset(r.value.modErrors)[e] == if |e.errors| > 0 then multiset(es)[e] else 0
    ensures r.Failure? ==>
              var rs := Outcomes(fs, archives, withAutomatFiles);
              exists i :: 0 <= i < |archives| && rs[i] == Failure(r.error) && forall j :: 0 <= j < i ==> rs[j].Success?
  {
    var contents :- Sequence(Outcomes(fs, archives, withAutomatFiles));
    var es := ErrorRecords(archives, contents);
    FilterIsSubsequence(es, Reported);
    forall e ensures multiset(Filter(es, Reported))[e] == if |e.errors| > 0 then multiset(es)[e] else 0 {
      FilterCounts(es, Reported, e);
    }
    Success(ModData(ModsOf(archives, contents), Filter(es, Reported)))
  }

  /** Read per archive: an archive's error record is reported exactly when its
      listing complained, so a run reports nothing exactly when no archive's
      listing did. */
  lemma ModErrorsPerArchive(fs: Fs, archives: seq<LegacyArchive>, withAutomatFiles: bool)
    requires GatherModDataFromArchives(fs, archives, withAutomatFiles).Success?
    ensures var r := GatherModDataFromArchives(fs, archives, withAutomatFiles).value;
            var rs := Outcomes(fs, archives, withAutomatFiles);
            && (forall i :: 0 <= i < |archives| ==>
                  (ModError(archives[i].modName, rs[i].value.errors) in r.modErrors <==> |rs[i].value.errors| > 0))
            && (r.modErrors == [] <==> forall i :: 0 <= i < |archives| ==> rs[i].value.errors == [])
  {
    var r := GatherModDataFromArchives(fs, archives, withAutomatFiles).value;
    var rs := Outcomes(fs, archives, withAutomatFiles);
    var contents := Sequence(rs).value;
    var es := ErrorRecords(archives, contents);
    forall i | 0 <= i < |archives| ensures es[i] == ModError(archives[i].modName, rs[i].value.errors) {
      assert rs[i] == Success(contents[i]);
    }
    ReportedIff(es, r.modErrors);
  }

  lemma ReportedIff(es: seq<ModError>, kept: seq<ModError>)
    requires forall e :: e in kept <==> e in es && |e.errors| > 0
    ensures forall i :: 0 <= i < |es| ==> (es[i] in kept <==> |es[i].errors| > 0)
    ensures kept == [] <==> forall i :: 0 <= i < |es| ==> es[i].errors == []
  {
    if kept != [] {
      var e := kept[0];
      assert e in es;
      var i :| 0 <= i < |es| && es[i] == e;
      assert es[i].errors != [];
    }
  }
}
