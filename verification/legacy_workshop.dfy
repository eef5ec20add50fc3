/** The legacy workshop scan (src/workshop.js). It picks an archive only when
    the item directory holds exactly one, demands a display name, and throws
    bare strings; its list function discards what it computed. */
module LegacyWorkshop {
  import opened Wrappers
  import opened Text
  import opened Seqs
  import opened Host
  import opened Mods
  import opened Workshop

  const NoArchiveName: string := "Could not determine archive name of workshop mod"
  const NoModName: string := "Could not determine workshop mod name from manifest"

  /** The archive test of lines 33-35: the name contains `.zip` or `.scs`
      anywhere, not necessarily at its end. */
  predicate MentionsArchive(name: string) {
    Contains(name, ".zip") || Contains(name, ".scs")
  }

  /** Lines 33-35 and 51-55: with exactly one archive-like entry, the first
      entry containing `.zip`, or else the first containing `.scs`. */
  function ArchiveToUse(entries: seq<string>): (r: Option<string>)
    ensures r.Some? <==> |Filter(entries, MentionsArchive)| == 1
    ensures r.Some? ==> r.value in Filter(entries, MentionsArchive)
  {
    var archives := Filter(entries, MentionsArchive);
    if |archives| != 1 then None
    else
      assert archives[0] in entries;
      match FindContaining(entries, ".zip")
      case Some(i) => Some(entries[i])
      case None =>
        match FindContaining(entries, ".scs")
        case Some(i) => Some(entries[i])
        case None => None
  }

  /** The strict `_getModNameFromManifest` (lines 86-111): the manifest must
      be extracted and must carry a display name on its first line mentioning
      `display_name:`, otherwise a bare string is thrown. */
  function LegacyModName(fs: Fs, archivePath: string): (r: Result<string, Thrown>)
    ensures fs.extractManifest(archivePath).Failure? ==> r == fs.extractManifest(archivePath).PropagateFailure()
    ensures fs.extractManifest(archivePath).Success? ==>
              match DisplayName(fs.extractManifest(archivePath).value)
              case Some(n) => r == Success(n)
              case None => r == Failure(RawValue(NoModName))
  {
    var content :- fs.extractManifest(archivePath);
    match DisplayName(content)
    case Some(n) => Success(n)
    case None => Failure(RawValue(NoModName))
  }

  /** The legacy `_extractModData` (lines 30-78): the record always points at
      the item directory; its name is the display name when everything worked
      and the directory's basename otherwise, in which case the caught message
      or bare string is kept as its error. */
  function LegacyExtractModData(fs: Fs, dir: string): (r: Result<LegacyArchive, Thrown>)
    ensures r.Failure? <==> fs.readDir(dir).Failure?
    ensures r.Failure? ==> r.error == fs.readDir(dir).error
    ensures r.Success? ==> r.value.path == dir
    ensures r.Success? && r.value.error.Some? ==> r.value.modName == Basename(dir)
    ensures r.Success? && ArchiveToUse(fs.readDir(dir).value).None? ==>
              r.value.error == Some(NoArchiveName)
    ensures r.Success? && ArchiveToUse(fs.readDir(dir).value).Some? ==>
              var m := LegacyModName(fs, JoinPath(dir, ArchiveToUse(fs.readDir(dir).value).value));
              && (m.Success? ==> r.value.modName == m.value && r.value.error.None?)
              && (m.Failure? ==> r.value.error == Some(m.error.Caught()))
  {
    var entries :- fs.readDir(dir);
    var fallback := Basename(dir);
    match ArchiveToUse(entries)
    case None => Success(LegacyArchive(dir, fallback, Some(NoArchiveName)))
    case Some(a) =>
      match LegacyModName(fs, JoinPath(dir, a))
      case Failure(t) => Success(LegacyArchive(dir, fallback, Some(t.Caught())))
      case Success(n) => Success(LegacyArchive(dir, n, None))
  }

  /** Every item directory in turn; a directory that cannot be listed escapes. */
  function LegacyExtractAll(fs: Fs, dirs: seq<string>): (r: Result<seq<LegacyArchive>, Thrown>)
    ensures r.Success? ==> |r.value| == |dirs|
    ensures r.Success? ==> forall i :: 0 <= i < |dirs| ==> LegacyExtractModData(fs, dirs[i]) == Success(r.value[i])
    ensures r.Failure? <==> exists i :: 0 <= i < |dirs| && fs.readDir(dirs[i]).Failure?
  {
    var rs := seq(|dirs|, i requires 0 <= i < |dirs| => LegacyExtractModData(fs, dirs[i]));
    assert forall i :: 0 <= i < |dirs| ==> (rs[i].Failure? <==> fs.readDir(dirs[i]).Failure?);
    Sequence(rs)
  }

  /** The legacy `getListOfWorkshopArchives` (lines 12-22): every item is
      examined, but the answer is always the empty list; only a directory that
      cannot be listed makes it throw instead. */
  function LegacyListWorkshopArchives(fs: Fs, workshopDir: string): (r: Result<seq<LegacyArchive>, Thrown>)
    ensures r.Success? ==> r.value == []
    ensures r.Failure? <==>
              || fs.readDir(workshopDir).Failure?
              || exists d :: d in ItemDirs(fs, workshopDir, fs.readDir(workshopDir).value) && fs.readDir(d).Failure?
  {
    var entries :- fs.readDir(workshopDir);
    var dirs := ItemDirs(fs, workshopDir, entries);
    var _ :- LegacyExtractAll(fs, dirs);
    Success([])
  }
}
