/** Steam workshop mods (src/workshop.ts): every workshop item is a directory
    holding one or more containers (archives or folders) next to a
    `versions.sii`. The pipeline picks the container for the running game,
    reads the mod's display name from its `manifest.sii`, and records any
    failure on the container instead of stopping. */
module Workshop {
  import opened Wrappers
  import opened Text
  import opened Seqs
  import opened Scan
  import opened Host
  import opened Versions
  import opened Mods

  const ManifestFile: string := "manifest.sii"
  const DisplayNameKey: string := "display_name:"
  const NoDisplayName: string := "NO_DISPLAY_NAME"
  const NoArchiveName: string := "Could not determine archive name of workshop mod"

  // ---------------------------------------------------------------------------
  // Display name

  /** The quoted value after `display_name:` on the first line that mentions
      `display_name:` at all; later lines are never looked at. */
  function DisplayName(content: string): (r: Option<string>)
    ensures r.Some? ==> IsValue(r.value)
  {
    var lines := Split(content, '\n');
    match FindContaining(lines, DisplayNameKey)
    case None => None
    case Some(i) => FirstValue(lines[i], DisplayNameKey)
  }

  /** A line break never occurs in any of the lines. */
  predicate SingleLines(ls: seq<string>) {
    forall i :: 0 <= i < |ls| ==> '\n' !in ls[i]
  }

  /** Lines before the first mention of the key do not matter, and neither do
      the lines after it: the display name is whatever the first mentioning
      line yields, even when a later line would have matched. */
  lemma DisplayNameOfLines(before: seq<string>, line: string, after: seq<string>)
    requires SingleLines(before) && SingleLines(after) && '\n' !in line
    requires forall i :: 0 <= i < |before| ==> !Contains(before[i], DisplayNameKey)
    requires Contains(line, DisplayNameKey)
    ensures DisplayName(Join(before + [line] + after, "\n")) == FirstValue(line, DisplayNameKey)
  {
    var ls := before + [line] + after;
    SingleLinesConcat(before, line, after);
    SplitJoin(ls, '\n');
    FirstMention(ls, |before|);
    DisplayNameOfSplit(Join(ls, "\n"), ls, |before|);
  }

  lemma SingleLinesConcat(before: seq<string>, line: string, after: seq<string>)
    requires SingleLines(before) && SingleLines(after) && '\n' !in line
    ensures SingleLines(before + [line] + after)
  {
    var ls := before + [line] + after;
    forall i | 0 <= i < |ls| ensures '\n' !in ls[i] {
      if i < |before| {
        assert ls[i] == before[i];
      } else if i > |before| {
        assert ls[i] == after[i - |before| - 1];
      }
    }
  }

  /** The line at `k` is the first to mention the key. */
  lemma FirstMention(ls: seq<string>, k: nat)
    requires k < |ls| && Contains(ls[k], DisplayNameKey)
    requires forall i :: 0 <= i < k ==> !Contains(ls[i], DisplayNameKey)
    ensures FindContaining(ls, DisplayNameKey) == Some(k)
  {
  }

  lemma DisplayNameOfSplit(content: string, ls: seq<string>, k: nat)
    requires Split(content, '\n') == ls && k < |ls|
    requires FindContaining(ls, DisplayNameKey) == Some(k)
    ensures DisplayName(content) == FirstValue(ls[k], DisplayNameKey)
  {
  }

  /** With no line mentioning the key, there is no display name. */
  lemma DisplayNameAbsent(ls: seq<string>)
    requires |ls| >= 1 && SingleLines(ls)
    requires forall i :: 0 <= i < |ls| ==> !Contains(ls[i], DisplayNameKey)
    ensures DisplayName(Join(ls, "\n")).None?
  {
    SplitJoin(ls, '\n');
    NoMention(Join(ls, "\n"), ls);
  }

  lemma NoMention(content: string, ls: seq<string>)
    requires Split(content, '\n') == ls
    requires forall i :: 0 <= i < |ls| ==> !Contains(ls[i], DisplayNameKey)
    ensures DisplayName(content).None?
  {
  }

  /** Where the manifest is read from: extracted out of an archive, or the
      `manifest.sii` file inside a folder. */
  function ManifestText(fs: Fs, modPath: string, isArchive: bool): Result<string, Thrown> {
    if isArchive then fs.extractManifest(modPath) else fs.readFile(JoinPath(modPath, ManifestFile))
  }

  /** `_getModNameFromManifest` (lines 69-104): the display name, or the
      `NO_DISPLAY_NAME` placeholder when the manifest has none; only reading the
      manifest can fail. */
  function ModNameFromManifest(fs: Fs, modPath: string, isArchive: bool): (r: Result<string, Thrown>)
    ensures r.Failure? <==> ManifestText(fs, modPath, isArchive).Failure?
    ensures r.Failure? ==> r.error == ManifestText(fs, modPath, isArchive).error
    ensures r.Success? ==> r.value != ""
    ensures r.Success? ==> var d := DisplayName(ManifestText(fs, modPath, isArchive).value);
                           (d.Some? ==> r.value == d.value) && (d.None? ==> r.value == NoDisplayName)
  {
    var content :- ManifestText(fs, modPath, isArchive);
    match DisplayName(content)
    case Some(name) => Success(name)
    case None => Success(NoDisplayName)
  }

  // ---------------------------------------------------------------------------
  // Container choice

  predicate NotVersionsFile(name: string) {
    !Contains(name, VersionsFile)
  }

  /** The directory entries other than `versions.sii` (line 27-28). */
  function ContainersOf(entries: seq<string>): (cs: seq<string>)
    ensures forall c :: c in cs <==> c in entries && !Contains(c, VersionsFile)
  {
    Filter(entries, NotVersionsFile)
  }

  /** Lines 36-43: a single container is taken as it is, otherwise the
      `versions.sii` resolution decides. */
  function ChooseContainer(fs: Fs, dir: string, gameVersion: string, entries: seq<string>): (r: Result<string, Thrown>)
    ensures |ContainersOf(entries)| == 1 ==> r == Success(JoinPath(dir, ContainersOf(entries)[0]))
    ensures |ContainersOf(entries)| != 1 ==> r == ResolveContainer(fs, dir, gameVersion)
  {
    var cs := ContainersOf(entries);
    if |cs| == 1 then Success(JoinPath(dir, cs[0])) else ResolveContainer(fs, dir, gameVersion)
  }

  /** `_extractModData` (lines 21-67). Listing the directory is outside the
      `try` and its failure escapes; every later failure is caught and kept on
      the record as the `Error`'s message or the raw thrown value. The record
      always carries the directory's basename as workshop id, and it has a
      display name exactly when it has no error. */
  function ExtractModData(fs: Fs, dir: string, gameVersion: string): (r: Result<ModContainer, Thrown>)
    ensures r.Failure? <==> fs.readDir(dir).Failure?
    ensures r.Failure? ==> r.error == fs.readDir(dir).error
    ensures r.Success? ==> r.value.workshopId == Some(Basename(dir))
    ensures r.Success? ==> (r.value.error.None? <==> r.value.modName.Some?)
    ensures r.Success? && r.value.error.None? ==>
              r.value.path.Some? && r.value.isArchive == IsArchiveName(r.value.path.value)
  {
    var entries :- fs.readDir(dir);
    var id := Some(Basename(dir));
    match ChooseContainer(fs, dir, gameVersion, entries)
    case Failure(t) => Success(ModContainer(None, None, id, true, Some(t.Caught())))
    case Success(p) =>
      if p == "" then Success(ModContainer(Some(p), None, id, true, Some(NoArchiveName)))
      else
        var isArchive := IsArchiveName(p);
        match ModNameFromManifest(fs, p, isArchive)
        case Failure(t) => Success(ModContainer(Some(p), None, id, isArchive, Some(t.Caught())))
        case Success(name) => Success(ModContainer(Some(p), Some(name), id, isArchive, None))
  }

  /** The outcome of `_extractModData` once the directory is listed: a failed
      choice leaves the path unset and `isArchive` at its initial `true`; a
      failed manifest read keeps the chosen path; success names the mod. */
  lemma ExtractModDataCases(fs: Fs, dir: string, gameVersion: string, entries: seq<string>)
    requires fs.readDir(dir) == Success(entries)
    ensures var r := ExtractModData(fs, dir, gameVersion).value;
      match ChooseContainer(fs, dir, gameVersion, entries)
      case Failure(t) => r.path.None? && r.isArchive && r.error == Some(t.Caught())
      case Success(p) =>
        p != "" ==>
          && r.path == Some(p)
          && r.isArchive == IsArchiveName(p)
          && match ModNameFromManifest(fs, p, IsArchiveName(p))
             case Failure(t) => r.modName.None? && r.error == Some(t.Caught())
             case Success(name) => r.modName == Some(name) && r.error.None?
  {
  }

  // ---------------------------------------------------------------------------
  // All workshop items

  /** Every item in turn; the first item whose directory cannot be listed
      makes the whole scan fail. */
  function ExtractAll(fs: Fs, dirs: seq<string>, gameVersion: string): (r: Result<seq<ModContainer>, Thrown>)
    ensures r.Success? ==> |r.value| == |dirs|
    ensures r.Success? ==> forall i :: 0 <= i < |dirs| ==> ExtractModData(fs, dirs[i], gameVersion) == Success(r.value[i])
    ensures r.Failure? <==> exists i :: 0 <= i < |dirs| && fs.readDir(dirs[i]).Failure?
  {
    Sequence(seq(|dirs|, i requires 0 <= i < |dirs| => ExtractModData(fs, dirs[i], gameVersion)))
  }

  /** Every entry joined to the workshop folder, in listing order. */
  function JoinedEntries(workshopDir: string, entries: seq<string>): (paths: seq<string>)
    ensures |paths| == |entries| && forall i :: 0 <= i < |entries| ==> paths[i] == JoinPath(workshopDir, entries[i])
  {
    seq(|entries|, i requires 0 <= i < |entries| => JoinPath(workshopDir, entries[i]))
  }

  /** The paths of the directories inside the workshop folder, in listing
      order: the joined entries that are directories, every copy of them and
      nothing else. */
  function ItemDirs(fs: Fs, workshopDir: string, entries: seq<string>): (dirs: seq<string>)
    ensures forall d :: d in dirs <==> fs.isDirectory(d) && exists e :: e in entries && d == JoinPath(workshopDir, e)
    ensures IsSubsequence(dirs, JoinedEntries(workshopDir, entries))
    ensures forall d :: multiset(dirs)[d] == if fs.isDirectory(d) then multiset(JoinedEntries(workshopDir, entries))[d] else 0
  {
    var paths := JoinedEntries(workshopDir, entries);
    FilterIsSubsequence(paths, fs.isDirectory);
    forall d ensures multiset(Filter(paths, fs.isDirectory))[d] == if fs.isDirectory(d) then multiset(paths)[d] else 0 {
      FilterCounts(paths, fs.isDirectory, d);
    }
    assert forall d :: d in paths <==> exists e :: e in entries && d == JoinPath(workshopDir, e) by {
      forall d | d in paths ensures exists e :: e in entries && d == JoinPath(workshopDir, e) {
        var i :| 0 <= i < |paths| && paths[i] == d;
        assert entries[i] in entries;
      }
      forall e | e in entries ensures JoinPath(workshopDir, e) in paths {
        var i :| 0 <= i < |entries| && entries[i] == e;
        assert paths[i] == JoinPath(workshopDir, e);
      }
    }
    Filter(paths, fs.isDirectory)
  }

  /** `getListOfWorkshopArchives` (lines 6-19): one record per item directory,
      in listing order. */
  function ListWorkshopArchives(fs: Fs, workshopDir: string, gameVersion: string): (r: Result<seq<ModContainer>, Thrown>)
    ensures fs.readDir(workshopDir).Failure? ==> r.Failure?
    ensures r.Success? ==>
              var dirs := ItemDirs(fs, workshopDir, fs.readDir(workshopDir).value);
              && |r.value| == |dirs|
              && (forall i :: 0 <= i < |dirs| ==> ExtractModData(fs, dirs[i], gameVersion) == Success(r.value[i]))
              && forall i :: 0 <= i < |dirs| ==> r.value[i].workshopId == Some(Basename(dirs[i]))
    ensures r.Failure? <==>
              || fs.readDir(workshopDir).Failure?
              || exists d :: d in ItemDirs(fs, workshopDir, fs.readDir(workshopDir).value) && fs.readDir(d).Failure?
  {
    var entries :- fs.readDir(workshopDir);
    ExtractAll(fs, ItemDirs(fs, workshopDir, entries), gameVersion)
  }

  /** The workshop ids are the names of the item directories, since a
      directory entry's name holds no `/`. */
  lemma WorkshopIdsAreEntries(fs: Fs, workshopDir: string, gameVersion: string, entries: seq<string>)
    requires fs.readDir(workshopDir) == Success(entries)
    requires forall e :: e in entries ==> '/' !in e
    requires ListWorkshopArchives(fs, workshopDir, gameVersion).Success?
    ensures forall m :: m in ListWorkshopArchives(fs, workshopDir, gameVersion).value ==>
              m.workshopId.Some? && m.workshopId.value in entries
              && fs.isDirectory(JoinPath(workshopDir, m.workshopId.value))
  {
    var ms := ListWorkshopArchives(fs, workshopDir, gameVersion).value;
    var dirs := ItemDirs(fs, workshopDir, entries);
    assert |ms| == |dirs| && forall i :: 0 <= i < |dirs| ==> ms[i].workshopId == Some(Basename(dirs[i]));
    IdsOfItemDirs(fs, workshopDir, entries, dirs, ms);
  }

  lemma IdsOfItemDirs(fs: Fs, workshopDir: string, entries: seq<string>, dirs: seq<string>, ms: seq<ModContainer>)
    requires forall e :: e in entries ==> '/' !in e
    requires dirs == ItemDirs(fs, workshopDir, entries)
    requires |ms| == |dirs| && forall i :: 0 <= i < |dirs| ==> ms[i].workshopId == Some(Basename(dirs[i]))
    ensures forall m :: m in ms ==>
              m.workshopId.Some? && m.workshopId.value in entries
              && fs.isDirectory(JoinPath(workshopDir, m.workshopId.value))
  {
    forall m | m in ms
      ensures m.workshopId.Some? && m.workshopId.value in entries
              && fs.isDirectory(JoinPath(workshopDir, m.workshopId.value))
    {
      var i :| 0 <= i < |ms| && ms[i] == m;
      assert dirs[i] in dirs;
      var e :| e in entries && dirs[i] == JoinPath(workshopDir, e);
      BasenameOfJoin(workshopDir, e);
    }
  }
}
