# scs-mod-comp-checker: the mod-conflict analysis, modelled in Dafny

scs-mod-comp-checker looks for conflicts between Euro Truck Simulator 2 and
American Truck Simulator mods. Two mods conflict when they ship the same file
path. Each mod is a `.scs`/`.zip` archive or folder in the mod directory, or an
item of the Steam workshop.

The tool works in stages:

1. It lists each archive with 7-Zip (`l -ba`) and parses that bare table into
   relative paths. Folders are read with `readdir` instead.
2. It turns every mod container into a `Mod` record. A container that cannot be
   read keeps its error and does not stop the run.
3. For a workshop item it picks the container to use. If there is more than
   one, it resolves `versions.sii` against the game version. It then reads the
   display name from `manifest.sii`.
4. It collects every path owned by more than one differently named mod.
5. It inverts those records into one entry per mod and writes the entries as a
   text tree. Each clash shows its first three paths and an "N more ..." line.

It also reads Steam's `libraryfolders.vdf` (Valve's KeyValues text format) to
find the game's library, and `appmanifest_<id>.acf` to find its install folder.
It takes the game version from the first token of the executable's file
version.

The repository carries two generations of this pipeline. The current one is
TypeScript: `src/analysis.ts` and `src/workshop.ts`. The legacy one is
JavaScript: `src/archive.js`, `src/analysis.js` and `src/workshop.js`. Both
share `src/result-files.js` and `src/lib/steam.js`. Where the two generations
differ, each is modelled separately:

- the `automat` versus `automat/` filter;
- `/`-or-`\` versus `/`-only paths;
- a display-name fallback versus a fatal error;
- owner labels with versus without the workshop suffix.

## Modelling approach

- **Inputs are parameters.** Every external input is given to the model:
  - the 7-Zip output;
  - file contents;
  - directory listings;
  - the answer of the version query;
  - environment values.

  The record `Host.Fs` collects the file-system collaborators as functions of
  the path.
- **Throws are results.** A thrown value is either an `Error` object or a bare
  value (`Host.Thrown`). A `throw` becomes the `Failure` of a `Result`. A
  `catch` that keeps `error.message ?? error` is `Thrown.Caught`.
- **Each regular expression is a small scanner.** There is no general regex
  engine. `Scan` handles `key\s*"([^"]+)"`. `Versions` handles the
  `package_version_info` block pattern. `Steam` handles the two VDF line
  patterns.
- **Each parser has a renderer proved against it.** `ListingRender`,
  `VersionsRender` and `SteamRender` write well-formed input and prove that
  the parser reads it back. For the listing that means its rows; for
  `versions.sii`, its blocks; for `libraryfolders.vdf`, its objects and
  libraries.
- **One shared fold.** `Grouping` is the insertion-ordered fold
  `key -> members`. The duplicate detector and the report inversion both use
  it, and it is proved against a first-filing characterisation.

Modules, roughly in pipeline order:

- `Wrappers`, `Seqs`, `Text`, `Scan`, `Host`, `Mods`: support and records;
- `Listing`, `ListingRender`: the listing parsers;
- `Analysis`, `LegacyGather`: the current and legacy mod materialisers;
- `Versions`, `VersionsRender`, `Workshop`, `LegacyWorkshop`: the workshop
  side;
- `Grouping`, `Detector`, `Analysis`, `LegacyAnalysis`: duplicate detection;
- `Report`, `ReportText`: the report;
- `Steam`, `SteamRender`: the Steam files.

## Model

| member | source | states |
|---|---|---|
| Listing.NormalizeLine | src/analysis.ts:31-37 | Whatever the line, the only whitespace character left in the normalised line is the space (runs of spaces can remain where `undefined` or `0M Scan` was deleted), it holds no control character, and it has no space at either end. |
| Listing.ColumnsOf | src/analysis.ts:41-47 | A line with a path field always has an attribute field. |
| ListingRender.ColumnsOfRow | src/analysis.ts:41-47 | For a rendered row the third field is its attribute column. The path is its first path word followed directly by the other words joined with `_`. |
| Listing.EntryPath | src/analysis.ts:39-52 | A contributed path is never empty and holds no whitespace or control character. |
| Listing.EntryPathColumns | src/analysis.ts:41-52 | A line contributes a path only when its attribute field lacks `D` and a sixth field exists, and the path is that (stitched) field. |
| Listing.PathsOfLines | src/analysis.ts:50-55 | At most one path per line, and never an empty string (`filter(Boolean)`). Every path is clean. |
| Listing.ParseListing | src/analysis.ts:28-55 | The output is trimmed and split on line breaks. The result has at most one clean path per line. |
| Listing.ListFilesOfArchive | src/analysis.ts:4-56 | A failure of the archive tool is rethrown unchanged. Otherwise the result is the parse of its output. |
| ListingRender.ParseRendered | src/analysis.ts:28-55 | Round trip: for any table of well-formed rows, the parser returns exactly the non-directory rows' paths, in order, with extra words stitched by `_`. This holds with or without trailing blanks on each row. |
| ListingRender.NormalizeRow | src/analysis.ts:31-37 | A row with arbitrary blank runs between its columns normalises to its columns joined by single spaces. |
| ListingRender.EntryPathOfRow | src/analysis.ts:41-52 | A rendered row yields its stitched path exactly when it is not a directory row. |
| ListingRender.StitchedExample | src/analysis.ts:45-47 | `a/my file x.txt` is compared as `a/myfile_x.txt`. |
| ListingRender.ParseEmpty | src/analysis.ts:28-55 | An empty listing yields no paths: the single empty line is dropped. |
| Listing.LegacyEntryPath | src/archive.js:79-99 | Every kept path is clean and contains `/`. Unless automat files are wanted, it does not start with `automat/`. A thrown error is always the `includes`-of-undefined TypeError. |
| Listing.LegacyEntryPathColumns | src/archive.js:81-99 | A line throws exactly when its attribute field is non-empty and lacks `D` but there is no sixth field. A kept path is the (stitched) sixth field of a line whose attribute field is non-empty and lacks `D`. |
| Listing.CollectFailure | src/archive.js:68-100 | The per-line loop fails exactly when some line throws, and then with the first such line's error. |
| Listing.LegacyPathsOfLines | src/archive.js:68-100 | On success, at most one path per line, each satisfying the legacy keep rule. |
| Listing.LegacyParseListing | src/archive.js:68-100 | The legacy parse fails only with the undefined-path TypeError. Every kept path satisfies the legacy keep rule. |
| Listing.LegacyParseThrowsIff | src/archive.js:81-95 | The legacy parse throws exactly when one of the trimmed output's lines does. |
| ListingRender.LegacyParseRendered | src/archive.js:68-100 | Round trip: a rendered table never makes the legacy parser throw. It yields the non-directory rows' paths that contain `/` and pass the `automat/` rule, in order. |
| ListingRender.LegacyEntryPathOfRow | src/archive.js:79-99 | A rendered row yields its stitched path exactly when the legacy keep rule accepts it, and never throws. |
| Analysis.GatherMod | src/analysis.ts:61-93 | The mod copies the container's name and workshop id. Three cases leave the file list empty and keep the error: a container with no path or with an error (`Could not get files of mod: ` + error); a failing listing, rethrown unchanged; and a failing `readdir`. Otherwise the files are the listing filtered by the keep rule. Every kept path contains `/` or `\` and, unless automat files are wanted, does not start with `automat`. |
| Analysis.GatheredFilesInOrder | src/analysis.ts:80-88 | The kept files are a subsequence of the listing, in original order. A top-level name (no `/` or `\`) never survives. |
| Analysis.AutomatPrefixDropsMore | src/analysis.ts:85 | `automaton/x` is dropped unless automat files are wanted, and kept when they are. |
| Analysis.GatherModData | src/analysis.ts:58-97 | Exactly one mod per container, in order, each as `GatherMod` gives it. |
| Analysis.Label | src/analysis.ts:132-136 | The owner label is never empty: a mod with neither workshop id nor name is labelled `-`. |
| Analysis.LabelsTellWorkshopCopiesApart | src/analysis.ts:132-134 | Two workshop mods with the same name but different workshop ids get different labels, because the id goes into the ` [WORKSHOP MOD - <id>]` suffix. |
| Analysis.AnalyseModsContent | src/analysis.ts:99-158 | Record paths are pairwise distinct and each record has an owner. The errors are exactly the mods with a truthy error: a subsequence of the input that holds every copy of each erroneous mod and no other mod (the `filter` of line 158). |
| Analysis.RecordedPaths | src/analysis.ts:116-151 | A path has a record exactly when some mod without error lists it and another mod with a different `modName` lists it too. |
| Analysis.RecordedOwners | src/analysis.ts:120-151 | Records come in mod-then-file discovery order. Each record holds, in mod order, one label for every listing of the path by a mod without error, whenever a differently named mod lists it. |
| Analysis.ErrorModsOwnNothing | src/analysis.ts:116-118 | Removing a mod with an error does not change the owners recorded for any path. |
| Detector.FindOther | src/analysis.ts:122 | `find` returns a mod that lists the path under a different name, and returns none exactly when no such mod exists. |
| Detector.Duplicates | src/analysis.ts:120-151 | The detector fold keeps one record per path. |
| Detector.DuplicatePaths | src/analysis.ts:120-151 | A path has a record exactly when it is discovered, and records follow the order of first discovery. |
| Detector.DuplicateOwners | src/analysis.ts:139-151 | A record's owners are the labels appended mod by mod: the first filing creates the record and later ones append to it. |
| Detector.OwnersOfDistinctListers | src/analysis.js:10-36 | When every mod is walked and lists a path at most once, and two mods with different names list it, the record has exactly one owner per listing mod, in mod order. |
| Detector.OwnersProvenance | src/analysis.ts:139-151 | Every recorded owner is the label of a walked mod that lists the path. |
| Grouping.GroupAllSpec | src/analysis.ts:130-151 | The append-or-create fold gives one group per distinct key, in order of first filing. Each group holds exactly that key's members, in filing order. |
| Grouping.GroupAllMembers | src/result-files.js:163-172 | A key has a group exactly when some event files it, and that group holds its members in filing order. |
| LegacyAnalysis.LegacyAnalyseModsContent | src/analysis.js:6-43 | Record paths are distinct. The errors are the `modName` of each `ModError`, in order. |
| LegacyAnalysis.LegacyRecordedPaths | src/analysis.js:10-33 | Every mod is walked, including mods the tool complained about. A path has a record exactly when some mod lists it and a mod with a different `modName` lists it too. |
| LegacyAnalysis.LegacyNoSharedNoRecords | src/analysis.js:10-33 | When no two differently named mods share a path, there are no records. |
| LegacyAnalysis.LegacyRecordedOwners | src/analysis.js:10-36 | Records come in mod-then-file discovery order. Owners are bare mod names: each one names a mod that lists the path. |
| LegacyAnalysis.LegacyDistinctOwners | src/analysis.js:10-36 | A path listed once each by k mods with pairwise different names has a record with exactly those k names, in mod order. |
| LegacyGather.ArchiveNames | src/archive.js:11-14 | Exactly the folder entries ending in `.scs` or `.zip`, in listing order. |
| LegacyGather.ArchivePathsOfDirectory | src/archive.js:10-25 | One record per archive entry, in listing order. Its path is inside the folder and its name is the basename. A failing `readdir` escapes. |
| LegacyGather.ArchiveNamesAreEntries | src/archive.js:17-24 | Every archive's name is one of the folder's archive entries. |
| LegacyGather.ListArchive | src/archive.js:32-109 | The archive tool's failure escapes. Otherwise the result is the legacy parse of its output, with the tool's error lines passed along. A parse throw also escapes. |
| LegacyGather.GatherModDataFromArchives | src/archive.js:116-150 | One mod per archive, in order, holding the kept paths even when the tool reported errors. The `ModError`s are a subsequence of the per-archive error records that holds every copy of each record with a non-empty error list and no other record, so there is one per complaining archive, in archive order. The first archive that throws ends the run with that error. |
| LegacyGather.ModErrorsPerArchive | src/archive.js:120-132 | An archive's error record is reported exactly when its listing complained, and a run reports no errors exactly when no listing complained. |
| Versions.BodiesHaveNoBrace | src/workshop.ts:155-162 | The lazy block body stops at the first `}`, so no captured body contains one: nesting is unsupported. |
| Versions.PackageNameOf | src/workshop.ts:165-166 | The first `package_name` value, or the sentinel `THIS_CAN_NOT_HAPPEN_PROVE_ME_WRONG`. |
| Versions.BlockOf | src/workshop.ts:163-174 | `universal` holds exactly when the block has no compatible version. Every listed version is a captured non-empty value. |
| Versions.ParseVersionSii | src/workshop.ts:154-180 | One block per block-pattern match, in textual order, each read from its captured body. |
| VersionsRender.ParseRendered | src/workshop.ts:154-180 | Round trip: every well-formed `versions.sii` parses back to its blocks, in order. The parse gives the package name or the sentinel, all compatible versions in order, and `universal` exactly when there are none. |
| VersionsRender.ParseOfBodies | src/workshop.ts:163-176 | Any text whose block bodies are the written ones parses to the expected blocks. |
| Versions.LegacyParseVersionSii | src/workshop.js:138-166 | The legacy parse: one block per match, in textual order. |
| Versions.LegacyParseAgrees | src/workshop.js:138-166 | The legacy and current parsers agree on every file. |
| Versions.SelectPackage | src/workshop.ts:117-139 | The chosen package belongs to some block. Nothing is chosen exactly when no block is compatible and none is universal. |
| Versions.SelectPackageRule | src/workshop.ts:117-139 | Block `i` is chosen exactly when it is the first compatible block, or, with none compatible, the first universal block. A pattern is compatible when its prefix without the last character is non-empty and occurs in the game version. |
| Versions.ShortPatternNeverMatches | src/workshop.ts:126-127 | A pattern of at most one character (such as `*`) never matches. |
| Versions.ContainmentMatch | src/workshop.ts:128 | Matching is containment: `11.34.5` matches `1.34.*`. |
| Versions.SelectionExample | src/workshop.ts:117-139 | Blocks `a: ["1.2.*"]` and `b: []` give `a` for `1.2.9` and `b` for `3.0.0`. |
| Versions.ResolveContainer | src/workshop.ts:111-152 | A failing read of `versions.sii` escapes. A resolved container is the mod directory joined with one of its entries. |
| Versions.ResolveContainerCases | src/workshop.ts:132-151 | With no selectable package, the result is the error naming the mod path. Otherwise it is the first entry containing the package name, or the container error when no entry does. |
| Workshop.DisplayName | src/workshop.ts:93-103 | A display name is a captured non-empty value without `"`. |
| Workshop.DisplayNameOfLines | src/workshop.ts:93-103 | Only the first line that mentions `display_name:` is read: earlier lines and later lines do not matter. |
| Workshop.DisplayNameAbsent | src/workshop.ts:93-103 | With no line mentioning the key, there is no display name. |
| Workshop.ModNameFromManifest | src/workshop.ts:69-104 | A failing manifest read escapes. Otherwise the name is the display name, or `NO_DISPLAY_NAME` when there is none. It is never empty. |
| Workshop.ContainersOf | src/workshop.ts:27-28 | Exactly the entries whose name does not contain `versions.sii`. |
| Workshop.ChooseContainer | src/workshop.ts:36-43 | A single remaining entry is used directly. Otherwise the `versions.sii` resolver decides. |
| Workshop.ExtractModData | src/workshop.ts:21-67 | Only the item directory's `readdir` escapes. Every record carries the directory basename as workshop id, and has a mod name exactly when it has no error. Without an error, `isArchive` holds exactly when the path ends in `.scs` or `.zip`. |
| Workshop.ExtractModDataCases | src/workshop.ts:36-64 | The three outcomes once the directory is listed. A failed choice leaves the path unset, `isArchive` true and the caught message as error. A failed manifest read keeps the path, with the caught message as error. Success names the mod. |
| Workshop.ExtractAll | src/workshop.ts:13-16 | One record per item directory, in order. The scan fails exactly when some item directory cannot be listed. |
| Workshop.ItemDirs | src/workshop.ts:7-9 | Exactly the joined entries that are directories, in listing order: a subsequence of the joined entries holding every copy of each directory and no other path. |
| Workshop.ListWorkshopArchives | src/workshop.ts:6-19 | A failing listing of the workshop folder escapes. Otherwise there is one record per item directory, in order, each the result of `ExtractModData` for that directory, with the directory's basename as workshop id. The call fails exactly when the folder or some item directory cannot be listed. |
| Workshop.WorkshopIdsAreEntries | src/workshop.ts:6-19 | Every record's workshop id is one of the workshop folder's entries. |
| LegacyWorkshop.ArchiveToUse | src/workshop.js:33-55 | An archive is chosen exactly when exactly one entry contains `.zip` or `.scs` (containment, not a suffix test), and it is that entry. |
| LegacyWorkshop.LegacyModName | src/workshop.js:86-111 | A failing extraction escapes. A manifest without a display name throws the bare string `Could not determine workshop mod name from manifest`: there is no fallback. |
| LegacyWorkshop.LegacyExtractModData | src/workshop.js:30-78 | Only the directory's `readdir` escapes, and the record always points at the item directory. A record with an error is named after the directory. With no unique archive the error is `Could not determine archive name of workshop mod`. Otherwise the name is the display name, or the error is the caught message or bare string. |
| LegacyWorkshop.LegacyExtractAll | src/workshop.js:17-20 | One record per item directory, in order. The scan fails exactly when some item directory cannot be listed. |
| LegacyWorkshop.LegacyListWorkshopArchives | src/workshop.js:12-22 | The answer is always the empty list. Only an unreadable folder or item directory makes it throw instead. |
| Report.BuildResultPrintStructure | src/result-files.js:105-127 | Exactly one entry per owner named in any record, each named once, each holding that owner's clashes. |
| Report.EntriesInFirstSeenOrder | src/result-files.js:110-114 | Entries come in the order their owner first appears across the records. |
| Report.CopiesIff | src/result-files.js:142-144 | The copies are exactly the records naming the mod, with the first occurrence of the mod taken out. The input records are left as they are. |
| Report.ConflictsForMod | src/result-files.js:136-183 | Each partner appears once. |
| Report.PartnerFilesIff | src/result-files.js:163-172 | A path is among a partner's files exactly when some copied record has that path and names the partner. |
| Report.ConflictsForModOrder | src/result-files.js:163-182 | Partners come in first-appearance order. Each partner's paths follow record order. |
| Report.ListsIff | src/result-files.js:142-172 | Inversion: M's entry lists B with F exactly when a record for F names M and, once the first M is taken out, still names B. |
| Report.ListsSymmetric | src/result-files.js:142-172 | With pairwise distinct labels in each record: if A lists B with F, then B lists A with F, and A and B differ. |
| ReportText.FilesToDisplay | src/result-files.js:51-59 | With the all-files flag the paths are shown unchanged and no hint is added. |
| ReportText.Truncation | src/result-files.js:51-59 | Without the flag the display is the first min(3, n) paths, followed by `<n-3> more ...` exactly when n > 3. |
| ReportText.TruncationExample | src/result-files.js:51-59 | Five paths show as three paths and `2 more ...`. |
| ReportText.ConflictConnectors | src/result-files.js:34-77 | Connectors and keywords: the last clash uses `└` and the others `├`. With mod names only, no file lines appear. Otherwise the file lines show the displayed paths in order, only the last uses `└`, and the keyword is `and` on the hint line alone. |
| ReportText.ErrorString | src/result-files.js:8-10 | The error heading is empty exactly when there are no errors. Otherwise it names every failed mod. |
| ReportText.FlagHintsCases | src/result-files.js:85-91 | The `-a` hint appears with mod names only or when not all files are shown. The `-m` hint appears unless mod names only is asked. |
| ReportText.WriteResults | src/result-files.js:7-93 | With no records nothing is written. Otherwise the text starts with the error heading and a blank line, and ends with the flag hints and the fine print. |
| ReportText.SectionsWritten | src/result-files.js:31-83 | Every entry of the report structure has its section in the text. |
| ReportText.CurrentErrorNamesShown | src/result-files.js:8-10 | For the errors `analyseModsContent` keeps, the written heading is empty exactly when no mod failed, and otherwise contains the name of every failed mod that has one. |
| ReportText.LegacyErrorNamesAsWritten | index.js:25-27 | As written, the legacy error list of plain names reaches `mod.modName`, so every name is undefined. |
| ReportText.LegacyErrorNamesLost | src/result-files.js:9 | One failing archive `a.scs` is reported as an empty pair of quotes, not by name. |
| ReportText.LegacyErrorNames | src/analysis.js:40 | Corrected: the legacy names are passed as they are. |
| ReportText.LegacyErrorNamesShown | src/result-files.js:8-10 | Corrected: every failed archive's name appears in the error heading. |
| Steam.Get | src/lib/steam.js:165-171 | Looking up a key finds its field, or nothing exactly when no field has that key. |
| Steam.Put | src/lib/steam.js:171 | After an assignment the key reads back the value, and no other key changes. |
| Steam.PutKeys | src/lib/steam.js:171 | An assignment keeps the key order, and a new key goes last. |
| Steam.PutTwice | src/lib/steam.js:162-172 | Assigning a key twice equals assigning only the second value. |
| Steam.Lines | src/lib/steam.js:147-151 | Every line is non-empty and already trimmed. |
| Steam.Classify | src/lib/steam.js:157-186 | A line closes an object exactly when it is `}`. Keys and values are non-empty and quote-free. |
| Steam.KeyValueIff | src/lib/steam.js:162 | A line is a key-and-value line exactly when it is a quoted key, a non-empty whitespace gap and a quoted value, all of it. |
| Steam.OpenObjectIff | src/lib/steam.js:175 | A line opens an object exactly when it is a quoted non-empty key alone. |
| Steam.IgnoredBrace | src/lib/steam.js:157-186 | A `{` line is skipped. |
| Steam.IgnoredEmptyValue | src/lib/steam.js:162-186 | A key with an empty `""` value is skipped. |
| Steam.StepKeyValue | src/lib/steam.js:162-172 | A key line assigns the value in the innermost open object and changes nothing else. |
| Steam.DuplicateKeyOverwrites | src/lib/steam.js:171 | A later line for the same key overwrites the earlier value. |
| Steam.StepOpenObject | src/lib/steam.js:175-186 | A lone key opens a fresh empty object under that key in the innermost object, and the new object becomes innermost. |
| Steam.StepCloseObject | src/lib/steam.js:157-160 | `}` closes the innermost object, which its parent then holds under its key. |
| Steam.StepIgnored | src/lib/steam.js:156-187 | Other lines change nothing. |
| Steam.RunWhenClosed | src/lib/steam.js:165-182 | With every object closed, the loop fails exactly when a key or object line comes, with the message for the first such line. |
| Steam.RunAppend | src/lib/steam.js:156-187 | Running the loop over `a + b` is the loop over `a`, then over `b`. |
| Steam.ParseRoot | src/lib/steam.js:154-189 | A parse that closed the root fails when `libraryfolders` is read. |
| SteamRender.ParseRendered | src/lib/steam.js:146-189 | Round trip: every well-formed object written in Steam's layout (tabs, quoted keys, braces on their own lines, LF line ends) is read back as itself. |
| SteamRender.ParseRenderedCrlf | src/lib/steam.js:146-151 | The same round trip holds with CRLF line ends, because every `\r` is removed before the text is split into lines. |
| Steam.LibraryOf | src/lib/steam.js:190-196 | A library exists exactly for an object with an `apps` field. Its path is the `path` value, and its apps are the keys of `apps` in written order (see "## Left out" on integer keys). |
| Steam.LibrariesOf | src/lib/steam.js:189-199 | One library per value under `libraryfolders`, in order. A missing `libraryfolders` fails. The mapping fails exactly when one value has no `apps`. |
| SteamRender.ReadLibraryFolders | src/lib/steam.js:146-200 | Round trip: a `libraryfolders.vdf` written from libraries parses to exactly their paths, in order, and app ids, in written order (see "## Left out" on integer keys). |
| SteamRender.LibrariesOfRoot | src/lib/steam.js:189-199 | The libraries under keys `0`, `1`, … are read as their paths and app ids, in order; app ids in written order (see "## Left out" on integer keys). |
| Steam.SelectLibrary | src/lib/steam.js:22 | The chosen library is the first whose apps include the app id. None is chosen exactly when no library includes it. |
| Steam.InstallDir | src/lib/steam.js:39-44 | The install folder is non-empty, quote-free and trimmed. It exists exactly when the first `"installdir"` match trims to something non-empty. |
| Steam.InstallDirLeftmost | src/lib/steam.js:39 | The value is taken from the leftmost match in the manifest. |
| Steam.InstallDirOfField | src/lib/steam.js:39-40 | A manifest that starts with the `installdir` field yields its value. |
| Steam.ModDir | src/lib/steam.js:61-74 | A truthy custom mod directory is used as given. Without one, a missing user profile throws. Otherwise the directory is `Documents/<game>/mod` below the user profile, where the game folder is chosen by comparing the app id with the imported Euro Truck Simulator 2 id (a parameter; the program as written passes `Steam.ImportedEtsAppId`). |
| Steam.ModDirAsWritten | src/lib/steam.js:61-74 | As written, with the id import undefined, every game without a custom mod directory gets `Documents/American Truck Simulator/mod`, app `227300` included. |
| Steam.ModDirIntended | src/lib/steam.js:61-74 | Corrected: `Documents/Euro Truck Simulator 2/mod` exactly for app `227300`, the American Truck Simulator folder otherwise. |
| Steam.FindInLibraries | src/lib/steam.js:22-84 | With the imported id as a parameter, passed on to Steam.ModDir. The error cases are separate: no library with the app, a non-string path, a missing acf, an unreadable acf, and no install folder. On success the name is the acf's install folder, the game directory is `steamapps/common/<name>` and the workshop directory is `steamapps/workshop/content/<id>` in the selected library. The mod directory is what Steam.ModDir gives. |
| Steam.FindSteamGameInstall | src/lib/steam.js:13-84 | With the imported id as a parameter. A failure to read or parse `libraryfolders.vdf` escapes. Otherwise the game is looked up in the parsed libraries. |
| Steam.GameVersion | src/lib/steam.js:92-115 | A version exists exactly when the query for the executable path succeeds with a non-blank answer. It is then the first space-free token of the trimmed answer. The executable is chosen by the imported id, a parameter as for Steam.ModDir. |
| Steam.GameExePathAsWritten | src/lib/steam.js:94-99 | As written, the version of `bin/win_x64/amtrucks.exe` is queried for every game, app `227300` included. |
| Steam.GameExePathIntended | src/lib/steam.js:94-99 | Corrected: `eurotrucks2.exe` exactly for app `227300`, `amtrucks.exe` otherwise. |
| Steam.AsWrittenDiffersOnEts | src/lib/steam.js:61-99 | The as-written and corrected programs give a different mod folder, and query a different executable, exactly for app `227300`. |
| Steam.GameVersionOfAnswer | src/lib/steam.js:104-106 | An answer of the form token, space, more, surrounded by whitespace, yields the token. |
| Steam.GameVersionExample | src/lib/steam.js:104-106 | `1.57.2.4 (a7624b…)` gives `1.57.2.4`. |
| Steam.FirstTokenUnique | src/lib/steam.js:106 | Only one prefix has the shape of `split(' ').at(0)`. |
| Steam.GameChoiceAsWritten | src/lib/steam.js:71 | As written, Euro Truck Simulator 2 gets the American Truck Simulator folder and executable. |
| Steam.GameChoiceIntended | src/lib/steam.js:68-73 | Corrected: each game gets its own folder and executable. |
| Scan.FirstValueLeftmost | src/workshop.ts:95 | `match` returns the leftmost match. |
| Scan.FirstValueIsFirstOfAll | src/workshop.ts:165-168 | `match` gives the first of the values that `matchAll` gives. |
| Host.BasenameOfJoin | src/archive.js:15-20 | The basename of a joined path is the name that was joined, when the name holds no `/`. |

## Left out

- 7-Zip process plumbing: spawning the tool, the wasm build, and the scratch-file writes in `src/archive.js:36-53`. The tool's output, error lines and failure are the parameters `listArchive`/`listWithWasm`.
- Manifest extraction to the temporary directory (`src/workshop.ts:75-89`, `src/workshop.js:89-100`). It is the parameter `extractManifest`, and its failure escapes as the source's throw would.
- File-system calls (`readdirSync`, `readFileSync`, `existsSync`, `lstat`). They are parameters of `Host.Fs`.
- `Host.JoinPath`: `path.join`/`path.resolve` are modelled as `dir + "/" + name`. Node's normalisation of `.`, `..`, duplicate separators and Windows drive letters is not modelled.
- `Host.Basename`: only `/` separates segments.
- The process environment (`USERPROFILE`) is a parameter.
- The registry and PowerShell queries (`src/lib/steam.js:101-103, 120-138`). The version query is the parameter `versionOf`. `process.exit(1)` after a failed version query (`src/lib/steam.js:111-114`) becomes `None`.
- Console output, `process.exit` and the result-file write in `writeResults` (`src/result-files.js:12-16, 93-97`). With no records, the model writes nothing.
- The progress bar (`src/analysis.ts:103-114, 156`): it is stdout output with floating-point rounding.
- Module-load side effects: the Steam root lookup and the stray `findSteamGameInstall('227300')` call at `src/lib/steam.js:202-204`.
- Argument parsing and the orchestration in `index.ts`/`index.js`, apart from the error-name hand-over of the finding below.
- Report.ConflictsForMod: partners are in first-appearance (insertion) order. JavaScript objects list integer-like keys first, in numeric order (`src/result-files.js:174`), so a mod named like `"12"` would be listed first. The model also does not throw where the source does: `result[mod]` is read on a plain `{}` (lines 163-169), so a label equal to an `Object.prototype` key (`constructor`, `toString`, `valueOf`, `hasOwnProperty`, `__proto__`) finds an inherited value and the following `.push` throws a TypeError. Real labels end in `.scs`/`.zip` or carry the workshop suffix, so the pipelines never produce such a label.
- Steam.LibraryOf / SteamRender.ReadLibraryFolders / SteamRender.LibrariesOfRoot: the app ids are the keys of `apps` in written order. `Object.keys` (`src/lib/steam.js:193`) lists integer-like keys, which Steam app ids always are, in ascending numeric order, so a file that writes `270880` before `227300` gives `["227300", "270880"]` in the source. The ids as a collection agree, and their only use, the `includes` test of `src/lib/steam.js:22`, does not depend on their order.
- Steam.LibrariesOf: libraries follow insertion order for the same reason. Steam's own keys `"0"`, `"1"`, … are written in order, so the two agree on real files.
- Steam.Put: object fields are an insertion-ordered list. Keys such as `__proto__`, which JavaScript treats specially, are not modelled.
- Steam.ModDir / Steam.GameExePath: the imported Euro Truck Simulator 2 id is the parameter `etsId`, passed through Steam.FindInLibraries, Steam.FindSteamGameInstall and Steam.GameVersion. The program as written is the instance `Steam.ImportedEtsAppId` (undefined), which gives every game the American Truck Simulator folder and executable; `Steam.IntendedEtsAppId` is the corrected instance of the finding below.
- Steam.FindInLibraries: the message of Node's `path.join` TypeError for a non-string library path is modelled without its variable `Received …` tail.
- ReportText.ErrorString: only says the heading is empty exactly when there are no errors, and names every failed mod. The exact text is what `WriteResults` puts at the head of the output.
- Listing.NormalizeLine: the contract gives the shape of the normalised line, not the deletion of `undefined` and `0M Scan` from damaged lines. For rendered rows, `ListingRender.NormalizeRow` gives the exact result.
- Listing.ParseListing: the contract bounds the result and gives its cleanliness. The exact result is proved by `ListingRender.ParseRendered` for well-formed tables rather than stated for arbitrary text.
- `src/workshop.js` `_getArchiveToAnalyzeFromVersionsSii` is not part of this model; only its `_parseVersionSii` is (`Versions.LegacyParseVersionSii`).

## Findings

| source | as written | input that shows it | evidently intended | confidence | as-written member | corrected member |
|---|---|---|---|---|---|---|
| index.js:25-27 | The legacy entry point passes `ModData`'s error list to `writeResults`. That list holds plain archive names (`src/analysis.js:40`), but `src/result-files.js:9` reads `mod.modName` from each entry, so every name renders as empty. | one archive `a.scs` whose listing reports an error | the heading lists `"a.scs"` | not executed | ReportText.LegacyErrorNamesAsWritten / ReportText.LegacyErrorNamesLost | ReportText.LegacyErrorNames / ReportText.LegacyErrorNamesShown |
| src/lib/steam.js:4 | `ETS_APP_ID` is imported from `src/lib/args.js`, which exports only `PRG_ARGS` (lines 139-141). The comparisons at lines 71 and 98 therefore never hold. | app id `227300` (Euro Truck Simulator 2) | the `Euro Truck Simulator 2` mod folder and `eurotrucks2.exe` | not executed | Steam.GameChoiceAsWritten, Steam.ModDirAsWritten, Steam.GameExePathAsWritten | Steam.GameChoiceIntended, Steam.ModDirIntended, Steam.GameExePathIntended |
