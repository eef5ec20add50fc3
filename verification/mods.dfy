/** The records that flow between the stages of the pipeline, for the current
    TypeScript code and for the legacy JavaScript code. */
module Mods {
  import opened Wrappers
  import opened Text
  import opened Host

  /** A place a mod's files can be read from, as found by the directory scans:
      a `.scs`/`.zip` archive or a plain folder. `path` and `modName` stay
      `undefined` when the workshop resolution failed before setting them, and
      `error` is what the catching block kept. */
  datatype ModContainer = ModContainer(
    path: Option<string>,
    modName: Option<string>,
    workshopId: Option<string>,
    isArchive: bool,
    error: Option<string>)

  /** A mod with the files it ships. `error` holds the thrown value itself
      (not its message) when its files could not be listed. */
  datatype Mod = Mod(
    modName: Option<string>,
    workshopId: Option<string>,
    files: seq<string>,
    error: Option<Thrown>)

  /** One path shipped by several mods, with the owner label of every mod that
      was found shipping it. */
  datatype Duplicate = Duplicate(filePath: string, mods: seq<string>)

  /** What the detectors hand to the report: the shared paths and the mods that
      could not be analysed (`Mod` records in the current code, names in the
      legacy code). */
  datatype AnalysisResult<E> = AnalysisResult(duplicates: seq<Duplicate>, errors: seq<E>)

  /** The legacy `ModArchive`: an archive path and the name to show for it. */
  datatype LegacyArchive = LegacyArchive(path: string, modName: string, error: Option<string>)

  /** The legacy `Mod`: name and listed paths. */
  datatype LegacyMod = LegacyMod(modName: string, files: seq<string>)

  /** The legacy `ModError`: what the archive tool reported for one archive. */
  datatype ModError = ModError(modName: string, errors: seq<string>)

  /** The legacy `ModData`: every listed mod, and the archives that reported errors. */
  datatype ModData = ModData(mods: seq<LegacyMod>, modErrors: seq<ModError>)

  /** JavaScript truthiness of a string that may be `undefined`/`null`. */
  predicate Truthy(s: Option<string>) {
    s.Some? && s.value != ""
  }

  /** The two archive formats the game loads, told apart by the name's ending. */
  predicate IsArchiveName(name: string) {
    EndsWith(name, ".scs") || EndsWith(name, ".zip")
  }
}
