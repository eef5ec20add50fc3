/** The boundary to everything the pipeline does not compute itself: thrown
    values, and the file system and archive tool as plain functions of a path. */
module Host {
  import opened Wrappers
  import opened Seqs

  /** A value raised by `throw`: an `Error` object or a bare value (the legacy code
      throws bare strings). */
  datatype Thrown = ErrorObject(message: string) | RawValue(value: string) {

    /** What the `catch` blocks keep: `error instanceof Error ? error.message : error`. */
    function Caught(): string {
      match this
      case ErrorObject(m) => m
      case RawValue(v) => v
    }

    /** JavaScript truthiness of the thrown value: an object is always truthy. */
    predicate Truthy() {
      ErrorObject? || value != ""
    }
  }

  /** What the legacy in-process 7-Zip build hands back for one archive: the
      lines it printed (each followed by `\n`) and the lines it printed to
      its error channel. */
  datatype ToolRun = ToolRun(output: string, errors: seq<string>)

  /** The collaborators, each a function of the path it is given.
      - `listArchive`: stdout of `7za l -ba <path>`, or what `execFileSync` throws;
      - `listWithWasm`: the legacy 7z-wasm listing of an archive, or what reading
        the archive file throws;
      - `readDir`: `fs.readdirSync`;
      - `readFile`: `fs.readFileSync(path, 'utf-8')`;
      - `pathExists`: `fs.existsSync`;
      - `isDirectory`: `fs.lstatSync(path).isDirectory()`;
      - `extractManifest`: `7za x <archive> manifest.sii` into the scratch directory
        followed by reading the extracted file. */
  datatype Fs = Fs(
    listArchive: string -> Result<string, Thrown>,
    listWithWasm: string -> Result<ToolRun, Thrown>,
    readDir: string -> Result<seq<string>, Thrown>,
    readFile: string -> Result<string, Thrown>,
    pathExists: string -> bool,
    isDirectory: string -> bool,
    extractManifest: string -> Result<string, Thrown>)

  /** `path.join(dir, name)`, without Node's normalisation of `.`/`..` segments. */
  function JoinPath(dir: string, name: string): string {
    dir + "/" + name
  }

  /** `path.basename(p)`: what follows the last `/`. */
  function Basename(p: string): (b: string)
    ensures '/' !in b
    ensures |b| <= |p| && b == p[|p| - |b|..]
  {
    if |p| == 0 || p[|p| - 1] == '/' then []
    else
      var b := Basename(p[..|p| - 1]) + [p[|p| - 1]];
      assert p[..|p| - 1][|p| - |b|..] + [p[|p| - 1]] == p[|p| - |b|..];
      b
  }

  /** The last segment of a joined path is the name that was joined, as long as
      that name is a single directory entry. */
  lemma {:induction false} BasenameOfJoin(dir: string, name: string)
    requires '/' !in name
    ensures Basename(JoinPath(dir, name)) == name
    decreases |name|
  {
    var p := JoinPath(dir, name);
    if |name| > 0 {
      var init := name[..|name| - 1];
      var c := name[|name| - 1];
      SnocSplit(dir + "/", name);
      SnocParts(JoinPath(dir, init), c);
      BasenameOfJoin(dir, init);
    } else {
      assert p[|p| - 1] == '/';
    }
  }
}
