/** The `versions.sii` resolver of workshop mods: the hand-rolled block grammar
    that reads `package_version_info` blocks, and the rule that picks the
    package to analyse for the running game version. */
module Versions {
  import opened Wrappers
  import opened Text
  import opened Scan
  import opened Host

  const VersionsFile: string := "versions.sii"
  const BlockKeyword: string := "package_version_info"
  const PackageNameKey: string := "package_name:"
  const CompatibleKey: string := "compatible_versions[]:"

  /** The package name reported for a block that names no package. */
  const MissingPackageName: string := "THIS_CAN_NOT_HAPPEN_PROVE_ME_WRONG"

  /** One `package_version_info` block as the resolver sees it. */
  datatype VersionBlock = VersionBlock(packageName: string, compatibleVersions: seq<string>, universal: bool)

  // ---------------------------------------------------------------------------
  // The block pattern `package_version_info\s*:\s*([^\s]+)\s*\{([\s\S]*?)\}`

  // The scanner walks offsets of one text rather than its suffixes.

  /** The end of the `\s*` run that starts at offset `i`. */
  function SkipWs(t: string, i: nat): (j: nat)
    requires i <= |t|
    ensures i <= j <= |t|
    decreases |t| - i
  {
    if i == |t| || !IsWs(t[i]) then i else SkipWs(t, i + 1)
  }

  /** The end of the greedy `[^\s]+` run that starts at offset `i`. */
  function TokenEnd(t: string, i: nat): (j: nat)
    requires i <= |t|
    ensures i <= j <= |t|
    decreases |t| - i
  {
    if i == |t| || IsWs(t[i]) then i else TokenEnd(t, i + 1)
  }

  /** The first `}` at or after offset `i`. */
  function CloseAt(t: string, i: nat): (r: Option<nat>)
    requires i <= |t|
    ensures r.Some? ==> i <= r.value < |t| && t[r.value] == '}'
    decreases |t| - i
  {
    if i == |t| then None else if t[i] == '}' then Some(i) else CloseAt(t, i + 1)
  }

  /** `\{([\s\S]*?)\}` at offset `o`: the text up to the first `}` after the
      brace, and the offset right after that `}`. */
  function BracedAt(t: string, o: nat): (r: Option<(string, nat)>)
    requires o <= |t|
    ensures r.Some? ==> o < r.value.1 <= |t|
  {
    if o < |t| && t[o] == '{' then
      match CloseAt(t, o + 1)
      case None => None
      case Some(c) => Some((t[o + 1..c], c + 1))
    else None
  }

  /** The token starts at `q`; backtracking tries every token end `k` from the
      end of the greedy run down to `q + 1`, each followed by `\s*` and a braced
      body. */
  function BlockFrom(t: string, q: nat, k: nat): (r: Option<(string, nat)>)
    requires k <= |t|
    ensures r.Some? ==> q < r.value.1 <= |t|
    decreases k
  {
    if k <= q then None
    else
      match BracedAt(t, SkipWs(t, k))
      case Some(b) => Some(b)
      case None => BlockFrom(t, q, k - 1)
  }

  // The keyword is a parameter of the scanner: the grammar is stated for any
  // keyword and used with `BlockKeyword`.

  /** Offset of the token: after the keyword, `\s*`, the colon and `\s*`. Giving
      back whitespace in either `\s*` cannot help, since neither `:` nor the
      token can start with whitespace. */
  function TokenStart(t: string, keyword: string): (r: Option<nat>)
    ensures r.Some? ==> |keyword| < r.value <= |t|
  {
    if !StartsWith(t, keyword) then None
    else
      var c := SkipWs(t, |keyword|);
      if c < |t| && t[c] == ':' then Some(SkipWs(t, c + 1)) else None
  }

  /** The block pattern anchored at the start of `t`: the captured body and the
      length of the whole match. */
  function BlockAt(t: string, keyword: string): (r: Option<(string, nat)>)
    ensures r.Some? ==> 0 < r.value.1 <= |t|
  {
    match TokenStart(t, keyword)
    case None => None
    case Some(q) => BlockFrom(t, q, TokenEnd(t, q))
  }

  /** The bodies of successive non-overlapping block matches, left to right
      (the `exec` loop of a global regular expression). */
  function Bodies(t: string, keyword: string): (bs: seq<string>)
    decreases |t|
  {
    match BlockAt(t, keyword)
    case Some((b, len)) => [b] + Bodies(t[len..], keyword)
    case None => if |t| == 0 then [] else Bodies(t[1..], keyword)
  }

  /** The lazy body stops at the first `}`: no captured body holds one. */
  lemma {:induction false} BodiesHaveNoBrace(t: string, keyword: string)
    ensures forall i :: 0 <= i < |Bodies(t, keyword)| ==> '}' !in Bodies(t, keyword)[i]
    decreases |t|
  {
    BlockAtNoBrace(t, keyword);
    match BlockAt(t, keyword)
    case Some((b, len)) => BodiesHaveNoBrace(t[len..], keyword);
    case None => if |t| > 0 { BodiesHaveNoBrace(t[1..], keyword); }
  }

  lemma BlockAtNoBrace(t: string, keyword: string)
    ensures BlockAt(t, keyword).Some? ==> '}' !in BlockAt(t, keyword).value.0
  {
    if TokenStart(t, keyword).Some? {
      var q := TokenStart(t, keyword).value;
      BlockFromNoBrace(t, q, TokenEnd(t, q));
    }
  }

  lemma {:induction false} BlockFromNoBrace(t: string, q: nat, k: nat)
    requires k <= |t|
    ensures BlockFrom(t, q, k).Some? ==> '}' !in BlockFrom(t, q, k).value.0
    decreases k
  {
    if k > q {
      BracedBodyNoBrace(t, SkipWs(t, k));
      BlockFromNoBrace(t, q, k - 1);
    }
  }

  lemma BracedBodyNoBrace(t: string, o: nat)
    requires o <= |t|
    ensures BracedAt(t, o).Some? ==> '}' !in BracedAt(t, o).value.0
  {
    if o < |t| && t[o] == '{' && CloseAt(t, o + 1).Some? {
      var c := CloseAt(t, o + 1).value;
      CloseAtFirst(t, o + 1);
      var b := t[o + 1..c];
      assert forall j :: 0 <= j < |b| ==> b[j] == t[o + 1 + j];
    }
  }

  lemma {:induction false} CloseAtFirst(t: string, i: nat)
    requires i <= |t|
    ensures CloseAt(t, i).Some? ==> forall j :: i <= j < CloseAt(t, i).value ==> t[j] != '}'
    decreases |t| - i
  {
    if i < |t| && t[i] != '}' {
      CloseAtFirst(t, i + 1);
    }
  }

  // ---------------------------------------------------------------------------
  // Blocks

  /** The first `package_name` value, or the sentinel (`nameMatch && nameMatch[1]`). */
  function PackageNameOf(body: string): (name: string)
    ensures name == MissingPackageName || IsValue(name)
  {
    match FirstValue(body, PackageNameKey)
    case Some(v) => if v != [] then v else MissingPackageName
    case None => MissingPackageName
  }

  /** The legacy reading of the name, which tests only that the match exists. */
  function LegacyPackageNameOf(body: string): (name: string)
    ensures name == MissingPackageName || IsValue(name)
  {
    match FirstValue(body, PackageNameKey)
    case Some(v) => v
    case None => MissingPackageName
  }

  /** A captured value is never empty, so the two readings of the name agree. */
  lemma PackageNameReadingsAgree(body: string)
    ensures PackageNameOf(body) == LegacyPackageNameOf(body)
  {
  }

  function BlockOf(body: string): (b: VersionBlock)
    ensures b.universal <==> b.compatibleVersions == []
    ensures forall i :: 0 <= i < |b.compatibleVersions| ==> IsValue(b.compatibleVersions[i])
  {
    var versions := AllQuoted(body, CompatibleKey);
    VersionBlock(PackageNameOf(body), versions, |versions| == 0)
  }

  function LegacyBlockOf(body: string): (b: VersionBlock)
    ensures b.universal <==> b.compatibleVersions == []
  {
    var versions := AllQuoted(body, CompatibleKey);
    VersionBlock(LegacyPackageNameOf(body), versions, |versions| == 0)
  }

  /** `_parseVersionSii`: one block per block match, in textual order. */
  function ParseVersionSii(content: string): (blocks: seq<VersionBlock>)
    ensures |blocks| == |Bodies(content, BlockKeyword)|
    ensures forall i :: 0 <= i < |blocks| ==> blocks[i] == BlockOf(Bodies(content, BlockKeyword)[i])
  {
    var bodies := Bodies(content, BlockKeyword);
    seq(|bodies|, i requires 0 <= i < |bodies| => BlockOf(bodies[i]))
  }

  /** The legacy `_parseVersionSii`. */
  function LegacyParseVersionSii(content: string): (blocks: seq<VersionBlock>)
    ensures |blocks| == |Bodies(content, BlockKeyword)|
    ensures forall i :: 0 <= i < |blocks| ==> blocks[i] == LegacyBlockOf(Bodies(content, BlockKeyword)[i])
  {
    var bodies := Bodies(content, BlockKeyword);
    seq(|bodies|, i requires 0 <= i < |bodies| => LegacyBlockOf(bodies[i]))
  }

  /** Both variants read every file the same way. */
  lemma LegacyParseAgrees(content: string)
    ensures LegacyParseVersionSii(content) == ParseVersionSii(content)
  {
    var a := LegacyParseVersionSii(content);
    var b := ParseVersionSii(content);
    forall i | 0 <= i < |a| ensures a[i] == b[i] {
      PackageNameReadingsAgree(Bodies(content, BlockKeyword)[i]);
    }
  }

  // ---------------------------------------------------------------------------
  // Selection

  /** `version.slice(0, -1)`, then the truthiness test and `gameVersion.includes`. */
  predicate PatternMatches(pattern: string, gameVersion: string) {
    var prefix := if |pattern| == 0 then [] else pattern[..|pattern| - 1];
    prefix != [] && Contains(gameVersion, prefix)
  }

  predicate Compatible(b: VersionBlock, gameVersion: string) {
    exists i :: 0 <= i < |b.compatibleVersions| && PatternMatches(b.compatibleVersions[i], gameVersion)
  }

  /** The first block with a pattern matching the game version. */
  function FirstCompatible(blocks: seq<VersionBlock>, gameVersion: string): (r: Option<nat>)
    ensures r.Some? ==> r.value < |blocks| && Compatible(blocks[r.value], gameVersion)
    ensures r.Some? ==> forall j :: 0 <= j < r.value ==> !Compatible(blocks[j], gameVersion)
    ensures r.None? ==> forall j :: 0 <= j < |blocks| ==> !Compatible(blocks[j], gameVersion)
  {
    if |blocks| == 0 then None
    else if Compatible(blocks[0], gameVersion) then Some(0)
    else
      match FirstCompatible(blocks[1..], gameVersion)
      case None => None
      case Some(i) => Some(i + 1)
  }

  /** The first block flagged universal. */
  function FirstUniversal(blocks: seq<VersionBlock>): (r: Option<nat>)
    ensures r.Some? ==> r.value < |blocks| && blocks[r.value].universal
    ensures r.Some? ==> forall j :: 0 <= j < r.value ==> !blocks[j].universal
    ensures r.None? ==> forall j :: 0 <= j < |blocks| ==> !blocks[j].universal
  {
    if |blocks| == 0 then None
    else if blocks[0].universal then Some(0)
    else
      match FirstUniversal(blocks[1..])
      case None => None
      case Some(i) => Some(i + 1)
  }

  /** The package name chosen for the game version, if any block qualifies. */
  function SelectPackage(blocks: seq<VersionBlock>, gameVersion: string): (r: Option<string>)
    ensures r.Some? ==> exists i :: 0 <= i < |blocks| && r.value == blocks[i].packageName
    ensures r.None? <==> FirstCompatible(blocks, gameVersion).None? && FirstUniversal(blocks).None?
  {
    match FirstCompatible(blocks, gameVersion)
    case Some(i) => Some(blocks[i].packageName)
    case None =>
      match FirstUniversal(blocks)
      case Some(j) => Some(blocks[j].packageName)
      case None => None
  }

  /** The selection rule read off: the first compatible block wins; failing
      that, the first universal block; failing that, nothing. */
  lemma SelectPackageRule(blocks: seq<VersionBlock>, gameVersion: string, i: nat)
    requires i < |blocks|
    ensures (Compatible(blocks[i], gameVersion) && forall j :: 0 <= j < i ==> !Compatible(blocks[j], gameVersion))
            ==> SelectPackage(blocks, gameVersion) == Some(blocks[i].packageName)
    ensures ((forall j :: 0 <= j < |blocks| ==> !Compatible(blocks[j], gameVersion))
             && blocks[i].universal && forall j :: 0 <= j < i ==> !blocks[j].universal)
            ==> SelectPackage(blocks, gameVersion) == Some(blocks[i].packageName)
  {
    if Compatible(blocks[i], gameVersion) && forall j :: 0 <= j < i ==> !Compatible(blocks[j], gameVersion) {
      var r := FirstCompatible(blocks, gameVersion);
      assert r.Some? && r.value == i;
    }
    if (forall j :: 0 <= j < |blocks| ==> !Compatible(blocks[j], gameVersion))
       && blocks[i].universal && forall j :: 0 <= j < i ==> !blocks[j].universal {
      var u := FirstUniversal(blocks);
      assert u.Some? && u.value == i;
    }
  }

  /** A one-character pattern such as `"*"` never matches. */
  lemma ShortPatternNeverMatches(pattern: string, gameVersion: string)
    requires |pattern| <= 1
    ensures !PatternMatches(pattern, gameVersion)
  {
  }

  /** Matching is containment, not a prefix test: `"11.34.5"` matches `"1.34.*"`. */
  lemma ContainmentMatch()
    ensures PatternMatches("1.34.*", "11.34.5")
  {
    var gv := "11.34.5";
    assert OccursAt(gv, "1.34.", 1) by { assert gv[1..6] == "1.34."; }
    ContainsIff(gv, "1.34.");
  }

  /** Blocks `a: ["1.2.*"]` and `b: []` give `a` for `1.2.9` and `b` for `3.0.0`. */
  lemma SelectionExample()
    ensures var blocks := [VersionBlock("a", ["1.2.*"], false), VersionBlock("b", [], true)];
      && SelectPackage(blocks, "1.2.9") == Some("a")
      && SelectPackage(blocks, "3.0.0") == Some("b")
  {
    var blocks := [VersionBlock("a", ["1.2.*"], false), VersionBlock("b", [], true)];
    assert Compatible(blocks[0], "1.2.9") by {
      assert OccursAt("1.2.9", "1.2.", 0) by { assert "1.2.9"[0..4] == "1.2."; }
      ContainsIff("1.2.9", "1.2.");
      assert PatternMatches(blocks[0].compatibleVersions[0], "1.2.9");
    }
    SelectPackageRule(blocks, "1.2.9", 0);
    assert !Compatible(blocks[0], "3.0.0") by {
      assert blocks[0].compatibleVersions == ["1.2.*"];
      assert "1.2.*"[..4] == "1.2.";
      forall i: nat ensures !OccursAt("3.0.0", "1.2.", i) {
        if i == 0 {
          assert "3.0.0"[0..4][0] == '3';
        } else if i == 1 {
          assert "3.0.0"[1..5][0] == '.';
        }
      }
      ContainsIff("3.0.0", "1.2.");
    }
    assert !Compatible(blocks[1], "3.0.0");
    SelectPackageRule(blocks, "3.0.0", 1);
  }

  // ---------------------------------------------------------------------------
  // Resolution against the mod directory

  function NoArchiveError(modPath: string): string {
    "\nCould not determine archive of \"" + modPath + "\" to use for the current game version (also no universal archive)"
  }

  function NoContainerError(modPath: string): string {
    "\nCould not find container (archive or folder) in \"" + modPath
  }

  /** `_getArchiveToAnalyzeFromVersionsSii`: read and parse `versions.sii`, pick
      the package, then take the first directory entry whose name contains it. */
  function ResolveContainer(fs: Fs, modPath: string, gameVersion: string): (r: Result<string, Thrown>)
    ensures fs.readFile(JoinPath(modPath, VersionsFile)).Failure? ==> r == fs.readFile(JoinPath(modPath, VersionsFile)).PropagateFailure()
    ensures r.Success? ==> fs.readDir(modPath).Success? && exists e :: e in fs.readDir(modPath).value && r.value == JoinPath(modPath, e)
  {
    var content :- fs.readFile(JoinPath(modPath, VersionsFile));
    match SelectPackage(ParseVersionSii(content), gameVersion)
    case None => Failure(ErrorObject(NoArchiveError(modPath)))
    case Some(name) =>
      if name == [] then Failure(ErrorObject(NoArchiveError(modPath)))
      else
        var entries :- fs.readDir(modPath);
        match FindContaining(entries, name)
        case None => Failure(ErrorObject(NoContainerError(modPath)))
        case Some(i) => Success(JoinPath(modPath, entries[i]))
  }

  /** Resolution in full: with the file read and the directory listed, the
      result is the first entry containing the selected package name; no
      selectable package, or no entry containing it, is an error naming the
      mod directory. */
  lemma ResolveContainerCases(fs: Fs, modPath: string, gameVersion: string, content: string, entries: seq<string>)
    requires fs.readFile(JoinPath(modPath, VersionsFile)) == Success(content)
    requires fs.readDir(modPath) == Success(entries)
    ensures var sel := SelectPackage(ParseVersionSii(content), gameVersion);
      && (sel.None? ==> ResolveContainer(fs, modPath, gameVersion) == Failure(ErrorObject(NoArchiveError(modPath))))
      && (sel.Some? ==> match FindContaining(entries, sel.value)
                        case None => ResolveContainer(fs, modPath, gameVersion) == Failure(ErrorObject(NoContainerError(modPath)))
                        case Some(i) => ResolveContainer(fs, modPath, gameVersion) == Success(JoinPath(modPath, entries[i])))
  {
    var sel := SelectPackage(ParseVersionSii(content), gameVersion);
    if sel.Some? {
      var blocks := ParseVersionSii(content);
      var i :| 0 <= i < |blocks| && sel.value == blocks[i].packageName;
      assert sel.value != [];
    }
  }
}
