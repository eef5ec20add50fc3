/** `versions.sii` text as mod authors write it, and the proof that the block
    grammar reads every well-formed file back block by block. */
module VersionsRender {
  import opened Wrappers
  import opened Text
  import opened Seqs
  import opened Scan
  import opened Versions

  /** One block as written: the unit token after the colon, the optional
      `package_name` and the `compatible_versions[]` patterns. */
  datatype SiiBlock = SiiBlock(unit: string, packageName: Option<string>, versions: seq<string>)

  /** A value the grammar can carry: non-empty, and free of `"`, `:` and `}`. */
  predicate PlainValue(v: string) {
    IsValue(v) && ':' !in v && '}' !in v
  }

  predicate WellFormed(b: SiiBlock) {
    && b.unit != [] && NoWs(b.unit)
    && (b.packageName.Some? ==> PlainValue(b.packageName.value))
    && forall i :: 0 <= i < |b.versions| ==> PlainValue(b.versions[i])
  }

  /** One attribute line: `\n key "v"`. */
  function Field(key: string, v: string): string {
    "\n " + Quoted(key, " ", v)
  }

  /** The fields `key "v"` for each `v` of `vs`, then `rest`. */
  function FieldsThen(key: string, vs: seq<string>, rest: string): string
    decreases |vs|
  {
    if |vs| == 0 then rest else Field(key, vs[0]) + FieldsThen(key, vs[1..], rest)
  }

  function NameList(name: Option<string>): seq<string> {
    match name
    case None => []
    case Some(n) => [n]
  }

  /** The optional `package_name` line, the `compatible_versions[]` lines and a
      final line break. */
  function BodyText(b: SiiBlock): string {
    FieldsThen(PackageNameKey, NameList(b.packageName), FieldsThen(CompatibleKey, b.versions, "\n"))
  }

  /** `package_version_info: <unit> {<body>}`. */
  function BlockText(b: SiiBlock): string {
    BlockKeyword + ": " + b.unit + " {" + BodyText(b) + "}"
  }

  /** The whole file: every block followed by a line break. */
  function RenderSii(bs: seq<SiiBlock>): string {
    if |bs| == 0 then [] else BlockText(bs[0]) + "\n" + RenderSii(bs[1..])
  }

  /** What the resolver should see for a written block. */
  function Expected(b: SiiBlock): VersionBlock {
    VersionBlock(b.packageName.GetOr(MissingPackageName), b.versions, |b.versions| == 0)
  }

  // ---------------------------------------------------------------------------
  // The block pattern on a written block

  /** A non-blank run from `i` up to a blank at `k`: the greedy token ends at `k`. */
  lemma {:induction false} TokenEndAt(t: string, i: nat, k: nat)
    requires i <= k < |t| && IsWs(t[k])
    requires forall j :: i <= j < k ==> !IsWs(t[j])
    ensures TokenEnd(t, i) == k
    decreases k - i
  {
    if i < k {
      TokenEndAt(t, i + 1, k);
    }
  }

  /** No `}` from `i` up to a `}` at `c`: the first one is at `c`. */
  lemma {:induction false} CloseAtOf(t: string, i: nat, c: nat)
    requires i <= c < |t| && t[c] == '}'
    requires forall j :: i <= j < c ==> t[j] != '}'
    ensures CloseAt(t, i) == Some(c)
    decreases c - i
  {
    if i < c {
      CloseAtOf(t, i + 1, c);
    }
  }

  /** One blank, then a non-blank: the whitespace run ends after the blank. */
  lemma OneBlankAt(t: string, k: nat)
    requires k + 1 < |t| && IsWs(t[k]) && !IsWs(t[k + 1])
    ensures SkipWs(t, k) == k + 1
  {
  }

  /** `kw: ` followed by a non-blank character: the token starts there. */
  lemma TokenStartAt(t: string, kw: string)
    requires |kw| + 2 < |t| && t[..|kw|] == kw && t[|kw|] == ':' && t[|kw| + 1] == ' '
    requires !IsWs(t[|kw| + 2])
    ensures TokenStart(t, kw) == Some(|kw| + 2)
  {
    OneBlankAt(t, |kw| + 1);
  }

  /** `{body}` at offset `o` is captured whole when `body` holds no `}`. */
  lemma BracedAtOf(t: string, o: nat, body: string)
    requires o + |body| + 1 < |t| && t[o] == '{' && t[o + 1..o + 1 + |body|] == body
    requires t[o + 1 + |body|] == '}' && '}' !in body
    ensures BracedAt(t, o) == Some((body, o + 2 + |body|))
  {
    forall j | o + 1 <= j < o + 1 + |body| ensures t[j] != '}' {
      assert t[j] == body[j - o - 1];
    }
    CloseAtOf(t, o + 1, o + 1 + |body|);
  }

  /** `kw: unit {body}` is matched at its start, capturing exactly `body`. */
  lemma BlockAtOf(kw: string, unit: string, body: string, rest: string)
    requires unit != [] && NoWs(unit) && '}' !in body
    ensures BlockAt(kw + ": " + unit + " {" + body + "}" + rest, kw)
            == Some((body, |kw| + |unit| + |body| + 5))
  {
    var t := kw + ": " + unit + " {" + body + "}" + rest;
    var q := |kw| + 2;
    var k := q + |unit|;
    assert t[..|kw|] == kw && t[|kw|] == ':' && t[|kw| + 1] == ' ';
    assert forall j :: q <= j < k ==> t[j] == unit[j - q];
    assert t[k] == ' ' && t[k + 1] == '{';
    assert t[k + 2..k + 2 + |body|] == body && t[k + 2 + |body|] == '}';
    BlockAtFrom(t, kw, k, body);
  }

  /** The same, with the text given by its parts. */
  lemma BlockAtFrom(t: string, kw: string, k: nat, body: string)
    requires |kw| + 2 < k && k + |body| + 2 < |t|
    requires t[..|kw|] == kw && t[|kw|] == ':' && t[|kw| + 1] == ' '
    requires forall j :: |kw| + 2 <= j < k ==> !IsWs(t[j])
    requires t[k] == ' ' && t[k + 1] == '{' && t[k + 2..k + 2 + |body|] == body
    requires t[k + 2 + |body|] == '}' && '}' !in body
    ensures BlockAt(t, kw) == Some((body, k + 3 + |body|))
  {
    var q := |kw| + 2;
    TokenStartAt(t, kw);
    TokenEndAt(t, q, k);
    OneBlankAt(t, k);
    BracedAtOf(t, k + 1, body);
  }

  /** A text whose first character cannot begin the keyword holds no block at its start. */
  lemma NoBlockAt(t: string, kw: string)
    requires |t| > 0 && |kw| > 0 && t[0] != kw[0]
    ensures BlockAt(t, kw).None?
  {
  }

  /** A written block, then a line break: its body, then whatever follows. */
  lemma BodiesOfBlock(kw: string, unit: string, body: string, rest: string)
    requires unit != [] && NoWs(unit) && '}' !in body && |kw| > 0 && kw[0] != '\n'
    ensures Bodies(kw + ": " + unit + " {" + body + "}" + "\n" + rest, kw) == [body] + Bodies(rest, kw)
  {
    var head := kw + ": " + unit + " {" + body + "}";
    var t := head + ("\n" + rest);
    assert kw + ": " + unit + " {" + body + "}" + "\n" + rest == t;
    BlockAtOf(kw, unit, body, "\n" + rest);
    assert t[|head|..] == "\n" + rest;
    NoBlockAt("\n" + rest, kw);
    assert ("\n" + rest)[1..] == rest;
  }

  // ---------------------------------------------------------------------------
  // The attribute patterns on a written body

  lemma KeysApart()
    ensures NoKeyIn("\n " + CompatibleKey + " ", PackageNameKey)
    ensures NoKeyIn("\n " + PackageNameKey + " ", CompatibleKey)
    ensures KeyShape(PackageNameKey) && KeyShape(CompatibleKey)
  {
    var p := "\n " + CompatibleKey + " ";
    forall j | 0 <= j <= |p| ensures !OccursAt(p, PackageNameKey, j) {
      if j + |PackageNameKey| <= |p| {
        var s := p[j..j + |PackageNameKey|];
        if j == 11 {
          assert s[0] == 'e';
        } else {
          assert s[12] == p[j + 12];
          assert ':' !in p[..23] && p[24] == ' ';
          assert p[j + 12] in p[..23] || j + 12 == 24;
        }
      }
    }
  }

  /** A field with key `k` read for a different key `key`: passed over. */
  lemma SkipField(k: string, v: string, rest: string, key: string)
    requires KeyShape(key) && NoKeyIn("\n " + k + " ", key) && PlainValue(v)
    ensures AllQuoted(Field(k, v) + rest, key) == AllQuoted(rest, key)
    ensures FirstValue(Field(k, v) + rest, key) == FirstValue(rest, key)
  {
    var p := "\n " + k + " ";
    assert Field(k, v) == p + "\"" + v + "\"";
    NoMatchInField(p, v, rest, key);
    SkipNoMatch(p + "\"" + v + "\"", rest, key);
  }

  /** A field read for its own key: its value comes first. */
  lemma ReadField(key: string, v: string, rest: string)
    requires |key| > 0 && key[0] != '\n' && key[0] != ' ' && PlainValue(v)
    ensures AllQuoted(Field(key, v) + rest, key) == [v] + AllQuoted(rest, key)
    ensures FirstValue(Field(key, v) + rest, key) == Some(v)
  {
    assert Field(key, v) + rest == "\n " + (Quoted(key, " ", v) + rest);
    NoMatchInPlain("\n ", Quoted(key, " ", v) + rest, key);
    SkipNoMatch("\n ", Quoted(key, " ", v) + rest, key);
    AllQuotedOfQuoted(key, " ", v, rest);
  }

  lemma FieldsThenOne(key: string, v: string, rest: string)
    ensures FieldsThen(key, [v], rest) == Field(key, v) + rest
  {
    assert [v][1..] == [];
  }

  /** Fields read for their own key: their values, in order, come first. */
  lemma {:induction false} ReadFields(key: string, vs: seq<string>, rest: string)
    requires |key| > 0 && key[0] != '\n' && key[0] != ' '
    requires forall i :: 0 <= i < |vs| ==> PlainValue(vs[i])
    ensures AllQuoted(FieldsThen(key, vs, rest), key) == vs + AllQuoted(rest, key)
    decreases |vs|
  {
    if |vs| > 0 {
      ReadFields(key, vs[1..], rest);
      ReadField(key, vs[0], FieldsThen(key, vs[1..], rest));
      HeadTailAppend(vs, AllQuoted(rest, key));
    }
  }

  /** Fields with key `k` read for a different key `key`: all passed over. */
  lemma {:induction false} SkipFields(k: string, vs: seq<string>, rest: string, key: string)
    requires KeyShape(key) && NoKeyIn("\n " + k + " ", key)
    requires forall i :: 0 <= i < |vs| ==> PlainValue(vs[i])
    ensures AllQuoted(FieldsThen(k, vs, rest), key) == AllQuoted(rest, key)
    ensures FirstValue(FieldsThen(k, vs, rest), key) == FirstValue(rest, key)
    decreases |vs|
  {
    if |vs| > 0 {
      SkipFields(k, vs[1..], rest, key);
      SkipField(k, vs[0], FieldsThen(k, vs[1..], rest), key);
    }
  }

  lemma ReadLineBreak()
    ensures AllQuoted("\n", CompatibleKey) == []
    ensures FirstValue("\n", PackageNameKey).None?
  {
    assert "\n"[1..] == [];
  }

  /** The body of a written block reads back as that block. */
  lemma BlockOfBody(b: SiiBlock)
    requires WellFormed(b)
    ensures BlockOf(BodyText(b)) == Expected(b)
  {
    var tail := FieldsThen(CompatibleKey, b.versions, "\n");
    KeysApart();
    ReadLineBreak();
    ReadFields(CompatibleKey, b.versions, "\n");
    SkipFields(CompatibleKey, b.versions, "\n", PackageNameKey);
    match b.packageName
    case None =>
      assert BodyText(b) == tail;
    case Some(n) =>
      assert BodyText(b) == Field(PackageNameKey, n) + tail by {
        assert NameList(b.packageName) == [n];
        FieldsThenOne(PackageNameKey, n, tail);
      }
      ReadField(PackageNameKey, n, tail);
      SkipField(PackageNameKey, n, tail, CompatibleKey);
  }

  lemma {:induction false} NoBraceInFields(key: string, vs: seq<string>, rest: string)
    requires '}' !in key && '}' !in rest
    requires forall i :: 0 <= i < |vs| ==> PlainValue(vs[i])
    ensures '}' !in FieldsThen(key, vs, rest)
    decreases |vs|
  {
    if |vs| > 0 {
      NoBraceInFields(key, vs[1..], rest);
    }
  }

  lemma NoBraceInBody(b: SiiBlock)
    requires WellFormed(b)
    ensures '}' !in BodyText(b)
  {
    NoBraceInFields(CompatibleKey, b.versions, "\n");
    NoBraceInFields(PackageNameKey, NameList(b.packageName), FieldsThen(CompatibleKey, b.versions, "\n"));
  }

  function BodyTexts(bs: seq<SiiBlock>): (ts: seq<string>)
    ensures |ts| == |bs|
    ensures forall i :: 0 <= i < |bs| ==> ts[i] == BodyText(bs[i])
  {
    if |bs| == 0 then [] else [BodyText(bs[0])] + BodyTexts(bs[1..])
  }

  lemma {:induction false} BodiesOfRendered(bs: seq<SiiBlock>)
    requires forall i :: 0 <= i < |bs| ==> WellFormed(bs[i])
    ensures Bodies(RenderSii(bs), BlockKeyword) == BodyTexts(bs)
    decreases |bs|
  {
    if |bs| > 0 {
      var r := RenderSii(bs[1..]);
      var b := bs[0];
      var body := BodyText(b);
      assert RenderSii(bs) == BlockKeyword + ": " + b.unit + " {" + body + "}" + "\n" + r;
      NoBraceInBody(b);
      BodiesOfBlock(BlockKeyword, b.unit, body, r);
      BodiesOfRendered(bs[1..]);
    }
  }

  /** Round trip: every well-formed file parses back to its blocks, in order,
      each with its package name (or the sentinel when it names none), its
      patterns in written order, and `universal` exactly when it lists none. */
  lemma ParseRendered(bs: seq<SiiBlock>)
    requires forall i :: 0 <= i < |bs| ==> WellFormed(bs[i])
    ensures ParseVersionSii(RenderSii(bs)) == seq(|bs|, i requires 0 <= i < |bs| => Expected(bs[i]))
  {
    BodiesOfRendered(bs);
    ParseOfBodies(RenderSii(bs), bs);
  }

  /** Any text whose blocks hold the written bodies parses to the expected blocks. */
  lemma ParseOfBodies(content: string, bs: seq<SiiBlock>)
    requires forall i :: 0 <= i < |bs| ==> WellFormed(bs[i])
    requires Bodies(content, BlockKeyword) == BodyTexts(bs)
    ensures ParseVersionSii(content) == seq(|bs|, i requires 0 <= i < |bs| => Expected(bs[i]))
  {
    forall i | 0 <= i < |bs| ensures BlockOf(BodyText(bs[i])) == Expected(bs[i]) {
      BlockOfBody(bs[i]);
    }
  }
}
