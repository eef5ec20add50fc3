/** `libraryfolders.vdf` written back out: a renderer in Steam's own layout
    (one entry per line, tab indentation, braces on lines of their own), and
    the proof that the line parser of src/lib/steam.js reads every such text
    back to the object it was written from. */
module SteamRender {
  import opened Wrappers
  import opened Text
  import opened Seqs
  import opened Scan
  import opened Steam

  /** Text the parser can carry in a key or value: non-empty, no quote, and
      no line break. */
  predicate Plain(s: string) {
    IsValue(s) && '\n' !in s && '\r' !in s
  }

  /** Objects that can be written: plain keys, distinct within each object,
      and plain string values. */
  predicate WellFormed(fs: seq<Field>)
    decreases fs, 1
  {
    DistinctKeys(fs) && forall i :: 0 <= i < |fs| ==> FieldOk(fs, i)
  }

  predicate FieldOk(fs: seq<Field>, i: nat)
    requires i < |fs|
    decreases fs, 0
  {
    && Plain(fs[i].key)
    && match fs[i].value
       case Str(v) => Plain(v)
       case Obj(cs) => WellFormed(cs)
  }

  // ---------------------------------------------------------------------------
  // Rendering

  /** A written line: its nesting depth and its text. */
  datatype RLine = RLine(depth: nat, text: string)

  function KeyValueText(k: string, v: string): string {
    Quote(k) + "\t\t" + Quote(v)
  }

  function RenderFields(fs: seq<Field>, depth: nat): seq<RLine>
    decreases fs, 1
  {
    if fs == [] then [] else FieldLines(fs, depth) + RenderFields(fs[1..], depth)
  }

  /** The lines of the first field: a key and its value on one line, or the
      key, the braces and the fields of the object one level deeper. */
  function FieldLines(fs: seq<Field>, depth: nat): seq<RLine>
    requires fs != []
    decreases fs, 0
  {
    match fs[0].value
    case Str(v) => [RLine(depth, KeyValueText(fs[0].key, v))]
    case Obj(cs) => [RLine(depth, Quote(fs[0].key)), RLine(depth, "{")] + RenderFields(cs, depth + 1) + [RLine(depth, "}")]
  }

  function Texts(ls: seq<RLine>): (ts: seq<string>)
    ensures |ts| == |ls| && forall i :: 0 <= i < |ls| ==> ts[i] == ls[i].text
  {
    seq(|ls|, i requires 0 <= i < |ls| => ls[i].text)
  }

  function Tabs(n: nat): (t: string)
    ensures |t| == n && forall i :: 0 <= i < n ==> t[i] == '\t'
  {
    seq(n, _ => '\t')
  }

  function Indented(ls: seq<RLine>): (ts: seq<string>)
    ensures |ts| == |ls| && forall i :: 0 <= i < |ls| ==> ts[i] == Tabs(ls[i].depth) + ls[i].text
  {
    seq(|ls|, i requires 0 <= i < |ls| => Tabs(ls[i].depth) + ls[i].text)
  }

  /** The whole file: every line indented, each followed by a line break. */
  function Document(root: seq<Field>): string {
    Join(Indented(RenderFields(root, 0)) + [""], "\n")
  }

  // ---------------------------------------------------------------------------
  // Assigning a whole object

  /** The assignments of `fs`, one after the other, into `acc`. */
  function PutAll(acc: seq<Field>, fs: seq<Field>): seq<Field>
    decreases |fs|
  {
    if fs == [] then acc else PutAll(Put(acc, fs[0].key, fs[0].value), fs[1..])
  }

  /** A key not yet present goes last. */
  lemma {:induction false} PutNew(acc: seq<Field>, k: string, v: Value)
    requires Get(acc, k).None?
    ensures Put(acc, k, v) == acc + [Field(k, v)]
    decreases |acc|
  {
    if |acc| > 0 {
      var t := acc[1..];
      assert acc[0].key != k;
      assert forall i :: 0 <= i < |t| ==> t[i] == acc[i + 1];
      PutNew(t, k, v);
      assert Put(acc, k, v) == [acc[0]] + Put(t, k, v);
      AppendAssoc([acc[0]], t, [Field(k, v)]);
      assert [acc[0]] + t == acc;
    }
  }

  /** Assigning distinct fresh keys appends the fields as they are. */
  lemma {:induction false} PutAllFresh(acc: seq<Field>, fs: seq<Field>)
    requires DistinctKeys(fs)
    requires forall i, j :: 0 <= i < |acc| && 0 <= j < |fs| ==> acc[i].key != fs[j].key
    ensures PutAll(acc, fs) == acc + fs
    decreases |fs|
  {
    if fs != [] {
      var f := fs[0];
      assert Get(acc, f.key).None?;
      PutNew(acc, f.key, f.value);
      var acc' := acc + [f];
      DistinctKeysTail(fs);
      forall i, j | 0 <= i < |acc'| && 0 <= j < |fs[1..]| ensures acc'[i].key != fs[1..][j].key {
        assert fs[1..][j] == fs[j + 1];
        if i < |acc| {
          assert acc'[i] == acc[i];
        }
      }
      assert PutAll(acc, fs) == PutAll(acc', fs[1..]);
      PutAllFresh(acc', fs[1..]);
      AppendAssoc(acc, [f], fs[1..]);
      HeadTail(fs);
    }
  }

  lemma DistinctKeysTail(fs: seq<Field>)
    requires fs != [] && DistinctKeys(fs)
    ensures DistinctKeys(fs[1..])
    ensures forall j :: 1 <= j < |fs| ==> fs[j].key != fs[0].key
  {
    var ks := FieldKeys(fs);
    assert FieldKeys(fs[1..]) == ks[1..];
    assert forall j :: 1 <= j < |fs| ==> fs[j].key == ks[j];
  }

  // ---------------------------------------------------------------------------
  // Running the parser over the rendered lines

  lemma TextsAppend(a: seq<RLine>, b: seq<RLine>)
    ensures Texts(a + b) == Texts(a) + Texts(b)
  {
  }

  lemma RunOne(st: seq<Frame>, line: string)
    ensures Run(st, [line]) == Step(st, line)
  {
    assert [line][1..] == [];
  }

  /** A key-and-value line assigns the value in the innermost object. */
  lemma RunKeyValue(st: seq<Frame>, k: string, acc: seq<Field>, key: string, v: string)
    requires Plain(key) && Plain(v)
    ensures Run(st + [Frame(k, acc)], [KeyValueText(key, v)]) == Success(st + [Frame(k, Put(acc, key, Str(v)))])
  {
    var s := st + [Frame(k, acc)];
    assert AllWs("\t\t");
    KeyValueOf(key, "\t\t", v);
    RunOne(s, KeyValueText(key, v));
    assert s[..|s| - 1] == st;
  }

  /** A lone key and `{` open an empty object under the key. */
  lemma RunOpen(st: seq<Frame>, k: string, acc: seq<Field>, key: string)
    requires Plain(key)
    ensures Run(st + [Frame(k, acc)], [Quote(key), "{"]) == Success((st + [Frame(k, Put(acc, key, Obj([])))]) + [Frame(key, [])])
  {
    var s := st + [Frame(k, acc)];
    OpenObjectIff(Quote(key), key);
    IgnoredBrace();
    var s1 := SetTop(s, key, Obj([])) + [Frame(key, [])];
    assert s[..|s| - 1] == st;
    assert s1 == (st + [Frame(k, Put(acc, key, Obj([])))]) + [Frame(key, [])];
    RunOne(s1, "{");
    RunAppend(s, [Quote(key)], ["{"]);
    RunOne(s, Quote(key));
    assert [Quote(key)] + ["{"] == [Quote(key), "{"];
  }

  /** `}` hangs the finished object under its key. */
  lemma RunClose(st: seq<Frame>, k: string, acc: seq<Field>, key: string, fields: seq<Field>)
    ensures Run((st + [Frame(k, acc)]) + [Frame(key, fields)], ["}"]) == Success(st + [Frame(k, Put(acc, key, Obj(fields)))])
  {
    var s := (st + [Frame(k, acc)]) + [Frame(key, fields)];
    RunOne(s, "}");
    assert s[..|s| - 2] == st && s[|s| - 2] == Frame(k, acc) && s[|s| - 1] == Frame(key, fields);
  }

  lemma ObjectLineTexts(key: string, inner: seq<RLine>, depth: nat)
    ensures Texts([RLine(depth, Quote(key)), RLine(depth, "{")] + inner + [RLine(depth, "}")])
            == [Quote(key), "{"] + (Texts(inner) + ["}"])
  {
    var a := [RLine(depth, Quote(key)), RLine(depth, "{")];
    TextsAppend(a + inner, [RLine(depth, "}")]);
    TextsAppend(a, inner);
  }

  /** The lines of one field, read with `acc` innermost, assign that field. */
  lemma {:induction false} RunField(st: seq<Frame>, k: string, acc: seq<Field>, fs: seq<Field>, depth: nat)
    requires fs != [] && FieldOk(fs, 0)
    ensures Run(st + [Frame(k, acc)], Texts(FieldLines(fs, depth)))
            == Success(st + [Frame(k, Put(acc, fs[0].key, fs[0].value))])
    decreases fs, 0
  {
    var key := fs[0].key;
    match fs[0].value
    case Str(v) =>
      RunKeyValue(st, k, acc, key, v);
    case Obj(cs) =>
      var s := st + [Frame(k, acc)];
      var a1 := Put(acc, key, Obj([]));
      var inner := RenderFields(cs, depth + 1);
      ObjectLineTexts(key, inner, depth);
      RunOpen(st, k, acc, key);
      var s1 := (st + [Frame(k, a1)]) + [Frame(key, [])];
      RunAppend(s, [Quote(key), "{"], Texts(inner) + ["}"]);
      RunFields(st + [Frame(k, a1)], key, [], cs, depth + 1);
      PutAllFresh([], cs);
      assert [] + cs == cs;
      RunAppend(s1, Texts(inner), ["}"]);
      RunClose(st, k, a1, key, cs);
      PutTwice(acc, key, Obj([]), Obj(cs));
  }

  /** The lines of an object's fields, read with `acc` innermost, assign
      every field in turn. */
  lemma {:induction false} RunFields(st: seq<Frame>, k: string, acc: seq<Field>, fs: seq<Field>, depth: nat)
    requires WellFormed(fs)
    ensures Run(st + [Frame(k, acc)], Texts(RenderFields(fs, depth))) == Success(st + [Frame(k, PutAll(acc, fs))])
    decreases fs, 1
  {
    if fs == [] {
      assert Texts([]) == [];
    } else {
      var head := FieldLines(fs, depth);
      var acc' := Put(acc, fs[0].key, fs[0].value);
      TextsAppend(head, RenderFields(fs[1..], depth));
      RunField(st, k, acc, fs, depth);
      RunAppend(st + [Frame(k, acc)], Texts(head), Texts(RenderFields(fs[1..], depth)));
      TailWellFormed(fs);
      RunFields(st, k, acc', fs[1..], depth);
    }
  }

  lemma TailWellFormed(fs: seq<Field>)
    requires fs != [] && WellFormed(fs)
    ensures WellFormed(fs[1..])
  {
    assert FieldKeys(fs[1..]) == FieldKeys(fs)[1..];
    forall i | 0 <= i < |fs[1..]| ensures FieldOk(fs[1..], i) {
      assert FieldOk(fs, i + 1);
    }
  }

  // ---------------------------------------------------------------------------
  // From the text to the lines

  /** A line the parser keeps as it is: non-empty, no blank at either end,
      no line break. */
  predicate CleanLine(t: string) {
    t != "" && !IsWs(t[0]) && !IsWs(t[|t| - 1]) && '\n' !in t && '\r' !in t
  }

  predicate AllClean(ls: seq<RLine>) {
    forall i :: 0 <= i < |ls| ==> CleanLine(ls[i].text)
  }

  lemma AllCleanAppend(a: seq<RLine>, b: seq<RLine>)
    requires AllClean(a) && AllClean(b)
    ensures AllClean(a + b)
  {
    forall i | 0 <= i < |a + b| ensures CleanLine((a + b)[i].text) {
      if i >= |a| {
        assert (a + b)[i] == b[i - |a|];
      }
    }
  }

  lemma QuoteClean(k: string)
    requires Plain(k)
    ensures CleanLine(Quote(k))
  {
  }

  lemma KeyValueClean(k: string, v: string)
    requires Plain(k) && Plain(v)
    ensures CleanLine(KeyValueText(k, v))
  {
    var t := KeyValueText(k, v);
    assert t[0] == '"' && t[|t| - 1] == '"';
  }

  lemma {:induction false} FieldLinesClean(fs: seq<Field>, depth: nat)
    requires fs != [] && FieldOk(fs, 0)
    ensures AllClean(FieldLines(fs, depth))
    decreases fs, 0
  {
    match fs[0].value
    case Str(v) =>
      KeyValueClean(fs[0].key, v);
    case Obj(cs) =>
      QuoteClean(fs[0].key);
      var a := [RLine(depth, Quote(fs[0].key)), RLine(depth, "{")];
      RenderedClean(cs, depth + 1);
      AllCleanAppend(a, RenderFields(cs, depth + 1));
      AllCleanAppend(a + RenderFields(cs, depth + 1), [RLine(depth, "}")]);
  }

  lemma {:induction false} RenderedClean(fs: seq<Field>, depth: nat)
    requires WellFormed(fs)
    ensures AllClean(RenderFields(fs, depth))
    decreases fs, 1
  {
    if fs != [] {
      FieldLinesClean(fs, depth);
      TailWellFormed(fs);
      RenderedClean(fs[1..], depth);
      AllCleanAppend(FieldLines(fs, depth), RenderFields(fs[1..], depth));
    }
  }

  /** Indentation is trimmed away. */
  lemma TrimIndented(n: nat, t: string)
    requires CleanLine(t)
    ensures Trim(Tabs(n) + t) == t
  {
    var s := Tabs(n) + t;
    assert AllWs(Tabs(n));
    LeadingWsOfRun(Tabs(n), t);
    assert s[|s| - 1] == t[|t| - 1];
    assert s[n..|s| - 0] == t;
  }

  /** No part of the text holds a line break. */
  lemma IndentedParts(ls: seq<RLine>)
    requires AllClean(ls)
    ensures forall i :: 0 <= i < |Indented(ls) + [""]| ==> '\n' !in (Indented(ls) + [""])[i] && '\r' !in (Indented(ls) + [""])[i]
  {
    var parts := Indented(ls) + [""];
    forall i | 0 <= i < |parts| ensures '\n' !in parts[i] && '\r' !in parts[i] {
      if i < |ls| {
        assert parts[i] == Tabs(ls[i].depth) + ls[i].text;
        assert CleanLine(ls[i].text);
      }
    }
  }

  lemma TrimmedParts(ls: seq<RLine>)
    requires AllClean(ls)
    ensures TrimEach(Indented(ls) + [""]) == Texts(ls) + [""]
  {
    var parts := Indented(ls) + [""];
    forall i | 0 <= i < |ls| ensures Trim(parts[i]) == ls[i].text {
      TrimIndented(ls[i].depth, ls[i].text);
    }
  }

  /** Indented clean lines, each followed by a line break, split and trim
      back to their texts. */
  lemma LinesOfIndented(ls: seq<RLine>)
    requires AllClean(ls)
    ensures Lines(Join(Indented(ls) + [""], "\n")) == Texts(ls)
  {
    var parts := Indented(ls) + [""];
    var doc := Join(parts, "\n");
    IndentedParts(ls);
    assert '\r' !in doc;
    FilterAllKept(doc, NotCarriageReturn());
    SplitJoin(parts, '\n');
    TrimmedParts(ls);
    FilterAppend(Texts(ls), [""], NonEmpty());
    FilterAllKept(Texts(ls), NonEmpty());
    assert Filter([""], NonEmpty()) == [];
  }

  /** Every well-formed object, written out, is read back as itself. */
  lemma ParseRendered(root: seq<Field>)
    requires WellFormed(root)
    ensures ParseRoot(Document(root)) == Success(root)
  {
    var ls := RenderFields(root, 0);
    RenderedClean(root, 0);
    LinesOfIndented(ls);
    assert Lines(Document(root)) == Texts(ls);
    var none: seq<Frame> := [];
    var empty: seq<Field> := [];
    RunFields(none, "", empty, root, 0);
    PutAllFresh(empty, root);
    assert empty + root == root;
    assert none + [Frame("", empty)] == [Frame("", [])];
    assert none + [Frame("", root)] == [Frame("", root)];
  }

  /** The same file with Windows line ends, as Steam on Windows writes it. */
  function CrlfDocument(root: seq<Field>): string {
    Join(Indented(RenderFields(root, 0)) + [""], "\r\n")
  }

  /** Removing every `\r` turns CRLF line ends into LF ones when the lines
      themselves hold none. */
  lemma {:induction false} DropCarriageReturns(parts: seq<string>)
    requires forall i :: 0 <= i < |parts| ==> '\r' !in parts[i]
    ensures Filter(Join(parts, "\r\n"), NotCarriageReturn()) == Join(parts, "\n")
    decreases |parts|
  {
    if |parts| == 1 {
      FilterAllKept(parts[0], NotCarriageReturn());
    } else if |parts| > 1 {
      DropCarriageReturns(parts[1..]);
      FilterAppend(parts[0] + "\r\n", Join(parts[1..], "\r\n"), NotCarriageReturn());
      FilterAppend(parts[0], "\r\n", NotCarriageReturn());
      FilterAllKept(parts[0], NotCarriageReturn());
      assert Filter("\r\n", NotCarriageReturn()) == "\n";
    }
  }

  /** The round trip holds for CRLF line ends too: the reader drops every
      `\r` before splitting. */
  lemma ParseRenderedCrlf(root: seq<Field>)
    requires WellFormed(root)
    ensures ParseRoot(CrlfDocument(root)) == Success(root)
  {
    var ls := RenderFields(root, 0);
    RenderedClean(root, 0);
    IndentedParts(ls);
    DropCarriageReturns(Indented(ls) + [""]);
    assert '\r' !in Document(root);
    FilterAllKept(Document(root), NotCarriageReturn());
    SameTextSameParse(CrlfDocument(root), Document(root));
    ParseRendered(root);
  }

  /** The reader sees a text only through what is left once `\r` is gone. */
  lemma SameTextSameParse(a: string, b: string)
    requires Filter(a, NotCarriageReturn()) == Filter(b, NotCarriageReturn())
    ensures ParseRoot(a) == ParseRoot(b)
  {
    assert Lines(a) == Lines(b);
  }

  // ---------------------------------------------------------------------------
  // libraryfolders.vdf

  /** One library as Steam writes it: its folder and, per installed app, its
      id and size. */
  datatype LibraryEntry = LibraryEntry(path: string, apps: seq<(string, string)>)

  function AppIds(apps: seq<(string, string)>): (ids: seq<string>)
    ensures |ids| == |apps| && forall j :: 0 <= j < |apps| ==> ids[j] == apps[j].0
  {
    seq(|apps|, j requires 0 <= j < |apps| => apps[j].0)
  }

  function AppFields(apps: seq<(string, string)>): (fs: seq<Field>)
    ensures |fs| == |apps| && forall j :: 0 <= j < |apps| ==> fs[j] == Field(apps[j].0, Str(apps[j].1))
  {
    seq(|apps|, j requires 0 <= j < |apps| => Field(apps[j].0, Str(apps[j].1)))
  }

  function LibraryValue(e: LibraryEntry): Value {
    Obj([Field("path", Str(e.path)), Field("apps", Obj(AppFields(e.apps)))])
  }

  /** The libraries under keys `"0"`, `"1"`, ... in order. */
  function LibraryFields(es: seq<LibraryEntry>): (fs: seq<Field>)
    ensures |fs| == |es| && forall i :: 0 <= i < |es| ==> fs[i] == Field(NatToString(i), LibraryValue(es[i]))
  {
    seq(|es|, i requires 0 <= i < |es| => Field(NatToString(i), LibraryValue(es[i])))
  }

  function LibraryFoldersRoot(es: seq<LibraryEntry>): seq<Field> {
    [Field("libraryfolders", Obj(LibraryFields(es)))]
  }

  predicate EntryOk(e: LibraryEntry) {
    && Plain(e.path)
    && Distinct(AppIds(e.apps))
    && forall j :: 0 <= j < |e.apps| ==> Plain(e.apps[j].0) && Plain(e.apps[j].1)
  }

  /** What the parser should find: per library its path and its app ids. */
  function Expected(es: seq<LibraryEntry>): (ls: seq<Library>)
    ensures |ls| == |es| && forall i :: 0 <= i < |es| ==> ls[i] == Library(Some(Str(es[i].path)), AppIds(es[i].apps))
  {
    seq(|es|, i requires 0 <= i < |es| => Library(Some(Str(es[i].path)), AppIds(es[i].apps)))
  }

  lemma DigitsArePlain(s: string)
    requires |s| >= 1 && IsDigits(s)
    ensures Plain(s)
  {
    assert forall i :: 0 <= i < |s| ==> s[i] != '"' && s[i] != '\n' && s[i] != '\r';
  }

  lemma LibraryKeysDistinct(es: seq<LibraryEntry>)
    ensures DistinctKeys(LibraryFields(es))
  {
    var ks := FieldKeys(LibraryFields(es));
    forall i, j | 0 <= i < j < |ks| ensures ks[i] != ks[j] {
      assert DigitsValue(NatToString(i)) == i && DigitsValue(NatToString(j)) == j;
    }
  }

  lemma AppsWellFormed(e: LibraryEntry)
    requires EntryOk(e)
    ensures WellFormed(AppFields(e.apps))
  {
    assert FieldKeys(AppFields(e.apps)) == AppIds(e.apps);
  }

  lemma LibraryValueWellFormed(e: LibraryEntry)
    requires EntryOk(e)
    ensures WellFormed(LibraryValue(e).fields)
  {
    var fs := LibraryValue(e).fields;
    AppsWellFormed(e);
    assert FieldKeys(fs) == ["path", "apps"];
    assert FieldOk(fs, 0) && FieldOk(fs, 1);
  }

  lemma LibraryFieldOk(es: seq<LibraryEntry>, i: nat)
    requires i < |es| && EntryOk(es[i])
    ensures FieldOk(LibraryFields(es), i)
  {
    var f := LibraryFields(es)[i];
    assert f == Field(NatToString(i), LibraryValue(es[i]));
    DigitsArePlain(NatToString(i));
    LibraryValueWellFormed(es[i]);
  }

  lemma LibraryFoldersWellFormed(es: seq<LibraryEntry>)
    requires forall i :: 0 <= i < |es| ==> EntryOk(es[i])
    ensures WellFormed(LibraryFoldersRoot(es))
  {
    var fs := LibraryFields(es);
    LibraryKeysDistinct(es);
    forall i | 0 <= i < |fs| ensures FieldOk(fs, i) {
      LibraryFieldOk(es, i);
    }
    LibraryFoldersKeyPlain();
    SingleObjectWellFormed("libraryfolders", fs);
  }

  lemma LibraryFoldersKeyPlain()
    ensures Plain("libraryfolders")
  {
    var k := "libraryfolders";
    assert forall i :: 0 <= i < |k| ==> k[i] != '"' && k[i] != '\n' && k[i] != '\r';
  }

  lemma SingleObjectWellFormed(k: string, fs: seq<Field>)
    requires Plain(k) && WellFormed(fs)
    ensures WellFormed([Field(k, Obj(fs))])
  {
    var root := [Field(k, Obj(fs))];
    assert FieldKeys(root) == [k];
    assert FieldOk(root, 0);
  }

  lemma LibraryOfEntry(e: LibraryEntry)
    ensures LibraryOf(LibraryValue(e)) == Success(Library(Some(Str(e.path)), AppIds(e.apps)))
  {
    var fs := LibraryValue(e).fields;
    assert Get(fs, "path") == Some(Str(e.path));
    assert Get(fs, "apps") == Some(Obj(AppFields(e.apps)));
    assert FieldKeys(AppFields(e.apps)) == AppIds(e.apps);
  }

  /** A library file written by the renderer is read back as the libraries
      it was written from, in order: each with its path and its app ids. */
  lemma ReadLibraryFolders(es: seq<LibraryEntry>)
    requires forall i :: 0 <= i < |es| ==> EntryOk(es[i])
    ensures ParseLibraryFolders(Document(LibraryFoldersRoot(es))) == Success(Expected(es))
  {
    var root := LibraryFoldersRoot(es);
    LibraryFoldersWellFormed(es);
    ParseRendered(root);
    LibrariesOfRoot(es);
  }

  lemma LibrariesOfRoot(es: seq<LibraryEntry>)
    ensures LibrariesOf(LibraryFoldersRoot(es)) == Success(Expected(es))
  {
    var root := LibraryFoldersRoot(es);
    var vs := LibraryFields(es);
    var g := Get(root, "libraryfolders");
    assert g == Some(Obj(vs));
    assert g.value.fields == vs;
    forall i | 0 <= i < |vs| ensures LibraryOf(vs[i].value) == Success(Expected(es)[i]) {
      LibraryOfEntry(es[i]);
    }
    assert forall i :: 0 <= i < |g.value.fields| ==> LibraryOf(g.value.fields[i].value).Success?;
    var r := LibrariesOf(root);
    assert r.Success?;
    assert r.value == Expected(es);
  }
}
