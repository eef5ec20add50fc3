/** Steam's bookkeeping (src/lib/steam.js): the line parser for Valve's
    KeyValues text in `libraryfolders.vdf`, the choice of the library that
    holds a game, the install folder read from the game's app manifest, the
    locations derived from them, and the version token cut from the output of
    the version query. */
module Steam {
  import opened Wrappers
  import opened Text
  import opened Seqs
  import opened Host
  import opened Scan
  import opened Mods

  /** The Steam app ids of Euro Truck Simulator 2 and American Truck Simulator
      (src/lib/game-installation.js lines 3-4). */
  const EtsAppId: string := "227300"
  const AtsAppId: string := "270880"

  const InstallDirKey: string := "\"installdir\""

  // ---------------------------------------------------------------------------
  // Values

  /** What the parser builds: a string, or an object whose fields keep the
      order in which their keys were first assigned. */
  datatype Value = Str(s: string) | Obj(fields: seq<Field>)
  datatype Field = Field(key: string, value: Value)

  function FieldKeys(fs: seq<Field>): (ks: seq<string>)
    ensures |ks| == |fs| && forall i :: 0 <= i < |fs| ==> ks[i] == fs[i].key
  {
    seq(|fs|, i requires 0 <= i < |fs| => fs[i].key)
  }

  /** `obj[key]`: the value of the first field under `key`. */
  function Get(fs: seq<Field>, key: string): (r: Option<Value>)
    ensures r.None? <==> forall i :: 0 <= i < |fs| ==> fs[i].key != key
    ensures r.Some? ==> exists i :: 0 <= i < |fs| && fs[i] == Field(key, r.value)
  {
    if |fs| == 0 then None
    else if fs[0].key == key then Some(fs[0].value)
    else
      var r := Get(fs[1..], key);
      assert forall i :: 1 <= i < |fs| ==> fs[i] == fs[1..][i - 1];
      r
  }

  /** `obj[key] = v`: the key reads back `v`, no other key changes, and a key
      already present keeps its place. */
  function Put(fs: seq<Field>, key: string, v: Value): (r: seq<Field>)
    ensures Get(r, key) == Some(v)
    ensures forall k :: k != key ==> Get(r, k) == Get(fs, k)
  {
    if |fs| == 0 then [Field(key, v)]
    else if fs[0].key == key then [Field(key, v)] + fs[1..]
    else
      var r := [fs[0]] + Put(fs[1..], key, v);
      assert r[1..] == Put(fs[1..], key, v);
      r
  }

  lemma FieldKeysAppend(x: seq<Field>, y: seq<Field>)
    ensures FieldKeys(x + y) == FieldKeys(x) + FieldKeys(y)
  {
  }

  /** The keys keep their order; a new key goes last. */
  lemma {:induction false} PutKeys(fs: seq<Field>, key: string, v: Value)
    ensures Get(fs, key).Some? ==> FieldKeys(Put(fs, key, v)) == FieldKeys(fs)
    ensures Get(fs, key).None? ==> FieldKeys(Put(fs, key, v)) == FieldKeys(fs) + [key]
    decreases |fs|
  {
    if |fs| == 0 {
      assert FieldKeys([Field(key, v)]) == [key];
    } else {
      var head := [fs[0]];
      assert fs == head + fs[1..];
      FieldKeysAppend(head, fs[1..]);
      if fs[0].key == key {
        FieldKeysAppend([Field(key, v)], fs[1..]);
        assert FieldKeys([Field(key, v)]) == FieldKeys(head);
      } else {
        var rest := Put(fs[1..], key, v);
        assert Put(fs, key, v) == head + rest;
        FieldKeysAppend(head, rest);
        PutKeys(fs[1..], key, v);
        assert Get(fs, key) == Get(fs[1..], key);
        AppendAssoc(FieldKeys(head), FieldKeys(fs[1..]), [key]);
      }
    }
  }

  /** Keys of an object built by assignments are distinct. */
  predicate DistinctKeys(fs: seq<Field>) {
    Distinct(FieldKeys(fs))
  }

  lemma PutKeepsDistinct(fs: seq<Field>, key: string, v: Value)
    requires DistinctKeys(fs)
    ensures DistinctKeys(Put(fs, key, v))
  {
    var ks := FieldKeys(fs);
    PutKeys(fs, key, v);
    if Get(fs, key).None? {
      assert key !in ks;
    }
  }

  /** Assigning the same key twice leaves the second value in the place of
      the first. */
  lemma PutTwice(fs: seq<Field>, key: string, v: Value, w: Value)
    ensures Put(Put(fs, key, v), key, w) == Put(fs, key, w)
  {
    if |fs| > 0 && fs[0].key != key {
      PutTwice(fs[1..], key, v, w);
    }
  }

  // ---------------------------------------------------------------------------
  // Lines (lines 147-151)

  function NotCarriageReturn(): char -> bool {
    c => c != '\r'
  }

  function NonEmpty(): string -> bool {
    l => l != ""
  }

  function TrimEach(parts: seq<string>): (ts: seq<string>)
    ensures |ts| == |parts| && forall i :: 0 <= i < |parts| ==> ts[i] == Trim(parts[i])
  {
    seq(|parts|, i requires 0 <= i < |parts| => Trim(parts[i]))
  }

  /** Every `\r` removed, split on `\n`, each line trimmed, blank lines left
      out: what remains is non-empty and already trimmed. */
  function Lines(raw: string): (ls: seq<string>)
    ensures forall l :: l in ls ==> l != "" && Trim(l) == l
  {
    var parts := Split(Filter(raw, NotCarriageReturn()), '\n');
    var ts := TrimEach(parts);
    var ls := Filter(ts, NonEmpty());
    forall l | l in ls ensures l != "" && Trim(l) == l {
      assert l in ts && NonEmpty()(l);
      var i :| 0 <= i < |ts| && ts[i] == l;
      assert l == Trim(parts[i]);
      TrimOfTrimmed(l);
    }
    ls
  }

  // ---------------------------------------------------------------------------
  // One line (lines 157-186)

  /** What a trimmed line is to the parser. */
  datatype LineKind = CloseObject | KeyValue(key: string, value: string) | OpenObject(key: string) | Ignored

  /** `^"([^"]+)"\s+"([^"]+)"$`: a quoted key, whitespace, a quoted value,
      and nothing else. */
  function KeyValueAt(line: string): Option<(string, string)> {
    match QuotedValueAt(line)
    case None => None
    case Some((k, n)) =>
      var rest := line[n..];
      var w := LeadingWs(rest);
      if w == 0 then None
      else
        match QuotedValueAt(rest[w..])
        case None => None
        case Some((v, m)) => if w + m == |rest| then Some((k, v)) else None
  }

  /** `^"([^"]+)"$`: a quoted key alone. */
  function ObjectKeyAt(line: string): Option<string> {
    match QuotedValueAt(line)
    case None => None
    case Some((k, n)) => if n == |line| then Some(k) else None
  }

  /** The tests in the order the loop makes them: `}` first, then the key and
      value, then the lone key; anything else is skipped. */
  function Classify(line: string): (c: LineKind)
    ensures c == CloseObject <==> line == "}"
    ensures c.KeyValue? ==> IsValue(c.key) && IsValue(c.value)
    ensures c.OpenObject? ==> IsValue(c.key)
  {
    if line == "}" then CloseObject
    else
      match KeyValueAt(line)
      case Some((k, v)) =>
        assert QuotedValueAt(line).Some?;
        KeyValue(k, v)
      case None =>
        match ObjectKeyAt(line)
        case Some(k) => OpenObject(k)
        case None => Ignored
  }

  /** `"k"` as written in the file. */
  function Quote(k: string): string {
    "\"" + k + "\""
  }

  /** `line` is a quoted key, a non-empty whitespace gap and a quoted value. */
  ghost predicate KeyValueLine(line: string, k: string, v: string) {
    IsValue(k) && IsValue(v) && exists w :: w != [] && AllWs(w) && line == Quote(k) + w + Quote(v)
  }

  /** The captured value of `"([^"]+)"` is exactly what stands between the
      two quotes the match consumed. */
  lemma QuotedValueShape(u: string)
    requires QuotedValueAt(u).Some?
    ensures var (v, n) := QuotedValueAt(u).value; u[..n] == Quote(v)
  {
    var n := NonQuoteRun(u[1..]);
    assert u[1 + n] == u[1..][n];
  }

  /** A line is a key-and-value line exactly when it has that shape. */
  lemma KeyValueIff(line: string, k: string, v: string)
    ensures Classify(line) == KeyValue(k, v) <==> KeyValueLine(line, k, v)
  {
    if Classify(line) == KeyValue(k, v) {
      KeyValueSound(line, k, v);
    }
    if KeyValueLine(line, k, v) {
      var w :| w != [] && AllWs(w) && line == Quote(k) + w + Quote(v);
      KeyValueOf(k, w, v);
    }
  }

  lemma KeyValueSound(line: string, k: string, v: string)
    requires Classify(line) == KeyValue(k, v)
    ensures KeyValueLine(line, k, v)
  {
    assert KeyValueAt(line) == Some((k, v));
    var n := QuotedValueAt(line).value.1;
    assert QuotedValueAt(line).value.0 == k;
    QuotedValueShape(line);
    var rest := line[n..];
    var w := LeadingWs(rest);
    var m := QuotedValueAt(rest[w..]).value.1;
    assert QuotedValueAt(rest[w..]).value.0 == v && w + m == |rest|;
    LeadingWsSpec(rest);
    QuotedValueShape(rest[w..]);
    assert rest[w..][..m] == rest[w..];
    var gap := rest[..w];
    assert gap != [] && AllWs(gap);
    ThreeParts(line, n, w);
  }

  lemma KeyValueOf(k: string, w: string, v: string)
    requires IsValue(k) && IsValue(v) && w != [] && AllWs(w)
    ensures Classify(Quote(k) + w + Quote(v)) == KeyValue(k, v)
  {
    var line := Quote(k) + w + Quote(v);
    QuotedValueOf(k, w + Quote(v));
    assert line == "\"" + k + "\"" + (w + Quote(v));
    var rest := line[|k| + 2..];
    assert rest == w + Quote(v);
    LeadingWsOfRun(w, Quote(v));
    assert rest[|w|..] == Quote(v);
    QuotedValueOf(v, "");
    assert Quote(v) + "" == "\"" + v + "\"" + "";
  }

  /** A line opens an object exactly when it is a quoted key alone. */
  lemma OpenObjectIff(line: string, k: string)
    ensures Classify(line) == OpenObject(k) <==> IsValue(k) && line == Quote(k)
  {
    if Classify(line) == OpenObject(k) {
      QuotedValueShape(line);
    }
    if IsValue(k) && line == Quote(k) {
      QuotedValueOf(k, "");
      assert line == "\"" + k + "\"" + "";
      assert line[|k| + 2..] == "";
    }
  }

  /** An opening brace is skipped. */
  lemma IgnoredBrace()
    ensures Classify("{") == Ignored
  {
    assert "{"[0] != '"';
  }

  /** A key whose value is empty is skipped: the value pattern needs at
      least one character between its quotes. */
  lemma IgnoredEmptyValue(k: string, w: string)
    requires IsValue(k) && w != [] && AllWs(w)
    ensures Classify(Quote(k) + w + "\"\"") == Ignored
  {
    var line := Quote(k) + w + "\"\"";
    QuotedValueOf(k, w + "\"\"");
    assert line == "\"" + k + "\"" + (w + "\"\"");
    var rest := line[|k| + 2..];
    assert rest == w + "\"\"";
    LeadingWsOfRun(w, "\"\"");
    assert rest[|w|..] == "\"\"";
    assert NonQuoteRun("\"") == 0;
  }

  // ---------------------------------------------------------------------------
  // The stack (lines 153-187)

  /** An object still open on the parser's stack, with the key it sits under
      in its parent (unused for the root). */
  datatype Frame = Frame(key: string, fields: seq<Field>)

  const KeyValueOutside: string := "VDF parse error: encountered object start \""
  const ObjectOutside: string := "VDF parse error: object key \""

  /** The innermost open object after `obj[key] = v`. */
  function SetTop(st: seq<Frame>, key: string, v: Value): (r: seq<Frame>)
    requires st != []
    ensures |r| == |st| && r[..|st| - 1] == st[..|st| - 1]
    ensures r[|r| - 1].key == st[|st| - 1].key
  {
    var top := st[|st| - 1];
    st[..|st| - 1] + [Frame(top.key, Put(top.fields, key, v))]
  }

  /** `stack.pop()`: the closed object becomes the value under its key in
      the object around it (it was put there when it was opened, and the
      parser only ever writes into the innermost object). Popping the root
      leaves nothing open, and popping nothing changes nothing. */
  function Pop(st: seq<Frame>): (r: seq<Frame>)
    ensures |r| == if |st| == 0 then 0 else |st| - 1
  {
    if |st| <= 1 then []
    else
      var parent := st[|st| - 2];
      var child := st[|st| - 1];
      st[..|st| - 2] + [Frame(parent.key, Put(parent.fields, child.key, Obj(child.fields)))]
  }

  /** One line of the loop. */
  function Step(st: seq<Frame>, line: string): Result<seq<Frame>, Thrown> {
    match Classify(line)
    case CloseObject => Success(Pop(st))
    case KeyValue(k, v) =>
      if st == [] then Failure(ErrorObject(KeyValueOutside + k + "\" before any parent object existed"))
      else Success(SetTop(st, k, Str(v)))
    case OpenObject(k) =>
      if st == [] then Failure(ErrorObject(ObjectOutside + k + "\" encountered with no parent object available"))
      else Success(SetTop(st, k, Obj([])) + [Frame(k, [])])
    case Ignored => Success(st)
  }

  /** A key line assigns the value in the innermost object and changes no
      other key of it; a key already there keeps its place. */
  lemma StepKeyValue(st: seq<Frame>, line: string, k: string, v: string)
    requires st != [] && Classify(line) == KeyValue(k, v)
    ensures Step(st, line).Success?
    ensures var r := Step(st, line).value; var top := r[|r| - 1].fields; var old_ := st[|st| - 1].fields;
      && |r| == |st| && r[..|r| - 1] == st[..|st| - 1]
      && Get(top, k) == Some(Str(v))
      && (forall k' :: k' != k ==> Get(top, k') == Get(old_, k'))
      && (Get(old_, k).Some? ==> FieldKeys(top) == FieldKeys(old_))
  {
    PutKeys(st[|st| - 1].fields, k, Str(v));
  }

  /** A later value for the same key replaces the earlier one in place. */
  lemma DuplicateKeyOverwrites(st: seq<Frame>, k: string, v1: string, v2: string, line1: string, line2: string)
    requires st != [] && Classify(line1) == KeyValue(k, v1) && Classify(line2) == KeyValue(k, v2)
    ensures Step(st, line1).Success?
    ensures Step(Step(st, line1).value, line2) == Step(st, line2)
  {
    var top := st[|st| - 1];
    var s1 := SetTop(st, k, Str(v1));
    PutTwice(top.fields, k, Str(v1), Str(v2));
    assert s1[..|s1| - 1] == st[..|st| - 1];
  }

  /** A lone key opens a fresh empty object under that key in the innermost
      object and makes it the innermost. */
  lemma StepOpenObject(st: seq<Frame>, line: string, k: string)
    requires st != [] && Classify(line) == OpenObject(k)
    ensures Step(st, line).Success?
    ensures var r := Step(st, line).value;
      && |r| == |st| + 1 && r[|r| - 1] == Frame(k, [])
      && Get(r[|st| - 1].fields, k) == Some(Obj([]))
      && r[..|st| - 1] == st[..|st| - 1]
  {
  }

  /** `}` closes the innermost object: the one around it now holds it under
      its key. */
  lemma StepCloseObject(st: seq<Frame>)
    requires |st| >= 2
    ensures Step(st, "}").Success?
    ensures var r := Step(st, "}").value;
      && |r| == |st| - 1 && r[..|r| - 1] == st[..|st| - 2]
      && Get(r[|r| - 1].fields, st[|st| - 1].key) == Some(Obj(st[|st| - 1].fields))
  {
  }

  /** Skipped lines change nothing. */
  lemma StepIgnored(st: seq<Frame>, line: string)
    requires Classify(line) == Ignored
    ensures Step(st, line) == Success(st)
  {
  }

  /** The loop over all lines; the first error escapes. */
  function Run(st: seq<Frame>, lines: seq<string>): Result<seq<Frame>, Thrown>
    decreases |lines|
  {
    if |lines| == 0 then Success(st)
    else
      var next :- Step(st, lines[0]);
      Run(next, lines[1..])
  }

  /** Key and object lines are what the parser cannot take once every
      object, the root included, is closed. */
  predicate Assigns(line: string) {
    Classify(line).KeyValue? || Classify(line).OpenObject?
  }

  /** With nothing open the run fails exactly when a key or object line
      comes, and fails with the message for the first such line. */
  lemma {:induction false} RunWhenClosed(lines: seq<string>)
    ensures Run([], lines).Success? <==> forall i :: 0 <= i < |lines| ==> !Assigns(lines[i])
    ensures Run([], lines).Success? ==> Run([], lines).value == []
    ensures Run([], lines).Failure? ==>
              exists i :: 0 <= i < |lines| && Assigns(lines[i]) && Step([], lines[i]) == Failure(Run([], lines).error)
                && forall j :: 0 <= j < i ==> !Assigns(lines[j])
    decreases |lines|
  {
    if |lines| > 0 {
      var tail := lines[1..];
      RunWhenClosed(tail);
      if Assigns(lines[0]) {
        assert Step([], lines[0]).Failure?;
        assert Run([], lines) == Failure(Step([], lines[0]).error);
      } else {
        assert Step([], lines[0]) == Success([]);
        assert Run([], lines) == Run([], tail);
        assert forall i :: 1 <= i < |lines| ==> lines[i] == tail[i - 1];
        if Run([], lines).Failure? {
          var i :| 0 <= i < |tail| && Assigns(tail[i]) && Step([], tail[i]) == Failure(Run([], lines).error)
                   && forall j :: 0 <= j < i ==> !Assigns(tail[j]);
          assert lines[i + 1] == tail[i];
        }
      }
    }
  }

  /** The loop over `a + b` is the loop over `a`, then over `b`. */
  lemma {:induction false} RunAppend(st: seq<Frame>, a: seq<string>, b: seq<string>)
    requires Run(st, a).Success?
    ensures Run(st, a + b) == Run(Run(st, a).value, b)
    decreases |a|
  {
    if |a| > 0 {
      assert (a + b)[0] == a[0] && (a + b)[1..] == a[1..] + b;
      var next := Step(st, a[0]).value;
      RunAppend(next, a[1..], b);
    } else {
      assert a + b == b;
    }
  }

  // ---------------------------------------------------------------------------
  // The parsed document (lines 189-200)

  /** The objects left open at the end still hang below their parents (the
      stack holds references), so the root holds everything read. */
  function Settle(st: seq<Frame>): (root: seq<Field>)
    requires |st| >= 1
    decreases |st|
  {
    if |st| == 1 then st[0].fields else Settle(Pop(st))
  }

  /** What `stack[0].libraryfolders` throws once the root was closed. */
  const RootClosed: string := "Cannot read properties of undefined (reading 'libraryfolders')"
  /** What `Object.keys`/`Object.values` throw on `undefined`. */
  const NotAnObject: string := "Cannot convert undefined or null to object"

  /** The root object the loop leaves behind, or the error that escaped. */
  function ParseRoot(raw: string): (r: Result<seq<Field>, Thrown>)
    ensures r.Success? ==> Run([Frame("", [])], Lines(raw)).Success? && Run([Frame("", [])], Lines(raw)).value != []
    ensures Run([Frame("", [])], Lines(raw)) == Success([]) ==> r == Failure(ErrorObject(RootClosed))
  {
    var st :- Run([Frame("", [])], Lines(raw));
    if st == [] then Failure(ErrorObject(RootClosed)) else Success(Settle(st))
  }

  /** A library as the code sees it: its `path` value, whatever it is, and the
      keys of its `apps`. */
  datatype Library = Library(path: Option<Value>, apps: seq<string>)

  /** `Object.keys` of a string: its indices. */
  function Indices(s: string): (ks: seq<string>)
    ensures |ks| == |s| && forall i :: 0 <= i < |s| ==> ks[i] == NatToString(i)
  {
    seq(|s|, i requires 0 <= i < |s| => NatToString(i))
  }

  /** Lines 190-196 for one value under `libraryfolders`: a string has no
      `apps`, so `Object.keys(undefined)` throws; so does an object without
      `apps`. */
  function LibraryOf(v: Value): (r: Result<Library, Thrown>)
    ensures r.Success? <==> v.Obj? && Get(v.fields, "apps").Some?
    ensures r.Success? ==> r.value.path == Get(v.fields, "path")
    ensures r.Success? && Get(v.fields, "apps").value.Obj? ==> r.value.apps == FieldKeys(Get(v.fields, "apps").value.fields)
  {
    match v
    case Str(_) => Failure(ErrorObject(NotAnObject))
    case Obj(fs) =>
      match Get(fs, "apps")
      case None => Failure(ErrorObject(NotAnObject))
      case Some(Obj(apps)) => Success(Library(Get(fs, "path"), FieldKeys(apps)))
      case Some(Str(s)) => Success(Library(Get(fs, "path"), Indices(s)))
  }

  function LibraryOutcomes(vs: seq<Field>): (rs: seq<Result<Library, Thrown>>)
    ensures |rs| == |vs| && forall i :: 0 <= i < |vs| ==> rs[i] == LibraryOf(vs[i].value)
  {
    seq(|vs|, i requires 0 <= i < |vs| => LibraryOf(vs[i].value))
  }

  /** `Object.values(root.libraryfolders).map(...)`: one library per value
      under `libraryfolders`, in order. A string there is taken apart into
      its characters, none of which has `apps`. */
  function LibrariesOf(root: seq<Field>): (r: Result<seq<Library>, Thrown>)
    ensures Get(root, "libraryfolders").None? ==> r == Failure(ErrorObject(NotAnObject))
    ensures r.Success? && Get(root, "libraryfolders").value.Obj? ==>
              var vs := Get(root, "libraryfolders").value.fields;
              |r.value| == |vs| && forall i :: 0 <= i < |vs| ==> LibraryOf(vs[i].value) == Success(r.value[i])
    ensures Get(root, "libraryfolders").Some? && Get(root, "libraryfolders").value.Obj? ==>
              (r.Failure? <==> exists i :: 0 <= i < |Get(root, "libraryfolders").value.fields|
                                 && LibraryOf(Get(root, "libraryfolders").value.fields[i].value).Failure?)
  {
    match Get(root, "libraryfolders")
    case None => Failure(ErrorObject(NotAnObject))
    case Some(Str(s)) => if s == "" then Success([]) else Failure(ErrorObject(NotAnObject))
    case Some(Obj(vs)) =>
      var rs := LibraryOutcomes(vs);
      var r := Sequence(rs);
      assert r.Success? ==> forall i :: 0 <= i < |vs| ==> LibraryOf(vs[i].value).Success?;
      assert r.Failure? ==> exists i :: 0 <= i < |vs| && LibraryOf(vs[i].value).Failure?;
      assert Get(root, "libraryfolders").value.fields == vs;
      r
  }

  /** `_parseLibraryFoldersFromVdf`. */
  function ParseLibraryFolders(raw: string): Result<seq<Library>, Thrown> {
    var root :- ParseRoot(raw);
    LibrariesOf(root)
  }

  // ---------------------------------------------------------------------------
  // findSteamGameInstall (lines 13-84)

  /** `steamLibraries.find(lib => lib.apps.includes(appId))`, as an index:
      the first library listing the app. */
  function SelectLibrary(libs: seq<Library>, appId: string): (r: Option<nat>)
    ensures r.Some? ==> r.value < |libs| && appId in libs[r.value].apps
    ensures r.Some? ==> forall j :: 0 <= j < r.value ==> appId !in libs[j].apps
    ensures r.None? <==> forall j :: 0 <= j < |libs| ==> appId !in libs[j].apps
  {
    if |libs| == 0 then None
    else if appId in libs[0].apps then Some(0)
    else
      match SelectLibrary(libs[1..], appId)
      case None => None
      case Some(i) => Some(i + 1)
  }

  /** `path.join` of several segments, without Node's normalisation. */
  function JoinAll(base: string, segments: seq<string>): string
    decreases |segments|
  {
    if |segments| == 0 then base
    else JoinAll(JoinPath(base, segments[0]), segments[1..])
  }

  function LibraryVdfPath(steamRoot: string): string {
    JoinAll(steamRoot, ["steamapps", "libraryfolders.vdf"])
  }

  function AcfPath(libraryPath: string, appId: string): string {
    JoinAll(libraryPath, ["steamapps", "appmanifest_" + appId + ".acf"])
  }

  /** Lines 39-40: the first `"installdir"`, optional whitespace and a quoted
      value, trimmed; blank counts as missing. */
  function InstallDir(acf: string): (r: Option<string>)
    ensures r.Some? ==> r.value != "" && !IsWs(r.value[0]) && !IsWs(r.value[|r.value| - 1]) && '"' !in r.value
    ensures r.Some? <==> FirstValue(acf, InstallDirKey).Some? && Trim(FirstValue(acf, InstallDirKey).value) != ""
  {
    match FirstValue(acf, InstallDirKey)
    case None => None
    case Some(v) =>
      var n := Trim(v);
      if n == "" then None else Some(n)
  }

  /** The install folder is the trimmed value of the leftmost match. */
  lemma InstallDirLeftmost(acf: string)
    requires InstallDir(acf).Some?
    ensures exists j, v :: 0 <= j <= |acf| && NoMatchBefore(acf, InstallDirKey, j) && MatchAt(acf, InstallDirKey, j, v)
              && InstallDir(acf) == Some(Trim(v))
  {
    FirstValueLeftmost(acf, InstallDirKey);
  }

  /** A manifest that starts with the install folder's field yields it. */
  lemma InstallDirOfField(w: string, v: string, rest: string)
    requires AllWs(w) && IsValue(v) && !IsWs(v[0]) && !IsWs(v[|v| - 1])
    ensures InstallDir(Scan.Quoted(InstallDirKey, w, v) + rest) == Some(v)
  {
    QuotedPrefixOfQuoted(InstallDirKey, w, v, rest);
    TrimOfTrimmed(v);
  }

  const NoLibrary: string := "Could not determine library of app "
  /** What `path.join` throws for a `path` that is not a string (the part of
      the message that names the value received is not modelled). */
  const PathNotString: string := "The \"path\" argument must be of type string"
  const NoUserProfile: string :=
    "\nCould not access %USERPROFILE%, please provide a custom mod dir via \"--mod-dir=<path/to/your/mod/directory>\""

  function AcfMissing(acf: string, libraryPath: string): string {
    "Could read acf \"" + acf + "\" in library \"" + libraryPath + "\""
  }

  function NoInstallFolder(appId: string, libraryPath: string): string {
    "Could not determine install folder of \"" + appId + "\" in library \"" + libraryPath + "\""
  }

  /** What the function returns. */
  datatype SteamLocations = SteamLocations(name: string, gameDir: string, modDir: string, workshopDir: string)

  /** Lines 71 and 98 compare the app id with the id of Euro Truck Simulator
      2 as imported, and pick that game's folder and executable on a match,
      those of American Truck Simulator otherwise. */
  function GameFolderFor(etsId: Option<string>, appId: string): string {
    if etsId == Some(appId) then "Euro Truck Simulator 2" else "American Truck Simulator"
  }

  function GameExeFor(etsId: Option<string>, appId: string): string {
    if etsId == Some(appId) then "eurotrucks2.exe" else "amtrucks.exe"
  }

  /** As written: line 4 imports the id from src/lib/args.js, which exports
      only the parsed arguments, so the id is `undefined`. */
  const ImportedEtsAppId: Option<string> := None

  /** The id as evidently meant, the one of src/lib/game-installation.js. */
  const IntendedEtsAppId: Option<string> := Some(EtsAppId)

  /** As written, Euro Truck Simulator 2 is taken for American Truck
      Simulator. */
  lemma GameChoiceAsWritten()
    ensures GameFolderFor(ImportedEtsAppId, EtsAppId) == "American Truck Simulator"
    ensures GameExeFor(ImportedEtsAppId, EtsAppId) == "amtrucks.exe"
  {
  }

  /** With the intended id each game gets its own folder and executable. */
  lemma GameChoiceIntended(appId: string)
    ensures GameFolderFor(IntendedEtsAppId, appId) == "Euro Truck Simulator 2" <==> appId == EtsAppId
    ensures GameExeFor(IntendedEtsAppId, appId) == "eurotrucks2.exe" <==> appId == EtsAppId
    ensures GameFolderFor(IntendedEtsAppId, AtsAppId) == "American Truck Simulator"
  {
  }

  /** Lines 61-74: a truthy custom mod directory is used as given; otherwise
      the game's mod folder under the user profile, which must be set.
      `etsId` is the Euro Truck Simulator 2 id the module sees: the program
      as written passes `ImportedEtsAppId`, the corrected one
      `IntendedEtsAppId` (ModDirAsWritten, ModDirIntended). */
  function ModDir(etsId: Option<string>, appId: string, customModDir: Option<string>, userProfile: Option<string>): (r: Result<string, Thrown>)
    ensures Truthy(customModDir) ==> r == Success(customModDir.value)
    ensures !Truthy(customModDir) && !Truthy(userProfile) ==> r == Failure(ErrorObject(NoUserProfile))
    ensures !Truthy(customModDir) && Truthy(userProfile) ==>
              r == Success(JoinAll(userProfile.value, ["Documents", GameFolderFor(etsId, appId), "mod"]))
  {
    if Truthy(customModDir) then Success(customModDir.value)
    else if !Truthy(userProfile) then Failure(ErrorObject(NoUserProfile))
    else Success(JoinAll(userProfile.value, ["Documents", GameFolderFor(etsId, appId), "mod"]))
  }

  /** Lines 22-44 and 46-59: after the parsed libraries are at hand. */
  function FindInLibraries(etsId: Option<string>, fs: Fs, libs: seq<Library>, appId: string, customModDir: Option<string>, userProfile: Option<string>): (r: Result<SteamLocations, Thrown>)
    ensures SelectLibrary(libs, appId).None? ==> r == Failure(ErrorObject(NoLibrary + appId))
    ensures SelectLibrary(libs, appId).Some? && libs[SelectLibrary(libs, appId).value].path != Some(Str(LibraryPath(libs, appId))) ==>
              r == Failure(ErrorObject(PathNotString))
    ensures r.Success? ==>
              var p := LibraryPath(libs, appId);
              var acf := AcfPath(p, appId);
              && SelectLibrary(libs, appId).Some?
              && libs[SelectLibrary(libs, appId).value].path == Some(Str(p))
              && fs.pathExists(acf) && fs.readFile(acf).Success?
              && InstallDir(fs.readFile(acf).value) == Some(r.value.name)
              && r.value.gameDir == JoinAll(p, ["steamapps", "common", r.value.name])
              && r.value.workshopDir == JoinAll(p, ["steamapps", "workshop", "content", appId])
              && ModDir(etsId, appId, customModDir, userProfile) == Success(r.value.modDir)
    ensures SelectLibrary(libs, appId).Some? && libs[SelectLibrary(libs, appId).value].path == Some(Str(LibraryPath(libs, appId))) ==>
              var p := LibraryPath(libs, appId);
              var acf := AcfPath(p, appId);
              && (!fs.pathExists(acf) ==> r == Failure(ErrorObject(AcfMissing(acf, p))))
              && (fs.pathExists(acf) && fs.readFile(acf).Failure? ==> r == Failure(fs.readFile(acf).error))
              && (fs.pathExists(acf) && fs.readFile(acf).Success? && InstallDir(fs.readFile(acf).value).None? ==>
                    r == Failure(ErrorObject(NoInstallFolder(appId, p))))
  {
    match SelectLibrary(libs, appId)
    case None => Failure(ErrorObject(NoLibrary + appId))
    case Some(i) =>
      match libs[i].path
      case Some(Str(p)) =>
        var acf := AcfPath(p, appId);
        if !fs.pathExists(acf) then Failure(ErrorObject(AcfMissing(acf, p)))
        else
          var content :- fs.readFile(acf);
          (match InstallDir(content)
           case None => Failure(ErrorObject(NoInstallFolder(appId, p)))
           case Some(name) =>
             var modDir :- ModDir(etsId, appId, customModDir, userProfile);
             Success(SteamLocations(
               name,
               JoinAll(p, ["steamapps", "common", name]),
               modDir,
               JoinAll(p, ["steamapps", "workshop", "content", appId]))))
      case _ => Failure(ErrorObject(PathNotString))
  }

  /** The `path` string of the selected library, or `""` when there is none. */
  function LibraryPath(libs: seq<Library>, appId: string): string {
    match SelectLibrary(libs, appId)
    case None => ""
    case Some(i) =>
      match libs[i].path
      case Some(Str(p)) => p
      case _ => ""
  }

  /** `findSteamGameInstall`: read and parse `libraryfolders.vdf` below the
      Steam root, then look the game up. */
  function FindSteamGameInstall(etsId: Option<string>, fs: Fs, steamRoot: string, appId: string, customModDir: Option<string>, userProfile: Option<string>): (r: Result<SteamLocations, Thrown>)
    ensures fs.readFile(LibraryVdfPath(steamRoot)).Failure? ==> r == Failure(fs.readFile(LibraryVdfPath(steamRoot)).error)
    ensures fs.readFile(LibraryVdfPath(steamRoot)).Success? ==>
              match ParseLibraryFolders(fs.readFile(LibraryVdfPath(steamRoot)).value)
              case Failure(e) => r == Failure(e)
              case Success(libs) => r == FindInLibraries(etsId, fs, libs, appId, customModDir, userProfile)
  {
    var raw :- fs.readFile(LibraryVdfPath(steamRoot));
    var libs :- ParseLibraryFolders(raw);
    FindInLibraries(etsId, fs, libs, appId, customModDir, userProfile)
  }

  // ---------------------------------------------------------------------------
  // getGameVersion (lines 92-115)

  /** `t` is what `s.split(' ').at(0)` gives: a prefix of `s` without a
      space, ending where `s` ends or a space follows. */
  predicate FirstToken(s: string, t: string) {
    StartsWith(s, t) && ' ' !in t && (|t| == |s| || s[|t|] == ' ')
  }

  /** Only one prefix has that shape. */
  lemma FirstTokenUnique(s: string, t: string, u: string)
    requires FirstToken(s, t) && FirstToken(s, u)
    ensures t == u
  {
    if |t| == |u| {
      assert t == s[..|t|] == u;
    }
  }

  /** The first piece of a split has that shape. */
  lemma SplitHead(s: string)
    ensures FirstToken(s, Split(s, ' ')[0])
  {
    var parts := Split(s, ' ');
    if |parts| > 1 {
      assert Join(parts, " ") == parts[0] + " " + Join(parts[1..], " ");
    }
  }

  /** Line 98's executable path, with `etsId` as for ModDir. */
  function GameExePath(etsId: Option<string>, appId: string, gameDir: string): string {
    JoinAll(gameDir, ["bin", "win_x64", GameExeFor(etsId, appId)])
  }

  /** Lines 92-115: the file version the query reports for the game's
      executable, cut at the first space after trimming. `None` stands for
      the process exit that follows a failed query or an empty answer. */
  function GameVersion(etsId: Option<string>, versionOf: string -> Result<string, Thrown>, appId: string, gameDir: string): (r: Option<string>)
    ensures r.Some? <==> versionOf(GameExePath(etsId, appId, gameDir)).Success? && Trim(versionOf(GameExePath(etsId, appId, gameDir)).value) != ""
    ensures r.Some? ==> r.value != "" && FirstToken(Trim(versionOf(GameExePath(etsId, appId, gameDir)).value), r.value)
  {
    match versionOf(GameExePath(etsId, appId, gameDir))
    case Failure(_) => None
    case Success(out) =>
      var t := Trim(out);
      var token := Split(t, ' ')[0];
      SplitHead(t);
      if token == "" then
        assert |t| == 0;
        None
      else Some(token)
  }

  /** An answer that is a token, a space and more, with whitespace around,
      yields the token. */
  lemma GameVersionOfAnswer(etsId: Option<string>, versionOf: string -> Result<string, Thrown>, appId: string, gameDir: string,
                            token: string, more: string, w: string)
    requires |token| > 0 && !IsWs(token[0]) && ' ' !in token
    requires |more| > 0 && !IsWs(more[|more| - 1]) && AllWs(w)
    requires versionOf(GameExePath(etsId, appId, gameDir)) == Success(token + " " + more + w)
    ensures GameVersion(etsId, versionOf, appId, gameDir) == Some(token)
  {
    var t := token + " " + more;
    TrimTrailing(t, w);
    assert t[..|token|] == token && t[|token|] == ' ';
    var r := GameVersion(etsId, versionOf, appId, gameDir);
    FirstTokenUnique(t, r.value, token);
  }

  /** The hash part of the answer is cut away. */
  lemma GameVersionExample(etsId: Option<string>, versionOf: string -> Result<string, Thrown>, appId: string, gameDir: string)
    requires versionOf(GameExePath(etsId, appId, gameDir)) == Success("1.57.2.4" + " " + "(a7624b40b34b6135e6ed1cd5b813b17346746798)" + "\r\n")
    ensures GameVersion(etsId, versionOf, appId, gameDir) == Some("1.57.2.4")
  {
    var token := "1.57.2.4";
    var more := "(a7624b40b34b6135e6ed1cd5b813b17346746798)";
    assert AllWs("\r\n");
    GameVersionOfAnswer(etsId, versionOf, appId, gameDir, token, more, "\r\n");
  }

  // ---------------------------------------------------------------------------
  // The two instances of the id of line 4

  /** As written, every game without a custom mod directory gets the mod
      folder of American Truck Simulator, Euro Truck Simulator 2 included. */
  lemma ModDirAsWritten(appId: string, userProfile: Option<string>)
    requires Truthy(userProfile)
    ensures ModDir(ImportedEtsAppId, appId, None, userProfile)
            == Success(JoinAll(userProfile.value, ["Documents", "American Truck Simulator", "mod"]))
  {
  }

  /** Corrected, Euro Truck Simulator 2 and only it gets its own folder. */
  lemma ModDirIntended(appId: string, userProfile: Option<string>)
    requires Truthy(userProfile)
    ensures ModDir(IntendedEtsAppId, appId, None, userProfile)
            == Success(JoinAll(userProfile.value, ["Documents", if appId == EtsAppId then "Euro Truck Simulator 2" else "American Truck Simulator", "mod"]))
  {
  }

  /** As written, the version of `amtrucks.exe` is queried for every game. */
  lemma GameExePathAsWritten(appId: string, gameDir: string)
    ensures GameExePath(ImportedEtsAppId, appId, gameDir) == JoinAll(gameDir, ["bin", "win_x64", "amtrucks.exe"])
  {
  }

  /** Corrected, Euro Truck Simulator 2 and only it queries `eurotrucks2.exe`. */
  lemma GameExePathIntended(appId: string, gameDir: string)
    ensures GameExePath(IntendedEtsAppId, appId, gameDir)
            == JoinAll(gameDir, ["bin", "win_x64", if appId == EtsAppId then "eurotrucks2.exe" else "amtrucks.exe"])
  {
  }

  /** The two instances part ways exactly on the id of Euro Truck Simulator
      2, in both the mod folder and the executable. */
  lemma AsWrittenDiffersOnEts(appId: string, userProfile: Option<string>, gameDir: string)
    requires Truthy(userProfile)
    ensures ModDir(ImportedEtsAppId, appId, None, userProfile) != ModDir(IntendedEtsAppId, appId, None, userProfile)
            <==> appId == EtsAppId
    ensures GameExePath(ImportedEtsAppId, appId, gameDir) != GameExePath(IntendedEtsAppId, appId, gameDir)
            <==> appId == EtsAppId
  {
    if appId == EtsAppId {
      var u := userProfile.value;
      JoinThree(u, "Documents", "American Truck Simulator", "mod");
      JoinThree(u, "Documents", "Euro Truck Simulator 2", "mod");
      JoinThree(gameDir, "bin", "win_x64", "amtrucks.exe");
      JoinThree(gameDir, "bin", "win_x64", "eurotrucks2.exe");
    }
  }

  lemma JoinThree(base: string, a: string, b: string, c: string)
    ensures |JoinAll(base, [a, b, c])| == |base| + |a| + |b| + |c| + 3
  {
    var x := JoinPath(base, a);
    var y := JoinPath(x, b);
    assert JoinAll(base, [a, b, c]) == JoinAll(x, [b, c]) by { assert [a, b, c][1..] == [b, c]; }
    assert JoinAll(x, [b, c]) == JoinAll(y, [c]) by { assert [b, c][1..] == [c]; }
    assert JoinAll(y, [c]) == JoinPath(y, c) by { assert [c][1..] == []; }
  }
}
