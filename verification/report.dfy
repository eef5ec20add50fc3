/** The report structure of src/result-files.js (lines 105-183): for every mod
    named in some record, the other mods it clashes with and the shared paths
    behind each clash. */
module Report {
  import opened Wrappers
  import opened Seqs
  import opened Grouping
  import opened Mods

  /** One clash partner of a mod and the paths they share. */
  datatype Conflict = Conflict(modName: string, files: seq<string>)

  /** A mod and its clashes, in the order they will be printed. */
  datatype ResultStructure = ResultStructure(mod: string, conflicts: seq<Conflict>)

  // ---------------------------------------------------------------------------
  // _buildResultPrintStructure (lines 105-127)

  /** Every owner list, one after the other (the `reduce` of lines 110-113). */
  function AllOwners(ds: seq<Duplicate>): (os: seq<string>)
    ensures forall o :: o in os <==> exists i :: 0 <= i < |ds| && o in ds[i].mods
  {
    var ss := seq(|ds|, i requires 0 <= i < |ds| => ds[i].mods);
    assert forall i :: 0 <= i < |ds| ==> ss[i] == ds[i].mods;
    Flatten(ss)
  }

  /** Lines 110-114: the owners, de-duplicated in first-seen order. */
  function ConflictedMods(ds: seq<Duplicate>): (ms: seq<string>)
    ensures Distinct(ms)
    ensures forall o :: o in ms <==> exists i :: 0 <= i < |ds| && o in ds[i].mods
  {
    Dedup(AllOwners(ds))
  }

  function ModsOf(rs: seq<ResultStructure>): (ms: seq<string>)
    ensures |ms| == |rs| && forall i :: 0 <= i < |rs| ==> ms[i] == rs[i].mod
  {
    seq(|rs|, i requires 0 <= i < |rs| => rs[i].mod)
  }

  /** `_buildResultPrintStructure`: one entry per owner named anywhere, each
      named once, with that owner's clashes. */
  function BuildResultPrintStructure(ds: seq<Duplicate>): (rs: seq<ResultStructure>)
    ensures Distinct(ModsOf(rs))
    ensures forall o :: o in ModsOf(rs) <==> exists i :: 0 <= i < |ds| && o in ds[i].mods
    ensures forall r :: r in rs ==> r.conflicts == ConflictsForMod(r.mod, ds)
  {
    var ms := ConflictedMods(ds);
    var rs := seq(|ms|, i requires 0 <= i < |ms| => ResultStructure(ms[i], ConflictsForMod(ms[i], ds)));
    assert ModsOf(rs) == ms;
    rs
  }

  /** Entries come in the order their owner first appears in the records. */
  lemma EntriesInFirstSeenOrder(ds: seq<Duplicate>, i: nat, j: nat)
    requires i < j < |BuildResultPrintStructure(ds)|
    ensures var rs := BuildResultPrintStructure(ds);
      FirstIndex(AllOwners(ds), rs[i].mod) < FirstIndex(AllOwners(ds), rs[j].mod)
  {
    DedupFirstSeenOrder(AllOwners(ds), i, j);
  }

  // ---------------------------------------------------------------------------
  // _buildConflictsForMod (lines 136-183)

  /** Lines 142-144: copies of the records that name `m`, each with the first
      `m` taken out of its owners. The input records are values and are left
      as they were. */
  function Copies(ds: seq<Duplicate>, m: string): (cs: seq<Duplicate>)
    ensures |cs| <= |ds|
  {
    if |ds| == 0 then []
    else
      var d := ds[|ds| - 1];
      Copies(ds[..|ds| - 1], m) + (if m in d.mods then [Duplicate(d.filePath, RemoveFirst(d.mods, m))] else [])
  }

  /** The filings of one copied record: every remaining owner files the path. */
  function RecordEvents(f: string, os: seq<string>): seq<Event> {
    if |os| == 0 then [] else RecordEvents(f, os[..|os| - 1]) + [Event(os[|os| - 1], f)]
  }

  /** The filings of lines 165-172, record after record. */
  function ConflictEvents(cs: seq<Duplicate>): seq<Event> {
    if |cs| == 0 then []
    else ConflictEvents(cs[..|cs| - 1]) + RecordEvents(cs[|cs| - 1].filePath, cs[|cs| - 1].mods)
  }

  function Names(cs: seq<Conflict>): (ns: seq<string>)
    ensures |ns| == |cs| && forall i :: 0 <= i < |cs| ==> ns[i] == cs[i].modName
  {
    seq(|cs|, i requires 0 <= i < |cs| => cs[i].modName)
  }

  /** `_buildConflictsForMod`: the copied records inverted, owner to paths.
      Each partner appears once. */
  function ConflictsForMod(m: string, ds: seq<Duplicate>): (cs: seq<Conflict>)
    ensures Distinct(Names(cs))
  {
    var gs := GroupAll(ConflictEvents(Copies(ds, m)));
    GroupAllSpec(ConflictEvents(Copies(ds, m)));
    var cs := seq(|gs|, i requires 0 <= i < |gs| => Conflict(gs[i].key, gs[i].members));
    assert Names(cs) == Keys(gs);
    cs
  }

  // ---------------------------------------------------------------------------
  // Reference definitions

  /** The paths a partner `b` is listed with: each record's path once for
      every time `b` is among its owners, records in order. */
  function PartnerFiles(cs: seq<Duplicate>, b: string): seq<string> {
    if |cs| == 0 then []
    else
      var d := cs[|cs| - 1];
      PartnerFiles(cs[..|cs| - 1], b) + Repeat(d.filePath, Count(d.mods, b))
  }

  /** All remaining owners, record after record. */
  function RemainingOwners(cs: seq<Duplicate>): seq<string> {
    if |cs| == 0 then [] else RemainingOwners(cs[..|cs| - 1]) + cs[|cs| - 1].mods
  }

  lemma {:induction false} RecordEventMembers(f: string, os: seq<string>, b: string)
    ensures MembersOf(RecordEvents(f, os), b) == Repeat(f, Count(os, b))
    decreases |os|
  {
    if |os| > 0 {
      var init := os[..|os| - 1];
      var o := os[|os| - 1];
      RecordEventMembers(f, init, b);
      var tail := [Event(o, f)];
      MembersOfAppend(RecordEvents(f, init), tail, b);
      assert tail[..0] == [];
      assert Count(os, b) == Count(init, b) + (if o == b then 1 else 0);
      if o == b {
        assert Repeat(f, Count(init, b)) + [f] == Repeat(f, Count(os, b));
      }
    }
  }

  lemma {:induction false} RecordEventKeys(f: string, os: seq<string>)
    ensures EventKeys(RecordEvents(f, os)) == os
    decreases |os|
  {
    if |os| > 0 {
      var init := os[..|os| - 1];
      var o := os[|os| - 1];
      RecordEventKeys(f, init);
      EventKeysAppend(RecordEvents(f, init), [Event(o, f)]);
      assert init + [o] == os;
    }
  }

  lemma {:induction false} ConflictEventMembers(cs: seq<Duplicate>, b: string)
    ensures MembersOf(ConflictEvents(cs), b) == PartnerFiles(cs, b)
    ensures EventKeys(ConflictEvents(cs)) == RemainingOwners(cs)
    decreases |cs|
  {
    if |cs| > 0 {
      var init := cs[..|cs| - 1];
      var d := cs[|cs| - 1];
      ConflictEventMembers(init, b);
      RecordEventMembers(d.filePath, d.mods, b);
      RecordEventKeys(d.filePath, d.mods);
      MembersOfAppend(ConflictEvents(init), RecordEvents(d.filePath, d.mods), b);
      EventKeysAppend(ConflictEvents(init), RecordEvents(d.filePath, d.mods));
    }
  }

  /** A path is among a partner's files exactly when some record has that path
      and the partner among its owners. */
  lemma {:induction false} PartnerFilesIff(cs: seq<Duplicate>, b: string, f: string)
    ensures f in PartnerFiles(cs, b) <==> exists i :: 0 <= i < |cs| && cs[i].filePath == f && b in cs[i].mods
    decreases |cs|
  {
    if |cs| > 0 {
      var init := cs[..|cs| - 1];
      var d := cs[|cs| - 1];
      PartnerFilesIff(init, b, f);
      var rep := Repeat(d.filePath, Count(d.mods, b));
      if b in d.mods {
        assert rep[0] == d.filePath;
      }
      assert f in rep <==> d.filePath == f && b in d.mods;
      assert forall i :: 0 <= i < |init| ==> init[i] == cs[i];
    }
  }

  /** The copies are exactly the records naming `m`, with the first `m` taken out. */
  lemma {:induction false} CopiesIff(ds: seq<Duplicate>, m: string, c: Duplicate)
    ensures c in Copies(ds, m) <==>
              exists i :: 0 <= i < |ds| && m in ds[i].mods && c == Duplicate(ds[i].filePath, RemoveFirst(ds[i].mods, m))
    decreases |ds|
  {
    if |ds| > 0 {
      var init := ds[..|ds| - 1];
      CopiesIff(init, m, c);
      assert forall i :: 0 <= i < |init| ==> init[i] == ds[i];
    }
  }

  // ---------------------------------------------------------------------------
  // Properties

  /** Each partner's paths are the paths of the copied records that name it,
      in record order, once per mention; partners come in the order they are
      first met among the remaining owners. */
  lemma ConflictsForModOrder(m: string, ds: seq<Duplicate>)
    ensures forall c :: c in ConflictsForMod(m, ds) ==> c.files == PartnerFiles(Copies(ds, m), c.modName)
    ensures Names(ConflictsForMod(m, ds)) == Dedup(RemainingOwners(Copies(ds, m)))
  {
    var es := ConflictEvents(Copies(ds, m));
    var gs := GroupAll(es);
    GroupAllSpec(es);
    var cs := ConflictsForMod(m, ds);
    assert Names(cs) == Keys(gs);
    forall c | c in cs ensures c.files == PartnerFiles(Copies(ds, m), c.modName) {
      ConflictEventMembers(Copies(ds, m), c.modName);
    }
    ConflictEventMembers(Copies(ds, m), m);
  }

  /** Mod `a`'s entry lists partner `b` with path `f`. */
  ghost predicate Lists(ds: seq<Duplicate>, a: string, b: string, f: string) {
    exists c :: c in ConflictsForMod(a, ds) && c.modName == b && f in c.files
  }

  /** A record for `f` naming `m` and, once the first `m` is taken out,
      still naming `b`. */
  ghost predicate SharedRecord(ds: seq<Duplicate>, m: string, b: string, f: string) {
    exists i :: 0 <= i < |ds| && ds[i].filePath == f && m in ds[i].mods && b in RemoveFirst(ds[i].mods, m)
  }

  /** Inversion: `m`'s entry lists `b` with `f` exactly when a record for `f`
      names `m` and, once the first `m` is taken out, still names `b`. */
  lemma ListsIff(ds: seq<Duplicate>, m: string, b: string, f: string)
    ensures Lists(ds, m, b, f) <==> SharedRecord(ds, m, b, f)
  {
    if SharedRecord(ds, m, b, f) {
      SharedRecordListed(ds, m, b, f);
    }
    if Lists(ds, m, b, f) {
      ListedFromRecord(ds, m, b, f);
    }
  }

  lemma SharedRecordListed(ds: seq<Duplicate>, m: string, b: string, f: string)
    requires SharedRecord(ds, m, b, f)
    ensures Lists(ds, m, b, f)
  {
    var cs := Copies(ds, m);
    var es := ConflictEvents(cs);
    var i :| 0 <= i < |ds| && ds[i].filePath == f && m in ds[i].mods && b in RemoveFirst(ds[i].mods, m);
    CopiesIff(ds, m, Duplicate(f, RemoveFirst(ds[i].mods, m)));
    PartnerFilesIff(cs, b, f);
    ConflictEventMembers(cs, b);
    assert MembersOf(es, b) != [];
    GroupOfFiledKey(es, b);
    var gs := GroupAll(es);
    var j :| 0 <= j < |gs| && gs[j] == Group(b, MembersOf(es, b));
    assert ConflictsForMod(m, ds)[j] == Conflict(b, gs[j].members);
  }

  lemma ListedFromRecord(ds: seq<Duplicate>, m: string, b: string, f: string)
    requires Lists(ds, m, b, f)
    ensures SharedRecord(ds, m, b, f)
  {
    var cs := Copies(ds, m);
    ConflictsForModOrder(m, ds);
    var c :| c in ConflictsForMod(m, ds) && c.modName == b && f in c.files;
    PartnerFilesIff(cs, b, f);
    var k :| 0 <= k < |cs| && cs[k].filePath == f && b in cs[k].mods;
    CopiesIff(ds, m, cs[k]);
  }

  /** With pairwise different labels in every record, a clash is listed on
      both sides: if `a` lists `b` with `f`, then `b` lists `a` with `f`. */
  lemma ListsSymmetric(ds: seq<Duplicate>, a: string, b: string, f: string)
    requires forall i :: 0 <= i < |ds| ==> Distinct(ds[i].mods)
    requires Lists(ds, a, b, f)
    ensures Lists(ds, b, a, f) && a != b
  {
    ListedFromRecord(ds, a, b, f);
    var i :| 0 <= i < |ds| && ds[i].filePath == f && a in ds[i].mods && b in RemoveFirst(ds[i].mods, a);
    RemoveFirstOfDistinct(ds[i].mods, a, b);
    RemoveFirstOfDistinct(ds[i].mods, b, a);
    SharedRecordListed(ds, b, a, f);
  }
}
