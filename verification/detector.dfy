/** The duplicate detector shared by the current and the legacy analysis
    (src/analysis.ts lines 99-159, src/analysis.js lines 6-43): every mod's
    paths are walked in order, and a path that some differently named mod also
    lists is filed under that path with the walking mod's owner label. */
module Detector {
  import opened Wrappers
  import opened Seqs
  import opened Grouping
  import opened Mods

  /** What the detector needs of a mod: the name it is compared by, the label
      it is recorded under, its paths, and whether its paths are walked at all
      (the current code skips mods carrying an error). */
  datatype Lister = Lister(name: Option<string>, ownerLabel: string, files: seq<string>, walked: bool)

  /** `mods.find(m => m.files.includes(f) && m.modName !== name)`, as an index. */
  function FindOther(ls: seq<Lister>, name: Option<string>, f: string): (r: Option<nat>)
    ensures r.Some? ==> r.value < |ls| && f in ls[r.value].files && ls[r.value].name != name
    ensures r.None? ==> forall j :: 0 <= j < |ls| ==> f !in ls[j].files || ls[j].name == name
  {
    if |ls| == 0 then None
    else if f in ls[0].files && ls[0].name != name then Some(0)
    else
      match FindOther(ls[1..], name, f)
      case None => None
      case Some(j) => Some(j + 1)
  }

  /** Some mod named differently from `m` lists `f` too. */
  predicate SharedElsewhere(ls: seq<Lister>, m: Lister, f: string) {
    FindOther(ls, m.name, f).Some?
  }

  /** The filings made while `m` walks `files`, in order. */
  function FileEvents(ls: seq<Lister>, m: Lister, files: seq<string>): seq<Event> {
    if |files| == 0 then []
    else
      var f := files[|files| - 1];
      FileEvents(ls, m, files[..|files| - 1]) + (if SharedElsewhere(ls, m, f) then [Event(f, m.ownerLabel)] else [])
  }

  function ListerEvents(ls: seq<Lister>, m: Lister): seq<Event> {
    if m.walked then FileEvents(ls, m, m.files) else []
  }

  /** The filings made while the mods `ms` are walked one after the other. */
  function Events(ls: seq<Lister>, ms: seq<Lister>): seq<Event> {
    if |ms| == 0 then []
    else Events(ls, ms[..|ms| - 1]) + ListerEvents(ls, ms[|ms| - 1])
  }

  function Paths(ds: seq<Duplicate>): (ps: seq<string>)
    ensures |ps| == |ds| && forall i :: 0 <= i < |ds| ==> ps[i] == ds[i].filePath
  {
    seq(|ds|, i requires 0 <= i < |ds| => ds[i].filePath)
  }

  /** The detector: all filings folded into one record per path. */
  function Duplicates(ls: seq<Lister>): (ds: seq<Duplicate>)
    ensures Distinct(Paths(ds))
  {
    var gs := GroupAll(Events(ls, ls));
    GroupAllSpec(Events(ls, ls));
    assert Paths(seq(|gs|, i requires 0 <= i < |gs| => Duplicate(gs[i].key, gs[i].members))) == Keys(gs);
    seq(|gs|, i requires 0 <= i < |gs| => Duplicate(gs[i].key, gs[i].members))
  }

  /** Path `f` is discovered: a walked mod lists it and a differently named mod
      lists it too. */
  ghost predicate Discovered(ls: seq<Lister>, f: string) {
    exists i :: 0 <= i < |ls| && ls[i].walked && f in ls[i].files && SharedElsewhere(ls, ls[i], f)
  }

  /** The owners recorded for `f`, mod by mod: one label for every time a walked
      mod lists `f`, provided another mod with a different name lists it. */
  function Owners(ls: seq<Lister>, ms: seq<Lister>, f: string): seq<string> {
    if |ms| == 0 then []
    else
      var m := ms[|ms| - 1];
      Owners(ls, ms[..|ms| - 1], f) + OwnLabels(ls, m, f)
  }

  /** What one mod contributes to the owners of `f`. */
  function OwnLabels(ls: seq<Lister>, m: Lister, f: string): seq<string> {
    if m.walked && SharedElsewhere(ls, m, f) then Repeat(m.ownerLabel, Count(m.files, f)) else []
  }

  // ---------------------------------------------------------------------------
  // Which paths get a record

  lemma {:induction false} FileEventKeys(ls: seq<Lister>, m: Lister, files: seq<string>, f: string)
    ensures f in EventKeys(FileEvents(ls, m, files)) <==> f in files && SharedElsewhere(ls, m, f)
    decreases |files|
  {
    if |files| > 0 {
      var init := files[..|files| - 1];
      var g := files[|files| - 1];
      var a := FileEvents(ls, m, init);
      var tail := if SharedElsewhere(ls, m, g) then [Event(g, m.ownerLabel)] else [];
      assert FileEvents(ls, m, files) == a + tail;
      FileEventKeys(ls, m, init, f);
      EventKeysAppend(a, tail);
      assert f in EventKeys(tail) <==> f == g && SharedElsewhere(ls, m, g);
      assert f in files <==> f in init || f == g by {
        assert files == init + [g];
      }
    }
  }

  lemma {:induction false} EventsKeys(ls: seq<Lister>, ms: seq<Lister>, f: string)
    ensures f in EventKeys(Events(ls, ms)) <==>
              exists i :: 0 <= i < |ms| && ms[i].walked && f in ms[i].files && SharedElsewhere(ls, ms[i], f)
    decreases |ms|
  {
    if |ms| > 0 {
      var init := ms[..|ms| - 1];
      var m := ms[|ms| - 1];
      EventsKeys(ls, init, f);
      EventKeysAppend(Events(ls, init), ListerEvents(ls, m));
      if m.walked {
        FileEventKeys(ls, m, m.files, f);
      }
      assert forall i :: 0 <= i < |init| ==> init[i] == ms[i];
    }
  }

  /** A path gets a record exactly when it is discovered, and records come in
      the order their paths were first filed while walking mods, then paths. */
  lemma DuplicatePaths(ls: seq<Lister>)
    ensures forall f :: f in Paths(Duplicates(ls)) <==> Discovered(ls, f)
    ensures Paths(Duplicates(ls)) == Dedup(EventKeys(Events(ls, ls)))
  {
    var es := Events(ls, ls);
    var gs := GroupAll(es);
    GroupAllSpec(es);
    assert Paths(Duplicates(ls)) == Keys(gs);
    forall f ensures f in EventKeys(es) <==> Discovered(ls, f) {
      EventsKeys(ls, ls, f);
    }
  }

  // ---------------------------------------------------------------------------
  // Who is recorded

  lemma {:induction false} FileEventMembers(ls: seq<Lister>, m: Lister, files: seq<string>, f: string)
    ensures MembersOf(FileEvents(ls, m, files), f)
            == if SharedElsewhere(ls, m, f) then Repeat(m.ownerLabel, Count(files, f)) else []
    decreases |files|
  {
    if |files| > 0 {
      var init := files[..|files| - 1];
      var g := files[|files| - 1];
      var a := FileEvents(ls, m, init);
      var tail := if SharedElsewhere(ls, m, g) then [Event(g, m.ownerLabel)] else [];
      assert FileEvents(ls, m, files) == a + tail;
      FileEventMembers(ls, m, init, f);
      MembersOfAppend(a, tail, f);
      assert MembersOf(tail, f) == (if g == f && SharedElsewhere(ls, m, g) then [m.ownerLabel] else []) by {
        if |tail| == 1 {
          assert tail[..0] == [];
        }
      }
      assert Count(files, f) == Count(init, f) + (if g == f then 1 else 0);
      if SharedElsewhere(ls, m, f) && g == f {
        assert Repeat(m.ownerLabel, Count(init, f)) + [m.ownerLabel] == Repeat(m.ownerLabel, Count(files, f));
      }
    }
  }

  lemma {:induction false} EventsMembers(ls: seq<Lister>, ms: seq<Lister>, f: string)
    ensures MembersOf(Events(ls, ms), f) == Owners(ls, ms, f)
    decreases |ms|
  {
    if |ms| > 0 {
      var init := ms[..|ms| - 1];
      var m := ms[|ms| - 1];
      EventsMembers(ls, init, f);
      MembersOfAppend(Events(ls, init), ListerEvents(ls, m), f);
      if m.walked {
        FileEventMembers(ls, m, m.files, f);
      }
    }
  }

  /** Each record lists, mod by mod in walking order, the walking mod's label
      once for every time that mod lists the path. */
  lemma DuplicateOwners(ls: seq<Lister>)
    ensures forall d :: d in Duplicates(ls) ==> d.mods == Owners(ls, ls, d.filePath)
  {
    var es := Events(ls, ls);
    var gs := GroupAll(es);
    GroupAllSpec(es);
    forall d | d in Duplicates(ls) ensures d.mods == Owners(ls, ls, d.filePath) {
      var i :| 0 <= i < |gs| && d == Duplicate(gs[i].key, gs[i].members);
      EventsMembers(ls, ls, d.filePath);
    }
  }

  // ---------------------------------------------------------------------------
  // Paths listed once per mod

  /** The labels of the mods among `ms` that list `f`, in mod order. */
  function ListingLabels(ms: seq<Lister>, f: string): seq<string> {
    if |ms| == 0 then []
    else
      var m := ms[|ms| - 1];
      ListingLabels(ms[..|ms| - 1], f) + (if f in m.files then [m.ownerLabel] else [])
  }

  lemma {:induction false} OwnersOfSingleListings(ls: seq<Lister>, ms: seq<Lister>, f: string)
    requires forall m :: m in ms ==> m.walked && Count(m.files, f) <= 1
    requires forall m :: m in ms && f in m.files ==> SharedElsewhere(ls, m, f)
    ensures Owners(ls, ms, f) == ListingLabels(ms, f)
    decreases |ms|
  {
    if |ms| > 0 {
      var init := ms[..|ms| - 1];
      var m := ms[|ms| - 1];
      assert forall x :: x in init ==> x in ms;
      OwnersOfSingleListings(ls, init, f);
      if f in m.files {
        assert Repeat(m.ownerLabel, Count(m.files, f)) == [m.ownerLabel];
      }
    }
  }

  /** When every mod is walked and lists `f` at most once, and at least two mods
      list it, all under pairwise different names: `f` gets a record, and the
      record holds exactly one label per listing mod, in mod order. */
  lemma OwnersOfDistinctListers(ls: seq<Lister>, f: string, i0: nat, j0: nat)
    requires forall m :: m in ls ==> m.walked && Count(m.files, f) <= 1
    requires forall i, j :: 0 <= i < j < |ls| && f in ls[i].files && f in ls[j].files ==> ls[i].name != ls[j].name
    requires i0 < j0 < |ls| && f in ls[i0].files && f in ls[j0].files
    ensures exists d :: d in Duplicates(ls) && d.filePath == f
    ensures forall d :: d in Duplicates(ls) && d.filePath == f ==> d.mods == ListingLabels(ls, f)
  {
    forall m | m in ls && f in m.files ensures SharedElsewhere(ls, m, f) {
      var k :| 0 <= k < |ls| && ls[k] == m;
      if k != i0 {
        assert ls[i0].name != m.name by {
          if k < i0 { assert ls[k].name != ls[i0].name; }
        }
        FoundOther(ls, m.name, f, i0);
      } else {
        assert ls[j0].name != m.name;
        FoundOther(ls, m.name, f, j0);
      }
    }
    OwnersOfSingleListings(ls, ls, f);
    DuplicatePaths(ls);
    DuplicateOwners(ls);
    assert Discovered(ls, f) by {
      assert ls[i0].walked && SharedElsewhere(ls, ls[i0], f);
    }
  }

  /** A witness makes the search succeed. */
  lemma FoundOther(ls: seq<Lister>, name: Option<string>, f: string, k: nat)
    requires k < |ls| && f in ls[k].files && ls[k].name != name
    ensures FindOther(ls, name, f).Some?
  {
  }

  /** Walking two groups of mods one after the other records the owners of
      each group in turn. */
  lemma OwnersSnoc(ls: seq<Lister>, ms: seq<Lister>, m: Lister, f: string)
    ensures Owners(ls, ms + [m], f) == Owners(ls, ms, f) + OwnLabels(ls, m, f)
  {
    assert (ms + [m])[..|ms|] == ms;
  }

  lemma {:induction false} OwnersAppend(ls: seq<Lister>, a: seq<Lister>, b: seq<Lister>, f: string)
    ensures Owners(ls, a + b, f) == Owners(ls, a, f) + Owners(ls, b, f)
    decreases |b|
  {
    if |b| == 0 {
      assert a + b == a;
    } else {
      var init := b[..|b| - 1];
      var m := b[|b| - 1];
      SnocSplit(a, b);
      OwnersSnoc(ls, a + init, m, f);
      OwnersSnoc(ls, init, m, f);
      OwnersAppend(ls, a, init, f);
      AppendAssoc(Owners(ls, a, f), Owners(ls, init, f), OwnLabels(ls, m, f));
    }
  }

  /** A recorded path has at least one owner. */
  lemma OwnersOfRecorded(ls: seq<Lister>, f: string)
    requires Discovered(ls, f)
    ensures |Owners(ls, ls, f)| > 0
  {
    var i :| 0 <= i < |ls| && ls[i].walked && f in ls[i].files && SharedElsewhere(ls, ls[i], f);
    OwnersNonEmpty(ls, ls, f, i);
  }

  lemma {:induction false} OwnersNonEmpty(ls: seq<Lister>, ms: seq<Lister>, f: string, i: nat)
    requires i < |ms| && ms[i].walked && f in ms[i].files && SharedElsewhere(ls, ms[i], f)
    ensures |Owners(ls, ms, f)| > 0
    decreases |ms|
  {
    var m := ms[|ms| - 1];
    if i < |ms| - 1 {
      assert ms[..|ms| - 1][i] == ms[i];
      OwnersNonEmpty(ls, ms[..|ms| - 1], f, i);
    } else {
      assert Count(m.files, f) > 0;
    }
  }

  /** Every owner recorded for `f` is the label of a walked mod that lists `f`
      and that some differently named mod shares `f` with. */
  lemma {:induction false} OwnersProvenance(ls: seq<Lister>, ms: seq<Lister>, f: string, o: string)
    requires o in Owners(ls, ms, f)
    ensures exists i :: 0 <= i < |ms| && ms[i].ownerLabel == o && ms[i].walked && f in ms[i].files
                        && SharedElsewhere(ls, ms[i], f)
    decreases |ms|
  {
    var init := ms[..|ms| - 1];
    var m := ms[|ms| - 1];
    if o in Owners(ls, init, f) {
      OwnersProvenance(ls, init, f, o);
      var i :| 0 <= i < |init| && init[i].ownerLabel == o && init[i].walked && f in init[i].files
               && SharedElsewhere(ls, init[i], f);
      assert ms[i] == init[i];
    } else {
      assert o in OwnLabels(ls, m, f);
      assert ms[|ms| - 1] == m;
    }
  }
}
