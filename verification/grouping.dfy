/** Insertion-ordered grouping: a stream of (key, member) filings folded into one
    group per key, with groups in order of their key's first filing and members
    in filing order.

    Both halves of the pipeline are this fold. The duplicate detector files each
    owner label under a shared path (`duplicates.find(dup => dup.filePath === filePath)`
    then push or create), and the report builder files each shared path under the
    other owner (`result[mod] = []` then `result[mod].push(filePath)`). */
module Grouping {
  import opened Wrappers
  import opened Seqs

  /** A key with the members filed under it. */
  datatype Group = Group(key: string, members: seq<string>)

  /** One filing: `member` goes under `key`. */
  datatype Event = Event(key: string, member: string)

  function Keys(gs: seq<Group>): (ks: seq<string>)
    ensures |ks| == |gs|
    ensures forall i :: 0 <= i < |gs| ==> ks[i] == gs[i].key
  {
    if |gs| == 0 then [] else Keys(gs[..|gs| - 1]) + [gs[|gs| - 1].key]
  }

  function EventKeys(es: seq<Event>): (ks: seq<string>)
    ensures |ks| == |es|
    ensures forall i :: 0 <= i < |es| ==> ks[i] == es[i].key
  {
    if |es| == 0 then [] else EventKeys(es[..|es| - 1]) + [es[|es| - 1].key]
  }

  lemma EventKeysAppend(a: seq<Event>, b: seq<Event>)
    ensures EventKeys(a + b) == EventKeys(a) + EventKeys(b)
  {
  }

  /** The members filed under `k`, in filing order. */
  function MembersOf(es: seq<Event>, k: string): seq<string> {
    if |es| == 0 then []
    else
      var e := es[|es| - 1];
      MembersOf(es[..|es| - 1], k) + (if e.key == k then [e.member] else [])
  }

  /** Index of the first group holding key `k`, as `Array.prototype.find` locates it. */
  function FindKey(gs: seq<Group>, k: string): (r: Option<nat>)
    ensures r.Some? ==> r.value < |gs| && gs[r.value].key == k
    ensures r.None? <==> k !in Keys(gs)
  {
    if |gs| == 0 then None
    else if gs[0].key == k then Some(0)
    else
      match FindKey(gs[1..], k)
      case None =>
        assert forall i :: 1 <= i < |gs| ==> gs[i].key == Keys(gs[1..])[i - 1];
        None
      case Some(i) => Some(i + 1)
  }

  /** Files one event: the member is appended to the group with its key, or a new
      group holding only this member is opened at the end. */
  function Add(gs: seq<Group>, e: Event): seq<Group> {
    match FindKey(gs, e.key)
    case None => gs + [Group(e.key, [e.member])]
    case Some(i) => gs[i := Group(e.key, gs[i].members + [e.member])]
  }

  /** All events filed one after the other, starting from no groups. */
  function GroupAll(es: seq<Event>): seq<Group> {
    if |es| == 0 then [] else Add(GroupAll(es[..|es| - 1]), es[|es| - 1])
  }

  /** `gs` groups the events `es`: one group per distinct key, in order of first
      filing, each holding exactly the members filed under its key, in order. */
  ghost predicate GroupsOf(gs: seq<Group>, es: seq<Event>) {
    && Keys(gs) == Dedup(EventKeys(es))
    && forall i :: 0 <= i < |gs| ==> gs[i].members == MembersOf(es, gs[i].key)
  }

  lemma {:induction false} MembersOfAbsent(es: seq<Event>, k: string)
    requires k !in EventKeys(es)
    ensures MembersOf(es, k) == []
  {
    if |es| > 0 {
      assert EventKeys(es[..|es| - 1]) == EventKeys(es)[..|es| - 1];
      MembersOfAbsent(es[..|es| - 1], k);
      assert es[|es| - 1].key == EventKeys(es)[|es| - 1];
    }
  }

  /** The fold and the first-filing characterisation agree on every stream. */
  lemma {:induction false} GroupAllSpec(es: seq<Event>)
    ensures GroupsOf(GroupAll(es), es)
    decreases |es|
  {
    if |es| > 0 {
      var p := es[..|es| - 1];
      GroupAllSpec(p);
      assert p + [es[|es| - 1]] == es;
      AddSpec(GroupAll(p), p, es[|es| - 1]);
    }
  }

  /** Filing one more event keeps the characterisation. */
  lemma AddSpec(gs: seq<Group>, p: seq<Event>, e: Event)
    requires GroupsOf(gs, p)
    ensures GroupsOf(Add(gs, e), p + [e])
  {
    var es := p + [e];
    assert es[..|es| - 1] == p;
    var ks := EventKeys(es);
    assert ks[..|ks| - 1] == EventKeys(p);
    assert Dedup(ks) == if e.key in Dedup(EventKeys(p)) then Dedup(EventKeys(p)) else Dedup(EventKeys(p)) + [e.key];
    assert forall k :: MembersOf(es, k) == MembersOf(p, k) + (if e.key == k then [e.member] else []);
    match FindKey(gs, e.key)
    case None => AddNew(gs, p, e);
    case Some(i) => AddExisting(gs, p, e, i);
  }

  lemma AddNew(gs: seq<Group>, p: seq<Event>, e: Event)
    requires GroupsOf(gs, p) && FindKey(gs, e.key).None?
    requires forall k :: MembersOf(p + [e], k) == MembersOf(p, k) + (if e.key == k then [e.member] else [])
    ensures Keys(Add(gs, e)) == Keys(gs) + [e.key]
    ensures forall i :: 0 <= i < |Add(gs, e)| ==> Add(gs, e)[i].members == MembersOf(p + [e], Add(gs, e)[i].key)
  {
    var r := Add(gs, e);
    MembersOfAbsent(p, e.key);
    assert Keys(r) == Keys(gs) + [e.key];
  }

  lemma AddExisting(gs: seq<Group>, p: seq<Event>, e: Event, i: nat)
    requires GroupsOf(gs, p) && FindKey(gs, e.key) == Some(i)
    requires forall k :: MembersOf(p + [e], k) == MembersOf(p, k) + (if e.key == k then [e.member] else [])
    ensures Keys(Add(gs, e)) == Keys(gs)
    ensures forall j :: 0 <= j < |Add(gs, e)| ==> Add(gs, e)[j].members == MembersOf(p + [e], Add(gs, e)[j].key)
  {
    var r := Add(gs, e);
    assert Keys(r) == Keys(gs);
    forall j | 0 <= j < |r| ensures r[j].members == MembersOf(p + [e], r[j].key) {
      if j != i {
        assert Keys(gs)[j] != Keys(gs)[i];
      }
    }
  }

  /** Read-off form of `GroupAllSpec`: a key has a group exactly when some event
      files under it, and that group lists exactly the members filed under it. */
  lemma GroupAllMembers(es: seq<Event>, k: string)
    ensures k in Keys(GroupAll(es)) <==> k in EventKeys(es)
    ensures forall i :: 0 <= i < |GroupAll(es)| && GroupAll(es)[i].key == k ==>
              GroupAll(es)[i].members == MembersOf(es, k)
  {
    GroupAllSpec(es);
  }

  /** Filing two streams one after the other files each member where it would
      have gone in its own stream. */
  lemma {:induction false} MembersOfAppend(a: seq<Event>, b: seq<Event>, k: string)
    ensures MembersOf(a + b, k) == MembersOf(a, k) + MembersOf(b, k)
    decreases |b|
  {
    if |b| == 0 {
      assert a + b == a;
    } else {
      var c := a + b;
      assert c[..|c| - 1] == a + b[..|b| - 1];
      MembersOfAppend(a, b[..|b| - 1], k);
    }
  }

  /** A key with members filed under it has a group, which holds them. */
  lemma GroupOfFiledKey(es: seq<Event>, k: string)
    requires MembersOf(es, k) != []
    ensures exists j :: 0 <= j < |GroupAll(es)| && GroupAll(es)[j] == Group(k, MembersOf(es, k))
  {
    if k !in EventKeys(es) {
      MembersOfAbsent(es, k);
    }
    GroupAllMembers(es, k);
    var j :| 0 <= j < |Keys(GroupAll(es))| && Keys(GroupAll(es))[j] == k;
    assert GroupAll(es)[j].key == k;
  }
}
