/** Sequence helpers that stand for the JavaScript array idioms of the pipeline:
    `indexOf`, `splice(indexOf(x), 1)`, the `filter((v, i, a) => a.indexOf(v) === i)`
    de-duplication and spreading arrays into one. */
module Seqs {

  /** Every element occurs once. */
  predicate Distinct<T(==)>(s: seq<T>) {
    forall i, j :: 0 <= i < j < |s| ==> s[i] != s[j]
  }

  /** `s.indexOf(x)` for an element that is present. */
  function FirstIndex<T(==)>(s: seq<T>, x: T): (i: nat)
    requires x in s
    ensures i < |s| && s[i] == x && x !in s[..i]
  {
    if s[0] == x then 0
    else
      var i := 1 + FirstIndex(s[1..], x);
      assert s[..i] == [s[0]] + s[1..][..i - 1];
      i
  }

  /** The distinct elements of `s`, each kept at its first appearance. */
  function Dedup<T(==,!new)>(s: seq<T>): (r: seq<T>)
    ensures Distinct(r)
    ensures forall x :: x in r <==> x in s
    decreases |s|
  {
    if |s| == 0 then []
    else
      var d := Dedup(s[..|s| - 1]);
      var x := s[|s| - 1];
      assert forall y :: y in s <==> y in s[..|s| - 1] || y == x by {
        assert s == s[..|s| - 1] + [x];
      }
      if x in d then d else d + [x]
  }

  lemma {:induction false} FirstIndexOfPrefix<T>(s: seq<T>, x: T, n: nat)
    requires n <= |s| && x in s[..n]
    ensures FirstIndex(s, x) == FirstIndex(s[..n], x)
  {
    var i := FirstIndex(s[..n], x);
    assert s[..i] == s[..n][..i];
  }

  /** De-duplication keeps first-seen order: of two kept elements, the one that
      appeared first in `s` comes first. */
  lemma {:induction false} DedupFirstSeenOrder<T(!new)>(s: seq<T>, i: nat, j: nat)
    requires i < j < |Dedup(s)|
    ensures FirstIndex(s, Dedup(s)[i]) < FirstIndex(s, Dedup(s)[j])
    decreases |s|
  {
    var p := s[..|s| - 1];
    var d := Dedup(p);
    var x := s[|s| - 1];
    assert s == p + [x];
    if j < |d| {
      DedupFirstSeenOrder(p, i, j);
      FirstIndexOfPrefix(s, d[i], |s| - 1);
      FirstIndexOfPrefix(s, d[j], |s| - 1);
    } else {
      assert x !in d && Dedup(s)[j] == x;
      assert x !in p;
      assert FirstIndex(s, x) == |s| - 1;
      FirstIndexOfPrefix(s, d[i], |s| - 1);
    }
  }

  /** `s.splice(s.indexOf(x), 1)` on a copy: the first `x` is taken out and
      everything else keeps its place. */
  function RemoveFirst<T(==)>(s: seq<T>, x: T): (r: seq<T>)
    requires x in s
    ensures |r| == |s| - 1
  {
    if s[0] == x then s[1..] else [s[0]] + RemoveFirst(s[1..], x)
  }

  /** The first `x` is cut out and nothing else. */
  lemma RemoveFirstCut<T>(s: seq<T>, x: T)
    requires x in s
    ensures RemoveFirst(s, x) == s[..FirstIndex(s, x)] + s[FirstIndex(s, x) + 1..]
  {
    var i := FirstIndex(s, x);
    RemoveFirstAt(s, x, i);
  }

  lemma {:induction false} RemoveFirstAt<T>(s: seq<T>, x: T, i: nat)
    requires i < |s| && s[i] == x && x !in s[..i]
    ensures RemoveFirst(s, x) == s[..i] + s[i + 1..]
  {
    if i == 0 {
      assert s[..0] + s[1..] == s[1..];
    } else {
      assert s[0] != x by { assert s[..i][0] == s[0]; }
      assert s[1..][..i - 1] == s[..i][1..];
      RemoveFirstAt(s[1..], x, i - 1);
      CutAfterHead(s, i - 1);
    }
  }

  /** Cutting out the element after index `j` of the tail is cutting out the
      one after index `j + 1` of the whole. */
  lemma CutAfterHead<T>(s: seq<T>, j: nat)
    requires j + 1 < |s|
    ensures s[..j + 1] + s[j + 2..] == [s[0]] + (s[1..][..j] + s[1..][j + 1..])
  {
  }

  /** The head, then the rest of the tail and `x`, is the whole and `x`. */
  lemma HeadTailAppend<T>(s: seq<T>, x: seq<T>)
    requires |s| > 0
    ensures [s[0]] + (s[1..] + x) == s + x
  {
    assert s == [s[0]] + s[1..];
  }

  /** When the elements are distinct, what is left after removing `x` is exactly
      the other elements. */
  lemma RemoveFirstOfDistinct<T>(s: seq<T>, x: T, y: T)
    requires x in s && Distinct(s)
    ensures y in RemoveFirst(s, x) <==> y in s && y != x
  {
    var i := FirstIndex(s, x);
    RemoveFirstCut(s, x);
    if y in RemoveFirst(s, x) {
      RemovedOnlyX(s, x, i, y);
    }
    if y in s && y != x {
      OthersRemain(s, x, i, y);
    }
  }

  lemma RemovedOnlyX<T>(s: seq<T>, x: T, i: nat, y: T)
    requires i < |s| && s[i] == x && Distinct(s)
    requires y in s[..i] + s[i + 1..]
    ensures y in s && y != x
  {
    var r := s[..i] + s[i + 1..];
    var k :| 0 <= k < |r| && r[k] == y;
    var m := if k < i then k else k + 1;
    assert s[m] == y && m != i;
  }

  lemma OthersRemain<T>(s: seq<T>, x: T, i: nat, y: T)
    requires i < |s| && s[i] == x
    requires y in s && y != x
    ensures y in s[..i] + s[i + 1..]
  {
    var r := s[..i] + s[i + 1..];
    var k :| 0 <= k < |s| && s[k] == y;
    var m := if k < i then k else k - 1;
    assert r[m] == y;
  }

  /** `[].concat(...ss)`: the sequences one after another. */
  function Flatten<T(!new)>(ss: seq<seq<T>>): (r: seq<T>)
    ensures forall x :: x in r <==> exists i :: 0 <= i < |ss| && x in ss[i]
  {
    if |ss| == 0 then []
    else
      var r := Flatten(ss[..|ss| - 1]) + ss[|ss| - 1];
      assert forall i :: 0 <= i < |ss| - 1 ==> ss[..|ss| - 1][i] == ss[i];
      r
  }

  /** Number of occurrences of `x` in `s`. */
  function Count<T(==)>(s: seq<T>, x: T): (n: nat)
    ensures n <= |s|
    ensures n == 0 <==> x !in s
  {
    if |s| == 0 then 0
    else
      assert s == s[..|s| - 1] + [s[|s| - 1]];
      Count(s[..|s| - 1], x) + (if s[|s| - 1] == x then 1 else 0)
  }

  /** `sub` is `s` with some elements left out, the rest in their original order. */
  predicate IsSubsequence<T(==)>(sub: seq<T>, s: seq<T>)
    decreases |s|
  {
    if |sub| == 0 then true
    else if |s| == 0 then false
    else if sub[0] == s[0] then IsSubsequence(sub[1..], s[1..])
    else IsSubsequence(sub, s[1..])
  }

  /** The elements after the first can always be matched later. */
  lemma {:induction false} SubsequenceOfTail<T>(sub: seq<T>, s: seq<T>)
    requires |sub| > 0 && IsSubsequence(sub, s)
    ensures IsSubsequence(sub[1..], s)
    decreases |s|, 1
  {
    if sub[0] == s[0] {
      SubsequenceSkipHead(sub[1..], s);
    } else {
      SubsequenceOfTail(sub, s[1..]);
      SubsequenceSkipHead(sub[1..], s);
    }
  }

  /** Whatever can be matched in the tail can be matched in the whole. */
  lemma {:induction false} SubsequenceSkipHead<T>(sub: seq<T>, s: seq<T>)
    requires |s| > 0 && IsSubsequence(sub, s[1..])
    ensures IsSubsequence(sub, s)
    decreases |s|, 0
  {
    if |sub| > 0 && sub[0] == s[0] {
      SubsequenceOfTail(sub, s[1..]);
    }
  }

  /** `s.filter(keep)`: the kept elements in their original order. */
  function Filter<T(!new)>(s: seq<T>, keep: T -> bool): (r: seq<T>)
    ensures |r| <= |s|
    ensures forall i :: 0 <= i < |r| ==> keep(r[i])
    ensures forall x :: x in r <==> x in s && keep(x)
  {
    if |s| == 0 then []
    else if keep(s[0]) then [s[0]] + Filter(s[1..], keep)
    else Filter(s[1..], keep)
  }

  /** Filtering only leaves elements out. */
  lemma {:induction false} FilterIsSubsequence<T(!new)>(s: seq<T>, keep: T -> bool)
    ensures IsSubsequence(Filter(s, keep), s)
    decreases |s|
  {
    if |s| > 0 {
      FilterIsSubsequence(s[1..], keep);
      if !keep(s[0]) && |Filter(s, keep)| > 0 {
        SubsequenceSkipHead(Filter(s, keep), s);
      }
    }
  }

  /** Filtering keeps every copy of a kept value and no copy of any other. */
  lemma {:induction false} FilterCounts<T(!new)>(s: seq<T>, keep: T -> bool, x: T)
    ensures multiset(Filter(s, keep))[x] == if keep(x) then multiset(s)[x] else 0
    decreases |s|
  {
    if |s| > 0 {
      FilterCounts(s[1..], keep, x);
      assert s == [s[0]] + s[1..];
    }
  }

  /** Filtering a concatenation filters each part. */
  lemma {:induction false} FilterAppend<T(!new)>(a: seq<T>, b: seq<T>, keep: T -> bool)
    ensures Filter(a + b, keep) == Filter(a, keep) + Filter(b, keep)
    decreases |a|
  {
    if |a| > 0 {
      assert (a + b)[1..] == a[1..] + b;
      FilterAppend(a[1..], b, keep);
      assert (a + b)[0] == a[0];
    } else {
      assert a + b == b;
    }
  }

  /** Filtering keeps a sequence whose every element passes. */
  lemma {:induction false} FilterAllKept<T(!new)>(s: seq<T>, keep: T -> bool)
    requires forall i :: 0 <= i < |s| ==> keep(s[i])
    ensures Filter(s, keep) == s
    decreases |s|
  {
    if |s| > 0 {
      FilterAllKept(s[1..], keep);
      assert s == [s[0]] + s[1..];
    }
  }

  /** `n` copies of `x`. */
  function Repeat<T>(x: T, n: nat): (r: seq<T>)
    ensures |r| == n && forall i :: 0 <= i < n ==> r[i] == x
  {
    seq(n, _ => x)
  }

  /** Peeling the last element off the right operand of a concatenation. */
  lemma SnocSplit<T>(a: seq<T>, b: seq<T>)
    requires |b| > 0
    ensures b == b[..|b| - 1] + [b[|b| - 1]]
    ensures a + b == (a + b[..|b| - 1]) + [b[|b| - 1]]
  {
  }

  lemma AppendAssoc<T>(x: seq<T>, y: seq<T>, z: seq<T>)
    ensures (x + y) + z == x + (y + z)
  {
  }

  /** The last element appended to `x` comes back off it. */
  lemma SnocParts<T>(x: seq<T>, c: T)
    ensures (x + [c])[..|x|] == x && (x + [c])[|x|] == c
  {
  }

  /** A sequence is its prefix up to `k`, the element at `k`, and the rest. */
  lemma HeadTail<T>(s: seq<T>)
    requires |s| > 0
    ensures [s[0]] + s[1..] == s
  {
  }

  lemma ThreeParts<T>(s: seq<T>, n: nat, w: nat)
    requires n + w <= |s|
    ensures s == s[..n] + s[n..][..w] + s[n..][w..]
  {
    assert s[n..] == s[n..][..w] + s[n..][w..];
    assert s == s[..n] + s[n..];
  }

  lemma SplitAround<T>(s: seq<T>, k: nat)
    requires k < |s|
    ensures s == (s[..k] + [s[k]]) + s[k + 1..]
  {
  }

  /** A sequence with no members is empty. */
  lemma EmptyIfNoMembers<T>(s: seq<T>)
    ensures (forall x :: x !in s) ==> s == []
  {
    if |s| > 0 {
      assert s[0] in s;
    }
  }
}
