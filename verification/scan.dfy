/** A scanner for the one regular-expression shape the pipeline uses to read
    quoted values out of SII and VDF text: a literal key, optional whitespace and
    a double-quoted non-empty value, `key\s*"([^"]+)"`.

    Every step of that pattern is deterministic (backtracking cannot produce a
    different match), so an anchored attempt is a plain function of the text.
    Searching tries each start position from the left, as `String.prototype.match`
    does, and `matchAll` resumes right after the previous match. */
module Scan {
  import opened Wrappers
  import opened Text

  /** What `([^"]+)` captures: a non-empty run without `"`. */
  predicate IsValue(v: string) {
    v != [] && '"' !in v
  }

  /** Number of characters before the first `"` of `t` (all of `t` if none). */
  function NonQuoteRun(t: string): (n: nat)
    ensures n <= |t|
    ensures forall k :: 0 <= k < n ==> t[k] != '"'
    ensures n < |t| ==> t[n] == '"'
  {
    if |t| == 0 || t[0] == '"' then 0 else 1 + NonQuoteRun(t[1..])
  }

  /** `"([^"]+)"` anchored at the start of `u`: the value and the match length. */
  function QuotedValueAt(u: string): (r: Option<(string, nat)>)
    ensures r.Some? ==> 2 < r.value.1 <= |u| && IsValue(r.value.0)
  {
    if |u| > 0 && u[0] == '"' then
      var n := NonQuoteRun(u[1..]);
      if n > 0 && 1 + n < |u| then
        assert forall k :: 0 <= k < n ==> u[1..1 + n][k] == u[1..][k];
        Some((u[1..1 + n], n + 2))
      else None
    else None
  }

  /** Where the opening quote must stand once `key` and `\s*` are consumed. */
  function QuoteStart(t: string, key: string): (q: nat)
    requires |key| <= |t|
    ensures |key| <= q <= |t|
  {
    |key| + LeadingWs(t[|key|..])
  }

  /** The pattern anchored at the start of `t`: the value and the match length. */
  function QuotedPrefix(t: string, key: string): (r: Option<(string, nat)>)
    ensures r.Some? ==> StartsWith(t, key) && |key| + 2 < r.value.1 <= |t|
    ensures r.Some? ==> IsValue(r.value.0)
  {
    if !StartsWith(t, key) then None
    else
      var q := QuoteStart(t, key);
      match QuotedValueAt(t[q..])
      case None => None
      case Some((v, len)) => Some((v, q + len))
  }

  /** `t.match(re)?.[1]`: the value of the leftmost match, if any. */
  function FirstValue(t: string, key: string): (r: Option<string>)
    ensures r.Some? ==> IsValue(r.value)
    decreases |t|
  {
    match QuotedPrefix(t, key)
    case Some((v, _)) => Some(v)
    case None => if |t| == 0 then None else FirstValue(t[1..], key)
  }

  /** `[...t.matchAll(re)].map(m => m[1])`: the values of successive
      non-overlapping matches, left to right; the search resumes right after
      each match. */
  function AllQuoted(t: string, key: string): (vs: seq<string>)
    ensures forall i :: 0 <= i < |vs| ==> IsValue(vs[i])
    decreases |t|
  {
    match QuotedPrefix(t, key)
    case Some((v, len)) => [v] + AllQuoted(t[len..], key)
    case None => if |t| == 0 then [] else AllQuoted(t[1..], key)
  }

  /** No match starts before offset `n` of `t`. */
  predicate NoMatchBefore(t: string, key: string, n: nat)
    requires n <= |t| + 1
  {
    forall j :: 0 <= j < n ==> QuotedPrefix(t[j..], key).None?
  }

  /** The anchored attempt at offset `j` matches and captures `v`. */
  predicate MatchAt(t: string, key: string, j: nat, v: string)
    requires j <= |t|
  {
    QuotedPrefix(t[j..], key).Some? && QuotedPrefix(t[j..], key).value.0 == v
  }

  /** No match before `n` means none at the start and none before `n - 1` in the rest. */
  lemma NoMatchBeforeTail(t: string, key: string, n: nat)
    requires 0 < n <= |t| + 1 && |t| > 0
    ensures NoMatchBefore(t, key, n) <==> QuotedPrefix(t, key).None? && NoMatchBefore(t[1..], key, n - 1)
  {
    assert t[0..] == t;
    assert forall j :: 1 <= j <= |t| ==> t[j..] == t[1..][j - 1..];
  }

  /** `match` finds nothing exactly when the pattern matches at no offset. */
  lemma {:induction false} FirstValueNone(t: string, key: string)
    ensures FirstValue(t, key).None? <==> NoMatchBefore(t, key, |t| + 1)
    decreases |t|
  {
    if |t| > 0 {
      FirstValueNone(t[1..], key);
      NoMatchBeforeTail(t, key, |t| + 1);
    } else {
      assert t[0..] == t;
    }
  }

  /** `match` finds the leftmost anchored match: the value it reports is
      captured at an offset before which the pattern matches nowhere. */
  lemma {:induction false} FirstValueLeftmost(t: string, key: string)
    requires FirstValue(t, key).Some?
    ensures exists j :: 0 <= j <= |t| && NoMatchBefore(t, key, j) && MatchAt(t, key, j, FirstValue(t, key).value)
    decreases |t|
  {
    var v := FirstValue(t, key).value;
    if QuotedPrefix(t, key).Some? {
      assert t[0..] == t;
      assert NoMatchBefore(t, key, 0) && MatchAt(t, key, 0, v);
    } else {
      FirstValueLeftmost(t[1..], key);
      var j :| 0 <= j <= |t[1..]| && NoMatchBefore(t[1..], key, j) && MatchAt(t[1..], key, j, v);
      NoMatchBeforeTail(t, key, j + 1);
      assert t[1..][j..] == t[j + 1..];
      assert MatchAt(t, key, j + 1, v);
    }
  }

  /** `match` reports the first of the values `matchAll` reports. */
  lemma {:induction false} FirstValueIsFirstOfAll(t: string, key: string)
    ensures FirstValue(t, key) == if AllQuoted(t, key) == [] then None else Some(AllQuoted(t, key)[0])
    decreases |t|
  {
    if QuotedPrefix(t, key).None? && |t| > 0 {
      FirstValueIsFirstOfAll(t[1..], key);
    }
  }

  // ---------------------------------------------------------------------------
  // Reading back what was written

  /** The text `key` followed by whitespace `w` and the quoted value `v`. */
  function Quoted(key: string, w: string, v: string): string {
    key + w + "\"" + v + "\""
  }

  /** A quoted value is read back at the start of any text it begins. */
  lemma QuotedValueOf(v: string, rest: string)
    requires IsValue(v)
    ensures QuotedValueAt("\"" + v + "\"" + rest) == Some((v, |v| + 2))
  {
    var u := "\"" + v + "\"" + rest;
    assert u[1..] == v + ("\"" + rest);
    NonQuoteOf(v, "\"" + rest);
    assert u[1..1 + |v|] == v;
  }

  /** The anchored attempt succeeds once its two steps do. */
  lemma QuotedPrefixIntro(t: string, key: string, q: nat, v: string, len: nat)
    requires StartsWith(t, key) && QuoteStart(t, key) == q
    requires QuotedValueAt(t[q..]) == Some((v, len))
    ensures QuotedPrefix(t, key) == Some((v, q + len))
  {
  }

  /** A quoted field is read back at the start of any text it begins. */
  lemma QuotedPrefixOfQuoted(key: string, w: string, v: string, rest: string)
    requires AllWs(w) && IsValue(v)
    ensures QuotedPrefix(Quoted(key, w, v) + rest, key) == Some((v, |key| + |w| + |v| + 2))
  {
    var t := Quoted(key, w, v) + rest;
    var q := |key| + |w|;
    assert t[..|key|] == key;
    assert t[|key|..q] == w;
    assert t[q..] == "\"" + v + "\"" + rest;
    QuotedPrefixFrom(t, key, q, v, rest);
  }

  /** The same, with the text given by its parts. */
  lemma QuotedPrefixFrom(t: string, key: string, q: nat, v: string, rest: string)
    requires |key| <= q <= |t| && t[..|key|] == key && AllWs(t[|key|..q])
    requires t[q..] == "\"" + v + "\"" + rest && IsValue(v)
    ensures QuotedPrefix(t, key) == Some((v, q + |v| + 2))
  {
    var w := t[|key|..q];
    var after := t[q..];
    assert t[|key|..] == w + after;
    LeadingWsOfRun(w, after);
    QuotedValueOf(v, rest);
    QuotedPrefixIntro(t, key, q, v, |v| + 2);
  }

  lemma {:induction false} NonQuoteOf(v: string, rest: string)
    requires '"' !in v && |rest| > 0 && rest[0] == '"'
    ensures NonQuoteRun(v + rest) == |v|
    decreases |v|
  {
    if |v| > 0 {
      assert (v + rest)[1..] == v[1..] + rest;
      NonQuoteOf(v[1..], rest);
    } else {
      assert v + rest == rest;
    }
  }

  /** No match starts inside `x`. */
  predicate NoMatchIn(x: string, y: string, key: string) {
    forall j :: 0 <= j < |x| ==> QuotedPrefix((x + y)[j..], key).None?
  }

  /** Text holding no match start can be skipped: the search continues in what
      follows it. */
  lemma {:induction false} SkipNoMatch(x: string, y: string, key: string)
    requires NoMatchIn(x, y, key)
    ensures AllQuoted(x + y, key) == AllQuoted(y, key)
    ensures FirstValue(x + y, key) == FirstValue(y, key)
    decreases |x|
  {
    if |x| > 0 {
      var t := x + y;
      assert QuotedPrefix(t, key).None? by { assert t[0..] == t; }
      assert t[1..] == x[1..] + y;
      assert NoMatchIn(x[1..], y, key) by {
        forall j | 0 <= j < |x[1..]| ensures QuotedPrefix((x[1..] + y)[j..], key).None? {
          assert (x[1..] + y)[j..] == t[j + 1..];
        }
      }
      SkipNoMatch(x[1..], y, key);
    } else {
      assert x + y == y;
    }
  }

  /** A quoted field at the start of the text is the first value found, and the
      search resumes right after it. */
  lemma AllQuotedOfQuoted(key: string, w: string, v: string, rest: string)
    requires AllWs(w) && IsValue(v)
    ensures AllQuoted(Quoted(key, w, v) + rest, key) == [v] + AllQuoted(rest, key)
    ensures FirstValue(Quoted(key, w, v) + rest, key) == Some(v)
  {
    var t := Quoted(key, w, v) + rest;
    QuotedPrefixOfQuoted(key, w, v, rest);
    assert t[|Quoted(key, w, v)|..] == rest;
  }

  /** A field with a different key whose value holds no `:` contains no match
      for a key that ends with its only `:` and holds no `"`; the prefix before
      the value is checked by the caller through `NoKeyIn`. */
  predicate NoKeyIn(p: string, key: string) {
    forall j :: 0 <= j <= |p| ==> !OccursAt(p, key, j)
  }

  predicate KeyShape(key: string) {
    && |key| > 0
    && '"' !in key
    && key[|key| - 1] == ':'
  }

  lemma NoMatchInField(p: string, v: string, y: string, key: string)
    requires KeyShape(key) && NoKeyIn(p, key)
    requires '"' !in v && ':' !in v
    ensures NoMatchIn(p + "\"" + v + "\"", y, key)
  {
    var x := p + "\"" + v + "\"";
    var t := x + y;
    assert t[|p|] == '"' && t[|p| + 1 + |v|] == '"';
    forall j | 0 <= j < |x| ensures !StartsWith(t[j..], key) {
      var e := j + |key|;
      if e <= |t| {
        var u := t[j..];
        if e <= |p| {
          assert u[..|key|] == p[j..e];
          assert !OccursAt(p, key, j);
        } else if j <= |p| {
          assert u[|p| - j] == '"';
          assert key[|p| - j] != '"';
        } else if e <= |p| + 1 + |v| {
          assert u[|key| - 1] == v[e - 2 - |p|];
          assert v[e - 2 - |p|] != ':';
        } else {
          assert u[|p| + 1 + |v| - j] == '"';
          assert key[|p| + 1 + |v| - j] != '"';
        }
      }
    }
  }

  /** Text none of whose characters can begin the key holds no match start. */
  lemma NoMatchInPlain(x: string, y: string, key: string)
    requires |key| > 0 && key[0] !in x
    ensures NoMatchIn(x, y, key)
  {
    forall j | 0 <= j < |x| ensures !StartsWith((x + y)[j..], key) {
      assert (x + y)[j..][0] == x[j];
    }
  }
}
