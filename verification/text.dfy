/** The handful of JavaScript string operations the analysis pipeline relies on
    (`trim`, `split`, `join`, `includes`, `startsWith`, `endsWith`, the `\s+`
    collapse and the control-character strip), written out over `seq<char>`. */
module Text {
  import opened Wrappers

  /** The characters matched by `\s` in a JavaScript regular expression, which are
      also exactly the characters `String.prototype.trim` removes. */
  predicate IsWs(c: char) {
    var n := c as int;
    (9 <= n <= 13) || n == 0x20 || n == 0xA0 || n == 0x1680 || (0x2000 <= n <= 0x200A)
    || n == 0x2028 || n == 0x2029 || n == 0x202F || n == 0x205F || n == 0x3000 || n == 0xFEFF
  }

  /** The class `[\x00-\x1F\x7F]`. */
  predicate IsControl(c: char) {
    c as int <= 0x1F || c as int == 0x7F
  }

  predicate NoWs(s: string) {
    forall i :: 0 <= i < |s| ==> !IsWs(s[i])
  }

  predicate AllWs(s: string) {
    forall i :: 0 <= i < |s| ==> IsWs(s[i])
  }

  predicate NoControl(s: string) {
    forall i :: 0 <= i < |s| ==> !IsControl(s[i])
  }

  // ---------------------------------------------------------------------------
  // Substring search

  /** `sub` occurs in `s` starting at index `i`. */
  predicate OccursAt(s: string, sub: string, i: nat) {
    i + |sub| <= |s| && s[i..i + |sub|] == sub
  }

  /** The leftmost occurrence of `sub` at or after `from`, as `indexOf` finds it. */
  function IndexOf(s: string, sub: string, from: nat): (r: Option<nat>)
    ensures r.Some? ==> from <= r.value && OccursAt(s, sub, r.value)
    ensures r.Some? ==> forall j :: from <= j < r.value ==> !OccursAt(s, sub, j)
    ensures r.None? ==> forall j :: from <= j ==> !OccursAt(s, sub, j)
    decreases |s| - from
  {
    if from + |sub| > |s| then None
    else if s[from..from + |sub|] == sub then Some(from)
    else IndexOf(s, sub, from + 1)
  }

  /** `s.includes(sub)`. */
  predicate Contains(s: string, sub: string) {
    IndexOf(s, sub, 0).Some?
  }

  lemma ContainsIff(s: string, sub: string)
    ensures Contains(s, sub) <==> exists i: nat :: OccursAt(s, sub, i)
  {
    if !Contains(s, sub) {
      forall i: nat ensures !OccursAt(s, sub, i) {
      }
    }
  }

  /** `s.startsWith(p)`. */
  predicate StartsWith(s: string, p: string) {
    |p| <= |s| && s[..|p|] == p
  }

  /** `s.endsWith(p)`. */
  predicate EndsWith(s: string, p: string) {
    |p| <= |s| && s[|s| - |p|..] == p
  }

  // ---------------------------------------------------------------------------
  // trim

  /** Number of whitespace characters at the start of `s`. */
  function LeadingWs(s: string): (n: nat)
    ensures n <= |s|
  {
    if |s| == 0 || !IsWs(s[0]) then 0 else 1 + LeadingWs(s[1..])
  }

  /** The count is exact: whitespace up to it, and none at it. */
  lemma {:induction false} LeadingWsSpec(s: string)
    ensures AllWs(s[..LeadingWs(s)])
    ensures LeadingWs(s) < |s| ==> !IsWs(s[LeadingWs(s)])
    decreases |s|
  {
    if |s| > 0 && IsWs(s[0]) {
      LeadingWsSpec(s[1..]);
      assert s[..LeadingWs(s)] == [s[0]] + s[1..][..LeadingWs(s[1..])];
    }
  }

  /** Number of whitespace characters at the end of `s`. */
  function TrailingWs(s: string): (n: nat)
    ensures n <= |s|
  {
    if |s| == 0 || !IsWs(s[|s| - 1]) then 0 else 1 + TrailingWs(s[..|s| - 1])
  }

  /** The count is exact: whitespace after the cut, and none just before it. */
  lemma {:induction false} TrailingWsSpec(s: string)
    ensures AllWs(s[|s| - TrailingWs(s)..])
    ensures TrailingWs(s) < |s| ==> !IsWs(s[|s| - TrailingWs(s) - 1])
    decreases |s|
  {
    if |s| > 0 && IsWs(s[|s| - 1]) {
      var n := TrailingWs(s);
      TrailingWsSpec(s[..|s| - 1]);
      assert s[|s| - n..] == s[..|s| - 1][|s| - n..] + [s[|s| - 1]];
    }
  }

  /** `s.trim()`: the longest factor of `s` that neither starts nor ends with
      whitespace, with only whitespace cut away around it. */
  function Trim(s: string): (r: string)
    ensures r == [] || (!IsWs(r[0]) && !IsWs(r[|r| - 1]))
    ensures exists a: nat :: TrimmedAt(s, a, r)
    ensures forall c :: c in r ==> c in s
  {
    var a := LeadingWs(s);
    if a == |s| then
      TrimAll(s);
      []
    else
      var b := TrailingWs(s);
      TrimCut(s, a, b);
      s[a..|s| - b]
  }

  /** `r` stands at offset `a` of `s` with only whitespace around it. */
  predicate TrimmedAt(s: string, a: nat, r: string) {
    a + |r| <= |s| && s[a..a + |r|] == r && AllWs(s[..a]) && AllWs(s[a + |r|..])
  }

  lemma TrimAll(s: string)
    requires LeadingWs(s) == |s|
    ensures TrimmedAt(s, 0, [])
  {
    LeadingWsSpec(s);
    assert s[0..] == s[..|s|];
  }

  lemma TrimCut(s: string, a: nat, b: nat)
    requires a == LeadingWs(s) < |s| && b == TrailingWs(s)
    ensures a < |s| - b
    ensures !IsWs(s[a]) && !IsWs(s[|s| - b - 1])
    ensures TrimmedAt(s, a, s[a..|s| - b])
  {
    LeadingWsSpec(s);
    TrailingWsSpec(s);
    CutBetween(s, a, b);
  }

  /** Whitespace runs at both ends around a non-whitespace character leave a
      non-empty middle. */
  lemma CutBetween(s: string, a: nat, b: nat)
    requires a < |s| && b <= |s| && !IsWs(s[a])
    requires AllWs(s[..a]) && AllWs(s[|s| - b..])
    requires b < |s| ==> !IsWs(s[|s| - b - 1])
    ensures a < |s| - b
    ensures !IsWs(s[|s| - b - 1])
    ensures TrimmedAt(s, a, s[a..|s| - b])
  {
    assert s[a + (|s| - b - a)..] == s[|s| - b..];
  }

  lemma TrimOfTrimmed(s: string)
    requires s == [] || (!IsWs(s[0]) && !IsWs(s[|s| - 1]))
    ensures Trim(s) == s
  {
  }

  /** Whitespace after text with a non-blank end is exactly the trailing run. */
  lemma {:induction false} TrailingWsOfRun(c: string, w: string)
    requires c == [] || !IsWs(c[|c| - 1])
    requires AllWs(w)
    ensures TrailingWs(c + w) == |w|
    decreases |w|
  {
    if |w| > 0 {
      var s := c + w;
      assert s[..|s| - 1] == c + w[..|w| - 1];
      TrailingWsOfRun(c, w[..|w| - 1]);
    } else {
      assert c + w == c;
    }
  }

  /** Trimming text with non-blank ends and trailing whitespace leaves the text. */
  lemma TrimTrailing(c: string, w: string)
    requires |c| > 0 && !IsWs(c[0]) && !IsWs(c[|c| - 1])
    requires AllWs(w)
    ensures Trim(c + w) == c
  {
    var s := c + w;
    TrailingWsOfRun(c, w);
    assert LeadingWs(s) == 0;
    assert s[0..|s| - |w|] == c;
  }

  // ---------------------------------------------------------------------------
  // replaceAll(/\s+/g, ' ')

  /** The non-whitespace characters of `s`, in order. */
  function NonWs(s: string): string {
    if |s| == 0 then []
    else if IsWs(s[0]) then NonWs(s[1..])
    else [s[0]] + NonWs(s[1..])
  }

  lemma {:induction false} NonWsOfAllWs(s: string)
    requires AllWs(s)
    ensures NonWs(s) == []
  {
    if |s| > 0 {
      NonWsOfAllWs(s[1..]);
    }
  }

  lemma {:induction false} NonWsAppend(a: string, b: string)
    ensures NonWs(a + b) == NonWs(a) + NonWs(b)
  {
    if |a| > 0 {
      assert (a + b)[1..] == a[1..] + b;
      NonWsAppend(a[1..], b);
    } else {
      assert a + b == b;
    }
  }

  /** The only whitespace character in `s` is the plain space. */
  predicate SpacesOnly(s: string) {
    forall i :: 0 <= i < |s| ==> IsWs(s[i]) ==> s[i] == ' '
  }

  /** No two spaces are adjacent in `s`. */
  predicate NoDoubleSpace(s: string) {
    forall i, j :: 0 <= i < |s| && j == i + 1 && j < |s| ==> !(s[i] == ' ' && s[j] == ' ')
  }

  /** `s.replaceAll(/\s+/g, ' ')`. */
  function CollapseWs(s: string): string
    decreases |s|
  {
    if |s| == 0 then []
    else if IsWs(s[0]) then " " + CollapseWs(s[LeadingWs(s)..])
    else [s[0]] + CollapseWs(s[1..])
  }

  /** The collapsed text is empty exactly when `s` is, and starts with a space
      exactly when `s` starts with whitespace (otherwise with the same character). */
  lemma CollapseWsFirst(s: string)
    ensures var r := CollapseWs(s);
      && (|s| == 0 <==> |r| == 0)
      && (|s| > 0 ==> (IsWs(s[0]) ==> r[0] == ' ') && (!IsWs(s[0]) ==> r[0] == s[0]))
  {
  }

  /** The collapsed text ends with a space exactly when `s` ends with whitespace. */
  lemma {:induction false} CollapseWsLast(s: string)
    requires |s| > 0
    ensures var r := CollapseWs(s); |r| > 0 && (IsWs(s[|s| - 1]) <==> r[|r| - 1] == ' ')
    decreases |s|
  {
    var r := CollapseWs(s);
    if IsWs(s[0]) {
      var n := LeadingWs(s);
      LeadingWsSpec(s);
      if n == |s| {
        assert s[n..] == [];
        assert CollapseWs(s[n..]) == [];
      } else {
        CollapseWsLast(s[n..]);
        assert s[|s| - 1] == s[n..][|s[n..]| - 1];
      }
    } else if |s| > 1 {
      CollapseWsLast(s[1..]);
      assert s[|s| - 1] == s[1..][|s[1..]| - 1];
    }
  }

  /** Every maximal whitespace run becomes exactly one plain space. */
  lemma {:induction false} CollapseWsSpaces(s: string)
    ensures SpacesOnly(CollapseWs(s)) && NoDoubleSpace(CollapseWs(s))
    decreases |s|
  {
    var r := CollapseWs(s);
    if |s| == 0 {
    } else if IsWs(s[0]) {
      var rest := s[LeadingWs(s)..];
      LeadingWsSpec(s);
      CollapseWsSpaces(rest);
      CollapseWsFirst(rest);
      assert r == " " + CollapseWs(rest);
    } else {
      CollapseWsSpaces(s[1..]);
      assert r == [s[0]] + CollapseWs(s[1..]);
    }
  }

  /** Collapsing keeps every non-whitespace character, in order. */
  lemma {:induction false} CollapseWsKeepsText(s: string)
    ensures NonWs(CollapseWs(s)) == NonWs(s)
    decreases |s|
  {
    if |s| == 0 {
    } else if IsWs(s[0]) {
      var n := LeadingWs(s);
      LeadingWsSpec(s);
      var rest := CollapseWs(s[n..]);
      CollapseWsKeepsText(s[n..]);
      assert s[..n] + s[n..] == s;
      NonWsOfAllWs(s[..n]);
      NonWsAppend(s[..n], s[n..]);
      NonWsAppend(" ", rest);
    } else {
      var rest := CollapseWs(s[1..]);
      CollapseWsKeepsText(s[1..]);
      NonWsAppend([s[0]], rest);
      assert s == [s[0]] + s[1..];
      NonWsAppend([s[0]], s[1..]);
    }
  }

  lemma {:induction false} CollapseNoWs(t: string, rest: string)
    requires NoWs(t)
    ensures CollapseWs(t + rest) == t + CollapseWs(rest)
    decreases |t|
  {
    if |t| == 0 {
      assert t + rest == rest;
    } else {
      var s := t + rest;
      assert s[1..] == t[1..] + rest;
      assert !IsWs(s[0]);
      CollapseNoWs(t[1..], rest);
      calc {
        CollapseWs(s);
        [s[0]] + CollapseWs(s[1..]);
        [t[0]] + (t[1..] + CollapseWs(rest));
        { assert t == [t[0]] + t[1..]; }
        t + CollapseWs(rest);
      }
    }
  }

  lemma CollapseRun(w: string, rest: string)
    requires |w| > 0 && AllWs(w)
    requires rest == [] || !IsWs(rest[0])
    ensures CollapseWs(w + rest) == " " + CollapseWs(rest)
  {
    var s := w + rest;
    LeadingWsOfRun(w, rest);
    assert s[|w|..] == rest;
  }

  lemma {:induction false} LeadingWsOfRun(w: string, rest: string)
    requires AllWs(w)
    requires rest == [] || !IsWs(rest[0])
    ensures LeadingWs(w + rest) == |w|
  {
    if |w| > 0 {
      assert (w + rest)[1..] == w[1..] + rest;
      LeadingWsOfRun(w[1..], rest);
    } else {
      assert w + rest == rest;
    }
  }

  // ---------------------------------------------------------------------------
  // Removal of characters and literal tokens

  /** `s.replace(/[\x00-\x1F\x7F]/g, '')`. */
  function RemoveControl(s: string): (r: string)
    ensures NoControl(r)
    ensures forall c :: c in r <==> c in s && !IsControl(c)
    ensures NoControl(s) ==> r == s
  {
    if |s| == 0 then []
    else if IsControl(s[0]) then RemoveControl(s[1..])
    else [s[0]] + RemoveControl(s[1..])
  }

  /** `s.replace(pat, '')` for a string pattern: only the leftmost occurrence is
      removed, and putting `pat` back where it was restores `s`. */
  function RemoveFirstOccurrence(s: string, pat: string): (r: string)
    ensures IndexOf(s, pat, 0).None? ==> r == s
    ensures IndexOf(s, pat, 0).Some? ==>
              var i := IndexOf(s, pat, 0).value;
              |r| == |s| - |pat| && r[..i] + pat + r[i..] == s
    ensures forall c :: c in r ==> c in s
  {
    match IndexOf(s, pat, 0)
    case None => s
    case Some(i) =>
      var r := s[..i] + s[i + |pat|..];
      assert r[..i] == s[..i] && r[i..] == s[i + |pat|..];
      assert s == s[..i] + s[i..i + |pat|] + s[i + |pat|..];
      r
  }

  lemma AbsentFromTail(s: string, pat: string)
    requires |s| > 0 && IndexOf(s, pat, 0).None?
    ensures forall j: nat :: !OccursAt(s[1..], pat, j)
  {
    forall j: nat ensures !OccursAt(s[1..], pat, j) {
      if j + |pat| <= |s| - 1 {
        assert s[1..][j..j + |pat|] == s[j + 1..j + 1 + |pat|];
        assert !OccursAt(s, pat, j + 1);
      }
    }
  }

  /** `s.replace(/pat/g, '')` for a literal, non-empty pattern: occurrences are
      removed left to right without rescanning the text that removal joins up. */
  function RemoveAllOccurrences(s: string, pat: string): (r: string)
    requires |pat| > 0
    ensures |r| <= |s|
    ensures IndexOf(s, pat, 0).None? ==> r == s
    ensures forall c :: c in r ==> c in s
    decreases |s|
  {
    if |s| == 0 then []
    else if StartsWith(s, pat) then
      assert OccursAt(s, pat, 0);
      RemoveAllOccurrences(s[|pat|..], pat)
    else
      var rest := RemoveAllOccurrences(s[1..], pat);
      if IndexOf(s, pat, 0).None? then
        AbsentFromTail(s, pat);
        assert s == [s[0]] + s[1..];
        [s[0]] + rest
      else
        [s[0]] + rest
  }

  // ---------------------------------------------------------------------------
  // split / join

  /** `parts.join(sep)`: every character comes from a part or the separator. */
  function Join(parts: seq<string>, sep: string): (r: string)
    ensures forall c :: c in r ==> c in sep || exists i :: 0 <= i < |parts| && c in parts[i]
  {
    if |parts| == 0 then []
    else if |parts| == 1 then parts[0]
    else parts[0] + sep + Join(parts[1..], sep)
  }

  /** Index of the first `c` in `s`. */
  function IndexOfChar(s: string, c: char): (r: Option<nat>)
    ensures r.Some? ==> r.value < |s| && s[r.value] == c && c !in s[..r.value]
    ensures r.None? ==> c !in s
  {
    if |s| == 0 then None
    else if s[0] == c then Some(0)
    else
      match IndexOfChar(s[1..], c)
      case None => None
      case Some(i) =>
        assert s[..i + 1] == [s[0]] + s[1..][..i];
        Some(i + 1)
  }

  /** `ss.findIndex(s => s.includes(sub))`, as an index. */
  function FindContaining(ss: seq<string>, sub: string): (r: Option<nat>)
    ensures r.Some? ==> r.value < |ss| && Contains(ss[r.value], sub)
    ensures r.Some? ==> forall j :: 0 <= j < r.value ==> !Contains(ss[j], sub)
    ensures r.None? ==> forall j :: 0 <= j < |ss| ==> !Contains(ss[j], sub)
  {
    if |ss| == 0 then None
    else if Contains(ss[0], sub) then Some(0)
    else
      match FindContaining(ss[1..], sub)
      case None => None
      case Some(i) => Some(i + 1)
  }

  /** `s.split(sep)` for a one-character separator: the pieces between separators,
      never fewer than one, which `Join` glues back into `s`. */
  function Split(s: string, sep: char): (parts: seq<string>)
    ensures |parts| >= 1
    ensures forall i :: 0 <= i < |parts| ==> sep !in parts[i]
    ensures forall i, c :: 0 <= i < |parts| && c in parts[i] ==> c in s
    ensures Join(parts, [sep]) == s
    decreases |s|
  {
    match IndexOfChar(s, sep)
    case None => [s]
    case Some(i) =>
      var rest := Split(s[i + 1..], sep);
      var parts := [s[..i]] + rest;
      assert parts[1..] == rest;
      assert s == s[..i] + [sep] + s[i + 1..];
      parts
  }

  /** Splitting what `Join` produced gives the parts back. */
  lemma {:induction false} SplitJoin(parts: seq<string>, sep: char)
    requires |parts| >= 1
    requires forall i :: 0 <= i < |parts| ==> sep !in parts[i]
    ensures Split(Join(parts, [sep]), sep) == parts
    decreases |parts|
  {
    var s := Join(parts, [sep]);
    if |parts| == 1 {
      assert IndexOfChar(s, sep).None?;
    } else {
      var p := parts[0];
      var tail := Join(parts[1..], [sep]);
      assert s == p + [sep] + tail;
      SplitCons(p, sep, tail);
      SplitJoin(parts[1..], sep);
      assert parts == [p] + parts[1..];
    }
  }

  /** Splitting at the first separator peels off the text before it. */
  lemma SplitCons(p: string, sep: char, t: string)
    requires sep !in p
    ensures Split(p + [sep] + t, sep) == [p] + Split(t, sep)
  {
    var s := p + [sep] + t;
    AroundSeparator(p, sep, t);
    FirstIndexOfChar(s, sep, |p|);
  }

  lemma AroundSeparator(p: string, sep: char, t: string)
    ensures var s := p + [sep] + t; s[..|p|] == p && s[|p|] == sep && s[|p| + 1..] == t
  {
  }

  lemma FirstIndexOfChar(s: string, c: char, k: nat)
    requires k < |s| && s[k] == c && c !in s[..k]
    ensures IndexOfChar(s, c) == Some(k)
  {
  }

  // ---------------------------------------------------------------------------
  // Decimal rendering of numbers (template literals)

  predicate IsDigits(s: string) {
    forall i :: 0 <= i < |s| ==> '0' <= s[i] <= '9'
  }

  function DigitChar(d: nat): (c: char)
    requires d < 10
    ensures '0' <= c <= '9' && c as int - '0' as int == d
  {
    "0123456789"[d]
  }

  /** Reads a string of decimal digits back as a number. */
  function DigitsValue(s: string): nat
    requires IsDigits(s)
  {
    if |s| == 0 then 0
    else DigitsValue(s[..|s| - 1]) * 10 + (s[|s| - 1] as int - '0' as int)
  }

  /** `${n}` for a natural number: a non-empty digit string with no leading zero
      that reads back as `n`. */
  function NatToString(n: nat): (r: string)
    ensures |r| >= 1 && IsDigits(r)
    ensures |r| > 1 ==> r[0] != '0'
    ensures DigitsValue(r) == n
  {
    if n < 10 then [DigitChar(n)]
    else
      var r := NatToString(n / 10) + [DigitChar(n % 10)];
      assert r[..|r| - 1] == NatToString(n / 10);
      r
  }

  /** A string contains whatever is glued into it. */
  lemma ContainsInfix(a: string, sub: string, b: string)
    ensures Contains(a + sub + b, sub)
  {
    assert OccursAt(a + sub + b, sub, |a|) by {
      assert (a + sub + b)[|a|..|a| + |sub|] == sub;
    }
    ContainsIff(a + sub + b, sub);
  }

  /** Every part survives a join. */
  lemma OccursAfter(head: string, body: string, sub: string, k: nat)
    requires OccursAt(body, sub, k)
    ensures OccursAt(head + body, sub, |head| + k)
  {
    assert (head + body)[|head| + k..|head| + k + |sub|] == body[k..k + |sub|];
  }

  lemma {:induction false} JoinHasPart(parts: seq<string>, sep: string, i: nat)
    requires i < |parts|
    ensures Contains(Join(parts, sep), parts[i])
    decreases |parts|
  {
    if |parts| == 1 {
      ContainsInfix([], parts[0], []);
      assert [] + parts[0] + [] == parts[0];
    } else if i == 0 {
      ContainsInfix([], parts[0], sep + Join(parts[1..], sep));
      assert [] + parts[0] + (sep + Join(parts[1..], sep)) == Join(parts, sep);
    } else {
      var rest := Join(parts[1..], sep);
      JoinHasPart(parts[1..], sep, i - 1);
      assert parts[1..][i - 1] == parts[i];
      ContainsIff(rest, parts[i]);
      var k: nat :| OccursAt(rest, parts[i], k);
      var pre := parts[0] + sep;
      OccursAfter(pre, rest, parts[i], k);
      assert Join(parts, sep) == pre + rest;
      ContainsIff(Join(parts, sep), parts[i]);
    }
  }
}
