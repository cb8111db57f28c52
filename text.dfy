/** The few Python string operations the cleaner relies on (`str.isspace`,
    `strip`, `split`, `join`, `endswith`, `in`), written out over `seq<char>`.
 */
module Text {
  import opened Options

  /** Python's `str.isspace()` character set.  The same set is what `\s`
      matches in a `str` pattern and what `strip()` with no argument removes. */
  predicate IsSpace(c: char) {
    || c == ' '
    || ('\t' <= c <= '\r')
    || ('\U{1c}' <= c <= '\U{1f}')
    || c == '\U{85}' || c == '\U{a0}' || c == '\U{1680}'
    || ('\U{2000}' <= c <= '\U{200a}')
    || c == '\U{2028}' || c == '\U{2029}' || c == '\U{202f}' || c == '\U{205f}' || c == '\U{3000}'
  }

  predicate IsDigit(c: char) {
    '0' <= c <= '9'
  }

  /** `s.lstrip()`: drops the leading run of whitespace. */
  function StripLeft(s: string): (r: string)
    ensures |r| <= |s| && r == s[|s| - |r|..]
    ensures r == [] || !IsSpace(r[0])
    decreases |s|
  {
    if |s| > 0 && IsSpace(s[0]) then StripLeft(s[1..]) else s
  }

  /** `s.rstrip()`: drops the trailing run of whitespace. */
  function StripRight(s: string): (r: string)
    ensures |r| <= |s| && r == s[..|r|]
    ensures r == [] || !IsSpace(r[|r| - 1])
    decreases |s|
  {
    if |s| > 0 && IsSpace(s[|s| - 1]) then StripRight(s[..|s| - 1]) else s
  }

  /** `lstrip()` removes only whitespace. */
  lemma {:induction false} StripLeftDropsSpaces(s: string)
    ensures forall i | 0 <= i < |s| - |StripLeft(s)| :: IsSpace(s[i])
    decreases |s|
  {
    if |s| > 0 && IsSpace(s[0]) {
      StripLeftDropsSpaces(s[1..]);
    }
  }

  /** `rstrip()` removes only whitespace. */
  lemma {:induction false} StripRightDropsSpaces(s: string)
    ensures forall i | |StripRight(s)| <= i < |s| :: IsSpace(s[i])
    decreases |s|
  {
    if |s| > 0 && IsSpace(s[|s| - 1]) {
      StripRightDropsSpaces(s[..|s| - 1]);
    }
  }

  /** `s.strip()`: `lstrip()` then `rstrip()`; no whitespace is left at
      either end (`StripMeaning` says what is cut). */
  function Strip(s: string): (r: string)
    ensures |r| <= |s|
    ensures r == [] || (!IsSpace(r[0]) && !IsSpace(r[|r| - 1]))
  {
    var l := StripLeft(s);
    var r := StripRight(l);
    assert r != [] ==> r[0] == l[0];
    r
  }

  /** `r` is the slice of `s` that starts at `a`, with only whitespace
      before and after it. */
  ghost predicate Middle(s: string, a: nat, r: string) {
    && a + |r| <= |s| && r == s[a..a + |r|]
    && (forall i | 0 <= i < a :: IsSpace(s[i]))
    && (forall i | a + |r| <= i < |s| :: IsSpace(s[i]))
  }

  /** `s.strip()` is the middle of `s`: it starts where the leading whitespace
      run ends and only whitespace comes before and after it.  With `Strip`'s
      own contract (no whitespace at either end of the result) this pins the
      result down. */
  lemma StripMeaning(s: string)
    ensures Middle(s, |s| - |StripLeft(s)|, Strip(s))
  {
    var l := StripLeft(s);
    StripLeftDropsSpaces(s);
    StripRightDropsSpaces(l);
    MiddleOf(s, |s| - |l|, l, StripRight(l));
  }

  /** A prefix `r` of the suffix `l == s[a..]`, with whitespace before `l`
      and after `r` in `l`, is the middle of `s`. */
  lemma MiddleOf(s: string, a: nat, l: string, r: string)
    requires a <= |s| && l == s[a..] && |r| <= |l| && r == l[..|r|]
    requires forall i | 0 <= i < a :: IsSpace(s[i])
    requires forall i | |r| <= i < |l| :: IsSpace(l[i])
    ensures Middle(s, a, r)
  {
    forall i | a + |r| <= i < |s| ensures IsSpace(s[i]) {
      assert s[i] == l[i - a];
    }
  }

  /** `s.strip()` is empty exactly when `s` is all whitespace. */
  lemma StripEmpty(s: string)
    ensures Strip(s) == [] <==> forall i | 0 <= i < |s| :: IsSpace(s[i])
  {
    var l := StripLeft(s);
    StripLeftDropsSpaces(s);
    StripRightDropsSpaces(l);
    if Strip(s) == [] {
      assert l == [];
    }
  }

  /** `sep` occurs in `s` starting at index `k`. */
  predicate OccursAt(s: string, sep: string, k: nat) {
    k + |sep| <= |s| && s[k..k + |sep|] == sep
  }

  /** Python's `a in b` on strings. */
  predicate IsSubstring(a: string, b: string) {
    exists k: nat | k <= |b| :: OccursAt(b, a, k)
  }

  /** `s.endswith(suffix)`. */
  predicate EndsWith(s: string, suffix: string) {
    |suffix| <= |s| && s[|s| - |suffix|..] == suffix
  }

  /** The first occurrence of `sep` in `s` at or after `from` (what `str.find` computes). */
  function IndexFrom(s: string, sep: string, from: nat): (r: Option<nat>)
    requires from <= |s|
    ensures r.Some? ==> from <= r.value && OccursAt(s, sep, r.value)
    ensures r.Some? ==> forall k: nat | from <= k < r.value :: !OccursAt(s, sep, k)
    ensures r.None? ==> forall k: nat | from <= k <= |s| :: !OccursAt(s, sep, k)
    decreases |s| - from
  {
    if OccursAt(s, sep, from) then Some(from)
    else if from == |s| then None
    else IndexFrom(s, sep, from + 1)
  }

  function IndexOf(s: string, sep: string): (r: Option<nat>)
    ensures r.Some? ==> OccursAt(s, sep, r.value)
    ensures r.Some? ==> forall k: nat | k < r.value :: !OccursAt(s, sep, k)
    ensures r.None? ==> forall k: nat | k <= |s| :: !OccursAt(s, sep, k)
  {
    IndexFrom(s, sep, 0)
  }

  /** `sep.join(parts)`. */
  function Join(parts: seq<string>, sep: string): string
    decreases |parts|
  {
    if |parts| == 0 then ""
    else if |parts| == 1 then parts[0]
    else parts[0] + sep + Join(parts[1..], sep)
  }

  /** No part holds an occurrence of `sep`. */
  ghost predicate SeparatorFree(parts: seq<string>, sep: string) {
    forall i: nat, k: nat | i < |parts| :: !OccursAt(parts[i], sep, k)
  }

  /** Every part but the last, followed by `sep`, holds no occurrence of
      `sep` that starts inside the part: each cut is at the first occurrence. */
  ghost predicate CutsAtFirst(parts: seq<string>, sep: string) {
    forall i: nat, k: nat | i < |parts| - 1 && k < |parts[i]| :: !OccursAt(parts[i] + sep, sep, k)
  }

  /** `s.split(sep)` for a non-empty separator: cuts at every occurrence, left to right.
      Joining the pieces back with `sep` gives `s` again; `SplitOnPieces` adds
      that no piece contains `sep` and that every cut is at the first
      occurrence after the previous one. */
  function SplitOn(s: string, sep: string): (parts: seq<string>)
    requires |sep| > 0
    ensures |parts| > 0
    ensures Join(parts, sep) == s
    decreases |s|
  {
    match IndexOf(s, sep)
    case None => [s]
    case Some(k) =>
      var rest := SplitOn(s[k + |sep|..], sep);
      assert s == s[..k] + sep + s[k + |sep|..];
      assert ([s[..k]] + rest)[1..] == rest;
      [s[..k]] + rest
  }

  /** The pieces `split` gives hold no separator, and each cut is at the
      first occurrence. */
  lemma {:induction false} SplitOnPieces(s: string, sep: string)
    requires |sep| > 0
    ensures SeparatorFree(SplitOn(s, sep), sep) && CutsAtFirst(SplitOn(s, sep), sep)
    decreases |s|
  {
    match IndexOf(s, sep)
    case None =>
      assert s[..|s|] == s;
      assert forall k: nat :: !OccursAt(s, sep, k) by {
        forall k: nat ensures !OccursAt(s, sep, k) {
          if k > |s| { assert k + |sep| > |s|; }
        }
      }
    case Some(k) =>
      var rest := SplitOn(s[k + |sep|..], sep);
      SplitOnPieces(s[k + |sep|..], sep);
      FirstPieceAvoids(s, sep, k);
      ConsCuts(s[..k], rest, sep);
  }

  /** The text before the first occurrence of `sep`, even with `sep` after it,
      holds no occurrence of `sep` that starts inside it. */
  lemma FirstPieceAvoids(s: string, sep: string, k: nat)
    requires |sep| > 0 && OccursAt(s, sep, k)
    requires forall j: nat | j < k :: !OccursAt(s, sep, j)
    ensures forall j: nat :: !OccursAt(s[..k], sep, j)
    ensures forall j: nat | j < k :: !OccursAt(s[..k] + sep, sep, j)
  {
    var head := s[..k] + sep;
    assert head == s[..k + |sep|];
    forall j: nat | j < k && OccursAt(head, sep, j) ensures OccursAt(s, sep, j) {
      assert s[j..j + |sep|] == head[j..j + |sep|];
    }
    forall j: nat | OccursAt(s[..k], sep, j) ensures OccursAt(s, sep, j) {
      assert s[j..j + |sep|] == s[..k][j..j + |sep|];
    }
  }

  /** A first piece cut at the first occurrence, in front of parts cut the same way. */
  lemma ConsCuts(p: string, rest: seq<string>, sep: string)
    requires |rest| > 0
    requires forall j: nat :: !OccursAt(p, sep, j)
    requires forall j: nat | j < |p| :: !OccursAt(p + sep, sep, j)
    requires SeparatorFree(rest, sep) && CutsAtFirst(rest, sep)
    ensures SeparatorFree([p] + rest, sep) && CutsAtFirst([p] + rest, sep)
  {
    var parts := [p] + rest;
    forall i: nat, k: nat | i < |parts| ensures !OccursAt(parts[i], sep, k) {
      if i > 0 {
        assert parts[i] == rest[i - 1];
      }
    }
    forall i: nat, k: nat | i < |parts| - 1 && k < |parts[i]| ensures !OccursAt(parts[i] + sep, sep, k) {
      if i > 0 {
        assert parts[i] == rest[i - 1];
      }
    }
  }

  lemma JoinCons(x: string, rest: seq<string>, sep: string)
    requires |rest| > 0
    ensures Join([x] + rest, sep) == x + sep + Join(rest, sep)
  {
    assert ([x] + rest)[1..] == rest;
  }

  lemma {:induction false} JoinAppend(a: seq<string>, b: seq<string>, sep: string)
    requires |a| > 0 && |b| > 0
    ensures Join(a + b, sep) == Join(a, sep) + sep + Join(b, sep)
    decreases |a|
  {
    if |a| == 1 {
      JoinCons(a[0], b, sep);
      assert a + b == [a[0]] + b;
    } else {
      assert a + b == [a[0]] + (a[1..] + b);
      JoinCons(a[0], a[1..] + b, sep);
      JoinAppend(a[1..], b, sep);
      JoinCons(a[0], a[1..], sep);
      assert a == [a[0]] + a[1..];
    }
  }

  /** A character that none of the parts nor the separator contain is not in their join. */
  lemma {:induction false} JoinAvoids(parts: seq<string>, sep: string, c: char)
    requires c !in sep
    requires forall i | 0 <= i < |parts| :: c !in parts[i]
    ensures c !in Join(parts, sep)
    decreases |parts|
  {
    if |parts| > 1 {
      JoinAvoids(parts[1..], sep, c);
    }
  }

  /** The first occurrence of `sep` is at `k` when it occurs there and nowhere before. */
  lemma IndexOfFirst(s: string, sep: string, k: nat)
    requires OccursAt(s, sep, k)
    requires forall j: nat | j < k :: !OccursAt(s, sep, j)
    ensures IndexOf(s, sep) == Some(k)
  {
  }

  /** A separator cannot start inside a string that lacks its first character. */
  lemma NoOccurrenceWithout(s: string, sep: string, k: nat)
    requires k <= |s|
    requires |sep| > 0 && sep[0] !in s[..k]
    ensures forall j: nat | j < k :: !OccursAt(s, sep, j)
  {
    forall j: nat | j < k ensures !OccursAt(s, sep, j) {
      assert s[..k][j] == s[j];
      if j + |sep| <= |s| {
        assert s[j..j + |sep|][0] == s[j];
      }
    }
  }

  /** Splitting the join of separator-free parts gives the parts back. */
  lemma {:induction false} SplitOnJoin(parts: seq<string>, sep: string)
    requires |sep| > 0 && |parts| > 0
    requires forall i | 0 <= i < |parts| :: sep[0] !in parts[i]
    ensures SplitOn(Join(parts, sep), sep) == parts
    decreases |parts|
  {
    var p := parts[0];
    if |parts| == 1 {
      assert p[..|p|] == p;
      NoOccurrenceWithout(p, sep, |p|);
      assert !OccursAt(p, sep, |p|);
      assert IndexOf(p, sep) == None;
    } else {
      var rest := parts[1..];
      var s := Join(parts, sep);
      JoinCons(p, rest, sep);
      assert parts == [p] + rest;
      assert s == p + sep + Join(rest, sep);
      assert s[..|p|] == p;
      NoOccurrenceWithout(s, sep, |p|);
      assert s[|p|..|p| + |sep|] == sep;
      IndexOfFirst(s, sep, |p|);
      assert s[|p| + |sep|..] == Join(rest, sep);
      SplitOnJoin(rest, sep);
    }
  }

  /** `a in b` is transitive. */
  lemma SubstringTrans(a: string, b: string, c: string)
    requires IsSubstring(a, b) && IsSubstring(b, c)
    ensures IsSubstring(a, c)
  {
    var k: nat :| k <= |b| && OccursAt(b, a, k);
    var m: nat :| m <= |c| && OccursAt(c, b, m);
    assert c[m..m + |b|] == b;
    forall i | 0 <= i < |a| ensures c[m + k + i] == a[i] {
      assert c[m..m + |b|][k + i] == b[k + i];
      assert b[k..k + |a|][i] == a[i];
    }
    assert OccursAt(c, a, m + k);
  }

  /** A string is inside a string no shorter than itself, and only itself when as long. */
  lemma SubstringLength(a: string, b: string)
    requires IsSubstring(a, b)
    ensures |a| <= |b|
    ensures |a| == |b| ==> a == b
  {
    var k: nat :| k <= |b| && OccursAt(b, a, k);
    if |a| == |b| {
      assert b[0..|b|] == b;
    }
  }

  lemma SubstringRefl(a: string)
    ensures IsSubstring(a, a)
  {
    assert OccursAt(a, a, 0);
  }
}
