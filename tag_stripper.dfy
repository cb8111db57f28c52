/** `clean_text`: four `re.sub` passes and a `strip()`, each regex written as a
    left-to-right scanner that, like `re.sub`, replaces non-overlapping matches
    and resumes after each one.
 */
module TagStripper {
  import opened Options
  import opened Text
  import opened Timestamps

  /** No `<[^>]+>` match anywhere in `s`: every `<` is followed directly by a
      `>` or by no `>` at all. */
  predicate NoTag(s: string)
    decreases |s|
  {
    |s| == 0 ||
    ((s[0] == '<' ==> (|s| > 1 && s[1] == '>') || '>' !in s[1..]) && NoTag(s[1..]))
  }

  /** `<[^>]+>` matches `s[i..j + 1]`. */
  ghost predicate TagAt(s: string, i: nat, j: nat) {
    i + 1 < j < |s| && s[i] == '<' && s[j] == '>' && forall k | i < k < j :: s[k] != '>'
  }

  /** Every whitespace character is a plain space and no two of them are adjacent. */
  predicate SingleSpaced(s: string)
    decreases |s|
  {
    |s| == 0 ||
    ((IsSpace(s[0]) ==> s[0] == ' ' && (|s| == 1 || !IsSpace(s[1]))) && SingleSpaced(s[1..]))
  }

  predicate Trimmed(s: string) {
    |s| == 0 || (!IsSpace(s[0]) && !IsSpace(s[|s| - 1]))
  }

  /** What `clean_text` promises of its result. */
  predicate IsCleanText(s: string) {
    NoTag(s) && SingleSpaced(s) && Trimmed(s)
  }

  /** `<\d{2}:\d{2}:\d{2}\.\d{3}>`, an inline karaoke timestamp. */
  predicate IsTimestampTag(s: string) {
    |s| == 14 && s[0] == '<' && IsTimestamp(s[1..13]) && s[13] == '>'
  }

  /** A timestamp tag starts at index `i` of `s`. */
  predicate TimestampTagAt(s: string, i: nat) {
    i + 14 <= |s| && IsTimestampTag(s[i..i + 14])
  }

  /** `i` is the leftmost index at which a timestamp tag starts. */
  ghost predicate FirstTimestampTag(s: string, i: nat) {
    TimestampTagAt(s, i) && forall j: nat | j < i :: !TimestampTagAt(s, j)
  }

  /** First pass, `re.sub(r'<\d{2}:\d{2}:\d{2}\.\d{3}>', '', s)`: the text before
      the leftmost tag is kept, the tag is dropped, and the scan resumes right
      after it; without a tag the text is unchanged. */
  function RemoveTimestampTags(s: string): (r: string)
    ensures |r| <= |s|
    ensures NoTag(s) ==> r == s
    decreases |s|
  {
    if |s| == 0 then ""
    else if |s| >= 14 && IsTimestampTag(s[..14]) then
      assert s[1..][12] == s[13];
      RemoveTimestampTags(s[14..])
    else
      [s[0]] + RemoveTimestampTags(s[1..])
  }

  /** Without a timestamp tag the text is unchanged. */
  lemma RemoveTimestampTagsNoMatch(s: string)
    requires forall i: nat :: !TimestampTagAt(s, i)
    ensures RemoveTimestampTags(s) == s
  {
    RemoveTimestampTagsNoneFrom(s, 0);
    assert s[0..] == s;
  }

  /** The pass run from index `k`, with no timestamp tag at or after `k`. */
  lemma {:induction false} RemoveTimestampTagsNoneFrom(s: string, k: nat)
    requires k <= |s| && forall i: nat | k <= i :: !TimestampTagAt(s, i)
    ensures RemoveTimestampTags(s[k..]) == s[k..]
    decreases |s| - k
  {
    if k < |s| {
      RemoveTimestampTagsSkipAt(s, k);
      RemoveTimestampTagsNoneFrom(s, k + 1);
      assert s[k..] == [s[k]] + s[k + 1..];
    }
  }

  /** The text before the leftmost timestamp tag is kept, the tag is
      dropped, and the pass resumes right after it. */
  lemma RemoveTimestampTagsAtFirst(s: string, i: nat)
    requires FirstTimestampTag(s, i)
    ensures RemoveTimestampTags(s) == s[..i] + RemoveTimestampTags(s[i + 14..])
  {
    RemoveTimestampTagsFrom(s, 0, i);
    assert s[0..] == s;
  }

  /** The pass run from index `k`, when the first timestamp tag at or after
      `k` starts at `i`. */
  lemma {:induction false} RemoveTimestampTagsFrom(s: string, k: nat, i: nat)
    requires k <= i && TimestampTagAt(s, i)
    requires forall i0: nat | k <= i0 < i :: !TimestampTagAt(s, i0)
    ensures RemoveTimestampTags(s[k..]) == s[k..i] + RemoveTimestampTags(s[i + 14..])
    decreases i - k
  {
    if k == i {
      assert s[k..][..14] == s[k..k + 14];
      assert s[k..][14..] == s[k + 14..];
    } else {
      RemoveTimestampTagsSkipAt(s, k);
      RemoveTimestampTagsFrom(s, k + 1, i);
      KeepOne(s, k, i, RemoveTimestampTags(s[k..]), RemoveTimestampTags(s[k + 1..]), RemoveTimestampTags(s[i + 14..]));
    }
  }

  /** One kept character in front of the text kept up to index `i`. */
  lemma KeepOne(s: string, k: nat, i: nat, w: string, u: string, t: string)
    requires k < i <= |s|
    requires w == [s[k]] + u && u == s[k + 1..i] + t
    ensures w == s[k..i] + t
  {
    assert s[k..i] == [s[k]] + s[k + 1..i];
  }

  /** A character that does not start a timestamp tag is kept. */
  lemma RemoveTimestampTagsSkipAt(s: string, k: nat)
    requires k < |s| && !TimestampTagAt(s, k)
    ensures RemoveTimestampTags(s[k..]) == [s[k]] + RemoveTimestampTags(s[k + 1..])
  {
    if |s| - k >= 14 {
      assert s[k..][..14] == s[k..k + 14];
    }
    assert s[k..][1..] == s[k + 1..];
  }

  /** `</?c>` starts at index `i` of `s` and is `n` characters long. */
  predicate ColorTagAt(s: string, i: nat, n: nat) {
    || (n == 3 && i + 3 <= |s| && s[i] == '<' && s[i + 1] == 'c' && s[i + 2] == '>')
    || (n == 4 && i + 4 <= |s| && s[i] == '<' && s[i + 1] == '/' && s[i + 2] == 'c' && s[i + 3] == '>')
  }

  /** `i` is the leftmost index at which a colour tag starts. */
  ghost predicate FirstColorTag(s: string, i: nat, n: nat) {
    ColorTagAt(s, i, n) && forall j: nat, m: nat | j < i :: !ColorTagAt(s, j, m)
  }

  /** Second pass, `re.sub(r'</?c>', '', s)`, in the same leftmost-first way. */
  function RemoveColorTags(s: string): (r: string)
    ensures |r| <= |s|
    ensures NoTag(s) ==> r == s
    decreases |s|
  {
    if |s| == 0 then ""
    else if |s| >= 3 && s[..3] == "<c>" then
      assert s[1..][1] == s[2];
      RemoveColorTags(s[3..])
    else if |s| >= 4 && s[..4] == "</c>" then
      assert s[1..][2] == s[3];
      RemoveColorTags(s[4..])
    else
      [s[0]] + RemoveColorTags(s[1..])
  }

  /** Without a colour tag the text is unchanged. */
  lemma RemoveColorTagsNoMatch(s: string)
    requires forall i: nat, n: nat :: !ColorTagAt(s, i, n)
    ensures RemoveColorTags(s) == s
  {
    RemoveColorTagsNoneFrom(s, 0);
    assert s[0..] == s;
  }

  /** The pass run from index `k`, with no colour tag at or after `k`. */
  lemma {:induction false} RemoveColorTagsNoneFrom(s: string, k: nat)
    requires k <= |s| && forall i: nat, n: nat | k <= i :: !ColorTagAt(s, i, n)
    ensures RemoveColorTags(s[k..]) == s[k..]
    decreases |s| - k
  {
    if k < |s| {
      RemoveColorTagsSkipAt(s, k);
      RemoveColorTagsNoneFrom(s, k + 1);
      assert s[k..] == [s[k]] + s[k + 1..];
    }
  }

  /** The text before the leftmost colour tag is kept, the tag is dropped,
      and the pass resumes right after it. */
  lemma RemoveColorTagsAtFirst(s: string, i: nat, n: nat)
    requires FirstColorTag(s, i, n)
    ensures RemoveColorTags(s) == s[..i] + RemoveColorTags(s[i + n..])
  {
    RemoveColorTagsFrom(s, 0, i, n);
    assert s[0..] == s;
  }

  /** The pass run from index `k`, when the first colour tag at or after
      `k` starts at `i` and is `n` characters long. */
  lemma {:induction false} RemoveColorTagsFrom(s: string, k: nat, i: nat, n: nat)
    requires k <= i && ColorTagAt(s, i, n)
    requires forall j: nat | k <= j < i :: !ColorTagAt(s, j, 3) && !ColorTagAt(s, j, 4)
    ensures RemoveColorTags(s[k..]) == s[k..i] + RemoveColorTags(s[i + n..])
    decreases i - k
  {
    if k == i {
      RemoveColorTagsDropAt(s, k, n);
    } else {
      RemoveColorTagsSkipAt(s, k);
      RemoveColorTagsFrom(s, k + 1, i, n);
      KeepOne(s, k, i, RemoveColorTags(s[k..]), RemoveColorTags(s[k + 1..]), RemoveColorTags(s[i + n..]));
    }
  }

  /** A colour tag at index `k` is dropped. */
  lemma RemoveColorTagsDropAt(s: string, k: nat, n: nat)
    requires ColorTagAt(s, k, n)
    ensures RemoveColorTags(s[k..]) == RemoveColorTags(s[k + n..])
  {
    var t := s[k..];
    assert t[n..] == s[k + n..];
    if n == 3 {
      assert t[..3] == "<c>";
    } else {
      assert t[1] == '/';
      assert t[..4] == "</c>";
    }
  }

  /** A character that does not start a colour tag is kept. */
  lemma RemoveColorTagsSkipAt(s: string, k: nat)
    requires k < |s| && !ColorTagAt(s, k, 3) && !ColorTagAt(s, k, 4)
    ensures RemoveColorTags(s[k..]) == [s[k]] + RemoveColorTags(s[k + 1..])
  {
    if |s| - k >= 3 {
      assert s[k..][..3] == [s[k], s[k + 1], s[k + 2]];
    }
    if |s| - k >= 4 {
      assert s[k..][..4] == [s[k], s[k + 1], s[k + 2], s[k + 3]];
    }
    assert s[k..][1..] == s[k + 1..];
  }

  /** The index of the first `>` in `s`. */
  function FirstClose(s: string): (r: Option<nat>)
    ensures r.Some? ==> r.value < |s| && s[r.value] == '>' && '>' !in s[..r.value]
    ensures r.None? <==> '>' !in s
    decreases |s|
  {
    if |s| == 0 then None
    else if s[0] == '>' then Some(0)
    else match FirstClose(s[1..])
      case None => None
      case Some(k) =>
        assert s == [s[0]] + s[1..];
        assert s[..k + 1] == [s[0]] + s[1..][..k];
        Some(k + 1)
  }

  /** `s[i..j + 1]` is the leftmost match of `<[^>]+>`. */
  ghost predicate FirstTag(s: string, i: nat, j: nat) {
    TagAt(s, i, j) && forall i0: nat, j0: nat | i0 < i :: !TagAt(s, i0, j0)
  }

  /** Third pass, `re.sub(r'<[^>]+>', '', s)`: a `<`, at least one non-`>`,
      then the first `>` after it.  The text before the leftmost tag is kept,
      the tag is dropped and the scan resumes after it; no tag survives. */
  function RemoveTags(s: string): (r: string)
    ensures |r| <= |s|
    ensures '>' in r ==> '>' in s
    ensures NoTag(r)
    ensures NoTag(s) ==> r == s
    decreases |s|
  {
    if |s| == 0 then ""
    else
      var close := FirstClose(s[1..]);
      if s[0] == '<' && close.Some? && close.value > 0 then
        assert s[1..][close.value] == s[close.value + 1];
        RemoveTags(s[close.value + 2..])
      else
        var rest := RemoveTags(s[1..]);
        var r := [s[0]] + rest;
        assert r[1..] == rest;
        assert s[0] == '<' && close.Some? ==> s[1] == '>' && rest[0] == '>';
        r
  }

  /** The tag pass adds no character: everything it returns comes from its input. */
  lemma {:induction false} RemoveTagsKeepsChars(s: string)
    ensures forall c :: c in RemoveTags(s) ==> c in s
    decreases |s|
  {
    if |s| > 0 {
      var close := FirstClose(s[1..]);
      if s[0] == '<' && close.Some? && close.value > 0 {
        RemoveTagsKeepsChars(s[close.value + 2..]);
      } else {
        RemoveTagsKeepsChars(s[1..]);
      }
    }
  }

  /** The text before the leftmost tag is kept, the tag is dropped, and the
      pass resumes right after it. */
  lemma RemoveTagsAtFirst(s: string, i: nat, j: nat)
    requires FirstTag(s, i, j)
    ensures RemoveTags(s) == s[..i] + RemoveTags(s[j + 1..])
  {
    RemoveTagsFrom(s, 0, i, j);
    assert s[0..] == s;
  }

  /** The pass run from index `k`, when the first tag at or after `k` is
      `s[i..j + 1]`. */
  lemma {:induction false} RemoveTagsFrom(s: string, k: nat, i: nat, j: nat)
    requires k <= i && TagAt(s, i, j)
    requires forall i0: nat, j0: nat | k <= i0 < i :: !TagAt(s, i0, j0)
    ensures RemoveTags(s[k..]) == s[k..i] + RemoveTags(s[j + 1..])
    decreases i - k
  {
    if k == i {
      RemoveTagsDropAt(s, k, j);
    } else {
      RemoveTagsSkipAt(s, k);
      RemoveTagsFrom(s, k + 1, i, j);
      KeepOne(s, k, i, RemoveTags(s[k..]), RemoveTags(s[k + 1..]), RemoveTags(s[j + 1..]));
    }
  }

  /** The scan at index `k` (a `<`, then the first `>` after it, with
      something in between) finds a tag exactly when `<[^>]+>` matches there,
      and then it finds the only match that starts there. */
  lemma ScanAt(s: string, k: nat)
    requires k < |s|
    ensures var close := FirstClose(s[k + 1..]);
      if s[k] == '<' && close.Some? && close.value > 0 then
        TagAt(s, k, k + 1 + close.value) && forall j: nat :: TagAt(s, k, j) ==> j == k + 1 + close.value
      else
        forall j: nat :: !TagAt(s, k, j)
  {
    var t := s[k + 1..];
    var close := FirstClose(t);
    if close.Some? {
      var v := close.value;
      assert s[k + 1 + v] == t[v];
      forall m | k < m < k + 1 + v ensures s[m] != '>' {
        assert s[m] == t[..v][m - k - 1];
      }
    } else {
      forall m | k < m < |s| ensures s[m] != '>' {
        assert s[m] == t[m - k - 1];
      }
    }
  }

  /** A tag starting at index `k` is dropped. */
  lemma RemoveTagsDropAt(s: string, k: nat, j: nat)
    requires TagAt(s, k, j)
    ensures RemoveTags(s[k..]) == RemoveTags(s[j + 1..])
  {
    ScanAt(s, k);
    assert s[k..][1..] == s[k + 1..];
    assert s[k..][j - k + 1..] == s[j + 1..];
  }

  /** A character where no tag starts is kept. */
  lemma RemoveTagsSkipAt(s: string, k: nat)
    requires k < |s| && forall j: nat :: !TagAt(s, k, j)
    ensures RemoveTags(s[k..]) == [s[k]] + RemoveTags(s[k + 1..])
  {
    ScanAt(s, k);
    assert s[k..][1..] == s[k + 1..];
  }

  /** Fourth pass, `re.sub(r'\s+', ' ', s)`: each whitespace run becomes one
      space.  The result is single-spaced and keeps the first character (a
      whitespace one as a space); `CollapseKeepsChars`, `CollapseKeepsWords`
      and `CollapseKeepsLast` add that no other character appears and that
      the words and the last character are kept. */
  function CollapseSpaces(s: string): (r: string)
    ensures |r| <= |s|
    ensures |r| == 0 <==> |s| == 0
    ensures |s| > 0 ==> r[0] == (if IsSpace(s[0]) then ' ' else s[0])
    ensures SingleSpaced(r)
    ensures SingleSpaced(s) ==> r == s
    decreases |s|
  {
    if |s| == 0 then ""
    else if IsSpace(s[0]) then
      var t := StripLeft(s);
      var r := " " + CollapseSpaces(t);
      assert SingleSpaced(s) ==> t == s[1..] by {
        if SingleSpaced(s) {
          assert |s| > 1 ==> !IsSpace(s[1..][0]);
          assert StripLeft(s[1..]) == s[1..];
        }
      }
      r
    else
      var rest := CollapseSpaces(s[1..]);
      var r := [s[0]] + rest;
      assert r[1..] == rest;
      r
  }

  /** Collapsing adds no character other than the space. */
  lemma {:induction false} CollapseKeepsChars(s: string)
    ensures forall c :: c in CollapseSpaces(s) && c != ' ' ==> c in s
    decreases |s|
  {
    if |s| > 0 {
      var r := CollapseSpaces(s);
      if IsSpace(s[0]) {
        var t := StripLeft(s);
        CollapseKeepsChars(t);
        assert r == " " + CollapseSpaces(t);
      } else {
        CollapseKeepsChars(s[1..]);
        assert r == [s[0]] + CollapseSpaces(s[1..]);
      }
    }
  }

  /** The words of `s` as `s.split()` gives them: its maximal runs of
      non-whitespace characters, in order. */
  function Words(s: string): (ws: seq<string>)
    ensures |s| > 0 && !IsSpace(s[0]) ==> |ws| > 0
    decreases |s|
  {
    if |s| == 0 then []
    else if IsSpace(s[0]) then Words(s[1..])
    else
      var ws := Words(s[1..]);
      if |s| > 1 && !IsSpace(s[1]) then [[s[0]] + ws[0]] + ws[1..]
      else [[s[0]]] + ws
  }

  /** `clean_text`: the four passes, then `strip()`.  `CleanTextWords`
      adds that what is left is the words of the tag-free text joined by
      single spaces. */
  function CleanText(s: string): (r: string)
    ensures |r| <= |s|
    ensures IsCleanText(r)
  {
    var c := RemoveTags(RemoveColorTags(RemoveTimestampTags(s)));
    var d := CollapseSpaces(c);
    CollapseKeepsNoTag(c);
    StripKeepsCleanliness(d);
    Strip(d)
  }

  /** The cleaned text is the words of the tag-free text, joined by single spaces. */
  lemma CleanTextWords(s: string)
    ensures CleanText(s) == Join(Words(RemoveTags(RemoveColorTags(RemoveTimestampTags(s)))), " ")
  {
    CollapsedWords(RemoveTags(RemoveColorTags(RemoveTimestampTags(s))));
  }

  /** The last two passes leave the words joined by single spaces. */
  lemma CollapsedWords(c: string)
    ensures Strip(CollapseSpaces(c)) == Join(Words(c), " ")
  {
    var d := CollapseSpaces(c);
    CollapseKeepsWords(c);
    StripKeepsWords(d);
    StripKeepsSingleSpaced(d);
    SingleSpacedIsJoinedWords(Strip(d));
  }

  lemma {:induction false} NoTagSuffix(s: string, k: nat)
    requires NoTag(s) && k <= |s|
    ensures NoTag(s[k..])
    decreases k
  {
    if k > 0 {
      NoTagSuffix(s[1..], k - 1);
      assert s[1..][k - 1..] == s[k..];
    }
  }

  lemma {:induction false} NoTagPrefix(s: string, k: nat)
    requires NoTag(s) && k <= |s|
    ensures NoTag(s[..k])
    decreases k
  {
    if k > 0 {
      var p := s[..k];
      NoTagPrefix(s[1..], k - 1);
      assert p[1..] == s[1..][..k - 1];
      assert k > 1 ==> p[1] == s[1];
      assert '>' !in s[1..] ==> '>' !in p[1..];
    }
  }

  lemma {:induction false} CollapseKeepsNoTag(s: string)
    requires NoTag(s)
    ensures NoTag(CollapseSpaces(s))
    decreases |s|
  {
    if |s| > 0 {
      var r := CollapseSpaces(s);
      if IsSpace(s[0]) {
        var t := StripLeft(s);
        NoTagSuffix(s, |s| - |t|);
        CollapseKeepsNoTag(t);
        assert r[1..] == CollapseSpaces(t);
      } else {
        NoTagSuffix(s, 1);
        CollapseKeepsNoTag(s[1..]);
        var rest := CollapseSpaces(s[1..]);
        assert r[1..] == rest;
        if s[0] == '<' {
          if |s| > 1 && s[1] == '>' {
            assert rest[0] == '>';
          } else {
            CollapseKeepsChars(s[1..]);
            assert '>' !in rest;
          }
        }
      }
    }
  }

  lemma {:induction false} SingleSpacedSuffix(s: string, k: nat)
    requires SingleSpaced(s) && k <= |s|
    ensures SingleSpaced(s[k..])
    decreases k
  {
    if k > 0 {
      SingleSpacedSuffix(s[1..], k - 1);
      assert s[1..][k - 1..] == s[k..];
    }
  }

  lemma {:induction false} SingleSpacedPrefix(s: string, k: nat)
    requires SingleSpaced(s) && k <= |s|
    ensures SingleSpaced(s[..k])
    decreases k
  {
    if k > 0 {
      var p := s[..k];
      SingleSpacedPrefix(s[1..], k - 1);
      assert p[1..] == s[1..][..k - 1];
      assert k > 1 ==> p[1] == s[1];
    }
  }

  /** What `SingleSpaced` says at one index. */
  lemma {:induction false} SingleSpacedAt(s: string, i: nat)
    requires SingleSpaced(s) && i < |s| && IsSpace(s[i])
    ensures s[i] == ' ' && (i + 1 < |s| ==> s[i + 1] != ' ')
    decreases i
  {
    if i > 0 {
      SingleSpacedAt(s[1..], i - 1);
    }
  }

  /** `strip()` keeps a string single-spaced. */
  lemma StripKeepsSingleSpaced(s: string)
    requires SingleSpaced(s)
    ensures SingleSpaced(Strip(s))
  {
    var l := StripLeft(s);
    SingleSpacedSuffix(s, |s| - |l|);
    SingleSpacedPrefix(l, |StripRight(l)|);
  }

  /** `strip()` keeps a string tag-free and single-spaced, and trims it. */
  lemma StripKeepsCleanliness(s: string)
    requires NoTag(s) && SingleSpaced(s)
    ensures IsCleanText(Strip(s))
  {
    var l := StripLeft(s);
    NoTagSuffix(s, |s| - |l|);
    NoTagPrefix(l, |StripRight(l)|);
    StripKeepsSingleSpaced(s);
  }

  /** `<[^>]+>` has no match in a `NoTag` string. */
  lemma {:induction false} NoTagHasNoMatch(s: string, i: nat, j: nat)
    requires NoTag(s)
    ensures !TagAt(s, i, j)
    decreases i
  {
    if i == 0 {
      if 1 < j < |s| {
        assert s[1..][j - 1] == s[j];
      }
    } else if j > 0 && |s| > 0 {
      NoTagHasNoMatch(s[1..], i - 1, j - 1);
    }
  }

  /** The cleaned text has no `<...>` tag, no leading or trailing whitespace,
      and its only whitespace is single spaces. */
  lemma CleanTextMeaning(s: string)
    ensures var r := CleanText(s);
      && (forall i, j :: !TagAt(r, i, j))
      && (r == [] || (!IsSpace(r[0]) && !IsSpace(r[|r| - 1])))
      && (forall i | 0 <= i < |r| && IsSpace(r[i]) :: r[i] == ' ' && (i + 1 < |r| ==> r[i + 1] != ' '))
  {
    var r := CleanText(s);
    forall i, j ensures !TagAt(r, i, j) {
      NoTagHasNoMatch(r, i, j);
    }
    forall i | 0 <= i < |r| && IsSpace(r[i]) ensures r[i] == ' ' && (i + 1 < |r| ==> r[i + 1] != ' ') {
      SingleSpacedAt(r, i);
    }
  }

  /** Collapsing whitespace keeps the words. */
  lemma {:induction false} CollapseKeepsWords(s: string)
    ensures Words(CollapseSpaces(s)) == Words(s)
    decreases |s|
  {
    if |s| > 0 {
      var r := CollapseSpaces(s);
      if IsSpace(s[0]) {
        var t := StripLeft(s);
        CollapseKeepsWords(t);
        StripLeftDropsSpaces(s);
        WordsSkipSpaces(s, |s| - |t|);
        assert r[1..] == CollapseSpaces(t);
      } else {
        CollapseKeepsWords(s[1..]);
        assert r[1..] == CollapseSpaces(s[1..]);
      }
    }
  }

  /** The last character survives collapsing, a whitespace one as a space. */
  lemma {:induction false} CollapseKeepsLast(s: string)
    requires |s| > 0
    ensures var r := CollapseSpaces(s); r[|r| - 1] == (if IsSpace(s[|s| - 1]) then ' ' else s[|s| - 1])
    decreases |s|
  {
    if IsSpace(s[0]) {
      var t := StripLeft(s);
      if |t| > 0 {
        CollapseKeepsLast(t);
        assert t[|t| - 1] == s[|s| - 1];
        LastOfConcat(" ", CollapseSpaces(t), CollapseSpaces(s));
      } else {
        StripLeftDropsSpaces(s);
      }
    } else if |s| > 1 {
      CollapseKeepsLast(s[1..]);
      assert s[1..][|s| - 2] == s[|s| - 1];
      LastOfConcat([s[0]], CollapseSpaces(s[1..]), CollapseSpaces(s));
    }
  }

  /** The last character of `p + c` is that of `c`. */
  lemma LastOfConcat(p: string, c: string, r: string)
    requires |c| > 0 && r == p + c
    ensures r[|r| - 1] == c[|c| - 1]
  {
  }

  /** Whitespace in front of the words does not change them. */
  lemma {:induction false} WordsSkipSpaces(s: string, k: nat)
    requires k <= |s| && forall i | 0 <= i < k :: IsSpace(s[i])
    ensures Words(s) == Words(s[k..])
    decreases k
  {
    if k > 0 {
      assert forall i | 0 <= i < k - 1 :: s[1..][i] == s[i + 1];
      WordsSkipSpaces(s[1..], k - 1);
      assert s[1..][k - 1..] == s[k..];
    }
  }

  /** Whitespace after the words does not change them. */
  lemma {:induction false} WordsDropTrailing(s: string, k: nat)
    requires k <= |s| && forall i | k <= i < |s| :: IsSpace(s[i])
    ensures Words(s) == Words(s[..k])
    decreases |s|
  {
    if k == |s| {
      assert s[..k] == s;
    } else if k == 0 {
      WordsSkipSpaces(s, |s|);
    } else {
      assert forall i | k - 1 <= i < |s| - 1 :: s[1..][i] == s[i + 1];
      WordsDropTrailing(s[1..], k - 1);
      assert s[..k][1..] == s[1..][..k - 1];
    }
  }

  /** Whitespace on both sides of `r` in `s` does not change the words. */
  lemma WordsOfMiddle(s: string, a: nat, r: string)
    requires Middle(s, a, r)
    ensures Words(s) == Words(r)
  {
    var t := s[a..];
    WordsSkipSpaces(s, a);
    assert forall i | |r| <= i < |t| :: IsSpace(t[i]) by {
      forall i | |r| <= i < |t| ensures IsSpace(t[i]) {
        assert t[i] == s[a + i];
      }
    }
    WordsDropTrailing(t, |r|);
    assert t[..|r|] == r;
  }

  /** Stripping the ends of a string keeps its words. */
  lemma StripKeepsWords(s: string)
    ensures Words(Strip(s)) == Words(s)
  {
    StripMeaning(s);
    WordsOfMiddle(s, |s| - |StripLeft(s)|, Strip(s));
  }

  /** Gluing a character to the front of the first part. */
  lemma JoinGlue(c: char, ws: seq<string>, sep: string)
    requires |ws| > 0
    ensures Join([[c] + ws[0]] + ws[1..], sep) == [c] + Join(ws, sep)
  {
    if |ws| > 1 {
      JoinCons([c] + ws[0], ws[1..], sep);
      JoinCons(ws[0], ws[1..], sep);
      assert ws == [ws[0]] + ws[1..];
    }
  }

  /** A trimmed, single-spaced string is its words joined by single spaces. */
  lemma {:induction false} SingleSpacedIsJoinedWords(t: string)
    requires SingleSpaced(t) && Trimmed(t)
    ensures t == Join(Words(t), " ")
    decreases |t|
  {
    if |t| == 1 {
      assert Words(t) == [[t[0]]] + Words(t[1..]);
    } else if |t| > 1 {
      var t1 := t[1..];
      if !IsSpace(t[1]) {
        SingleSpacedIsJoinedWords(t1);
        JoinGlue(t[0], Words(t1), " ");
      } else {
        SingleSpacedAt(t, 1);
        var t2 := t[2..];
        SingleSpacedSuffix(t, 2);
        SingleSpacedIsJoinedWords(t2);
        assert t1[1..] == t2;
        JoinCons([t[0]], Words(t2), " ");
        assert t == [t[0]] + " " + t2;
      }
    }
  }

  /** A string without `<` holds no tag. */
  lemma {:induction false} NoOpenIsNoTag(s: string)
    requires '<' !in s
    ensures NoTag(s)
    decreases |s|
  {
    if |s| > 0 {
      NoOpenIsNoTag(s[1..]);
    }
  }

  /** On text without `<`, cleaning leaves exactly its words joined by
      single spaces. */
  lemma CleanTextPlain(s: string)
    requires '<' !in s
    ensures CleanText(s) == Join(Words(s), " ")
  {
    NoOpenIsNoTag(s);
    CleanTextWords(s);
  }

  /** A string is a fixed point of `clean_text` exactly when it is clean. */
  lemma CleanTextFixpoint(s: string)
    ensures CleanText(s) == s <==> IsCleanText(s)
  {
    if IsCleanText(s) {
      assert RemoveTimestampTags(s) == s;
      assert RemoveColorTags(s) == s;
      assert RemoveTags(s) == s;
      assert CollapseSpaces(s) == s;
      assert StripLeft(s) == s;
      assert StripRight(s) == s;
    }
  }

  /** Cleaning twice is cleaning once. */
  lemma CleanTextIdempotent(s: string)
    ensures CleanText(CleanText(s)) == CleanText(s)
  {
    CleanTextFixpoint(CleanText(s));
  }
}
