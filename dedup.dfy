/** `deduplicate_blocks`: drop repeated cue texts and merge partially
    overlapping ones, keeping each kept text's first position.
 */
module Dedup {
  import opened Options
  import opened Text
  import opened Blocks
  import opened TagStripper

  /** A block with its text replaced by its cleaned text. */
  function Cleaned(b: SubtitleBlock): SubtitleBlock {
    b.(text := CleanText(b.text))
  }

  /** The partial-overlap test: both texts longer than ten characters and one
      contained in the other. */
  predicate Overlaps(c: string, s: string) {
    |c| > 10 && |s| > 10 && (IsSubstring(c, s) || IsSubstring(s, c))
  }

  /** The first seen text at or after `from` that overlaps `c`. */
  function FirstOverlap(seen: seq<string>, c: string, from: nat): (r: Option<nat>)
    requires from <= |seen|
    ensures r.Some? ==> from <= r.value < |seen| && Overlaps(c, seen[r.value])
    ensures r.Some? ==> forall k | from <= k < r.value :: !Overlaps(c, seen[k])
    ensures r.None? ==> forall k | from <= k < |seen| :: !Overlaps(c, seen[k])
    decreases |seen| - from
  {
    if from == |seen| then None
    else if Overlaps(c, seen[from]) then Some(from)
    else FirstOverlap(seen, c, from + 1)
  }

  /** Every kept text is clean: tag-free, single-spaced and trimmed (by
      `CleanTextFixpoint`, already what `clean_text` makes of it). */
  predicate AllClean(blocks: seq<SubtitleBlock>) {
    forall i | 0 <= i < |blocks| :: IsCleanText(blocks[i].text)
  }

  predicate DistinctTexts(blocks: seq<SubtitleBlock>) {
    forall i, j | 0 <= i < j < |blocks| :: blocks[i].text != blocks[j].text
  }

  /** Some kept text contains `t`. */
  ghost predicate Covered(t: string, blocks: seq<SubtitleBlock>) {
    exists i | 0 <= i < |blocks| :: IsSubstring(t, blocks[i].text)
  }

  /** One iteration of the loop on the kept blocks.  The kept texts are scanned
      by their position in the kept list; the first overlapping one decides. */
  function DedupStep(unique: seq<SubtitleBlock>, b: SubtitleBlock): (r: seq<SubtitleBlock>)
    ensures |unique| <= |r| <= |unique| + 1
  {
    Keep(unique, Cleaned(b))
  }

  /** The decision of one iteration, for the block with its text already
      cleaned: drop it as a repeat, let it replace the first kept text it
      overlaps when it is longer, drop it when it is not, or append it. */
  function Keep(unique: seq<SubtitleBlock>, nb: SubtitleBlock): (r: seq<SubtitleBlock>)
    ensures |unique| <= |r| <= |unique| + 1
  {
    var c := nb.text;
    var seen := Texts(unique);
    if c in seen then unique
    else match FirstOverlap(seen, c, 0)
      case None => unique + [nb]
      case Some(k) => if |c| > |seen[k]| then unique[k := nb] else unique
  }

  lemma InTexts(blocks: seq<SubtitleBlock>, t: string)
    ensures t in Texts(blocks) <==> exists i | 0 <= i < |blocks| :: blocks[i].text == t
  {
    if t in Texts(blocks) {
      var i :| 0 <= i < |blocks| && Texts(blocks)[i] == t;
    }
    if i :| 0 <= i < |blocks| && blocks[i].text == t {
      assert Texts(blocks)[i] == t;
    }
  }

  /** An overlapping text strictly longer than a kept one contains it. */
  lemma OverlapLonger(c: string, s: string)
    requires Overlaps(c, s) && |c| > |s|
    ensures IsSubstring(s, c)
  {
    if !IsSubstring(s, c) {
      SubstringLength(c, s);
    }
  }

  /** An overlapping text no longer than a kept one, and different from it, lies inside it. */
  lemma OverlapNotLonger(c: string, s: string)
    requires Overlaps(c, s) && |c| <= |s| && c != s
    ensures IsSubstring(c, s)
  {
    if !IsSubstring(c, s) {
      SubstringLength(s, c);
    }
  }

  /** The three shapes a step can take: nothing changes, the block is
      appended, or the block at `k` is replaced by it. */
  lemma KeepShape(unique: seq<SubtitleBlock>, nb: SubtitleBlock) returns (k: int)
    ensures -1 <= k <= |unique|
    ensures k == -1 ==> Keep(unique, nb) == unique
    ensures k == |unique| ==> Keep(unique, nb) == unique + [nb]
    ensures 0 <= k < |unique| ==>
      Keep(unique, nb) == unique[k := nb] && Overlaps(nb.text, unique[k].text)
      && |unique[k].text| < |nb.text|
  {
    var c := nb.text;
    var seen := Texts(unique);
    k := -1;
    if c !in seen {
      match FirstOverlap(seen, c, 0)
      case None =>
        k := |unique|;
      case Some(j) =>
        if |c| > |seen[j]| {
          k := j;
        }
    }
  }

  /** A block whose cleaned text repeats a kept text, of any length, leaves
      the kept list unchanged. */
  lemma KeepRepeat(unique: seq<SubtitleBlock>, nb: SubtitleBlock)
    requires exists i | 0 <= i < |unique| :: unique[i].text == nb.text
    ensures Keep(unique, nb) == unique
  {
    InTexts(unique, nb.text);
  }

  /** Each step keeps every kept text clean. */
  lemma KeepClean(unique: seq<SubtitleBlock>, nb: SubtitleBlock)
    requires AllClean(unique) && IsCleanText(nb.text)
    ensures AllClean(Keep(unique, nb))
  {
    var k := KeepShape(unique, nb);
  }

  /** Each step keeps the kept texts pairwise different. */
  lemma KeepDistinct(unique: seq<SubtitleBlock>, nb: SubtitleBlock)
    requires DistinctTexts(unique)
    ensures DistinctTexts(Keep(unique, nb))
  {
    InTexts(unique, nb.text);
    var k := KeepShape(unique, nb);
    if 0 <= k <= |unique| {
      assert nb.text !in Texts(unique);
      assert forall i | 0 <= i < |unique| :: unique[i].text != nb.text;
    }
  }

  /** The input blocks, each with its text cleaned. */
  function CleanedBlocks(blocks: seq<SubtitleBlock>): (r: seq<SubtitleBlock>)
    ensures |r| == |blocks| && AllClean(r)
  {
    seq(|blocks|, j requires 0 <= j < |blocks| => Cleaned(blocks[j]))
  }

  /** The loop run over blocks whose texts are already cleaned. */
  function DedupOf(nbs: seq<SubtitleBlock>): (r: seq<SubtitleBlock>)
    ensures |r| <= |nbs|
    decreases |nbs|
  {
    if |nbs| == 0 then []
    else Keep(DedupOf(nbs[..|nbs| - 1]), nbs[|nbs| - 1])
  }

  /** What `deduplicate_blocks` returns: each block is cleaned as the loop
      reaches it, so this is the loop run over the cleaned blocks. */
  function Dedup(blocks: seq<SubtitleBlock>): (r: seq<SubtitleBlock>)
    ensures |r| <= |blocks|
  {
    DedupOf(CleanedBlocks(blocks))
  }

  /** One more block takes one more step. */
  lemma DedupOfStep(nbs: seq<SubtitleBlock>, n: nat)
    requires n < |nbs|
    ensures DedupOf(nbs[..n + 1]) == Keep(DedupOf(nbs[..n]), nbs[n])
  {
    assert nbs[..n + 1][..n] == nbs[..n];
  }

  /** Over clean blocks, the kept texts are clean and pairwise different. */
  lemma {:induction false} DedupOfInvariant(nbs: seq<SubtitleBlock>)
    requires AllClean(nbs)
    ensures AllClean(DedupOf(nbs)) && DistinctTexts(DedupOf(nbs))
    decreases |nbs|
  {
    if |nbs| > 0 {
      var u := DedupOf(nbs[..|nbs| - 1]);
      DedupOfInvariant(nbs[..|nbs| - 1]);
      KeepClean(u, nbs[|nbs| - 1]);
      KeepDistinct(u, nbs[|nbs| - 1]);
    }
  }

  /** The kept texts are clean and pairwise different. */
  lemma DedupInvariant(blocks: seq<SubtitleBlock>)
    ensures AllClean(Dedup(blocks)) && DistinctTexts(Dedup(blocks))
  {
    DedupOfInvariant(CleanedBlocks(blocks));
  }

  /** `deduplicate_blocks`, with the seen texts kept as a sequence parallel to
      the kept blocks. */
  method DeduplicateBlocks(blocks: seq<SubtitleBlock>) returns (unique: seq<SubtitleBlock>)
    ensures unique == Dedup(blocks)
  {
    ghost var cleaned := CleanedBlocks(blocks);
    var seen: seq<string> := [];
    unique := [];
    for n := 0 to |blocks|
      invariant unique == DedupOf(cleaned[..n])
      invariant seen == Texts(unique)
    {
      DedupOfStep(cleaned, n);
      DedupOfInvariant(cleaned[..n]);
      KeptLookupExact(unique);
      seen, unique := DedupBlock(seen, unique, blocks[n]);
    }
    assert cleaned[..|blocks|] == cleaned;
  }

  /** The body of the loop for one block. */
  method DedupBlock(seen: seq<string>, unique: seq<SubtitleBlock>, block: SubtitleBlock)
    returns (seen': seq<string>, unique': seq<SubtitleBlock>)
    requires LookupExact(unique) && seen == Texts(unique)
    ensures unique' == DedupStep(unique, block) && seen' == Texts(unique')
  {
    seen', unique' := seen, unique;
    var cleaned := CleanText(block.text);
    if cleaned in seen {
      return;
    }
    var k := ScanOverlap(seen, cleaned);
    if k == |seen| {
      assert FirstOverlap(seen, cleaned, 0) == None;
      seen' := seen + [cleaned];
      unique' := unique + [block.(text := cleaned)];
      TextsAppend(unique, block.(text := cleaned));
    } else if |cleaned| > |seen[k]| {
      assert FirstOverlap(seen, cleaned, 0) == Some(k);
      var superseded := seen[k];
      seen' := seen[k := cleaned];
      var i := FindKept(unique, superseded, k);
      unique' := unique[i := block.(text := cleaned)];
      TextsUpdate(unique, k, block.(text := cleaned));
    } else {
      assert FirstOverlap(seen, cleaned, 0) == Some(k);
    }
  }

  /** The scan of the seen texts for the first one that overlaps `cleaned`;
      `|seen|` when there is none. */
  method ScanOverlap(seen: seq<string>, cleaned: string) returns (k: nat)
    ensures k <= |seen|
    ensures FirstOverlap(seen, cleaned, 0) == if k == |seen| then None else Some(k)
  {
    k := 0;
    while k < |seen| && !Overlaps(cleaned, seen[k])
      invariant 0 <= k <= |seen|
      invariant FirstOverlap(seen, cleaned, 0) == FirstOverlap(seen, cleaned, k)
    {
      k := k + 1;
    }
  }

  /** The inner search for the kept block whose cleaned text is `t`. */
  method FindKept(unique: seq<SubtitleBlock>, t: string, k: nat) returns (i: nat)
    requires k < |unique|
    requires forall j | 0 <= j < |unique| :: CleanText(unique[j].text) == t <==> j == k
    ensures i == k
  {
    i := 0;
    while i < |unique| && CleanText(unique[i].text) != t
      invariant i <= k
    {
      i := i + 1;
    }
  }

  /** Looking a kept text up by its cleaned text finds exactly its own block. */
  predicate LookupExact(unique: seq<SubtitleBlock>) {
    forall j, k | 0 <= j < |unique| && 0 <= k < |unique| ::
      CleanText(unique[j].text) == unique[k].text <==> j == k
  }

  /** With clean, pairwise different kept texts, the lookup is exact. */
  lemma KeptLookupExact(unique: seq<SubtitleBlock>)
    requires AllClean(unique) && DistinctTexts(unique)
    ensures LookupExact(unique)
  {
    forall j, k | 0 <= j < |unique| && 0 <= k < |unique|
      ensures CleanText(unique[j].text) == unique[k].text <==> j == k
    {
      CleanTextFixpoint(unique[j].text);
    }
  }

  /** Each step keeps every earlier text inside some kept text, and the new
      block's text too. */
  lemma KeepCovers(unique: seq<SubtitleBlock>, nb: SubtitleBlock)
    ensures Covered(nb.text, Keep(unique, nb))
    ensures forall i | 0 <= i < |unique| :: Covered(unique[i].text, Keep(unique, nb))
  {
    var c := nb.text;
    var r := Keep(unique, nb);
    SubstringRefl(c);
    InTexts(unique, c);
    forall i | 0 <= i < |unique| ensures IsSubstring(unique[i].text, unique[i].text) {
      SubstringRefl(unique[i].text);
    }
    if c in Texts(unique) {
      var i :| 0 <= i < |unique| && unique[i].text == c;
      assert IsSubstring(c, r[i].text);
      assert forall i | 0 <= i < |unique| :: IsSubstring(unique[i].text, r[i].text);
    } else {
      match FirstOverlap(Texts(unique), c, 0)
      case None =>
        assert IsSubstring(c, r[|unique|].text);
        assert forall i | 0 <= i < |unique| :: IsSubstring(unique[i].text, r[i].text);
      case Some(k) =>
        assert Texts(unique)[k] == unique[k].text;
        if |c| > |unique[k].text| {
          OverlapLonger(c, unique[k].text);
          assert IsSubstring(c, r[k].text);
          forall i | 0 <= i < |unique| ensures IsSubstring(unique[i].text, r[i].text) {
            if i != k {
              assert r[i] == unique[i];
            }
          }
        } else {
          OverlapNotLonger(c, unique[k].text);
          assert IsSubstring(c, r[k].text);
          assert forall i | 0 <= i < |unique| :: IsSubstring(unique[i].text, r[i].text);
        }
    }
  }

  /** Each block after a step is the block before it or the new block. */
  lemma KeepFrom(unique: seq<SubtitleBlock>, nb: SubtitleBlock)
    ensures forall i | 0 <= i < |Keep(unique, nb)| ::
      (i < |unique| && Keep(unique, nb)[i] == unique[i]) || Keep(unique, nb)[i] == nb
  {
    var r := Keep(unique, nb);
    var k := KeepShape(unique, nb);
    forall i | 0 <= i < |r| ensures (i < |unique| && r[i] == unique[i]) || r[i] == nb {
      if i != k {
        assert i < |unique| && r[i] == unique[i];
      }
    }
  }

  /** Over cleaned blocks, every block's text lies inside some kept text. */
  lemma {:induction false} DedupOfCovers(nbs: seq<SubtitleBlock>)
    ensures forall j | 0 <= j < |nbs| :: Covered(nbs[j].text, DedupOf(nbs))
    decreases |nbs|
  {
    if |nbs| > 0 {
      var init := nbs[..|nbs| - 1];
      var u := DedupOf(init);
      var r := DedupOf(nbs);
      DedupOfCovers(init);
      KeepCovers(u, nbs[|nbs| - 1]);
      forall j | 0 <= j < |nbs| ensures Covered(nbs[j].text, r) {
        if j < |nbs| - 1 {
          var t := nbs[j].text;
          assert init[j] == nbs[j];
          var i :| 0 <= i < |u| && IsSubstring(t, u[i].text);
          var m :| 0 <= m < |r| && IsSubstring(u[i].text, r[m].text);
          SubstringTrans(t, u[i].text, r[m].text);
        }
      }
    }
  }

  /** No text is lost: the cleaned text of every input block lies inside the
      text of some kept block. */
  lemma DedupNoTextLost(blocks: seq<SubtitleBlock>)
    ensures forall j | 0 <= j < |blocks| :: Covered(CleanText(blocks[j].text), Dedup(blocks))
  {
    var cleaned := CleanedBlocks(blocks);
    DedupOfCovers(cleaned);
    forall j | 0 <= j < |blocks| ensures Covered(CleanText(blocks[j].text), Dedup(blocks)) {
      assert cleaned[j].text == CleanText(blocks[j].text);
    }
  }

  /** Over cleaned blocks, every kept block is one of them. */
  lemma {:induction false} DedupOfFrom(nbs: seq<SubtitleBlock>)
    ensures forall i | 0 <= i < |DedupOf(nbs)| :: DedupOf(nbs)[i] in nbs
    decreases |nbs|
  {
    if |nbs| > 0 {
      var init := nbs[..|nbs| - 1];
      var u := DedupOf(init);
      var r := DedupOf(nbs);
      DedupOfFrom(init);
      KeepFrom(u, nbs[|nbs| - 1]);
      forall i | 0 <= i < |r| ensures r[i] in nbs {
        if i < |u| && r[i] == u[i] {
          assert u[i] in init;
        }
      }
    }
  }

  /** Every kept block is an input block with its text cleaned. */
  lemma DedupProvenance(blocks: seq<SubtitleBlock>)
    ensures forall i | 0 <= i < |Dedup(blocks)| :: Dedup(blocks)[i] in CleanedBlocks(blocks)
  {
    DedupOfFrom(CleanedBlocks(blocks));
  }

  /** Nothing kept repeats or overlaps `c`. */
  predicate Novel(unique: seq<SubtitleBlock>, c: string) {
    forall i | 0 <= i < |unique| :: unique[i].text != c && !Overlaps(c, unique[i].text)
  }

  /** Whatever order the kept texts are scanned in, a block is appended exactly
      when its cleaned text neither repeats nor overlaps a kept text. */
  lemma KeepAppends(unique: seq<SubtitleBlock>, nb: SubtitleBlock)
    ensures |Keep(unique, nb)| == |unique| + 1 <==> Novel(unique, nb.text)
    ensures |Keep(unique, nb)| == |unique| + 1 ==> Keep(unique, nb) == unique + [nb]
  {
    var c := nb.text;
    var seen := Texts(unique);
    InTexts(unique, c);
    if c in seen {
      var i :| 0 <= i < |unique| && unique[i].text == c;
    } else {
      match FirstOverlap(seen, c, 0)
      case None =>
        assert forall i | 0 <= i < |unique| :: seen[i] == unique[i].text;
      case Some(k) =>
        assert seen[k] == unique[k].text;
    }
  }

  /** Otherwise at most one kept block changes, and only into the new block,
      whose text then strictly contains the old text, which had more than ten
      characters. */
  lemma KeepReplaces(unique: seq<SubtitleBlock>, nb: SubtitleBlock)
    ensures var r := Keep(unique, nb);
      |r| == |unique| ==> forall i | 0 <= i < |unique| ::
        r[i] == unique[i] ||
        (r[i] == nb && 10 < |unique[i].text| < |nb.text| && IsSubstring(unique[i].text, nb.text))
    ensures var r := Keep(unique, nb);
      |r| == |unique| ==> forall i, j | 0 <= i < j < |unique| :: r[i] == unique[i] || r[j] == unique[j]
  {
    var c := nb.text;
    var r := Keep(unique, nb);
    var k := KeepShape(unique, nb);
    if 0 <= k < |unique| {
      OverlapLonger(c, unique[k].text);
      forall i | 0 <= i < |unique|
        ensures r[i] == unique[i] || (r[i] == nb && 10 < |unique[i].text| < |c| && IsSubstring(unique[i].text, c))
      {
        if i != k {
          assert r[i] == unique[i];
        }
      }
      forall i, j | 0 <= i < j < |unique| ensures r[i] == unique[i] || r[j] == unique[j] {
        if i != k {
          assert r[i] == unique[i];
        } else {
          assert r[j] == unique[j];
        }
      }
    }
  }

  /** A cleaned text of at most ten characters is only ever dropped as an exact
      repeat, and a kept text of at most ten characters is never replaced. */
  lemma ShortTextsNeverMerged(unique: seq<SubtitleBlock>, nb: SubtitleBlock)
    ensures |nb.text| <= 10 ==> Keep(unique, nb) == if nb.text in Texts(unique) then unique else unique + [nb]
    ensures forall i | 0 <= i < |unique| && |unique[i].text| <= 10 :: Keep(unique, nb)[i] == unique[i]
  {
    var c := nb.text;
    var seen := Texts(unique);
    var r := Keep(unique, nb);
    var k := KeepShape(unique, nb);
    if c !in seen && |c| <= 10 {
      assert FirstOverlap(seen, c, 0) == None;
    }
    forall i | 0 <= i < |unique| && |unique[i].text| <= 10 ensures r[i] == unique[i] {
      if i == k {
        assert Overlaps(c, unique[k].text);
      }
    }
  }
}
