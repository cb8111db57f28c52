/** `group_into_paragraphs`: cut the block list into runs of consecutive
    blocks, a new run starting whenever a block starts more than the window
    after the first block of the current run.
 */
module Paragraphs {
  import opened Text
  import opened Timestamps
  import opened Blocks

  /** The default window of 30 seconds, in milliseconds. */
  const DefaultWindowMs := 30_000

  /** The blocks of consecutive runs, one after another. */
  function Flatten(runs: seq<seq<SubtitleBlock>>): seq<SubtitleBlock>
    decreases |runs|
  {
    if |runs| == 0 then [] else Flatten(runs[..|runs| - 1]) + runs[|runs| - 1]
  }

  predicate NonEmptyRuns(runs: seq<seq<SubtitleBlock>>) {
    forall k | 0 <= k < |runs| :: |runs[k]| > 0
  }

  /** Every block of a run starts at most `w` after the run's first block. */
  predicate WithinWindow(runs: seq<seq<SubtitleBlock>>, w: int) {
    forall k, i | 0 <= k < |runs| && 0 < i < |runs[k]| :: runs[k][i].startMs - runs[k][0].startMs <= w
  }

  /** Every run after the first starts more than `w` after the previous run's first block. */
  predicate SplitsBeyondWindow(runs: seq<seq<SubtitleBlock>>, w: int) {
    forall k | 0 < k < |runs| && |runs[k]| > 0 && |runs[k - 1]| > 0 ::
      runs[k][0].startMs - runs[k - 1][0].startMs > w
  }

  /** One iteration of the loop: the block joins the current run when it starts
      at most `w` after the run's first block, and starts a new run otherwise. */
  function AddBlock(runs: seq<seq<SubtitleBlock>>, b: SubtitleBlock, w: int): (r: seq<seq<SubtitleBlock>>)
    ensures |r| == |runs| || |r| == |runs| + 1
  {
    if |runs| > 0 && |runs[|runs| - 1]| > 0 && b.startMs - runs[|runs| - 1][0].startMs <= w then
      runs[..|runs| - 1] + [runs[|runs| - 1] + [b]]
    else
      runs + [[b]]
  }

  /** The runs the loop of `group_into_paragraphs` builds. */
  function Runs(blocks: seq<SubtitleBlock>, w: int): (runs: seq<seq<SubtitleBlock>>)
    ensures |runs| <= |blocks|
    ensures |blocks| > 0 <==> |runs| > 0
    decreases |blocks|
  {
    if |blocks| == 0 then []
    else AddBlock(Runs(blocks[..|blocks| - 1], w), blocks[|blocks| - 1], w)
  }

  lemma AddBlockNonEmpty(runs: seq<seq<SubtitleBlock>>, b: SubtitleBlock, w: int)
    requires NonEmptyRuns(runs)
    ensures NonEmptyRuns(AddBlock(runs, b, w))
  {
    var r := AddBlock(runs, b, w);
    forall k | 0 <= k < |r| ensures |r[k]| > 0 {
      if k < |runs| - 1 {
        assert r[k] == runs[k];
      }
    }
  }

  /** Every run is non-empty. */
  lemma {:induction false} RunsNonEmpty(blocks: seq<SubtitleBlock>, w: int)
    ensures NonEmptyRuns(Runs(blocks, w))
    decreases |blocks|
  {
    if |blocks| > 0 {
      RunsNonEmpty(blocks[..|blocks| - 1], w);
      AddBlockNonEmpty(Runs(blocks[..|blocks| - 1], w), blocks[|blocks| - 1], w);
    }
  }

  /** The `(start, end, text)` triple of one run: the first block's start and
      the last block's end as `HH:MM:SS`, and the texts joined by spaces. */
  function ParagraphOf(run: seq<SubtitleBlock>): Paragraph
    requires |run| > 0
  {
    Paragraph(SecondsToTime(run[0].startMs), SecondsToTime(run[|run| - 1].endMs), Join(Texts(run), " "))
  }

  /** The triples of the runs, in order. */
  function ParagraphsOf(runs: seq<seq<SubtitleBlock>>): seq<Paragraph>
    requires NonEmptyRuns(runs)
  {
    seq(|runs|, k requires 0 <= k < |runs| && NonEmptyRuns(runs) => ParagraphOf(runs[k]))
  }

  /** What `group_into_paragraphs` returns. */
  function GroupSpec(blocks: seq<SubtitleBlock>, w: int): seq<Paragraph> {
    RunsNonEmpty(blocks, w);
    ParagraphsOf(Runs(blocks, w))
  }

  /** `group_into_paragraphs`; the window is in milliseconds. */
  method GroupIntoParagraphs(blocks: seq<SubtitleBlock>, windowMs: int) returns (paragraphs: seq<Paragraph>)
    ensures paragraphs == GroupSpec(blocks, windowMs)
  {
    if |blocks| == 0 {
      return [];
    }
    paragraphs := [];
    var current: seq<SubtitleBlock> := [];
    var paragraphStart := blocks[0].startMs;
    ghost var done: seq<seq<SubtitleBlock>> := [];
    for n := 0 to |blocks|
      invariant NonEmptyRuns(done)
      invariant n == 0 ==> current == [] && done == [] && paragraphStart == blocks[0].startMs
      invariant n > 0 ==> |current| > 0 && paragraphStart == current[0].startMs
      invariant n > 0 ==> done + [current] == Runs(blocks[..n], windowMs)
      invariant paragraphs == ParagraphsOf(done)
    {
      var block := blocks[n];
      if block.startMs - paragraphStart > windowMs && |current| > 0 {
        paragraphs := SaveParagraph(paragraphs, done, current);
        RunsSplit(blocks, n, windowMs, done, current);
        done := done + [current];
        current := [block];
        paragraphStart := block.startMs;
      } else {
        if n > 0 {
          RunsJoin(blocks, n, windowMs, done, current);
        } else {
          RunsFirst(blocks, windowMs);
          assert done == [] && current + [block] == [block];
        }
        current := current + [block];
      }
    }
    assert blocks[..|blocks|] == blocks;
    if |current| > 0 {
      paragraphs := SaveParagraph(paragraphs, done, current);
    }
  }

  /** Appends the triple of a finished run: its first block's start, its last
      block's end, and its texts joined by single spaces. */
  method SaveParagraph(paragraphs: seq<Paragraph>, ghost done: seq<seq<SubtitleBlock>>, current: seq<SubtitleBlock>)
    returns (ps: seq<Paragraph>)
    requires NonEmptyRuns(done) && paragraphs == ParagraphsOf(done) && |current| > 0
    ensures NonEmptyRuns(done + [current]) && ps == ParagraphsOf(done + [current])
  {
    ps := paragraphs + [ParagraphOf(current)];
    ParagraphsOfSnoc(done, current);
  }

  lemma RunsFirst(blocks: seq<SubtitleBlock>, w: int)
    requires |blocks| > 0
    ensures Runs(blocks[..1], w) == [[blocks[0]]]
  {
    assert blocks[..1][..0] == [];
  }

  /** A block beyond the window of the current run starts a new run. */
  lemma RunsSplit(blocks: seq<SubtitleBlock>, n: nat, w: int, done: seq<seq<SubtitleBlock>>, current: seq<SubtitleBlock>)
    requires n < |blocks| && |current| > 0 && done + [current] == Runs(blocks[..n], w)
    requires blocks[n].startMs - current[0].startMs > w
    ensures done + [current] + [[blocks[n]]] == Runs(blocks[..n + 1], w)
  {
    assert blocks[..n + 1][..n] == blocks[..n];
    AddBlockSplits(done, current, blocks[n], w);
  }

  /** A block within the window of the current run joins it. */
  lemma RunsJoin(blocks: seq<SubtitleBlock>, n: nat, w: int, done: seq<seq<SubtitleBlock>>, current: seq<SubtitleBlock>)
    requires n < |blocks| && |current| > 0 && done + [current] == Runs(blocks[..n], w)
    requires blocks[n].startMs - current[0].startMs <= w
    ensures done + [current + [blocks[n]]] == Runs(blocks[..n + 1], w)
  {
    assert blocks[..n + 1][..n] == blocks[..n];
    AddBlockJoins(done, current, blocks[n], w);
  }

  lemma AddBlockSplits(done: seq<seq<SubtitleBlock>>, current: seq<SubtitleBlock>, b: SubtitleBlock, w: int)
    requires |current| > 0 && b.startMs - current[0].startMs > w
    ensures AddBlock(done + [current], b, w) == (done + [current]) + [[b]]
  {
  }

  lemma AddBlockJoins(done: seq<seq<SubtitleBlock>>, current: seq<SubtitleBlock>, b: SubtitleBlock, w: int)
    requires |current| > 0 && b.startMs - current[0].startMs <= w
    ensures AddBlock(done + [current], b, w) == done + [current + [b]]
  {
    assert (done + [current])[..|done|] == done;
  }

  lemma ParagraphsOfSnoc(runs: seq<seq<SubtitleBlock>>, run: seq<SubtitleBlock>)
    requires NonEmptyRuns(runs) && |run| > 0
    ensures NonEmptyRuns(runs + [run])
    ensures ParagraphsOf(runs + [run]) == ParagraphsOf(runs) + [ParagraphOf(run)]
  {
  }

  lemma FlattenSnoc(runs: seq<seq<SubtitleBlock>>, run: seq<SubtitleBlock>)
    ensures Flatten(runs + [run]) == Flatten(runs) + run
  {
    assert (runs + [run])[..|runs|] == runs;
  }

  lemma AddBlockFlatten(runs: seq<seq<SubtitleBlock>>, b: SubtitleBlock, w: int)
    ensures Flatten(AddBlock(runs, b, w)) == Flatten(runs) + [b]
  {
    if |runs| > 0 && |runs[|runs| - 1]| > 0 && b.startMs - runs[|runs| - 1][0].startMs <= w {
      var front := runs[..|runs| - 1];
      var last := runs[|runs| - 1];
      assert runs == front + [last];
      FlattenSnoc(front, last);
      FlattenSnoc(front, last + [b]);
    } else {
      FlattenSnoc(runs, [b]);
    }
  }

  /** The runs are a partition of the blocks: read one after another they are
      the blocks, in order, each block exactly once. */
  lemma {:induction false} RunsPartition(blocks: seq<SubtitleBlock>, w: int)
    ensures Flatten(Runs(blocks, w)) == blocks
    decreases |blocks|
  {
    if |blocks| > 0 {
      var init := blocks[..|blocks| - 1];
      RunsPartition(init, w);
      AddBlockFlatten(Runs(init, w), blocks[|blocks| - 1], w);
      assert blocks == init + [blocks[|blocks| - 1]];
    }
  }

  lemma AddBlockWindow(runs: seq<seq<SubtitleBlock>>, b: SubtitleBlock, w: int)
    requires NonEmptyRuns(runs) && WithinWindow(runs, w) && SplitsBeyondWindow(runs, w)
    ensures WithinWindow(AddBlock(runs, b, w), w) && SplitsBeyondWindow(AddBlock(runs, b, w), w)
  {
    var r := AddBlock(runs, b, w);
    if |runs| > 0 && b.startMs - runs[|runs| - 1][0].startMs <= w {
      assert forall k | 0 <= k < |runs| - 1 :: r[k] == runs[k];
      assert r[|runs| - 1] == runs[|runs| - 1] + [b];
    } else {
      assert forall k | 0 <= k < |runs| :: r[k] == runs[k];
    }
  }

  /** Every block joins its paragraph within the window of the paragraph's first
      block, and every new paragraph starts beyond the window of the previous one. */
  lemma {:induction false} RunsRespectWindow(blocks: seq<SubtitleBlock>, w: int)
    ensures WithinWindow(Runs(blocks, w), w)
    ensures SplitsBeyondWindow(Runs(blocks, w), w)
    decreases |blocks|
  {
    if |blocks| > 0 {
      var init := blocks[..|blocks| - 1];
      RunsRespectWindow(init, w);
      RunsNonEmpty(init, w);
      AddBlockWindow(Runs(init, w), blocks[|blocks| - 1], w);
    }
  }

  /** Dropping the last run keeps a partition's properties. */
  lemma DropLastRun(parts: seq<seq<SubtitleBlock>>, w: int)
    requires |parts| > 0
    requires NonEmptyRuns(parts) && WithinWindow(parts, w) && SplitsBeyondWindow(parts, w)
    ensures var front := parts[..|parts| - 1];
      NonEmptyRuns(front) && WithinWindow(front, w) && SplitsBeyondWindow(front, w)
  {
    var front := parts[..|parts| - 1];
    assert forall k | 0 <= k < |front| :: front[k] == parts[k];
  }

  /** Dropping the last block of a longer last run keeps a partition's properties. */
  lemma DropLastBlock(parts: seq<seq<SubtitleBlock>>, w: int)
    requires |parts| > 0 && |parts[|parts| - 1]| > 1
    requires NonEmptyRuns(parts) && WithinWindow(parts, w) && SplitsBeyondWindow(parts, w)
    ensures var last := parts[|parts| - 1];
      var parts' := parts[..|parts| - 1] + [last[..|last| - 1]];
      NonEmptyRuns(parts') && WithinWindow(parts', w) && SplitsBeyondWindow(parts', w)
  {
    var last := parts[|parts| - 1];
    var shorter := last[..|last| - 1];
    var parts' := parts[..|parts| - 1] + [shorter];
    assert forall k | 0 <= k < |parts| - 1 :: parts'[k] == parts[k];
    assert parts'[|parts| - 1] == shorter;
    assert forall i | 0 <= i < |shorter| :: shorter[i] == last[i];
  }

  /** The runs are the only partition of the blocks into non-empty runs that
      keeps each run within the window and splits only beyond it. */
  lemma {:induction false} RunsUnique(blocks: seq<SubtitleBlock>, w: int, parts: seq<seq<SubtitleBlock>>)
    requires NonEmptyRuns(parts) && Flatten(parts) == blocks
    requires WithinWindow(parts, w) && SplitsBeyondWindow(parts, w)
    ensures parts == Runs(blocks, w)
    decreases |blocks|
  {
    if |parts| == 0 {
      assert blocks == [];
    } else {
      var front := parts[..|parts| - 1];
      var last := parts[|parts| - 1];
      var b := last[|last| - 1];
      var init := blocks[..|blocks| - 1];
      LastBlockOfPartition(blocks, parts);
      if |last| == 1 {
        DropLastRun(parts, w);
        RunsUnique(init, w, front);
        NewRunBeyondWindow(parts, w);
      } else {
        var parts' := front + [last[..|last| - 1]];
        DropLastBlock(parts, w);
        RunsUnique(init, w, parts');
        JoinWithinWindow(parts, w);
      }
    }
  }

  /** The last block of a partition is the last block of its last run, and
      the blocks before it are the partition with that block removed. */
  lemma LastBlockOfPartition(blocks: seq<SubtitleBlock>, parts: seq<seq<SubtitleBlock>>)
    requires |parts| > 0 && NonEmptyRuns(parts) && Flatten(parts) == blocks
    ensures var front := parts[..|parts| - 1];
      var last := parts[|parts| - 1];
      |blocks| > 0 && blocks[|blocks| - 1] == last[|last| - 1] &&
      (|last| == 1 ==> blocks[..|blocks| - 1] == Flatten(front)) &&
      (|last| > 1 ==> blocks[..|blocks| - 1] == Flatten(front + [last[..|last| - 1]]))
  {
    var front := parts[..|parts| - 1];
    var last := parts[|parts| - 1];
    assert |last| > 0;
    assert parts == front + [last];
    FlattenSnoc(front, last);
    if |last| > 1 {
      var shorter := last[..|last| - 1];
      FlattenSnoc(front, shorter);
      assert last == shorter + [last[|last| - 1]];
    }
  }

  /** A last run of one block starts beyond the window of the run before it,
      so the loop starts a new run for it. */
  lemma NewRunBeyondWindow(parts: seq<seq<SubtitleBlock>>, w: int)
    requires |parts| > 0 && |parts[|parts| - 1]| == 1
    requires NonEmptyRuns(parts) && SplitsBeyondWindow(parts, w)
    ensures var front := parts[..|parts| - 1];
      AddBlock(front, parts[|parts| - 1][0], w) == parts
  {
    var front := parts[..|parts| - 1];
    var last := parts[|parts| - 1];
    assert last == [last[0]];
    assert parts == front + [last];
  }

  /** The last block of a longer last run lies within the window of that run,
      so the loop adds it to the run. */
  lemma JoinWithinWindow(parts: seq<seq<SubtitleBlock>>, w: int)
    requires |parts| > 0 && |parts[|parts| - 1]| > 1
    requires WithinWindow(parts, w)
    ensures var last := parts[|parts| - 1];
      AddBlock(parts[..|parts| - 1] + [last[..|last| - 1]], last[|last| - 1], w) == parts
  {
    var front := parts[..|parts| - 1];
    var last := parts[|parts| - 1];
    var shorter := last[..|last| - 1];
    var parts' := front + [shorter];
    assert parts'[..|parts'| - 1] == front;
    assert shorter + [last[|last| - 1]] == last;
    assert parts == front + [last];
  }

  /** There is a paragraph exactly when there is a block, and never more
      paragraphs than blocks. */
  lemma ParagraphCount(blocks: seq<SubtitleBlock>, w: int)
    ensures |GroupSpec(blocks, w)| <= |blocks|
    ensures |GroupSpec(blocks, w)| == 0 <==> |blocks| == 0
  {
  }

  function ParagraphTexts(ps: seq<Paragraph>): seq<string> {
    seq(|ps|, i requires 0 <= i < |ps| => ps[i].text)
  }

  lemma TextsAppendAll(a: seq<SubtitleBlock>, b: seq<SubtitleBlock>)
    ensures Texts(a + b) == Texts(a) + Texts(b)
  {
  }

  lemma {:induction false} FlattenNonEmpty(runs: seq<seq<SubtitleBlock>>)
    requires NonEmptyRuns(runs) && |runs| > 0
    ensures |Flatten(runs)| >= |runs|
    decreases |runs|
  {
    if |runs| > 1 {
      FlattenNonEmpty(runs[..|runs| - 1]);
    }
  }

  /** Joining the paragraph texts with single spaces gives the block texts
      joined with single spaces. */
  lemma {:induction false} ParagraphTextsJoin(runs: seq<seq<SubtitleBlock>>)
    requires NonEmptyRuns(runs) && |runs| > 0
    ensures Join(ParagraphTexts(ParagraphsOf(runs)), " ") == Join(Texts(Flatten(runs)), " ")
    decreases |runs|
  {
    var last := runs[|runs| - 1];
    var front := runs[..|runs| - 1];
    var lastText := Join(Texts(last), " ");
    assert runs == front + [last];
    FlattenSnoc(front, last);
    assert ParagraphTexts(ParagraphsOf(runs)) == ParagraphTexts(ParagraphsOf(front)) + [lastText];
    if |runs| == 1 {
      assert Flatten(runs) == last;
    } else {
      ParagraphTextsJoin(front);
      JoinAppend(ParagraphTexts(ParagraphsOf(front)), [lastText], " ");
      TextsAppendAll(Flatten(front), last);
      FlattenNonEmpty(front);
      JoinAppend(Texts(Flatten(front)), Texts(last), " ");
    }
  }

  /** Grouping keeps all the text, in order: the paragraph texts joined by
      spaces are the block texts joined by spaces. */
  lemma GroupKeepsText(blocks: seq<SubtitleBlock>, w: int)
    ensures Join(ParagraphTexts(GroupSpec(blocks, w)), " ") == Join(Texts(blocks), " ")
  {
    if |blocks| > 0 {
      RunsNonEmpty(blocks, w);
      RunsPartition(blocks, w);
      ParagraphTextsJoin(Runs(blocks, w));
    }
  }
}
