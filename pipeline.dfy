/** `process_transcript` after the file is read and before it is written:
    parse the caption file, clean and deduplicate the cues, group them into
    paragraphs with the default 30-second window, and lay the paragraphs out
    as Markdown.
 */
module Pipeline {
  import opened Options
  import opened Text
  import opened Timestamps
  import opened Blocks
  import opened TagStripper
  import opened VttParser
  import opened Dedup
  import opened Paragraphs
  import opened Markdown

  /** The counts of the statistics record; the file sizes are left to the caller. */
  datatype Stats = Stats(originalBlocks: nat, uniqueBlocks: nat, paragraphs: nat)

  /** The cues, the kept cues, and the paragraphs of a caption file. */
  function UniqueOf(content: string): seq<SubtitleBlock> {
    Dedup.Dedup(ParseContent(content))
  }

  function ParagraphsFor(content: string): seq<Paragraph> {
    GroupSpec(UniqueOf(content), DefaultWindowMs)
  }

  /** The Markdown `process_transcript` writes for a caption file. */
  function TranscriptMarkdown(content: string, title: string): string {
    MarkdownOf(ParagraphsFor(content), title)
  }

  /** `process_transcript`: the four stages in order, and the block and
      paragraph counts of the statistics. */
  method ProcessTranscript(content: string, title: string) returns (markdown: string, stats: Stats)
    ensures markdown == TranscriptMarkdown(content, title)
    ensures stats == Stats(|ParseContent(content)|, |UniqueOf(content)|, |ParagraphsFor(content)|)
  {
    var blocks := ParseVtt(content);
    var originalCount := |blocks|;
    var unique := DeduplicateBlocks(blocks);
    var uniqueCount := |unique|;
    var paragraphs := GroupIntoParagraphs(unique, DefaultWindowMs);
    markdown := CreateMarkdownOutput(paragraphs, title);
    stats := Stats(originalCount, uniqueCount, |paragraphs|);
  }

  /** Deduplication never adds blocks, grouping never makes more paragraphs
      than blocks, and there is a paragraph exactly when a block survives. */
  lemma StatsBounds(content: string)
    ensures |UniqueOf(content)| <= |ParseContent(content)|
    ensures |ParagraphsFor(content)| <= |UniqueOf(content)|
    ensures |ParagraphsFor(content)| == 0 <==> |UniqueOf(content)| == 0
  {
    ParagraphCount(UniqueOf(content), DefaultWindowMs);
  }

  /** Clean text is single-spaced, so it has no line break. */
  lemma CleanHasNoNewline(s: string)
    requires IsCleanText(s)
    ensures '\n' !in s
  {
    if '\n' in s {
      var i :| 0 <= i < |s| && s[i] == '\n';
      SingleSpacedAt(s, i);
    }
  }

  /** `HH:MM:SS` has no line break and no space. */
  lemma TimeHasNoBreak(ms: nat)
    ensures '\n' !in SecondsToTime(ms) && ' ' !in SecondsToTime(ms)
  {
  }

  /** A block of a run is one of the blocks. */
  lemma {:induction false} RunMember(runs: seq<seq<SubtitleBlock>>, k: nat, j: nat)
    requires k < |runs| && j < |runs[k]|
    ensures runs[k][j] in Flatten(runs)
    decreases |runs|
  {
    var front := runs[..|runs| - 1];
    assert Flatten(runs) == Flatten(front) + runs[|runs| - 1];
    if k < |runs| - 1 {
      RunMember(front, k, j);
    }
  }

  /** The paragraphs of blocks whose texts have no line break can be read back. */
  lemma GroupReadable(blocks: seq<SubtitleBlock>, w: int)
    requires forall i | 0 <= i < |blocks| :: '\n' !in blocks[i].text
    ensures forall k | 0 <= k < |GroupSpec(blocks, w)| :: Readable(GroupSpec(blocks, w)[k])
  {
    var runs := Runs(blocks, w);
    RunsNonEmpty(blocks, w);
    RunsPartition(blocks, w);
    forall k | 0 <= k < |runs| ensures Readable(ParagraphOf(runs[k])) {
      var run := runs[k];
      TimeHasNoBreak(run[0].startMs);
      TimeHasNoBreak(run[|run| - 1].endMs);
      forall j | 0 <= j < |Texts(run)| ensures '\n' !in Texts(run)[j] {
        RunMember(runs, k, j);
      }
      JoinAvoids(Texts(run), " ", '\n');
    }
  }

  /** The kept texts are clean, so none has a line break. */
  lemma UniqueHasNoNewline(content: string)
    ensures forall i | 0 <= i < |UniqueOf(content)| :: '\n' !in UniqueOf(content)[i].text
  {
    var unique := UniqueOf(content);
    DedupInvariant(ParseContent(content));
    forall i | 0 <= i < |unique| ensures '\n' !in unique[i].text {
      CleanHasNoNewline(unique[i].text);
    }
  }

  /** Whatever the caption file, the Markdown written for it reads back as the
      title and the paragraphs, provided the title is a single line. */
  lemma TranscriptRoundTrip(content: string, title: string)
    requires '\n' !in title
    ensures ParseMarkdown(TranscriptMarkdown(content, title)) == Some(Document(title, ParagraphsFor(content)))
  {
    UniqueHasNoNewline(content);
    GroupReadable(UniqueOf(content), DefaultWindowMs);
    MarkdownRoundTrip(ParagraphsFor(content), title);
  }
}
