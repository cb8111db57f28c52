/** The cleaner's two records: a parsed caption cue and a grouped paragraph. */
module Blocks {

  /** `SubtitleBlock`: the two captured timestamps as text, the cue text, and
      the two timestamps' values (whole milliseconds instead of float seconds). */
  datatype SubtitleBlock = SubtitleBlock(
    startTime: string,
    endTime: string,
    text: string,
    startMs: nat,
    endMs: nat)

  /** The `(start, end, text)` triple `group_into_paragraphs` emits. */
  datatype Paragraph = Paragraph(start: string, end: string, text: string)

  function Texts(blocks: seq<SubtitleBlock>): seq<string> {
    seq(|blocks|, i requires 0 <= i < |blocks| => blocks[i].text)
  }

  lemma TextsAppend(blocks: seq<SubtitleBlock>, b: SubtitleBlock)
    ensures Texts(blocks + [b]) == Texts(blocks) + [b.text]
  {
  }

  lemma TextsUpdate(blocks: seq<SubtitleBlock>, k: nat, b: SubtitleBlock)
    requires k < |blocks|
    ensures Texts(blocks[k := b]) == Texts(blocks)[k := b.text]
  {
  }
}
