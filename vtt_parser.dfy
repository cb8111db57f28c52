/** `parse_vtt_file` on the file's content: split into chunks on blank lines,
    find the first timing line of each chunk, and keep the text lines after it.
 */
module VttParser {
  import opened Options
  import opened Text
  import opened Timestamps
  import opened Blocks

  /** The two captures of `(\d{2}:\d{2}:\d{2}\.\d{3})\s*-->\s*(\d{2}:\d{2}:\d{2}\.\d{3})`. */
  datatype Timing = Timing(start: string, end: string)

  /** The end of the whitespace run of `s` that starts at `i`. */
  function SkipSpaces(s: string, i: nat): (j: nat)
    requires i <= |s|
    ensures i <= j <= |s|
    decreases |s| - i
  {
    if i < |s| && IsSpace(s[i]) then SkipSpaces(s, i + 1) else i
  }

  /** Every character of `s` from `i` up to `j` is whitespace. */
  ghost predicate SpacesBetween(s: string, i: nat, j: nat)
    decreases j - i
  {
    j <= |s| && (i < j ==> IsSpace(s[i]) && SpacesBetween(s, i + 1, j))
  }

  /** `\s*` is greedy: everything skipped is whitespace and what follows is not. */
  lemma {:induction false} SkipSpacesGreedy(s: string, i: nat)
    requires i <= |s|
    ensures SpacesBetween(s, i, SkipSpaces(s, i))
    ensures SkipSpaces(s, i) == |s| || !IsSpace(s[SkipSpaces(s, i)])
    decreases |s| - i
  {
    if i < |s| && IsSpace(s[i]) {
      SkipSpacesGreedy(s, i + 1);
    }
  }

  /** The timing pattern tried at index `p` of `line`.  Each `\s*` is greedy and
      is followed by a character that is not whitespace (`-` or a digit), so the
      match at `p`, if any, is the one that takes the whole whitespace run. */
  function MatchTimingAt(line: string, p: nat): (r: Option<Timing>)
    ensures r.Some? ==> p + 12 <= |line| && r.value.start == line[p..p + 12]
    ensures r.Some? ==> IsTimestamp(r.value.start) && IsTimestamp(r.value.end)
  {
    if p + 12 <= |line| && IsTimestamp(line[p..p + 12]) then
      var q := SkipSpaces(line, p + 12);
      if q + 3 <= |line| && line[q..q + 3] == "-->" then
        var e := SkipSpaces(line, q + 3);
        if e + 12 <= |line| && IsTimestamp(line[e..e + 12]) then
          Some(Timing(line[p..p + 12], line[e..e + 12]))
        else None
      else None
    else None
  }

  /** The pattern laid over `line` from `p`: a timestamp at `p`, whitespace up
      to `q`, `-->` at `q`, whitespace up to `e`, and a timestamp at `e`. */
  ghost predicate TimingShape(line: string, p: nat, q: nat, e: nat) {
    && p + 12 <= q && q + 3 <= e && e + 12 <= |line|
    && IsTimestamp(line[p..p + 12])
    && SpacesBetween(line, p + 12, q)
    && line[q..q + 3] == "-->"
    && SpacesBetween(line, q + 3, e)
    && IsTimestamp(line[e..e + 12])
  }

  /** A whitespace run from `i` that stops at `j` ends at `j`. */
  lemma {:induction false} SkipSpacesTo(s: string, i: nat, j: nat)
    requires i <= j < |s| && !IsSpace(s[j])
    requires SpacesBetween(s, i, j)
    ensures SkipSpaces(s, i) == j
    decreases j - i
  {
    if i < j {
      SkipSpacesTo(s, i + 1, j);
    }
  }

  /** Whenever the pattern can be laid over `line` from `p`, the match at `p`
      succeeds, with that layout and the two timestamps as its captures. */
  lemma MatchTimingFromShape(line: string, p: nat, q: nat, e: nat)
    requires TimingShape(line, p, q, e)
    ensures q == SkipSpaces(line, p + 12) && e == SkipSpaces(line, q + 3)
    ensures MatchTimingAt(line, p) == Some(Timing(line[p..p + 12], line[e..e + 12]))
  {
    assert line[q] == line[q..q + 3][0] == '-';
    SkipSpacesTo(line, p + 12, q);
    assert line[e] == line[e..e + 12][0];
    SkipSpacesTo(line, q + 3, e);
  }

  /** A match at `p` has that layout, its whitespace runs taken whole. */
  lemma MatchTimingHasShape(line: string, p: nat)
    requires MatchTimingAt(line, p).Some?
    ensures var q := SkipSpaces(line, p + 12); var e := SkipSpaces(line, q + 3);
      && TimingShape(line, p, q, e)
      && MatchTimingAt(line, p) == Some(Timing(line[p..p + 12], line[e..e + 12]))
  {
    var q := SkipSpaces(line, p + 12);
    var e := SkipSpaces(line, q + 3);
    SkipSpacesGreedy(line, p + 12);
    SkipSpacesGreedy(line, q + 3);
    ShapeOfParts(line, p, q, e);
    MatchTimingFromShape(line, p, q, e);
  }

  /** The pieces of the layout, put together. */
  lemma ShapeOfParts(line: string, p: nat, q: nat, e: nat)
    requires p + 12 <= q && q + 3 <= e && e + 12 <= |line|
    requires IsTimestamp(line[p..p + 12]) && line[q..q + 3] == "-->" && IsTimestamp(line[e..e + 12])
    requires SpacesBetween(line, p + 12, q) && SpacesBetween(line, q + 3, e)
    ensures TimingShape(line, p, q, e)
  {
  }

  /** The leftmost match at or after `p`. */
  function SearchTimingFrom(line: string, p: nat): (r: Option<Timing>)
    requires p <= |line|
    ensures r.Some? ==> IsTimestamp(r.value.start) && IsTimestamp(r.value.end)
    decreases |line| - p
  {
    if MatchTimingAt(line, p).Some? then MatchTimingAt(line, p)
    else if p == |line| then None
    else SearchTimingFrom(line, p + 1)
  }

  /** A search that finds something finds the leftmost position where the
      pattern matches. */
  lemma {:induction false} SearchTimingLeftmost(line: string, p: nat)
    requires p <= |line|
    ensures SearchTimingFrom(line, p).Some? ==> exists k | p <= k <= |line| ::
      MatchTimingAt(line, k) == SearchTimingFrom(line, p) && forall j | p <= j < k :: MatchTimingAt(line, j).None?
    decreases |line| - p
  {
    if MatchTimingAt(line, p).None? && p < |line| && SearchTimingFrom(line, p + 1).Some? {
      SearchTimingLeftmost(line, p + 1);
      var k :| p + 1 <= k <= |line| && MatchTimingAt(line, k) == SearchTimingFrom(line, p + 1)
        && forall j | p + 1 <= j < k :: MatchTimingAt(line, j).None?;
      assert forall j | p <= j < k :: MatchTimingAt(line, j).None?;
    }
  }

  /** A search finds nothing only when the pattern matches nowhere. */
  lemma {:induction false} SearchTimingMissing(line: string, p: nat)
    requires p <= |line|
    ensures SearchTimingFrom(line, p).None? ==> forall k | p <= k <= |line| :: MatchTimingAt(line, k).None?
    decreases |line| - p
  {
    if MatchTimingAt(line, p).None? && p < |line| {
      SearchTimingMissing(line, p + 1);
    }
  }

  /** `re.search(timestamp_pattern, line)`: the leftmost match, if there is one. */
  function SearchTiming(line: string): (r: Option<Timing>)
    ensures r.Some? ==> IsTimestamp(r.value.start) && IsTimestamp(r.value.end)
  {
    SearchTimingFrom(line, 0)
  }

  const PositionSuffix := "position:0%"

  /** A cue-settings line that the parser treats as metadata. */
  predicate IsPositionLine(line: string) {
    EndsWith(Strip(line), PositionSuffix)
  }

  /** The lines of `lines` that are not position lines, in order. */
  function KeptLines(lines: seq<string>): (kept: seq<string>)
    ensures |kept| <= |lines|
    decreases |lines|
  {
    if |lines| == 0 then []
    else
      var init := lines[..|lines| - 1];
      var last := lines[|lines| - 1];
      assert lines == init + [last];
      KeptLines(init) + (if IsPositionLine(last) then [] else [last])
  }

  /** `block.strip().split('\n')`; never empty, so the source's `if not lines` never fires. */
  function ChunkLines(chunk: string): (lines: seq<string>)
    ensures |lines| > 0
  {
    SplitOn(Strip(chunk), "\n")
  }

  /** The index and captures of the first line at or after `from` that carries a timing. */
  function FirstTimingLine(lines: seq<string>, from: nat): (r: Option<(nat, Timing)>)
    requires from <= |lines|
    ensures r.Some? ==> from <= r.value.0 < |lines| && SearchTiming(lines[r.value.0]) == Some(r.value.1)
    decreases |lines| - from
  {
    if from == |lines| then None
    else match SearchTiming(lines[from])
      case Some(t) => Some((from, t))
      case None => FirstTimingLine(lines, from + 1)
  }

  /** No line before the one found carries a timing, and none is found only
      when no line carries one. */
  lemma {:induction false} FirstTimingLineFirst(lines: seq<string>, from: nat)
    requires from <= |lines|
    ensures var r := FirstTimingLine(lines, from);
      r.Some? ==> forall k | from <= k < r.value.0 :: SearchTiming(lines[k]).None?
    ensures FirstTimingLine(lines, from).None? ==> forall k | from <= k < |lines| :: SearchTiming(lines[k]).None?
    decreases |lines| - from
  {
    if from < |lines| && SearchTiming(lines[from]).None? {
      FirstTimingLineFirst(lines, from + 1);
    }
  }

  /** Conversely, a line with a timing that no earlier line has is the one found. */
  lemma {:induction false} FirstTimingLineAt(lines: seq<string>, from: nat, i: nat)
    requires from <= i < |lines| && SearchTiming(lines[i]).Some?
    requires forall k | from <= k < i :: SearchTiming(lines[k]).None?
    ensures FirstTimingLine(lines, from) == Some((i, SearchTiming(lines[i]).value))
    decreases i - from
  {
    if from < i {
      FirstTimingLineAt(lines, from + 1, i);
    }
  }

  /** With no timing line at all, nothing is found. */
  lemma {:induction false} FirstTimingLineNone(lines: seq<string>, from: nat)
    requires from <= |lines|
    requires forall k | from <= k < |lines| :: SearchTiming(lines[k]).None?
    ensures FirstTimingLine(lines, from) == None
    decreases |lines| - from
  {
    if from < |lines| {
      FirstTimingLineNone(lines, from + 1);
    }
  }

  /** The block one chunk yields, if any. */
  function ChunkToBlock(chunk: string): (r: Option<SubtitleBlock>)
    ensures r.Some? ==> Strip(r.value.text) != []
    ensures r.Some? ==> IsTimestamp(r.value.startTime) && IsTimestamp(r.value.endTime)
    ensures r.Some? ==>
      r.value.startMs == TimeToMillis(r.value.startTime) && r.value.endMs == TimeToMillis(r.value.endTime)
  {
    var lines := ChunkLines(chunk);
    match FirstTimingLine(lines, 0)
    case None => None
    case Some((i, t)) =>
      var textLines := KeptLines(lines[i + 1..]);
      if |textLines| > 0 && Strip(Join(textLines, " ")) != [] then
        Some(SubtitleBlock(t.start, t.end, Join(textLines, " "), TimeToMillis(t.start), TimeToMillis(t.end)))
      else None
  }

  /** The blocks `f` yields for a sequence of chunks, in chunk order, with
      the chunks that yield none skipped. */
  function Collect(chunks: seq<string>, f: string -> Option<SubtitleBlock>): (blocks: seq<SubtitleBlock>)
    ensures |blocks| <= |chunks|
    decreases |chunks|
  {
    if |chunks| == 0 then []
    else
      var init := chunks[..|chunks| - 1];
      var last := chunks[|chunks| - 1];
      Collect(init, f) + (match f(last) case Some(b) => [b] case None => [])
  }

  /** The blocks of a sequence of chunks. */
  function ParseChunks(chunks: seq<string>): seq<SubtitleBlock> {
    Collect(chunks, ChunkToBlock)
  }

  /** One more chunk adds its block, if it has one, at the end. */
  lemma CollectStep(chunks: seq<string>, n: nat, f: string -> Option<SubtitleBlock>)
    requires n < |chunks|
    ensures Collect(chunks[..n + 1], f)
         == Collect(chunks[..n], f) + (match f(chunks[n]) case Some(b) => [b] case None => [])
  {
    assert chunks[..n + 1][..n] == chunks[..n];
  }

  /** Every block is the block of one of the chunks. */
  lemma {:induction false} CollectFrom(chunks: seq<string>, f: string -> Option<SubtitleBlock>)
    ensures forall b :: b in Collect(chunks, f) ==> exists c :: c in chunks && f(c) == Some(b)
    decreases |chunks|
  {
    if |chunks| > 0 {
      var init := chunks[..|chunks| - 1];
      var last := chunks[|chunks| - 1];
      CollectFrom(init, f);
      forall b | b in Collect(chunks, f) ensures exists c :: c in chunks && f(c) == Some(b) {
        if b in Collect(init, f) {
          var c :| c in init && f(c) == Some(b);
          assert c in chunks;
        } else {
          assert f(last) == Some(b);
        }
      }
    }
  }

  /** Collecting respects chunk order: the blocks of two runs of chunks are
      the blocks of the first followed by the blocks of the second. */
  lemma {:induction false} CollectAppend(a: seq<string>, b: seq<string>, f: string -> Option<SubtitleBlock>)
    ensures Collect(a + b, f) == Collect(a, f) + Collect(b, f)
    decreases |b|
  {
    if |b| > 0 {
      var init := b[..|b| - 1];
      CollectAppend(a, init, f);
      assert (a + b)[..|a + b| - 1] == a + init;
      assert (a + b)[|a + b| - 1] == b[|b| - 1];
    } else {
      assert a + b == a;
    }
  }

  /** What `parse_vtt_file` returns for a file with this content. */
  function ParseContent(content: string): seq<SubtitleBlock> {
    ParseChunks(SplitOn(content, "\n\n"))
  }

  /** `parse_vtt_file` after the file read: the loop over the chunks. */
  method ParseVtt(content: string) returns (blocks: seq<SubtitleBlock>)
    ensures blocks == ParseContent(content)
  {
    var chunks := SplitOn(content, "\n\n");
    blocks := [];
    for n := 0 to |chunks|
      invariant blocks == Collect(chunks[..n], ChunkToBlock)
    {
      var block := ParseChunk(chunks[n]);
      CollectStep(chunks, n, ChunkToBlock);
      if block.Some? {
        blocks := blocks + [block.value];
      }
    }
    assert chunks[..|chunks|] == chunks;
  }

  /** The body of the chunk loop: find the first timing line, then collect
      the lines after it that are not position lines. */
  method ParseChunk(chunk: string) returns (block: Option<SubtitleBlock>)
    ensures block == ChunkToBlock(chunk)
  {
    var lines := SplitOn(Strip(chunk), "\n");
    var i, timing := FindTiming(lines);
    if timing.None? {
      ChunkWithoutTiming(chunk);
      return None;
    }
    ChunkToBlockFromFirstTiming(chunk, i);
    var textLines := KeptAfter(lines, i);
    block := None;
    if |textLines| > 0 {
      var text := Join(textLines, " ");
      if Strip(text) != [] {
        var start, end := timing.value.start, timing.value.end;
        block := Some(SubtitleBlock(start, end, text, TimeToMillis(start), TimeToMillis(end)));
      }
    }
  }

  /** The scan over the lines: the index and captures of the first line the
      timing pattern matches, or no captures when no line matches. */
  method FindTiming(lines: seq<string>) returns (i: nat, timing: Option<Timing>)
    ensures i <= |lines|
    ensures forall k | 0 <= k < i :: SearchTiming(lines[k]).None?
    ensures timing.None? <==> i == |lines|
    ensures i < |lines| ==> timing == SearchTiming(lines[i])
  {
    i := 0;
    while i < |lines|
      invariant 0 <= i <= |lines|
      invariant forall k | 0 <= k < i :: SearchTiming(lines[k]).None?
    {
      timing := SearchTiming(lines[i]);
      if timing.Some? {
        return;
      }
      i := i + 1;
    }
    timing := None;
  }

  /** The inner loop: the lines after index `i` that are not position lines. */
  method KeptAfter(lines: seq<string>, i: nat) returns (textLines: seq<string>)
    requires i < |lines|
    ensures textLines == KeptLines(lines[i + 1..])
  {
    var after := lines[i + 1..];
    textLines := [];
    for j := 0 to |after|
      invariant textLines == KeptLines(after[..j])
    {
      KeptLinesSnoc(after[..j], after[j]);
      assert after[..j + 1] == after[..j] + [after[j]];
      if !IsPositionLine(after[j]) {
        textLines := textLines + [after[j]];
      }
    }
    assert after[..|after|] == after;
  }

  /** The block of a chunk is read from its first timing line: its timestamps are
      that line's captures and its text is the following non-position lines
      joined by single spaces; it exists exactly when that text is not blank. */
  lemma ChunkToBlockFromFirstTiming(chunk: string, i: nat)
    requires i < |ChunkLines(chunk)|
    requires SearchTiming(ChunkLines(chunk)[i]).Some?
    requires forall k | 0 <= k < i :: SearchTiming(ChunkLines(chunk)[k]).None?
    ensures var lines := ChunkLines(chunk);
      var t := SearchTiming(lines[i]).value;
      var text := Join(KeptLines(lines[i + 1..]), " ");
      ChunkToBlock(chunk) ==
        if Strip(text) != [] then Some(SubtitleBlock(t.start, t.end, text, TimeToMillis(t.start), TimeToMillis(t.end)))
        else None
  {
    FirstTimingLineAt(ChunkLines(chunk), 0, i);
  }

  /** A chunk without a timing line yields no block. */
  lemma ChunkWithoutTiming(chunk: string)
    requires forall k | 0 <= k < |ChunkLines(chunk)| :: SearchTiming(ChunkLines(chunk)[k]).None?
    ensures ChunkToBlock(chunk) == None
  {
    FirstTimingLineNone(ChunkLines(chunk), 0);
  }

  lemma KeptLinesSnoc(lines: seq<string>, line: string)
    ensures KeptLines(lines + [line]) == KeptLines(lines) + if IsPositionLine(line) then [] else [line]
  {
    assert (lines + [line])[..|lines|] == lines;
  }

  /** Filtering keeps exactly the lines that are not position lines. */
  lemma {:induction false} KeptLinesMembers(lines: seq<string>)
    ensures forall l :: l in KeptLines(lines) <==> l in lines && !IsPositionLine(l)
    decreases |lines|
  {
    if |lines| > 0 {
      var init := lines[..|lines| - 1];
      KeptLinesMembers(init);
      assert lines == init + [lines[|lines| - 1]];
    }
  }

  /** A chunk whose lines after the timing line are all position lines yields no block. */
  lemma PositionOnlyChunkDropped(chunk: string, i: nat)
    requires i < |ChunkLines(chunk)|
    requires SearchTiming(ChunkLines(chunk)[i]).Some?
    requires forall k | 0 <= k < i :: SearchTiming(ChunkLines(chunk)[k]).None?
    requires forall k | i < k < |ChunkLines(chunk)| :: IsPositionLine(ChunkLines(chunk)[k])
    ensures ChunkToBlock(chunk) == None
  {
    var lines := ChunkLines(chunk);
    var after := lines[i + 1..];
    assert forall k | 0 <= k < |after| :: IsPositionLine(after[k]);
    KeptLinesAllPosition(after);
    ChunkToBlockFromFirstTiming(chunk, i);
  }

  lemma {:induction false} KeptLinesAllPosition(lines: seq<string>)
    requires forall k | 0 <= k < |lines| :: IsPositionLine(lines[k])
    ensures KeptLines(lines) == []
    decreases |lines|
  {
    if |lines| > 0 {
      KeptLinesAllPosition(lines[..|lines| - 1]);
    }
  }
}
