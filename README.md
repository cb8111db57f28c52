# Transcript cleaner, modelled in Dafny

`scripts/clean_transcripts.py` turns WebVTT caption files into readable
Markdown. It works in four stages:

1. It splits the file on blank lines and reads one cue per chunk. The cue's two
   timestamps come from the first line that carries `HH:MM:SS.mmm --> HH:MM:SS.mmm`.
   Its text is the later lines that are not `position:0%` settings lines.
2. It cleans every cue text. Karaoke timestamps, `<c>` tags and any other
   `<...>` tags are removed, and runs of whitespace become a single space.
3. It drops cues whose cleaned text repeats a kept one. A longer cue that
   contains a kept text of more than ten characters replaces that kept cue;
   a shorter one inside it is dropped.
4. It groups the cues into paragraphs with a 30-second window and writes each
   paragraph under a `## [HH:MM:SS - HH:MM:SS]` heading.

Each stage is a Dafny module.
- Each loop of the original is a method with a loop.
- Each method is proved equal to a specification function.
- The properties the cleaner relies on are proved about those functions.

Time is held as whole milliseconds (`nat`). This is exact for every
`HH:MM:SS.mmm` timestamp.

The containment test applies only when both cleaned texts have more than
ten characters (line 123), so `hello` followed by `hello world` keeps both
cues; `Dedup.ShortTextsNeverMerged` states this.

The modules are:
- `Text`: Python's `strip`, `split`, `join` and `in` on strings.
- `Timestamps`: `time_to_seconds` and `seconds_to_time`.
- `TagStripper`: `clean_text`, one scanner per `re.sub` pass.
- `VttParser`: `parse_vtt_file`.
- `Dedup`: `deduplicate_blocks`.
- `Paragraphs`: `group_into_paragraphs`.
- `Markdown`: `create_markdown_output`, plus a reader for its layout that shows nothing is lost.
- `Pipeline`: `process_transcript` between reading the input and writing the output.

## Model

| member | source | states |
|---|---|---|
| Timestamps.TimeToMillis | scripts/clean_transcripts.py:24-30 | a captured timestamp denotes hours·3600 + minutes·60 + seconds, here in milliseconds; the value is at most that of 99:99:99.999, and its millisecond remainder is the `.mmm` field |
| Timestamps.Pad2 | scripts/clean_transcripts.py:38 | `{n:02d}` gives only digits, at least two of them, whose decimal value is `n`, with no leading zero beyond the padding to two; it is exactly two digits iff `n < 100` |
| Timestamps.NatToDecimal | scripts/clean_transcripts.py:38 | the numeral has only digits, denotes `n` and has no leading zero; it is one digit iff `n < 10` and at most two iff `n < 100` |
| Timestamps.IsTimestamp | scripts/clean_transcripts.py:50 | the text `\d{2}:\d{2}:\d{2}\.\d{3}` matches: twelve characters, digits in the nine digit places, `:` at 2 and 5 and `.` at 8 |
| Timestamps.SecondsToTime | scripts/clean_transcripts.py:33-38 | the result has only digits and colons; it is the 8-character `HH:MM:SS` iff the time is below 100 hours |
| Timestamps.TimestampRoundTrip | scripts/clean_transcripts.py:24-38 | reading a timestamp whose minutes and seconds are below 60 and formatting it again gives back its `HH:MM:SS` part |
| Timestamps.FormatTruncates | scripts/clean_transcripts.py:33-38 | below 100 hours the formatted text plus `.000` is a timestamp again; its value is the input rounded down to the whole second, never up |
| Text.Strip | scripts/clean_transcripts.py:53 | `strip()` returns no longer a string that neither starts nor ends with whitespace; `StripMeaning` says which string that is |
| Text.StripMeaning | scripts/clean_transcripts.py:53 | the stripped text is the slice of the input that starts where the leading whitespace run ends, and every character before and after that slice is whitespace |
| Text.StripEmpty | scripts/clean_transcripts.py:79 | `text.strip()` is empty exactly when every character of `text` is whitespace |
| Text.SplitOn | scripts/clean_transcripts.py:47 | `split(sep)` returns at least one part, and joining the parts with `sep` gives the input back; `SplitOnPieces` fixes where the cuts are |
| Text.SplitOnPieces | scripts/clean_transcripts.py:47 | no part contains `sep`, and each cut is at the first occurrence of `sep` after the previous cut |
| Text.SplitOnJoin | scripts/clean_transcripts.py:47 | splitting the join of parts that do not contain the separator's first character gives the parts back |
| Text.Join | scripts/clean_transcripts.py:76 | `sep.join(parts)`: the parts in order with `sep` between neighbours |
| Text.JoinAppend | scripts/clean_transcripts.py:76 | joining two non-empty runs of parts is joining each and putting `sep` between the two results |
| Text.IndexOf | scripts/clean_transcripts.py:47 | the occurrence of `sep` that `split` cuts at: it is an occurrence, none starts before it, and none is found only when `sep` occurs nowhere |
| Text.IsSubstring | scripts/clean_transcripts.py:125 | `a in b`: `a` occurs in `b` starting at some position |
| Text.SubstringTrans | scripts/clean_transcripts.py:125 | `a in b` and `b in c` give `a in c` |
| Text.SubstringLength | scripts/clean_transcripts.py:125 | a text inside another is no longer than it, and only the text itself is inside it at the same length |
| Text.EndsWith | scripts/clean_transcripts.py:67 | `s.endswith(suffix)`: the last `len(suffix)` characters of `s` are `suffix` |
| TagStripper.RemoveTimestampTags | scripts/clean_transcripts.py:94 | the first pass never lengthens the text and leaves tag-free text alone; `RemoveTimestampTagsAtFirst` and `RemoveTimestampTagsNoMatch` say what it removes |
| TagStripper.RemoveTimestampTagsAtFirst | scripts/clean_transcripts.py:94 | with the leftmost `<HH:MM:SS.mmm>` tag at `i`, the text before it is kept, its 14 characters are dropped, and the pass goes on after it |
| TagStripper.RemoveTimestampTagsNoMatch | scripts/clean_transcripts.py:94 | a text without such a tag is left unchanged |
| TagStripper.RemoveColorTags | scripts/clean_transcripts.py:97 | the second pass never lengthens the text and leaves tag-free text alone; `RemoveColorTagsAtFirst` and `RemoveColorTagsNoMatch` say what it removes |
| TagStripper.RemoveColorTagsAtFirst | scripts/clean_transcripts.py:97 | with the leftmost `<c>` or `</c>` at `i`, the text before it is kept, the tag is dropped, and the pass goes on after it |
| TagStripper.RemoveColorTagsNoMatch | scripts/clean_transcripts.py:97 | a text without `<c>` or `</c>` is left unchanged |
| TagStripper.RemoveTags | scripts/clean_transcripts.py:100 | after the third pass no `<[^>]+>` match remains, and tag-free text is left alone |
| TagStripper.RemoveTagsAtFirst | scripts/clean_transcripts.py:100 | with the leftmost tag running from `<` at `i` to the first `>` after it at `j`, the text before `i` is kept, `i..j` is dropped, and the pass goes on after `j` |
| TagStripper.RemoveTagsKeepsChars | scripts/clean_transcripts.py:100 | every character of the result is a character of the input |
| TagStripper.CollapseSpaces | scripts/clean_transcripts.py:103 | every whitespace run becomes one space: the result is single-spaced, empty iff the input is, begins with the input's first character (a space if that is whitespace), and is unchanged on single-spaced text |
| TagStripper.CollapseKeepsChars | scripts/clean_transcripts.py:103 | every character of the result other than a space comes from the input |
| TagStripper.CollapseKeepsWords | scripts/clean_transcripts.py:103 | collapsing keeps the whitespace-separated words, in order |
| TagStripper.CollapseKeepsLast | scripts/clean_transcripts.py:103 | the result ends with the input's last character, or with a space if that is whitespace |
| TagStripper.CleanText | scripts/clean_transcripts.py:91-105 | the cleaned text is no longer than the input and is clean: tag-free, single-spaced and trimmed; `CleanTextWords` says which clean text it is |
| TagStripper.CleanTextWords | scripts/clean_transcripts.py:91-105 | the cleaned text is the words of the tag-stripped text joined by single spaces |
| TagStripper.CleanTextPlain | scripts/clean_transcripts.py:91-105 | on a text without `<`, the cleaned text is its words joined by single spaces |
| TagStripper.CleanTextMeaning | scripts/clean_transcripts.py:91-105 | the cleaned text has no `<...>` tag at any position, no leading or trailing whitespace, and no whitespace except single spaces |
| TagStripper.CleanTextFixpoint | scripts/clean_transcripts.py:91-105 | `clean_text(s) == s` exactly when `s` is clean |
| TagStripper.CleanTextIdempotent | scripts/clean_transcripts.py:91-105 | cleaning twice is cleaning once |
| VttParser.MatchTimingAt | scripts/clean_transcripts.py:50 | a match of the timing pattern at `p` captures the 12 characters at `p` as start, and both captures are timestamps; the two shape lemmas say exactly when it matches |
| VttParser.MatchTimingFromShape | scripts/clean_transcripts.py:50 | when `line` reads, from `p`, a timestamp, whitespace, `-->`, whitespace and a timestamp, the match at `p` succeeds, its whitespace runs end where that layout's do, and its captures are the two timestamps |
| VttParser.MatchTimingHasShape | scripts/clean_transcripts.py:50 | every match at `p` has that layout, with the whitespace runs taken whole |
| VttParser.SkipSpacesGreedy | scripts/clean_transcripts.py:50 | `\s*` takes the whole whitespace run: everything skipped is whitespace, and what follows is not |
| VttParser.SearchTimingFrom | scripts/clean_transcripts.py:62 | the first match at or after `p`; its captures are timestamps |
| VttParser.SearchTiming | scripts/clean_transcripts.py:62 | `re.search` over the whole line; any captures it returns are timestamps |
| VttParser.SearchTimingLeftmost | scripts/clean_transcripts.py:62 | `re.search` returns the match at the leftmost position where the pattern matches |
| VttParser.SearchTimingMissing | scripts/clean_transcripts.py:62 | `re.search` returns nothing only when the pattern matches at no position |
| VttParser.ChunkLines | scripts/clean_transcripts.py:53-55 | splitting a chunk into lines always gives at least one line, so `if not lines` never fires |
| VttParser.IsPositionLine | scripts/clean_transcripts.py:67 | a line is a settings line iff its stripped form ends with `position:0%` |
| VttParser.KeptLines | scripts/clean_transcripts.py:66-68 | the collected lines are never more than the lines given |
| VttParser.KeptLinesMembers | scripts/clean_transcripts.py:66-68 | a line is collected iff it is a line of the input and is not a `position:0%` line |
| VttParser.FirstTimingLine | scripts/clean_transcripts.py:61-64 | the line found carries a timing and its captures are the ones returned |
| VttParser.FirstTimingLineFirst | scripts/clean_transcripts.py:61-69 | no earlier line carries a timing, and nothing is found only when no line carries one |
| VttParser.FirstTimingLineAt | scripts/clean_transcripts.py:61-69 | a timing line with no timing line before it is the one found |
| VttParser.FirstTimingLineNone | scripts/clean_transcripts.py:61-71 | with no timing line, nothing is found |
| VttParser.ChunkToBlock | scripts/clean_transcripts.py:53-86 | a cue read from a chunk has a non-blank text, two timestamp captures, and times that are those captures' values |
| VttParser.ChunkToBlockFromFirstTiming | scripts/clean_transcripts.py:61-86 | a chunk's cue takes the first timing line's captures and the later non-position lines joined by spaces; it exists exactly when that text is not blank |
| VttParser.ChunkWithoutTiming | scripts/clean_transcripts.py:71 | a chunk without a timing line yields no cue |
| VttParser.PositionOnlyChunkDropped | scripts/clean_transcripts.py:66-71 | a chunk whose lines after the timing line are all `position:0%` lines yields no cue |
| VttParser.KeptLinesAllPosition | scripts/clean_transcripts.py:66-68 | when every line is a position line, none is collected |
| VttParser.Collect | scripts/clean_transcripts.py:52-88 | there are never more cues than chunks |
| VttParser.CollectFrom | scripts/clean_transcripts.py:52-88 | every cue is the cue of one of the chunks |
| VttParser.CollectAppend | scripts/clean_transcripts.py:52-88 | cues come in chunk order: the cues of two runs of chunks are the first run's cues followed by the second's |
| VttParser.ParseContent | scripts/clean_transcripts.py:47-88 | `parse_vtt_file` after the read: the cues of the chunks of `content.split('\n\n')`, in chunk order |
| VttParser.ParseVtt | scripts/clean_transcripts.py:47-88 | the loop over the chunks returns exactly the cues of the file's chunks, in order |
| VttParser.ParseChunk | scripts/clean_transcripts.py:53-86 | the loop body returns exactly the chunk's cue |
| VttParser.FindTiming | scripts/clean_transcripts.py:61-64 | the scan stops at the first line carrying a timing, with that line's captures; it reports none only after checking every line |
| VttParser.KeptAfter | scripts/clean_transcripts.py:66-68 | the inner loop collects exactly the non-position lines after the timing line |
| Dedup.FirstOverlap | scripts/clean_transcripts.py:122-125 | the first seen text that overlaps (both over ten characters, one inside the other); none before it overlaps, and none is found only when nothing overlaps |
| Dedup.Overlaps | scripts/clean_transcripts.py:123-125 | the partial-overlap test: both texts over ten characters and one inside the other |
| Dedup.Cleaned | scripts/clean_transcripts.py:114 | a block whose text is `clean_text` of its text, as line 146 stores it |
| Dedup.DedupStep | scripts/clean_transcripts.py:113-147 | one block either leaves the kept list as it is, replaces one entry, or adds one; `KeepShape` says which and what a replaced entry must be |
| Dedup.Keep | scripts/clean_transcripts.py:117-147 | the same for a block whose text is already cleaned; `KeepShape` says which case happens |
| Dedup.CleanedBlocks | scripts/clean_transcripts.py:114 | every input block with its text cleaned is clean |
| Dedup.DedupOf | scripts/clean_transcripts.py:113-147 | the loop over cleaned blocks never keeps more blocks than it is given |
| Dedup.Dedup | scripts/clean_transcripts.py:108-149 | never more kept blocks than input blocks |
| Dedup.DedupOfStep | scripts/clean_transcripts.py:113-147 | one more block takes one more step of the loop |
| Dedup.DedupOfInvariant | scripts/clean_transcripts.py:110-147 | over clean blocks, the kept texts stay clean and pairwise different |
| Dedup.DedupInvariant | scripts/clean_transcripts.py:110-147 | every kept text is clean (a fixed point of `clean_text`), and no two kept texts are equal |
| Dedup.DeduplicateBlocks | scripts/clean_transcripts.py:108-149 | the loop returns exactly the deduplicated blocks |
| Dedup.DedupBlock | scripts/clean_transcripts.py:113-147 | one iteration takes the step and keeps the seen texts equal to the kept texts |
| Dedup.ScanOverlap | scripts/clean_transcripts.py:122-142 | the scan stops at the first overlapping seen text, or at the end when there is none |
| Dedup.FindKept | scripts/clean_transcripts.py:131-140 | the search for the superseded text finds the entry that holds it |
| Dedup.KeptLookupExact | scripts/clean_transcripts.py:131-132 | looking a kept block up by its cleaned text finds that block and no other |
| Dedup.OverlapLonger | scripts/clean_transcripts.py:125-127 | an overlapping text longer than the kept one contains it |
| Dedup.OverlapNotLonger | scripts/clean_transcripts.py:125-127 | an overlapping text no longer than the kept one, and different from it, lies inside it |
| Dedup.KeepShape | scripts/clean_transcripts.py:117-147 | a step leaves the list unchanged, appends the block, or replaces one entry with it; a replaced entry overlaps the new text and is shorter |
| Dedup.KeepRepeat | scripts/clean_transcripts.py:117-118 | a block whose cleaned text equals a kept text, whatever its length, leaves the kept list unchanged |
| Dedup.KeepClean | scripts/clean_transcripts.py:133-147 | a step keeps every kept text clean |
| Dedup.KeepDistinct | scripts/clean_transcripts.py:117-147 | a step keeps the kept texts pairwise different |
| Dedup.KeepCovers | scripts/clean_transcripts.py:113-147 | after a step, the new text and every earlier kept text lie inside some kept text |
| Dedup.KeepFrom | scripts/clean_transcripts.py:113-147 | each entry after a step is the entry before it or the new block |
| Dedup.DedupOfCovers | scripts/clean_transcripts.py:113-147 | over cleaned blocks, every block's text lies inside some kept text |
| Dedup.DedupNoTextLost | scripts/clean_transcripts.py:108-149 | no text is lost: every input block's cleaned text lies inside some kept text |
| Dedup.DedupOfFrom | scripts/clean_transcripts.py:113-147 | over cleaned blocks, every kept block is one of them |
| Dedup.DedupProvenance | scripts/clean_transcripts.py:108-149 | every kept block is an input block with its text cleaned |
| Dedup.KeepAppends | scripts/clean_transcripts.py:117-147 | a block is added iff its cleaned text neither repeats nor overlaps any kept text, whatever order the set is scanned in; it is then added at the end |
| Dedup.KeepReplaces | scripts/clean_transcripts.py:123-142 | otherwise at most one entry changes, into the new block, whose text strictly contains the old text of over ten characters |
| Dedup.ShortTextsNeverMerged | scripts/clean_transcripts.py:117-123 | a cleaned text of at most ten characters is dropped only as an exact repeat, and a kept text of at most ten characters is never replaced |
| Paragraphs.AddBlock | scripts/clean_transcripts.py:164-179 | one block either joins the current paragraph or starts a new one; `AddBlockJoins` and `AddBlockSplits` say when |
| Paragraphs.AddBlockJoins | scripts/clean_transcripts.py:164-179 | a block starting within the window of the current paragraph's first block is appended to it |
| Paragraphs.AddBlockSplits | scripts/clean_transcripts.py:164-177 | a block starting beyond that window starts a new paragraph of its own |
| Paragraphs.Runs | scripts/clean_transcripts.py:162-179 | never more paragraphs than blocks, and at least one exactly when there is a block |
| Paragraphs.RunsNonEmpty | scripts/clean_transcripts.py:164-179 | every paragraph holds at least one block |
| Paragraphs.ParagraphOf | scripts/clean_transcripts.py:166-172 | the triple of one paragraph: its first block's start and its last block's end as `HH:MM:SS`, and its texts joined by spaces |
| Paragraphs.GroupSpec | scripts/clean_transcripts.py:152-190 | what `group_into_paragraphs` returns: the triples of the paragraphs of `Runs`, in order |
| Paragraphs.GroupIntoParagraphs | scripts/clean_transcripts.py:152-190 | the loop returns exactly the triples of the runs |
| Paragraphs.SaveParagraph | scripts/clean_transcripts.py:166-172 | saving a paragraph appends the triple of the current run: the start of its first block, the end of its last, and its texts joined by spaces |
| Paragraphs.RunsPartition | scripts/clean_transcripts.py:162-190 | the paragraphs partition the blocks: read in order they are the blocks, each exactly once |
| Paragraphs.RunsRespectWindow | scripts/clean_transcripts.py:164 | each block starts within the window of its paragraph's first block, and each new paragraph starts beyond the window of the previous one's first block |
| Paragraphs.RunsUnique | scripts/clean_transcripts.py:162-179 | no other partition into non-empty runs meets both window conditions |
| Paragraphs.ParagraphCount | scripts/clean_transcripts.py:154-190 | never more paragraphs than blocks, and none exactly when there is no block |
| Paragraphs.ParagraphTextsJoin | scripts/clean_transcripts.py:167-183 | the paragraph texts joined by spaces are the texts of all their blocks joined by spaces |
| Paragraphs.GroupKeepsText | scripts/clean_transcripts.py:152-190 | grouping keeps all the text, in order |
| Markdown.ParagraphLines | scripts/clean_transcripts.py:197-199 | the loop adds two entries per paragraph |
| Markdown.MarkdownOf | scripts/clean_transcripts.py:193-201 | the title line, then a heading entry and a text entry per paragraph, joined by newlines |
| Markdown.CreateMarkdownOutput | scripts/clean_transcripts.py:193-201 | the loop builds the title line and two entries per paragraph, joined by newlines |
| Markdown.ParagraphLinesSnoc | scripts/clean_transcripts.py:197-199 | one more paragraph appends its heading entry and then its text entry |
| Markdown.ParseHeading | scripts/clean_transcripts.py:198 | a heading that is read back is rebuilt exactly from its two times |
| Markdown.ParseSections | scripts/clean_transcripts.py:197-199 | sections that are read back are rebuilt exactly from the paragraphs |
| Markdown.ParseMarkdown | scripts/clean_transcripts.py:193-201 | a document that is read back is exactly the output for its title and paragraphs |
| Markdown.MarkdownPieces | scripts/clean_transcripts.py:193-201 | the output is the title line, five lines per paragraph and a final empty line, joined by newlines |
| Markdown.MarkdownRoundTrip | scripts/clean_transcripts.py:193-201 | reading back the output for a one-line title and readable paragraphs gives that title and those paragraphs |
| Markdown.ParseNeedsTitle | scripts/clean_transcripts.py:195 | every document read back starts with `# ` |
| Pipeline.ProcessTranscript | scripts/clean_transcripts.py:204-234 | the four stages in order give the transcript's Markdown and the block, unique-block and paragraph counts |
| Pipeline.StatsBounds | scripts/clean_transcripts.py:210-234 | unique blocks ≤ original blocks, paragraphs ≤ unique blocks, and no paragraph exactly when no block survives |
| Pipeline.CleanHasNoNewline | scripts/clean_transcripts.py:103-105 | cleaned text has no line break |
| Pipeline.TimeHasNoBreak | scripts/clean_transcripts.py:38 | `HH:MM:SS` has no line break and no space |
| Pipeline.UniqueHasNoNewline | scripts/clean_transcripts.py:213 | no kept text has a line break |
| Pipeline.GroupReadable | scripts/clean_transcripts.py:152-190 | grouping blocks without line breaks gives paragraphs that can be read back |
| Pipeline.TranscriptRoundTrip | scripts/clean_transcripts.py:204-223 | for any caption file and one-line title, the Markdown written reads back as the title and the paragraphs |

## Left out

- File I/O is left out: reading the input, `write_text`, and the `stat` sizes. `ProcessTranscript` takes the file content as a string and returns the Markdown.
- Pipeline.ProcessTranscript: the statistics hold the three counts only. The file name, the sizes in KB and the reduction percentage are left out because they need the file system and float rounding.
- `print` progress output, `main` and its hard-coded list of transcripts are left out, as are the other scripts of the repository. `download_transcripts.py` and the package `__init__.py` are not part of this model.
- Timestamps.TimeToMillis: the result is an exact number of milliseconds, not a float of seconds. The binary rounding of the original's float arithmetic is not modelled.
- Paragraphs.GroupIntoParagraphs: the window is compared in whole milliseconds (30 s = 30000 ms), exactly. The float comparison of the original could differ by rounding at the boundary.
- Timestamps.SecondsToTime: only non-negative times are modelled. Every time the parser produces is non-negative.
- Regex `\d` matches only the ASCII digits `0`–`9` here. Python's `\d` on `str` also accepts other Unicode decimal digits, which `float()` would then read.
- Whitespace is Python's `str.isspace()` set as it is written out in `Text.IsSpace`. Unicode categories beyond that list are not modelled.
- Dedup.DeduplicateBlocks: the original mutates each kept input block's `text` in place (line 146). The model returns new values; only the returned list is modelled.
- Dedup.DedupStep: the original scans its `set` of seen texts in hash order. The model scans the kept texts by their position in the kept list, and a replacement takes the position of the entry it replaces. `KeepAppends` shows that whether a block is added does not depend on that order. When several kept texts overlap a new text, the order decides which one it replaces, and also whether it replaces any: if one overlapping kept text is shorter than the new text and another is not, the block replaces the shorter one when that is scanned first and is dropped otherwise.
- The locals `paragraph_start_time` and `end_time` in `group_into_paragraphs` are assigned but never used, so they are not modelled.
- The guard `if not lines: continue` can never fire, because `split` always returns at least one element. `VttParser.ChunkLines` proves this instead of modelling the branch.
- Markdown.MarkdownRoundTrip: reading the output back requires a one-line title, and paragraphs with no line break and no space in the start time. The writer itself has no such requirement. `Pipeline.TranscriptRoundTrip` shows the paragraphs always meet this.
