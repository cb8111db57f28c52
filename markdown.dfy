/** `create_markdown_output`: a `# title` heading, then for each paragraph a
    `## [start - end]` heading and the paragraph text, the pieces joined by
    newlines.  A reader for that layout shows that nothing is lost: reading
    the document back gives the title and the paragraphs.
 */
module Markdown {
  import opened Options
  import opened Text
  import opened Blocks

  /** `f"# {title}\n"` */
  function TitleLine(title: string): string {
    "# " + title + "\n"
  }

  /** `f"\n## [{start} - {end}]\n"` */
  function HeadingLine(p: Paragraph): string {
    "\n" + Heading(p) + "\n"
  }

  /** `f"{text}\n"` */
  function TextLine(p: Paragraph): string {
    p.text + "\n"
  }

  /** The heading text without its surrounding newlines. */
  function Heading(p: Paragraph): string {
    "## [" + p.start + " - " + p.end + "]"
  }

  /** The two entries the loop appends for each paragraph, in order. */
  function ParagraphLines(ps: seq<Paragraph>): (lines: seq<string>)
    ensures |lines| == 2 * |ps|
    decreases |ps|
  {
    if |ps| == 0 then [] else [HeadingLine(ps[0]), TextLine(ps[0])] + ParagraphLines(ps[1..])
  }

  /** The whole document. */
  function MarkdownOf(ps: seq<Paragraph>, title: string): string {
    Join([TitleLine(title)] + ParagraphLines(ps), "\n")
  }

  /** `create_markdown_output`. */
  method CreateMarkdownOutput(ps: seq<Paragraph>, title: string) returns (markdown: string)
    ensures markdown == MarkdownOf(ps, title)
  {
    var lines := [TitleLine(title)];
    for i := 0 to |ps|
      invariant lines == [TitleLine(title)] + ParagraphLines(ps[..i])
    {
      ParagraphLinesSnoc(ps[..i], ps[i]);
      assert ps[..i + 1] == ps[..i] + [ps[i]];
      lines := lines + [HeadingLine(ps[i])];
      lines := lines + [TextLine(ps[i])];
    }
    assert ps[..|ps|] == ps;
    markdown := Join(lines, "\n");
  }

  lemma {:induction false} ParagraphLinesSnoc(ps: seq<Paragraph>, p: Paragraph)
    ensures ParagraphLines(ps + [p]) == ParagraphLines(ps) + [HeadingLine(p), TextLine(p)]
    decreases |ps|
  {
    if |ps| == 0 {
      assert ParagraphLines([p]) == [HeadingLine(p), TextLine(p)] + ParagraphLines([]);
    } else {
      assert (ps + [p])[1..] == ps[1..] + [p];
      ParagraphLinesSnoc(ps[1..], p);
    }
  }

  /** The document read back: its title and its paragraphs. */
  datatype Document = Document(title: string, paragraphs: seq<Paragraph>)

  /** The document cut at every newline: the title line, five pieces per
      paragraph (two blank, the heading, one blank, the text), and the empty
      piece after the final newline. */
  function Pieces(ps: seq<Paragraph>, title: string): seq<string> {
    ["# " + title] + SectionPieces(ps) + [""]
  }

  function SectionPieces(ps: seq<Paragraph>): seq<string>
    decreases |ps|
  {
    if |ps| == 0 then [] else ["", "", Heading(ps[0]), "", ps[0].text] + SectionPieces(ps[1..])
  }

  /** Reads `## [start - end]`, cutting at the first ` - `. */
  function ParseHeading(h: string): (r: Option<(string, string)>)
    ensures r.Some? ==> h == "## [" + r.value.0 + " - " + r.value.1 + "]"
  {
    if |h| >= 5 && h[..4] == "## [" && h[|h| - 1] == ']' then
      var inner := h[4..|h| - 1];
      match IndexOf(inner, " - ")
      case None => None
      case Some(k) =>
        assert inner == inner[..k] + " - " + inner[k + 3..];
        assert h == h[..4] + inner + [h[|h| - 1]];
        Some((inner[..k], inner[k + 3..]))
    else None
  }

  /** Reads the paragraph sections, five pieces each. */
  function ParseSections(xs: seq<string>): (r: Option<seq<Paragraph>>)
    ensures r.Some? ==> SectionPieces(r.value) == xs
    decreases |xs|
  {
    if |xs| == 0 then Some([])
    else if |xs| >= 5 && xs[0] == "" && xs[1] == "" && xs[3] == "" then
      match ParseHeading(xs[2])
      case None => None
      case Some((start, end)) =>
        match ParseSections(xs[5..])
        case None => None
        case Some(rest) =>
          var p := Paragraph(start, end, xs[4]);
          assert ([p] + rest)[1..] == rest;
          assert xs == xs[..5] + xs[5..];
          Some([p] + rest)
    else None
  }

  /** Reads a document: a `# ` title line, the sections, and a final newline. */
  function ParseMarkdown(s: string): (r: Option<Document>)
    ensures r.Some? ==> MarkdownOf(r.value.paragraphs, r.value.title) == s
  {
    var xs := SplitOn(s, "\n");
    if |xs| >= 2 && |xs[0]| >= 2 && xs[0][..2] == "# " && xs[|xs| - 1] == "" then
      match ParseSections(xs[1..|xs| - 1])
      case None => None
      case Some(ps) =>
        var title := xs[0][2..];
        assert xs == [xs[0]] + xs[1..|xs| - 1] + [xs[|xs| - 1]];
        assert xs[0] == "# " + title;
        MarkdownPieces(ps, title);
        Some(Document(title, ps))
    else None
  }

  /** The document is its pieces joined by newlines. */
  lemma MarkdownPieces(ps: seq<Paragraph>, title: string)
    ensures MarkdownOf(ps, title) == Join(Pieces(ps, title), "\n")
  {
    var head := "# " + title;
    if |ps| == 0 {
      assert Pieces(ps, title) == [head, ""];
      assert ParagraphLines(ps) == [];
      assert [TitleLine(title)] + ParagraphLines(ps) == [TitleLine(title)];
    } else {
      SectionsJoin(ps);
      JoinCons(TitleLine(title), ParagraphLines(ps), "\n");
      assert Pieces(ps, title) == [head] + (SectionPieces(ps) + [""]);
      JoinCons(head, SectionPieces(ps) + [""], "\n");
    }
  }

  /** The sections and the final empty piece, joined, are a newline followed
      by the paragraph entries joined. */
  lemma {:induction false} SectionsJoin(ps: seq<Paragraph>)
    requires |ps| > 0
    ensures Join(SectionPieces(ps) + [""], "\n") == "\n" + Join(ParagraphLines(ps), "\n")
    decreases |ps|
  {
    var p := ps[0];
    var five := ["", "", Heading(p), "", p.text];
    var pair := [HeadingLine(p), TextLine(p)];
    SectionJoin(p);
    assert SectionPieces(ps) + [""] == five + (SectionPieces(ps[1..]) + [""]);
    if |ps| == 1 {
      assert SectionPieces(ps[1..]) + [""] == [""];
      JoinAppend(five, [""], "\n");
      assert ParagraphLines(ps) == pair;
    } else {
      var tail := Join(ParagraphLines(ps[1..]), "\n");
      SectionsJoin(ps[1..]);
      JoinAppend(five, SectionPieces(ps[1..]) + [""], "\n");
      assert ParagraphLines(ps) == pair + ParagraphLines(ps[1..]);
      JoinAppend(pair, ParagraphLines(ps[1..]), "\n");
      Regroup(Join(five, "\n"), Join(pair, "\n"), tail);
    }
  }

  /** The five pieces of one section, joined and followed by a newline, are a
      newline followed by its two entries joined. */
  lemma SectionJoin(p: Paragraph)
    ensures Join(["", "", Heading(p), "", p.text], "\n") + "\n" + ""
         == "\n" + Join([HeadingLine(p), TextLine(p)], "\n")
  {
    JoinCons("", ["", Heading(p), "", p.text], "\n");
    JoinCons("", [Heading(p), "", p.text], "\n");
    JoinCons(Heading(p), ["", p.text], "\n");
    JoinCons("", [p.text], "\n");
    JoinCons(HeadingLine(p), [TextLine(p)], "\n");
  }

  lemma Regroup(a: string, b: string, t: string)
    requires a + "\n" + "" == "\n" + b
    ensures a + "\n" + ("\n" + t) == "\n" + (b + "\n" + t)
  {
    calc {
      a + "\n" + ("\n" + t);
      (a + "\n" + "") + "\n" + t;
      ("\n" + b) + "\n" + t;
      "\n" + (b + "\n" + t);
    }
  }

  /** What a paragraph must avoid to be read back: no newline anywhere and no
      space in the start time (the heading is cut at the first ` - `). */
  predicate Readable(p: Paragraph) {
    '\n' !in p.start && '\n' !in p.end && '\n' !in p.text && ' ' !in p.start
  }

  lemma ParseHeadingOf(p: Paragraph)
    requires ' ' !in p.start
    ensures ParseHeading(Heading(p)) == Some((p.start, p.end))
  {
    var h := Heading(p);
    var inner := p.start + " - " + p.end;
    assert h[..4] == "## [";
    assert h[4..|h| - 1] == inner;
    assert inner[..|p.start|] == p.start;
    NoOccurrenceWithout(inner, " - ", |p.start|);
    assert inner[|p.start|..|p.start| + 3] == " - ";
    IndexOfFirst(inner, " - ", |p.start|);
    assert inner[|p.start| + 3..] == p.end;
  }

  lemma {:induction false} ParseSectionsOf(ps: seq<Paragraph>)
    requires forall i | 0 <= i < |ps| :: Readable(ps[i])
    ensures ParseSections(SectionPieces(ps)) == Some(ps)
    decreases |ps|
  {
    if |ps| > 0 {
      var xs := SectionPieces(ps);
      ParseHeadingOf(ps[0]);
      ParseSectionsOf(ps[1..]);
      assert xs[5..] == SectionPieces(ps[1..]);
      assert [ps[0]] + ps[1..] == ps;
    }
  }

  lemma {:induction false} SectionPiecesAvoid(ps: seq<Paragraph>)
    requires forall i | 0 <= i < |ps| :: Readable(ps[i])
    ensures forall i | 0 <= i < |SectionPieces(ps)| :: '\n' !in SectionPieces(ps)[i]
    decreases |ps|
  {
    if |ps| > 0 {
      SectionPiecesAvoid(ps[1..]);
      var p := ps[0];
      assert '\n' !in Heading(p) by {
        assert Heading(p) == "## [" + p.start + " - " + p.end + "]";
      }
    }
  }

  /** Reading back a document whose title has no newline and whose paragraphs
      are readable gives the title and the paragraphs again. */
  lemma MarkdownRoundTrip(ps: seq<Paragraph>, title: string)
    requires '\n' !in title
    requires forall i | 0 <= i < |ps| :: Readable(ps[i])
    ensures ParseMarkdown(MarkdownOf(ps, title)) == Some(Document(title, ps))
  {
    var xs := Pieces(ps, title);
    MarkdownPieces(ps, title);
    SectionPiecesAvoid(ps);
    assert '\n' !in "# " + title;
    assert forall i | 0 <= i < |xs| :: '\n' !in xs[i];
    SplitOnJoin(xs, "\n");
    assert xs[1..|xs| - 1] == SectionPieces(ps);
    ParseSectionsOf(ps);
    assert xs[0][2..] == title;
  }

  /** Every document starts with its `# ` title line, so text that does not
      start with `# ` is not read as one. */
  lemma ParseNeedsTitle(s: string)
    ensures ParseMarkdown(s).Some? ==> |s| >= 2 && s[..2] == "# "
  {
    if ParseMarkdown(s).Some? {
      var d := ParseMarkdown(s).value;
      JoinStarts([TitleLine(d.title)] + ParagraphLines(d.paragraphs), "\n");
      assert TitleLine(d.title)[..2] == "# ";
    }
  }

  lemma JoinStarts(parts: seq<string>, sep: string)
    requires |parts| > 0
    ensures |Join(parts, sep)| >= |parts[0]| && Join(parts, sep)[..|parts[0]|] == parts[0]
  {
    if |parts| > 1 {
      JoinCons(parts[0], parts[1..], sep);
      assert parts == [parts[0]] + parts[1..];
    }
  }
}
