/** The minimal markdown renderer of the chapter generator: a line-driven
    state machine that closes a pending paragraph whenever a blank line, a
    heading, a flags line or a glyphs line arrives. */
module Markdown {
  import opened Text

  /** One line of the produced HTML. */
  datatype Block =
    | Para(lines: seq<string>)  // the paragraph's lines, joined with single spaces
    | Heading(title: string)    // a "## " line with the prefix removed
    | FlagsDiv(line: string)    // a "[Flags: ...]" line, kept as written
    | GlyphsDiv(line: string)   // a "glyphs:" line in any letter case, kept as written

  function Html(b: Block): string
  {
    match b
    case Para(ls) => "<p>" + Strip(Join(ls, " ")) + "</p>"
    case Heading(t) => "<h2>" + t + "</h2>"
    case FlagsDiv(l) => "<div class=\"flags\">" + l + "</div>"
    case GlyphsDiv(l) => "<div class=\"glyphs\">" + l + "</div>"
  }

  function HtmlLines(bs: seq<Block>): (r: seq<string>)
    ensures |r| == |bs|
  {
    seq(|bs|, i requires 0 <= i < |bs| => Html(bs[i]))
  }

  /** How a right-stripped line is treated: it closes the paragraph, it closes
      the paragraph and emits its own block, or it joins the paragraph. */
  datatype Kind = Blank | Special(block: Standalone) | Plain

  /** The blocks a single line produces on its own. */
  type Standalone = b: Block | !b.Para? witness Heading("")

  function Classify(line: string): (k: Kind)
    ensures k.Plain? ==> !IsBlank(line)
  {
    if IsBlank(line) then Blank
    else if StartsWith(line, "## ") then Special(Heading(Strip(line[3..])))
    else if StartsWith(line, "[Flags:") && EndsWith(line, "]") then Special(FlagsDiv(line))
    else if StartsWith(LowerAscii(line), "glyphs:") then Special(GlyphsDiv(line))
    else Plain
  }

  /** A right-stripped line together with how it is treated. */
  datatype Line = Line(text: string, kind: Kind)

  function Read(raw: string): Line
  {
    var line := RStrip(raw);
    Line(line, Classify(line))
  }

  function ReadAll(raws: seq<string>): (r: seq<Line>)
    ensures |r| == |raws|
  {
    seq(|raws|, i requires 0 <= i < |raws| => Read(raws[i]))
  }

  /** The renderer's state: the blocks emitted so far and the pending paragraph. */
  datatype State = State(done: seq<Block>, paragraph: seq<string>)

  /** `flush_paragraph`: the emitted blocks once the pending paragraph, if any, is closed. */
  function Flushed(s: State): seq<Block>
  {
    if s.paragraph == [] then s.done else s.done + [Para(s.paragraph)]
  }

  /** One turn of the loop. */
  function Step(s: State, l: Line): State
  {
    match l.kind
    case Blank => State(Flushed(s), [])
    case Special(b) => State(Flushed(s) + [b], [])
    case Plain => State(s.done, s.paragraph + [l.text])
  }

  function Run(s: State, ls: seq<Line>): State
    decreases |ls|
  {
    if ls == [] then s else Run(Step(s, ls[0]), ls[1..])
  }

  /** The loop over the lines, then the final flush. */
  function Blocks(ls: seq<Line>): seq<Block>
  {
    Flushed(Run(State([], []), ls))
  }

  /** The blocks rendered from a list of raw lines. */
  function BlocksOf(raws: seq<string>): seq<Block>
  {
    Blocks(ReadAll(raws))
  }

  /** `render_markdown_min(md)`. */
  function Render(md: string): (r: string)
    // a blank text renders to nothing
    ensures IsBlank(md) ==> r == ""
  {
    StripEmptyIffBlank(md);
    Join(HtmlLines(BlocksOf(SplitLines(Strip(md)))), "\n")
  }

  lemma HtmlLinesSnoc(bs: seq<Block>, b: Block)
    ensures HtmlLines(bs + [b]) == HtmlLines(bs) + [Html(b)]
  {
  }

  /** `flush_paragraph`, returning the updated output and buffer. */
  method FlushParagraph(htmlLines: seq<string>, paragraph: seq<string>, ghost blocks: seq<Block>)
    returns (htmlLines': seq<string>, paragraph': seq<string>, ghost blocks': seq<Block>)
    requires htmlLines == HtmlLines(blocks)
    ensures blocks' == Flushed(State(blocks, paragraph))
    ensures paragraph' == [] && htmlLines' == HtmlLines(blocks')
  {
    htmlLines', paragraph', blocks' := htmlLines, paragraph, blocks;
    if paragraph != [] {
      htmlLines' := htmlLines + ["<p>" + Strip(Join(paragraph, " ")) + "</p>"];
      blocks' := blocks + [Para(paragraph)];
      HtmlLinesSnoc(blocks, Para(paragraph));
      paragraph' := [];
    }
  }

  /** The renderer: strip and split the text, walk the lines with a paragraph
      buffer, flush at the end and join the HTML lines with newlines. */
  method RenderMarkdownMin(md: string) returns (out: string)
    ensures out == Render(md)
  {
    var lines := SplitLines(Strip(md));
    ghost var ls := ReadAll(lines);
    var htmlLines: seq<string> := [];
    var paragraph: seq<string> := [];
    ghost var blocks: seq<Block> := [];
    for i := 0 to |lines|
      invariant htmlLines == HtmlLines(blocks)
      invariant Run(State(blocks, paragraph), ls[i..]) == Run(State([], []), ls)
    {
      ghost var before := State(blocks, paragraph);
      assert ls[i..][0] == ls[i] && ls[i..][1..] == ls[i + 1..];
      var line := RStrip(lines[i]);
      assert ls[i] == Line(line, Classify(line));
      if IsBlank(line) {
        htmlLines, paragraph, blocks := FlushParagraph(htmlLines, paragraph, blocks);
      } else if StartsWith(line, "## ") {
        htmlLines, paragraph, blocks := FlushParagraph(htmlLines, paragraph, blocks);
        htmlLines := htmlLines + ["<h2>" + Strip(line[3..]) + "</h2>"];
        HtmlLinesSnoc(blocks, Heading(Strip(line[3..])));
        blocks := blocks + [Heading(Strip(line[3..]))];
      } else if StartsWith(line, "[Flags:") && EndsWith(line, "]") {
        htmlLines, paragraph, blocks := FlushParagraph(htmlLines, paragraph, blocks);
        htmlLines := htmlLines + ["<div class=\"flags\">" + line + "</div>"];
        HtmlLinesSnoc(blocks, FlagsDiv(line));
        blocks := blocks + [FlagsDiv(line)];
      } else if StartsWith(LowerAscii(line), "glyphs:") {
        htmlLines, paragraph, blocks := FlushParagraph(htmlLines, paragraph, blocks);
        htmlLines := htmlLines + ["<div class=\"glyphs\">" + line + "</div>"];
        HtmlLinesSnoc(blocks, GlyphsDiv(line));
        blocks := blocks + [GlyphsDiv(line)];
      } else {
        paragraph := paragraph + [line];
      }
      assert State(blocks, paragraph) == Step(before, ls[i]);
    }
    assert ls[|lines|..] == [];
    htmlLines, paragraph, blocks := FlushParagraph(htmlLines, paragraph, blocks);
    out := Join(htmlLines, "\n");
  }

  // ---------------------------------------------------------------------
  // How the blocks relate to the lines

  /** Emitted blocks are never taken back: running from more blocks only prefixes them. */
  lemma {:induction false} RunShift(e: seq<Block>, s: State, ls: seq<Line>)
    ensures var r := Run(s, ls);
      Run(State(e + s.done, s.paragraph), ls) == State(e + r.done, r.paragraph)
    decreases |ls|
  {
    if ls != [] {
      var t := Step(s, ls[0]);
      assert Step(State(e + s.done, s.paragraph), ls[0]) == State(e + t.done, t.paragraph);
      RunShift(e, t, ls[1..]);
    }
  }

  lemma {:induction false} RunAppend(s: State, a: seq<Line>, b: seq<Line>)
    ensures Run(s, a + b) == Run(Run(s, a), b)
    decreases |a|
  {
    if a == [] {
      assert a + b == b;
    } else {
      assert (a + b)[0] == a[0] && (a + b)[1..] == a[1..] + b;
      RunAppend(Step(s, a[0]), a[1..], b);
    }
  }

  lemma ReadAllSplit(a: seq<string>, l: string, b: seq<string>)
    ensures ReadAll(a + [l] + b) == ReadAll(a) + [Read(l)] + ReadAll(b)
  {
  }

  /** A line that closes the paragraph and emits its own block splits the
      document: what comes before and what comes after render independently. */
  lemma SpecialSplits(a: seq<string>, l: string, b: seq<string>)
    requires Classify(RStrip(l)).Special?
    ensures BlocksOf(a + [l] + b) == BlocksOf(a) + [Classify(RStrip(l)).block] + BlocksOf(b)
  {
    var s0 := State([], []);
    var x, y, z := ReadAll(a), Read(l), ReadAll(b);
    var mid := Blocks(x) + [y.kind.block];
    ReadAllSplit(a, l, b);
    RunAppend(s0, x + [y], z);
    RunAppend(s0, x, [y]);
    assert Run(s0, x + [y]) == State(mid, []);
    RunShift(mid, s0, z);
    assert mid + [] == mid;
  }

  /** A blank line splits the document too, and emits nothing of its own. */
  lemma BlankSplits(a: seq<string>, l: string, b: seq<string>)
    requires Classify(RStrip(l)).Blank?
    ensures BlocksOf(a + [l] + b) == BlocksOf(a) + BlocksOf(b)
  {
    var s0 := State([], []);
    var x, y, z := ReadAll(a), Read(l), ReadAll(b);
    ReadAllSplit(a, l, b);
    RunAppend(s0, x + [y], z);
    RunAppend(s0, x, [y]);
    assert Run(s0, x + [y]) == State(Blocks(x), []);
    RunShift(Blocks(x), s0, z);
    assert Blocks(x) + [] == Blocks(x);
  }

  function RStripAll(raws: seq<string>): (r: seq<string>)
    ensures |r| == |raws|
  {
    seq(|raws|, i requires 0 <= i < |raws| => RStrip(raws[i]))
  }

  lemma {:induction false} RunPlain(s: State, ls: seq<Line>)
    requires forall i :: 0 <= i < |ls| ==> ls[i].kind.Plain?
    ensures Run(s, ls) == State(s.done, s.paragraph + Texts(ls))
    decreases |ls|
  {
    if ls != [] {
      RunPlain(Step(s, ls[0]), ls[1..]);
      assert Texts(ls) == [ls[0].text] + Texts(ls[1..]);
    }
  }

  function Texts(ls: seq<Line>): (r: seq<string>)
    ensures |r| == |ls|
  {
    seq(|ls|, i requires 0 <= i < |ls| => ls[i].text)
  }

  /** A run of consecutive plain lines becomes a single paragraph of those
      lines, right-stripped, in order. */
  lemma PlainRunIsOneParagraph(raws: seq<string>)
    requires raws != []
    requires forall i :: 0 <= i < |raws| ==> Classify(RStrip(raws[i])).Plain?
    ensures BlocksOf(raws) == [Para(RStripAll(raws))]
  {
    var ls := ReadAll(raws);
    assert forall i :: 0 <= i < |ls| ==> ls[i].kind.Plain?;
    RunPlain(State([], []), ls);
    assert Texts(ls) == RStripAll(raws);
    assert [] + Texts(ls) == Texts(ls);
  }

  // ---------------------------------------------------------------------
  // No empty paragraph

  /** A paragraph that has lines, none of them blank. */
  predicate GoodPara(ps: seq<string>)
  {
    |ps| > 0 && forall j :: 0 <= j < |ps| ==> !IsBlank(ps[j])
  }

  predicate WellFormed(s: State)
  {
    && (forall i :: 0 <= i < |s.done| && s.done[i].Para? ==> GoodPara(s.done[i].lines))
    && (forall j :: 0 <= j < |s.paragraph| ==> !IsBlank(s.paragraph[j]))
  }

  /** Lines that join a paragraph are not blank, as `Classify` guarantees. */
  predicate PlainNotBlank(ls: seq<Line>)
  {
    forall i :: 0 <= i < |ls| && ls[i].kind.Plain? ==> !IsBlank(ls[i].text)
  }

  lemma {:induction false} RunWellFormed(s: State, ls: seq<Line>)
    requires WellFormed(s) && PlainNotBlank(ls)
    ensures WellFormed(Run(s, ls))
    decreases |ls|
  {
    if ls != [] {
      var t := Step(s, ls[0]);
      assert WellFormed(t) by {
        var f := Flushed(s);
        assert forall i :: 0 <= i < |f| && f[i].Para? ==> GoodPara(f[i].lines) by {
          if s.paragraph != [] {
            assert f == s.done + [Para(s.paragraph)];
          }
        }
      }
      RunWellFormed(t, ls[1..]);
    }
  }

  lemma JoinStartsWith(ps: seq<string>, sep: string)
    requires |ps| > 0
    ensures StartsWith(Join(ps, sep), ps[0])
  {
  }

  /** A paragraph of non-blank lines renders to a non-empty `<p>`. */
  lemma GoodParaHtml(ps: seq<string>)
    requires GoodPara(ps)
    ensures Html(Para(ps)) != "<p></p>"
  {
    var j := Join(ps, " ");
    JoinStartsWith(ps, " ");
    var k :| 0 <= k < |ps[0]| && !IsSpace(ps[0][k]);
    assert j[k] == ps[0][k];
    StripEmptyIffBlank(j);
    assert |Html(Para(ps))| == 7 + |Strip(j)|;
  }

  /** Every `<p>` the renderer emits has content, and every paragraph
      consists of non-blank lines. */
  lemma NoEmptyParagraph(raws: seq<string>)
    ensures var bs := BlocksOf(raws);
      forall i :: 0 <= i < |bs| && bs[i].Para? ==> GoodPara(bs[i].lines) && Html(bs[i]) != "<p></p>"
  {
    var ls := ReadAll(raws);
    RunWellFormed(State([], []), ls);
    var bs := Blocks(ls);
    forall i | 0 <= i < |bs| && bs[i].Para?
      ensures GoodPara(bs[i].lines) && Html(bs[i]) != "<p></p>"
    {
      GoodParaHtml(bs[i].lines);
    }
  }

  // ---------------------------------------------------------------------
  // Every line accounted for, in order

  /** The lines of the paragraphs among the blocks, in order. */
  function ParaText(bs: seq<Block>): seq<string>
  {
    if bs == [] then []
    else ParaText(bs[..|bs| - 1]) + (if bs[|bs| - 1].Para? then bs[|bs| - 1].lines else [])
  }

  /** The blocks that are not paragraphs, in order. */
  function Specials(bs: seq<Block>): seq<Block>
  {
    if bs == [] then []
    else Specials(bs[..|bs| - 1]) + (if bs[|bs| - 1].Para? then [] else [bs[|bs| - 1]])
  }

  /** The texts of the plain lines, in order. */
  function PlainLines(ls: seq<Line>): seq<string>
  {
    if ls == [] then []
    else (if ls[0].kind.Plain? then [ls[0].text] else []) + PlainLines(ls[1..])
  }

  /** The blocks of the heading, flags and glyphs lines, in order. */
  function SpecialLines(ls: seq<Line>): seq<Block>
  {
    if ls == [] then []
    else (if ls[0].kind.Special? then [ls[0].kind.block] else []) + SpecialLines(ls[1..])
  }

  lemma ParaTextSnoc(bs: seq<Block>, b: Block)
    ensures ParaText(bs + [b]) == ParaText(bs) + (if b.Para? then b.lines else [])
    ensures Specials(bs + [b]) == Specials(bs) + (if b.Para? then [] else [b])
  {
    assert (bs + [b])[..|bs|] == bs;
  }

  /** Closing the paragraph moves its lines into the blocks and adds no special block. */
  lemma FlushedText(s: State)
    ensures ParaText(Flushed(s)) == ParaText(s.done) + s.paragraph
    ensures Specials(Flushed(s)) == Specials(s.done)
  {
    if s.paragraph != [] {
      ParaTextSnoc(s.done, Para(s.paragraph));
    } else {
      assert ParaText(s.done) + [] == ParaText(s.done);
    }
  }

  lemma StepText(s: State, l: Line)
    ensures var t := Step(s, l);
      && ParaText(t.done) + t.paragraph == ParaText(s.done) + s.paragraph + (if l.kind.Plain? then [l.text] else [])
      && Specials(t.done) == Specials(s.done) + (if l.kind.Special? then [l.kind.block] else [])
  {
    FlushedText(s);
    if l.kind.Special? {
      ParaTextSnoc(Flushed(s), l.kind.block);
    }
  }

  lemma {:induction false} RunText(s: State, ls: seq<Line>)
    ensures var r := Run(s, ls);
      && ParaText(r.done) + r.paragraph == ParaText(s.done) + s.paragraph + PlainLines(ls)
      && Specials(r.done) == Specials(s.done) + SpecialLines(ls)
    decreases |ls|
  {
    if ls != [] {
      StepText(s, ls[0]);
      RunText(Step(s, ls[0]), ls[1..]);
    }
  }

  /** Every plain line lands in exactly one paragraph, and the paragraphs
      hold exactly the plain lines, in input order. */
  lemma ParagraphsHoldPlainLines(raws: seq<string>)
    ensures ParaText(BlocksOf(raws)) == PlainLines(ReadAll(raws))
  {
    var ls := ReadAll(raws);
    RunText(State([], []), ls);
    FlushedText(Run(State([], []), ls));
  }

  /** The heading, flags and glyphs lines each become exactly one block of
      their own, in input order. */
  lemma SpecialBlocksInOrder(raws: seq<string>)
    ensures Specials(BlocksOf(raws)) == SpecialLines(ReadAll(raws))
  {
    var ls := ReadAll(raws);
    RunText(State([], []), ls);
    FlushedText(Run(State([], []), ls));
  }
}
