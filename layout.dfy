/** The page as the extractors see it: the text spans of PyMuPDF's
    `page.get_text("dict")`, nested in blocks and lines, and the selection of
    the spans whose origin lies strictly inside a rectangle. */
module Layout {

  /** A text span: its text, the (x, y) of its origin and its font flags. */
  datatype Span = Span(text: string, x: real, y: real, flags: int)

  /** The `flags` value of a span set in the bold face of the report. */
  const BoldFlags := 20

  /** A line of a text block; a block without a `lines` entry (an image
      block) is one with no lines. */
  datatype TextLine = TextLine(spans: seq<Span>)
  datatype Block = Block(lines: seq<TextLine>)

  /** A region `(x0, y0, x1, y1)` of the page. */
  datatype Rect = Rect(x0: real, y0: real, x1: real, y1: real)

  /** The origin lies strictly inside the rectangle: a span on an edge is out. */
  predicate Inside(s: Span, r: Rect)
  {
    r.x0 < s.x < r.x1 && r.y0 < s.y < r.y1
  }

  /** The spans of some lines, in order. */
  function LinesSpans(lines: seq<TextLine>): seq<Span>
  {
    if lines == [] then [] else LinesSpans(lines[..|lines| - 1]) + lines[|lines| - 1].spans
  }

  /** The spans of the page in block, line, span order. */
  function PageSpans(blocks: seq<Block>): seq<Span>
  {
    if blocks == [] then [] else PageSpans(blocks[..|blocks| - 1]) + LinesSpans(blocks[|blocks| - 1].lines)
  }

  /** The spans of `spans` inside `r`, in their original order. */
  function Select(spans: seq<Span>, r: Rect): seq<Span>
  {
    if spans == [] then []
    else Select(spans[..|spans| - 1], r) + (if Inside(spans[|spans| - 1], r) then [spans[|spans| - 1]] else [])
  }

  /** The kept spans are exactly the spans strictly inside, and no more than
      were given. */
  lemma {:induction false} SelectMembers(spans: seq<Span>, r: Rect)
    ensures |Select(spans, r)| <= |spans|
    ensures forall s :: s in Select(spans, r) <==> s in spans && Inside(s, r)
  {
    if spans != [] {
      var init := spans[..|spans| - 1];
      SelectMembers(init, r);
      assert spans == init + [spans[|spans| - 1]];
    }
  }

  /** Selection distributes over concatenation: the spans kept from a page
      come out in the page's traversal order. */
  lemma {:induction false} SelectAppend(a: seq<Span>, b: seq<Span>, r: Rect)
    ensures Select(a + b, r) == Select(a, r) + Select(b, r)
    decreases |b|
  {
    if b == [] {
      assert a + b == a;
    } else {
      var init := b[..|b| - 1];
      assert (a + b)[..|a + b| - 1] == a + init;
      assert (a + b)[|a + b| - 1] == b[|b| - 1];
      SelectAppend(a, init, r);
    }
  }

  /** `get_spans_by_origin`: walk blocks, lines and spans, appending every
      span whose origin is strictly inside `rect`. */
  method SpansByOrigin(blocks: seq<Block>, rect: Rect) returns (result: seq<Span>)
    ensures result == Select(PageSpans(blocks), rect)
  {
    result := [];
    for b := 0 to |blocks|
      invariant result == Select(PageSpans(blocks[..b]), rect)
    {
      var kept := BlockSpansByOrigin(blocks[b], rect);
      result := result + kept;
      assert blocks[..b + 1][..b] == blocks[..b];
      SelectAppend(PageSpans(blocks[..b]), LinesSpans(blocks[b].lines), rect);
    }
    assert blocks[..|blocks|] == blocks;
  }

  /** The line and span loops of `get_spans_by_origin` for one block. */
  method BlockSpansByOrigin(block: Block, rect: Rect) returns (kept: seq<Span>)
    ensures kept == Select(LinesSpans(block.lines), rect)
  {
    var lines := block.lines;
    kept := [];
    for l := 0 to |lines|
      invariant kept == Select(LinesSpans(lines[..l]), rect)
    {
      var spans := lines[l].spans;
      ghost var lineStart := kept;
      for s := 0 to |spans|
        invariant kept == lineStart + Select(spans[..s], rect)
      {
        var span := spans[s];
        if rect.x0 < span.x < rect.x1 && rect.y0 < span.y < rect.y1 {
          kept := kept + [span];
        }
        assert spans[..s + 1][..s] == spans[..s];
      }
      assert spans[..|spans|] == spans;
      assert lines[..l + 1][..l] == lines[..l];
      SelectAppend(LinesSpans(lines[..l]), spans, rect);
    }
    assert lines[..|lines|] == lines;
  }
}
