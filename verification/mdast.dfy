/** The slice of the mdast syntax tree that the formatter looks at.

    Block nodes are headings, raw HTML, containers that hold further blocks
    (block quotes, lists, list items) and every other block kind as an opaque
    leaf. Inline content is either a literal node carrying a `value`
    (text, inline code, inline html) or a parent node carrying children
    (emphasis, strong, link, ...). */
module Mdast {

  /** Heading depth as mdast allows it: `#` to `######`. */
  type Depth = d: int | 1 <= d <= 6 witness 1

  datatype Inline =
    | Literal(value: string)
    | Span(children: seq<Inline>)

  datatype Node =
    | Heading(depth: Depth, inlines: seq<Inline>)
    | Html(value: string)
    | Container(kind: string, children: seq<Node>)
    | Other(kind: string)

  /** The document root; only its child sequence is rewritten. */
  datatype Root = Root(children: seq<Node>)

  /** Plain text of one inline node: its `value`, or the concatenated text of
      its children (the behaviour of mdast-util-to-string on these kinds). */
  function InlineText(i: Inline): string
    decreases i, 1
  {
    match i
    case Literal(v) => v
    case Span(cs) => InlinesText(cs)
  }

  function InlinesText(cs: seq<Inline>): string
    decreases cs, 0
  {
    if |cs| == 0 then "" else InlineText(cs[0]) + InlinesText(cs[1..])
  }

  /** Flattening concatenates: the text of `a + b` is the text of `a`
      followed by the text of `b`. */
  lemma {:induction false} InlinesTextAppend(a: seq<Inline>, b: seq<Inline>)
    ensures InlinesText(a + b) == InlinesText(a) + InlinesText(b)
    decreases |a|
  {
    if |a| == 0 {
      assert a + b == b;
    } else {
      assert (a + b)[1..] == a[1..] + b;
      InlinesTextAppend(a[1..], b);
    }
  }

  /** Plain text of a heading, as `toString(heading)` computes it. */
  function HeadingText(n: Node): string
    requires n.Heading?
  {
    InlinesText(n.inlines)
  }

  predicate IsHeading(n: Node, depth: int) {
    n.Heading? && n.depth == depth
  }
}
