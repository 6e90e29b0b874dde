/** `ReadmeFormatter.transform` and its helpers: a pure function from a
    document tree and resolved options to a new tree.

    The collection pass walks the whole tree in pre-order and records every
    heading; the rewrite pass walks only the root's children, gives the first
    top-level depth-1 heading a one-off title block (with the table of
    contents), frames every later depth-1 and depth-2 heading, and passes
    everything else through. Each output entry is tagged with its provenance
    so that the properties can tell original nodes from injected ones. */
module Formatter {
  import opened Absence
  import opened Mdast
  import opened Types
  import Slug

  /** One collected heading: `{ depth, text, id }`. */
  datatype TocEntry = TocEntry(depth: Depth, text: string, id: string)

  /** An entry of the rewritten child sequence: a node of the input, or one
      the formatter created. */
  datatype Piece = Original(node: Node) | Injected(node: Node)

  // ---------------------------------------------------------------------
  // Node builders

  const DivOpen := "<div align=\"center\">"
  const DivClose := "</div>"
  const Divider := "---"

  /** `createHR(style, thickness)`: the raw `<hr>` line; the style keyword is
      written verbatim, "none" included. */
  function CreateHr(style: Style, thickness: string): Node {
    Html("<hr style=\"border: " + thickness + " " + StyleName(style) + ";\">")
  }

  /** The synthetic level-2 heading that introduces the table of contents. */
  const TocHeading := Heading(2, [Literal("Table of Contents")])

  // ---------------------------------------------------------------------
  // Collection pass

  /** The entry recorded for one heading. */
  function EntryOf(h: Node): TocEntry
    requires h.Heading?
  {
    var text := HeadingText(h);
    TocEntry(h.depth, text, Slug.Slugify(text))
  }

  /** `visit(tree, 'heading', ...)`: every heading, in pre-order, including
      headings nested in containers. */
  function CollectNode(n: Node): seq<TocEntry>
    decreases n, 1
  {
    match n
    case Heading(_, _) => [EntryOf(n)]
    case Container(_, children) => Collect(children)
    case _ => []
  }

  function Collect(nodes: seq<Node>): seq<TocEntry>
    decreases nodes, 0
  {
    if |nodes| == 0 then [] else CollectNode(nodes[0]) + Collect(nodes[1..])
  }

  /** The `headings` array: filled only when `generateToc` is set. */
  function CollectHeadings(tree: Root, opts: FormatterOptions): seq<TocEntry> {
    if opts.generateToc then Collect(tree.children) else []
  }

  // ---------------------------------------------------------------------
  // Table of contents

  function DigitChar(d: nat): (c: char)
    requires d < 10
    ensures '0' <= c <= '9'
  {
    ('0' as int + d) as char
  }

  predicate AllDigits(s: string) {
    forall i :: 0 <= i < |s| ==> '0' <= s[i] <= '9'
  }

  /** The number a string of decimal digits denotes. */
  function DecimalValue(s: string): nat
    requires AllDigits(s)
  {
    if |s| == 0 then 0
    else DecimalValue(s[..|s| - 1]) * 10 + (s[|s| - 1] as int - '0' as int)
  }

  /** `${number}` for a non-negative integer: its decimal digits, without
      leading zeros. */
  function NatToString(n: nat): (s: string)
    ensures |s| > 0 && AllDigits(s)
    ensures s[0] == '0' ==> n == 0
    ensures DecimalValue(s) == n
    decreases n
  {
    if n < 10 then [DigitChar(n)]
    else
      var prefix := NatToString(n / 10);
      var s := prefix + [DigitChar(n % 10)];
      assert s[..|s| - 1] == prefix;
      s
  }

  /** One line of the table: `${number}. [${text}](#${id})`. The depth is
      not used. */
  function TocLine(number: nat, e: TocEntry): string {
    NatToString(number) + ". [" + e.text + "](#" + e.id + ")"
  }

  function TocItemsFrom(headings: seq<TocEntry>, first: nat): (items: seq<Node>)
    ensures |items| == |headings|
    ensures forall k :: 0 <= k < |items| ==> items[k] == Html(TocLine(first + k, headings[k]))
    decreases |headings|
  {
    if |headings| == 0 then []
    else [Html(TocLine(first, headings[0]))] + TocItemsFrom(headings[1..], first + 1)
  }

  /** `generateTocItems(headings)`: one numbered link per entry, numbered
      from 1. */
  function GenerateTocItems(headings: seq<TocEntry>): (items: seq<Node>)
    ensures |items| == |headings|
    ensures forall k :: 0 <= k < |items| ==> items[k] == Html(TocLine(k + 1, headings[k]))
  {
    TocItemsFrom(headings, 1)
  }

  // ---------------------------------------------------------------------
  // Rewrite pass

  /** A slot of `newChildren`: an entry, or the `null` placeholder. */
  type Slot = Maybe<Piece>

  const Blank: Slot := Given(Injected(Html("")))

  function Inject(n: Node): Slot {
    Given(Injected(n))
  }

  function InjectAll(ns: seq<Node>): (r: seq<Slot>)
    ensures |r| == |ns|
    ensures forall i :: 0 <= i < |ns| ==> r[i] == Inject(ns[i])
  {
    seq(|ns|, i requires 0 <= i < |ns| => Inject(ns[i]))
  }

  /** The `### …` line under the title, present only when the title's first
      inline child carries a `value`. */
  function TitleLine(h: Node): Slot
    requires h.Heading?
  {
    if |h.inlines| > 0 && h.inlines[0].Literal? then Inject(Html("### " + h.inlines[0].value))
    else Missing
  }

  /** Whether the table of contents is emitted under the title. */
  predicate EmitsToc(opts: FormatterOptions, headings: seq<TocEntry>) {
    opts.generateToc && |headings| > 1
  }

  /** The table of contents: it lists every collected heading but the
      first. */
  function TocSection(opts: FormatterOptions, headings: seq<TocEntry>): (r: seq<Slot>)
    ensures |r| == if EmitsToc(opts, headings) then |headings| + 2 else 0
    ensures forall i :: 0 <= i < |r| ==> r[i].Given? && r[i].value.Injected?
  {
    if EmitsToc(opts, headings) then
      [Blank, Inject(TocHeading), Blank] + InjectAll(GenerateTocItems(headings[1..]))
    else []
  }

  /** The block that replaces the title heading: an injected opening run,
      the heading itself, and an injected closing run. */
  function TitleBlock(h: Node, opts: FormatterOptions, headings: seq<TocEntry>): seq<Slot>
    requires h.Heading?
  {
    TitleOpen(opts) + [Given(Original(h))] + TitleClose(h, opts, headings)
  }

  function TitleOpen(opts: FormatterOptions): seq<Slot> {
    [Inject(Html(DivOpen)), Blank, Inject(CreateHr(opts.h1Style, opts.h1Thickness)), Blank]
  }

  function TitleClose(h: Node, opts: FormatterOptions, headings: seq<TocEntry>): seq<Slot>
    requires h.Heading?
  {
    [Blank, TitleLine(h), Blank, Inject(CreateHr(opts.h1Style, opts.h1Thickness)), Blank,
     Inject(Html(DivClose))]
    + TocSection(opts, headings)
    + [Blank, Inject(Html(Divider))]
  }

  /** The block that replaces every other depth-1 or depth-2 heading. */
  function FramedBlock(h: Node, hr: Node): seq<Slot> {
    FrameOpen(hr) + [Given(Original(h))] + FrameClose(hr)
  }

  function FrameOpen(hr: Node): seq<Slot> {
    [Blank, Inject(hr), Blank, Inject(Html(DivOpen)), Blank]
  }

  function FrameClose(hr: Node): seq<Slot> {
    [Blank, Inject(Html(DivClose)), Blank, Inject(hr)]
  }

  /** The rule used around a framed heading of the given depth. */
  function RuleFor(depth: int, opts: FormatterOptions): Node {
    if depth == 1 then CreateHr(opts.h1Style, opts.h1Thickness)
    else CreateHr(opts.h2Style, opts.h2Thickness)
  }

  /** Headings that get a decorated block when they are not the title. */
  predicate IsFramed(n: Node) {
    n.Heading? && n.depth <= 2
  }

  /** One iteration of the loop over `tree.children`. */
  function Step(n: Node, titlePending: bool, opts: FormatterOptions, headings: seq<TocEntry>): seq<Slot> {
    if titlePending && IsHeading(n, 1) then TitleBlock(n, opts, headings)
    else if IsFramed(n) then FramedBlock(n, RuleFor(n.depth, opts))
    else [Given(Original(n))]
  }

  /** The loop itself; `titlePending` is `skipTitle`, cleared by the first
      depth-1 heading. */
  function Rewrite(nodes: seq<Node>, titlePending: bool, opts: FormatterOptions,
                   headings: seq<TocEntry>): seq<Slot>
    decreases |nodes|
  {
    if |nodes| == 0 then []
    else Step(nodes[0], titlePending, opts, headings)
         + Rewrite(nodes[1..], titlePending && !IsHeading(nodes[0], 1), opts, headings)
  }

  /** `filter(Boolean)`: drops the `null` placeholders and keeps every entry,
      in order. `FormatterProofs.CompactMembers` states that a piece survives
      exactly when some slot holds it, and `FormatterProofs.CompactAppend`
      that the filter works slot by slot. */
  function Compact(slots: seq<Slot>): (r: seq<Piece>)
    ensures |r| <= |slots|
  {
    if |slots| == 0 then []
    else (if slots[0].Given? then [slots[0].value] else []) + Compact(slots[1..])
  }

  /** The rewritten child sequence, with provenance. */
  function Pieces(tree: Root, opts: FormatterOptions): seq<Piece> {
    Compact(Rewrite(tree.children, true, opts, CollectHeadings(tree, opts)))
  }

  function NodesOf(ps: seq<Piece>): (r: seq<Node>)
    ensures |r| == |ps|
    ensures forall i :: 0 <= i < |ps| ==> r[i] == ps[i].node
  {
    seq(|ps|, i requires 0 <= i < |ps| => ps[i].node)
  }

  /** `transform(tree)`: the root with its children rewritten. */
  function Transform(tree: Root, opts: FormatterOptions): Root {
    Root(NodesOf(Pieces(tree, opts)))
  }

  /** The original nodes among the pieces, in order. */
  function Originals(ps: seq<Piece>): seq<Node> {
    if |ps| == 0 then []
    else (if ps[0].Original? then [ps[0].node] else []) + Originals(ps[1..])
  }

  /** The first top-level depth-1 heading, which becomes the title. */
  function FirstTitle(nodes: seq<Node>): (r: Maybe<nat>)
    ensures r.Given? ==> r.value < |nodes| && IsHeading(nodes[r.value], 1)
    ensures r.Given? ==> forall j :: 0 <= j < r.value ==> !IsHeading(nodes[j], 1)
    ensures r.Missing? ==> forall j :: 0 <= j < |nodes| ==> !IsHeading(nodes[j], 1)
    decreases |nodes|
  {
    if |nodes| == 0 then Missing
    else if IsHeading(nodes[0], 1) then Given(0)
    else match FirstTitle(nodes[1..])
      case Missing => Missing
      case Given(k) => Given(k + 1)
  }
}
