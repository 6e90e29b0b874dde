/** Properties of `Formatter.Transform`: what it keeps, where the title
    block goes, when the table of contents appears and what it lists. */
module FormatterProofs {
  import opened Absence
  import opened Mdast
  import opened Types
  import opened Formatter
  import Slug

  // ---------------------------------------------------------------------
  // Sequence plumbing

  lemma {:induction false} CompactAppend(a: seq<Slot>, b: seq<Slot>)
    ensures Compact(a + b) == Compact(a) + Compact(b)
    decreases |a|
  {
    if |a| == 0 {
      assert a + b == b;
    } else {
      var head := if a[0].Given? then [a[0].value] else [];
      assert (a + b)[0] == a[0];
      assert (a + b)[1..] == a[1..] + b;
      CompactAppend(a[1..], b);
      assert Compact(a + b) == head + (Compact(a[1..]) + Compact(b));
      assert head + (Compact(a[1..]) + Compact(b)) == (head + Compact(a[1..])) + Compact(b);
    }
  }

  /** `filter(Boolean)` keeps exactly the entries: a piece is in the result
      precisely when some slot holds it. */
  lemma {:induction false} CompactMembers(slots: seq<Slot>, p: Piece)
    ensures p in Compact(slots) <==> Given(p) in slots
    decreases |slots|
  {
    if |slots| > 0 {
      CompactMembers(slots[1..], p);
      assert slots == [slots[0]] + slots[1..];
    }
  }

  lemma {:induction false} OriginalsAppend(a: seq<Piece>, b: seq<Piece>)
    ensures Originals(a + b) == Originals(a) + Originals(b)
    decreases |a|
  {
    if |a| == 0 {
      assert a + b == b;
    } else {
      var head := if a[0].Original? then [a[0].node] else [];
      assert (a + b)[0] == a[0];
      assert (a + b)[1..] == a[1..] + b;
      OriginalsAppend(a[1..], b);
      assert Originals(a + b) == head + (Originals(a[1..]) + Originals(b));
      assert head + (Originals(a[1..]) + Originals(b)) == (head + Originals(a[1..])) + Originals(b);
    }
  }

  /** Every slot is a placeholder or an injected node. */
  predicate AllInjected(slots: seq<Slot>) {
    forall i :: 0 <= i < |slots| ==> slots[i].Missing? || slots[i].value.Injected?
  }

  lemma {:induction false} InjectedHaveNoOriginals(slots: seq<Slot>)
    requires AllInjected(slots)
    ensures Originals(Compact(slots)) == []
    decreases |slots|
  {
    if |slots| > 0 {
      InjectedHaveNoOriginals(slots[1..]);
      OriginalsAppend(if slots[0].Given? then [slots[0].value] else [], Compact(slots[1..]));
    }
  }

  /** A block made of injected runs around one original node contributes
      exactly that node to the originals. */
  lemma AroundOriginal(open: seq<Slot>, n: Node, close: seq<Slot>)
    requires AllInjected(open) && AllInjected(close)
    ensures Originals(Compact(open + [Given(Original(n))] + close)) == [n]
  {
    CompactAppend(open + [Given(Original(n))], close);
    CompactAppend(open, [Given(Original(n))]);
    assert Compact([Given(Original(n))]) == [Original(n)] by {
      assert [Given(Original(n))][1..] == [];
    }
    InjectedHaveNoOriginals(open);
    InjectedHaveNoOriginals(close);
    OriginalsAppend(Compact(open) + [Original(n)], Compact(close));
    OriginalsAppend(Compact(open), [Original(n)]);
    assert Originals([Original(n)]) == [n] by {
      assert [Original(n)][1..] == [];
    }
  }

  lemma TitleCloseInjected(h: Node, opts: FormatterOptions, hs: seq<TocEntry>)
    requires h.Heading?
    ensures AllInjected(TitleClose(h, opts, hs))
  {
    var toc := TocSection(opts, hs);
    assert AllInjected(toc) by {
      if EmitsToc(opts, hs) {
        var items := InjectAll(GenerateTocItems(hs[1..]));
        assert AllInjected(items);
        assert toc == [Blank, Inject(TocHeading), Blank] + items;
      }
    }
  }

  // ---------------------------------------------------------------------
  // Originals are preserved

  lemma StepOriginals(n: Node, p: bool, opts: FormatterOptions, hs: seq<TocEntry>)
    ensures Originals(Compact(Step(n, p, opts, hs))) == [n]
  {
    if p && IsHeading(n, 1) {
      TitleCloseInjected(n, opts, hs);
      AroundOriginal(TitleOpen(opts), n, TitleClose(n, opts, hs));
    } else if IsFramed(n) {
      var hr := RuleFor(n.depth, opts);
      AroundOriginal(FrameOpen(hr), n, FrameClose(hr));
    } else {
      assert Compact([Given(Original(n))]) == [Original(n)] by {
        assert [Given(Original(n))][1..] == [];
      }
      assert Originals([Original(n)]) == [n] by {
        assert [Original(n)][1..] == [];
      }
    }
  }

  lemma ConcatOriginals(x: seq<Slot>, y: seq<Slot>, front: seq<Node>, back: seq<Node>)
    requires Originals(Compact(x)) == front && Originals(Compact(y)) == back
    ensures Originals(Compact(x + y)) == front + back
  {
    CompactAppend(x, y);
    OriginalsAppend(Compact(x), Compact(y));
  }

  lemma {:induction false} RewriteOriginals(nodes: seq<Node>, p: bool, opts: FormatterOptions,
                                            hs: seq<TocEntry>)
    ensures Originals(Compact(Rewrite(nodes, p, opts, hs))) == nodes
    decreases |nodes|
  {
    if |nodes| > 0 {
      var p' := p && !IsHeading(nodes[0], 1);
      var first := Step(nodes[0], p, opts, hs);
      var rest := Rewrite(nodes[1..], p', opts, hs);
      StepOriginals(nodes[0], p, opts, hs);
      RewriteOriginals(nodes[1..], p', opts, hs);
      ConcatOriginals(first, rest, [nodes[0]], nodes[1..]);
      assert [nodes[0]] + nodes[1..] == nodes;
    }
  }

  /** Every node of the input's child list survives, unchanged and in order;
      the formatter only adds nodes around them. */
  lemma OriginalsPreserved(tree: Root, opts: FormatterOptions)
    ensures Originals(Pieces(tree, opts)) == tree.children
  {
    RewriteOriginals(tree.children, true, opts, CollectHeadings(tree, opts));
  }

  // ---------------------------------------------------------------------
  // The title is handled once, at the first top-level depth-1 heading

  lemma {:induction false} RewriteAppend(a: seq<Node>, b: seq<Node>, p: bool,
                                         opts: FormatterOptions, hs: seq<TocEntry>)
    ensures Rewrite(a + b, p, opts, hs)
         == Rewrite(a, p, opts, hs) + Rewrite(b, p && FirstTitle(a).Missing?, opts, hs)
    decreases |a|
  {
    if |a| == 0 {
      assert a + b == b;
    } else {
      var p' := p && !IsHeading(a[0], 1);
      assert (a + b)[0] == a[0];
      assert (a + b)[1..] == a[1..] + b;
      RewriteAppend(a[1..], b, p', opts, hs);
      assert (p' && FirstTitle(a[1..]).Missing?) == (p && FirstTitle(a).Missing?);
      var x := Step(a[0], p, opts, hs);
      var y := Rewrite(a[1..], p', opts, hs);
      var z := Rewrite(b, p && FirstTitle(a).Missing?, opts, hs);
      assert x + (y + z) == (x + y) + z;
    }
  }

  /** Without a depth-1 heading the pending title flag changes nothing. */
  lemma {:induction false} RewriteWithoutTitle(nodes: seq<Node>, opts: FormatterOptions,
                                               hs: seq<TocEntry>)
    requires FirstTitle(nodes).Missing?
    ensures Rewrite(nodes, true, opts, hs) == Rewrite(nodes, false, opts, hs)
    decreases |nodes|
  {
    if |nodes| > 0 {
      assert !IsHeading(nodes[0], 1);
      assert FirstTitle(nodes[1..]).Missing?;
      RewriteWithoutTitle(nodes[1..], opts, hs);
    }
  }

  /** The rewrite of the children splits at the first depth-1 heading: the
      nodes before and after it get the generic treatment and the heading
      itself gets the title block. */
  lemma TitleSplit(nodes: seq<Node>, k: nat, opts: FormatterOptions, hs: seq<TocEntry>)
    requires FirstTitle(nodes) == Given(k)
    ensures Rewrite(nodes, true, opts, hs)
         == Rewrite(nodes[..k], false, opts, hs) + TitleBlock(nodes[k], opts, hs)
            + Rewrite(nodes[k + 1..], false, opts, hs)
  {
    var before, rest := nodes[..k], nodes[k..];
    assert nodes == before + rest;
    assert FirstTitle(before).Missing?;
    RewriteAppend(before, rest, true, opts, hs);
    RewriteWithoutTitle(before, opts, hs);
    assert rest[0] == nodes[k] && rest[1..] == nodes[k + 1..];
    assert Rewrite(rest, true, opts, hs)
        == TitleBlock(nodes[k], opts, hs) + Rewrite(nodes[k + 1..], false, opts, hs);
  }

  // ---------------------------------------------------------------------
  // Documents without depth-1 or depth-2 headings come back unchanged

  /** Some top-level child is a heading of depth 1 or 2. */
  predicate AnyFramed(nodes: seq<Node>) {
    exists i :: 0 <= i < |nodes| && IsFramed(nodes[i])
  }

  function AsOriginals(nodes: seq<Node>): (r: seq<Piece>)
    ensures |r| == |nodes|
    ensures forall i :: 0 <= i < |nodes| ==> r[i] == Original(nodes[i])
  {
    seq(|nodes|, i requires 0 <= i < |nodes| => Original(nodes[i]))
  }

  /** Children other than depth-1 and depth-2 headings are passed through
      as they are. */
  lemma StepPassesThrough(n: Node, p: bool, opts: FormatterOptions, hs: seq<TocEntry>)
    requires !IsFramed(n)
    ensures Compact(Step(n, p, opts, hs)) == [Original(n)]
  {
    var first := Step(n, p, opts, hs);
    assert first == [Given(Original(n))];
    assert first[1..] == [];
  }

  lemma {:induction false} RewritePlain(nodes: seq<Node>, p: bool, opts: FormatterOptions,
                                        hs: seq<TocEntry>)
    requires !AnyFramed(nodes)
    ensures Compact(Rewrite(nodes, p, opts, hs)) == AsOriginals(nodes)
    decreases |nodes|
  {
    if |nodes| > 0 {
      var p' := p && !IsHeading(nodes[0], 1);
      assert !IsFramed(nodes[0]);
      assert !AnyFramed(nodes[1..]) by {
        forall i | 0 <= i < |nodes[1..]|
          ensures !IsFramed(nodes[1..][i])
        {
          assert nodes[1..][i] == nodes[i + 1];
        }
      }
      RewritePlain(nodes[1..], p', opts, hs);
      StepPassesThrough(nodes[0], p, opts, hs);
      CompactAppend(Step(nodes[0], p, opts, hs), Rewrite(nodes[1..], p', opts, hs));
      assert [Original(nodes[0])] + AsOriginals(nodes[1..]) == AsOriginals(nodes);
    }
  }

  /** Two different members make a sequence at least two long. */
  lemma TwoMembers<T>(s: seq<T>, x: T, y: T)
    requires x in s && y in s && x != y
    ensures |s| >= 2
  {
    var i :| 0 <= i < |s| && s[i] == x;
    var j :| 0 <= j < |s| && s[j] == y;
    assert i != j;
  }

  lemma StepGrows(n: Node, p: bool, opts: FormatterOptions, hs: seq<TocEntry>)
    ensures |Compact(Step(n, p, opts, hs))| >= 1
    ensures IsFramed(n) ==> |Compact(Step(n, p, opts, hs))| >= 2
  {
    var block := Step(n, p, opts, hs);
    var div := Injected(Html(DivOpen));
    assert Given(Original(n)) in block;
    assert IsFramed(n) ==> Given(div) in block by {
      if p && IsHeading(n, 1) {
        assert TitleOpen(opts)[0] == Given(div);
      } else if IsFramed(n) {
        assert FrameOpen(RuleFor(n.depth, opts))[3] == Given(div);
      }
    }
    CompactMembers(block, Original(n));
    if IsFramed(n) {
      CompactMembers(block, div);
      TwoMembers(Compact(block), Original(n), div);
    }
  }

  lemma {:induction false} RewriteGrows(nodes: seq<Node>, p: bool, opts: FormatterOptions,
                                        hs: seq<TocEntry>)
    ensures |Compact(Rewrite(nodes, p, opts, hs))| >= |nodes|
    ensures AnyFramed(nodes) ==> |Compact(Rewrite(nodes, p, opts, hs))| > |nodes|
    decreases |nodes|
  {
    if |nodes| > 0 {
      var p' := p && !IsHeading(nodes[0], 1);
      var first := Step(nodes[0], p, opts, hs);
      var rest := Rewrite(nodes[1..], p', opts, hs);
      StepGrows(nodes[0], p, opts, hs);
      RewriteGrows(nodes[1..], p', opts, hs);
      CompactAppend(first, rest);
      if AnyFramed(nodes) && !IsFramed(nodes[0]) {
        var i :| 0 <= i < |nodes| && IsFramed(nodes[i]);
        assert nodes[1..][i - 1] == nodes[i];
      }
    }
  }

  /** The transform leaves a document alone exactly when none of its
      top-level children is a heading of depth 1 or 2. */
  lemma UnchangedIff(tree: Root, opts: FormatterOptions)
    ensures Transform(tree, opts) == tree <==> !AnyFramed(tree.children)
  {
    var hs := CollectHeadings(tree, opts);
    if AnyFramed(tree.children) {
      RewriteGrows(tree.children, true, opts, hs);
      assert |Transform(tree, opts).children| > |tree.children|;
    } else {
      RewritePlain(tree.children, true, opts, hs);
      assert NodesOf(Pieces(tree, opts)) == tree.children;
    }
  }

  // ---------------------------------------------------------------------
  // What the generic treatment injects

  /** An original node, or an injected raw-HTML node that is empty or starts
      with a tag: the only things the generic treatment of a child adds. */
  predicate Plain(p: Piece) {
    p.Original? || (p.node.Html? && (p.node.value == "" || p.node.value[0] == '<'))
  }

  predicate PlainSlots(slots: seq<Slot>) {
    forall i :: 0 <= i < |slots| && slots[i].Given? ==> Plain(slots[i].value)
  }

  lemma PlainSlotsAppend(a: seq<Slot>, b: seq<Slot>)
    requires PlainSlots(a) && PlainSlots(b)
    ensures PlainSlots(a + b)
  {
    forall i | 0 <= i < |a + b| && (a + b)[i].Given?
      ensures Plain((a + b)[i].value)
    {
      if i >= |a| {
        assert (a + b)[i] == b[i - |a|];
      }
    }
  }

  lemma RulesArePlain(style: Style, thickness: string)
    ensures Plain(Injected(CreateHr(style, thickness)))
  {
    assert CreateHr(style, thickness).value[0] == '<';
  }

  lemma StepPlain(n: Node, opts: FormatterOptions, hs: seq<TocEntry>)
    ensures PlainSlots(Step(n, false, opts, hs))
  {
    if IsFramed(n) {
      var hr := RuleFor(n.depth, opts);
      if n.depth == 1 {
        RulesArePlain(opts.h1Style, opts.h1Thickness);
      } else {
        RulesArePlain(opts.h2Style, opts.h2Thickness);
      }
      assert DivOpen[0] == '<' && DivClose[0] == '<';
      assert PlainSlots(FrameOpen(hr));
      assert PlainSlots(FrameClose(hr));
      PlainSlotsAppend(FrameOpen(hr), [Given(Original(n))]);
      PlainSlotsAppend(FrameOpen(hr) + [Given(Original(n))], FrameClose(hr));
    }
  }

  lemma {:induction false} RewritePlainSlots(nodes: seq<Node>, opts: FormatterOptions,
                                             hs: seq<TocEntry>)
    ensures PlainSlots(Rewrite(nodes, false, opts, hs))
    decreases |nodes|
  {
    if |nodes| > 0 {
      StepPlain(nodes[0], opts, hs);
      RewritePlainSlots(nodes[1..], opts, hs);
      PlainSlotsAppend(Step(nodes[0], false, opts, hs), Rewrite(nodes[1..], false, opts, hs));
    }
  }

  /** Every piece the generic treatment produces is plain. */
  lemma GenericIsPlain(nodes: seq<Node>, opts: FormatterOptions, hs: seq<TocEntry>, p: Piece)
    requires p in Compact(Rewrite(nodes, false, opts, hs))
    ensures Plain(p)
  {
    RewritePlainSlots(nodes, opts, hs);
    var slots := Rewrite(nodes, false, opts, hs);
    CompactMembers(slots, p);
    assert Given(p) in slots;
    var i :| 0 <= i < |slots| && slots[i] == Given(p);
  }

  /** The pieces of the whole output, cut at the title block. */
  lemma PiecesSplit(tree: Root, k: nat, opts: FormatterOptions)
    requires FirstTitle(tree.children) == Given(k)
    ensures Pieces(tree, opts)
         == Compact(Rewrite(tree.children[..k], false, opts, CollectHeadings(tree, opts)))
            + Compact(TitleBlock(tree.children[k], opts, CollectHeadings(tree, opts)))
            + Compact(Rewrite(tree.children[k + 1..], false, opts, CollectHeadings(tree, opts)))
  {
    var hs := CollectHeadings(tree, opts);
    var a := Rewrite(tree.children[..k], false, opts, hs);
    var t := TitleBlock(tree.children[k], opts, hs);
    var b := Rewrite(tree.children[k + 1..], false, opts, hs);
    TitleSplit(tree.children, k, opts, hs);
    CompactAppend(a + t, b);
    CompactAppend(a, t);
  }

  /** A piece that occurs in the output but is never plain comes from the
      title block, which exists only when there is a title. */
  lemma FromTitleBlock(tree: Root, opts: FormatterOptions, p: Piece)
    requires !Plain(p)
    ensures p in Pieces(tree, opts)
        <==> FirstTitle(tree.children).Given?
             && Given(p) in TitleBlock(tree.children[FirstTitle(tree.children).value], opts,
                                      CollectHeadings(tree, opts))
  {
    var hs := CollectHeadings(tree, opts);
    match FirstTitle(tree.children)
    case Missing =>
      RewriteWithoutTitle(tree.children, opts, hs);
      if p in Pieces(tree, opts) {
        GenericIsPlain(tree.children, opts, hs, p);
      }
    case Given(k) =>
      PiecesSplit(tree, k, opts);
      CompactMembers(TitleBlock(tree.children[k], opts, hs), p);
      if p in Compact(Rewrite(tree.children[..k], false, opts, hs)) {
        GenericIsPlain(tree.children[..k], opts, hs, p);
      }
      if p in Compact(Rewrite(tree.children[k + 1..], false, opts, hs)) {
        GenericIsPlain(tree.children[k + 1..], opts, hs, p);
      }
  }

  // ---------------------------------------------------------------------
  // The table of contents heading

  lemma InjectAllHtml(ns: seq<Node>, n: Node)
    requires forall i :: 0 <= i < |ns| ==> ns[i].Html?
    requires Given(Injected(n)) in InjectAll(ns)
    ensures n.Html?
  {
    var i :| 0 <= i < |ns| && InjectAll(ns)[i] == Given(Injected(n));
  }

  lemma TocHeadingInBlock(h: Node, opts: FormatterOptions, hs: seq<TocEntry>)
    requires h.Heading?
    ensures Given(Injected(TocHeading)) in TitleBlock(h, opts, hs) <==> EmitsToc(opts, hs)
  {
    var toc := TocSection(opts, hs);
    var x := Given(Injected(TocHeading));
    if EmitsToc(opts, hs) {
      assert toc[1] == x;
    } else {
      assert toc == [];
      assert x !in TitleOpen(opts);
      assert x !in TitleClose(h, opts, hs);
    }
  }

  /** The "Table of Contents" heading is emitted exactly when the document
      has a title, `generateToc` is on and more than one heading was
      collected. */
  lemma TocEmittedIff(tree: Root, opts: FormatterOptions)
    ensures Injected(TocHeading) in Pieces(tree, opts)
        <==> FirstTitle(tree.children).Given? && opts.generateToc && |Collect(tree.children)| > 1
  {
    FromTitleBlock(tree, opts, Injected(TocHeading));
    if FirstTitle(tree.children).Given? {
      var k := FirstTitle(tree.children).value;
      TocHeadingInBlock(tree.children[k], opts, CollectHeadings(tree, opts));
    }
  }

  // ---------------------------------------------------------------------
  // The subtitle line and the closing divider

  /** An injected `### …` line. */
  predicate IsSubtitle(p: Piece) {
    p.Injected? && p.node.Html? && |p.node.value| >= 4 && p.node.value[..4] == "### "
  }

  /** The first top-level depth-1 heading exists and its first inline child
      carries a value. */
  predicate HasSubtitle(nodes: seq<Node>) {
    FirstTitle(nodes).Given?
    && var h := nodes[FirstTitle(nodes).value];
       |h.inlines| > 0 && h.inlines[0].Literal?
  }

  lemma SubtitleNotPlain(p: Piece)
    requires IsSubtitle(p)
    ensures !Plain(p)
  {
    assert p.node.value[..4][0] == p.node.value[0];
  }

  lemma TocLineNotSubtitle(n: nat, e: TocEntry)
    ensures !IsSubtitle(Injected(Html(TocLine(n, e))))
  {
    var v := TocLine(n, e);
    var digits := NatToString(n);
    assert v == digits + (". [" + e.text + "](#" + e.id + ")");
    assert v[0] == digits[0];
    if |v| >= 4 {
      assert v[..4][0] == v[0];
    }
  }

  lemma TocSectionNoSubtitle(opts: FormatterOptions, hs: seq<TocEntry>, p: Piece)
    requires Given(p) in TocSection(opts, hs)
    ensures !IsSubtitle(p)
  {
    var toc := TocSection(opts, hs);
    var i :| 0 <= i < |toc| && toc[i] == Given(p);
    if i >= 3 {
      var items := GenerateTocItems(hs[1..]);
      assert p == Injected(items[i - 3]);
      TocLineNotSubtitle(i - 2, hs[1..][i - 3]);
    }
  }

  /** Inside the title block the only `### …` line is the one under the
      heading. */
  lemma SubtitleInBlock(h: Node, opts: FormatterOptions, hs: seq<TocEntry>, p: Piece)
    requires h.Heading? && IsSubtitle(p)
    ensures Given(p) in TitleBlock(h, opts, hs) <==> TitleLine(h) == Given(p)
  {
    var hr := CreateHr(opts.h1Style, opts.h1Thickness);
    RulesArePlain(opts.h1Style, opts.h1Thickness);
    SubtitleNotPlain(p);
    assert DivOpen[0] == '<' && DivClose[0] == '<' && Divider[0] == '-';
    var close := TitleClose(h, opts, hs);
    var head := [Blank, TitleLine(h), Blank, Inject(hr), Blank, Inject(Html(DivClose))];
    var tail := [Blank, Inject(Html(Divider))];
    assert close == head + TocSection(opts, hs) + tail;
    if Given(p) in TocSection(opts, hs) {
      TocSectionNoSubtitle(opts, hs, p);
    }
    assert Given(p) !in TitleOpen(opts);
  }

  /** A `### …` line appears in the output exactly when the title's first
      inline child carries a value, and it repeats that value. */
  lemma SubtitleIff(tree: Root, opts: FormatterOptions)
    ensures (exists i :: 0 <= i < |Pieces(tree, opts)| && IsSubtitle(Pieces(tree, opts)[i]))
        <==> HasSubtitle(tree.children)
    ensures HasSubtitle(tree.children)
        ==> Injected(Html("### " + tree.children[FirstTitle(tree.children).value].inlines[0].value))
            in Pieces(tree, opts)
  {
    var ps := Pieces(tree, opts);
    var hs := CollectHeadings(tree, opts);
    if exists i :: 0 <= i < |ps| && IsSubtitle(ps[i]) {
      var i :| 0 <= i < |ps| && IsSubtitle(ps[i]);
      SubtitleNotPlain(ps[i]);
      FromTitleBlock(tree, opts, ps[i]);
      var k := FirstTitle(tree.children).value;
      SubtitleInBlock(tree.children[k], opts, hs, ps[i]);
    }
    if HasSubtitle(tree.children) {
      var k := FirstTitle(tree.children).value;
      var h := tree.children[k];
      var p := Injected(Html("### " + h.inlines[0].value));
      assert ("### " + h.inlines[0].value)[..4] == "### ";
      assert IsSubtitle(p);
      SubtitleNotPlain(p);
      SubtitleInBlock(h, opts, hs, p);
      FromTitleBlock(tree, opts, p);
      var j :| 0 <= j < |ps| && ps[j] == p;
    }
  }

  /** The closing `---` divider is injected exactly when the document has a
      title. */
  lemma DividerIff(tree: Root, opts: FormatterOptions)
    ensures Injected(Html(Divider)) in Pieces(tree, opts) <==> FirstTitle(tree.children).Given?
  {
    var p := Injected(Html(Divider));
    assert Divider[0] == '-';
    FromTitleBlock(tree, opts, p);
    if FirstTitle(tree.children).Given? {
      var k := FirstTitle(tree.children).value;
      var h := tree.children[k];
      var hs := CollectHeadings(tree, opts);
      var close := TitleClose(h, opts, hs);
      assert close[|close| - 1] == Given(p);
      assert TitleBlock(h, opts, hs)[|TitleBlock(h, opts, hs)| - 1] == Given(p);
    }
  }

  // ---------------------------------------------------------------------
  // What the table of contents lists

  /** The table of contents as it should read: its heading, a blank line,
      then one numbered link for every collected heading but the first. */
  function ListedToc(hs: seq<TocEntry>): (r: seq<Piece>)
    requires |hs| > 1
    ensures |r| == |hs| + 1
  {
    [Injected(TocHeading), Injected(Html(""))]
    + seq(|hs| - 1, k requires 0 <= k < |hs| - 1 => Injected(Html(TocLine(k + 1, hs[k + 1]))))
  }

  /** Every slot is an entry. */
  predicate AllGiven(slots: seq<Slot>) {
    forall i :: 0 <= i < |slots| ==> slots[i].Given?
  }

  lemma {:induction false} CompactAllGiven(slots: seq<Slot>)
    requires AllGiven(slots)
    ensures Compact(slots) == seq(|slots|, i requires 0 <= i < |slots| && slots[i].Given? => slots[i].value)
    decreases |slots|
  {
    if |slots| > 0 {
      CompactAllGiven(slots[1..]);
    }
  }

  lemma TocSectionPieces(opts: FormatterOptions, hs: seq<TocEntry>)
    requires EmitsToc(opts, hs)
    ensures Compact(TocSection(opts, hs)) == [Injected(Html(""))] + ListedToc(hs)
  {
    var items := GenerateTocItems(hs[1..]);
    var front := [Blank, Inject(TocHeading), Blank];
    var m := seq(|items|, i requires 0 <= i < |items| => Injected(items[i]));
    var listed := ListedToc(hs)[2..];
    assert m == listed by {
      forall k | 0 <= k < |m|
        ensures m[k] == listed[k]
      {
        assert hs[1..][k] == hs[k + 1];
      }
    }
    assert AllGiven(front + InjectAll(items));
    CompactAllGiven(front + InjectAll(items));
    assert ListedToc(hs) == [Injected(TocHeading), Injected(Html(""))] + listed;
  }

  /** A run of pieces found at offset `j`. */
  predicate RunAt(ps: seq<Piece>, j: nat, run: seq<Piece>) {
    j + |run| <= |ps| && ps[j..j + |run|] == run
  }

  lemma RunInMiddle(a: seq<Piece>, run: seq<Piece>, b: seq<Piece>)
    ensures RunAt(a + run + b, |a|, run)
  {
    assert (a + run + b)[|a|..|a| + |run|] == run;
  }

  lemma RunInSplit(ps: seq<Piece>, a: seq<Piece>, t: seq<Piece>, b: seq<Piece>,
                   pre: seq<Piece>, run: seq<Piece>, post: seq<Piece>)
    requires ps == a + t + b && t == pre + run + post
    ensures RunAt(ps, |a + pre|, run)
  {
    RunInMiddle(a + pre, run, post + b);
    assert ps == (a + pre) + run + (post + b);
  }

  lemma TitleCloseAroundToc(h: Node, opts: FormatterOptions, hs: seq<TocEntry>)
    returns (pre: seq<Piece>, post: seq<Piece>)
    requires h.Heading? && EmitsToc(opts, hs)
    ensures Compact(TitleClose(h, opts, hs)) == pre + ListedToc(hs) + post
  {
    var hr := CreateHr(opts.h1Style, opts.h1Thickness);
    var head := [Blank, TitleLine(h), Blank, Inject(hr), Blank, Inject(Html(DivClose))];
    var tail := [Blank, Inject(Html(Divider))];
    CompactAppend(head + TocSection(opts, hs), tail);
    CompactAppend(head, TocSection(opts, hs));
    TocSectionPieces(opts, hs);
    pre, post := Compact(head) + [Injected(Html(""))], Compact(tail);
  }

  lemma TitleBlockAroundToc(h: Node, opts: FormatterOptions, hs: seq<TocEntry>)
    returns (pre: seq<Piece>, post: seq<Piece>)
    requires h.Heading? && EmitsToc(opts, hs)
    ensures Compact(TitleBlock(h, opts, hs)) == pre + ListedToc(hs) + post
  {
    var closePre, closePost := TitleCloseAroundToc(h, opts, hs);
    CompactAppend(TitleOpen(opts) + [Given(Original(h))], TitleClose(h, opts, hs));
    pre, post := Compact(TitleOpen(opts) + [Given(Original(h))]) + closePre, closePost;
  }

  /** When the table of contents is emitted it appears as one contiguous
      run: its heading, a blank line, and the links to the second and later
      collected headings, numbered from 1. */
  lemma TocListed(tree: Root, opts: FormatterOptions)
    requires FirstTitle(tree.children).Given? && opts.generateToc && |Collect(tree.children)| > 1
    ensures exists j :: RunAt(Pieces(tree, opts), j, ListedToc(Collect(tree.children)))
  {
    var k := FirstTitle(tree.children).value;
    var hs := CollectHeadings(tree, opts);
    var toc := ListedToc(hs);
    PiecesSplit(tree, k, opts);
    var pre, post := TitleBlockAroundToc(tree.children[k], opts, hs);
    var a := Compact(Rewrite(tree.children[..k], false, opts, hs));
    var b := Compact(Rewrite(tree.children[k + 1..], false, opts, hs));
    RunInSplit(Pieces(tree, opts), a, Compact(TitleBlock(tree.children[k], opts, hs)), b,
               pre, toc, post);
  }

  // ---------------------------------------------------------------------
  // The title block

  /** The `### …` piece under the title, when the first inline child
      carries a value. */
  function SubtitlePieces(h: Node): seq<Piece>
    requires h.Heading?
  {
    if |h.inlines| > 0 && h.inlines[0].Literal? then [Injected(Html("### " + h.inlines[0].value))]
    else []
  }

  /** The table-of-contents pieces under the title, when it is emitted. */
  function TocPieces(opts: FormatterOptions, hs: seq<TocEntry>): seq<Piece> {
    if EmitsToc(opts, hs) then [Injected(Html(""))] + ListedToc(hs) else []
  }

  /** The title block as it should read: the centred heading between two
      rules in the h1 style, the optional `### …` line, the optional table
      of contents and the closing divider. */
  function TitlePieces(h: Node, opts: FormatterOptions, hs: seq<TocEntry>): seq<Piece>
    requires h.Heading?
  {
    var blank := Injected(Html(""));
    var hr := Injected(CreateHr(opts.h1Style, opts.h1Thickness));
    [Injected(Html(DivOpen)), blank, hr, blank, Original(h)]
    + ([blank] + SubtitlePieces(h) + [blank, hr, blank, Injected(Html(DivClose))])
    + TocPieces(opts, hs)
    + [blank, Injected(Html(Divider))]
  }

  lemma TitleHeadPieces(h: Node, opts: FormatterOptions)
    requires h.Heading?
    ensures var blank, hr := Injected(Html("")), Injected(CreateHr(opts.h1Style, opts.h1Thickness));
      Compact([Blank, TitleLine(h), Blank, Inject(CreateHr(opts.h1Style, opts.h1Thickness)), Blank,
               Inject(Html(DivClose))])
      == [blank] + SubtitlePieces(h) + [blank, hr, blank, Injected(Html(DivClose))]
  {
    var rest := [Blank, Inject(CreateHr(opts.h1Style, opts.h1Thickness)), Blank, Inject(Html(DivClose))];
    assert [Blank, TitleLine(h)] + rest
        == [Blank, TitleLine(h), Blank, Inject(CreateHr(opts.h1Style, opts.h1Thickness)), Blank,
            Inject(Html(DivClose))];
    CompactAppend([Blank, TitleLine(h)], rest);
    CompactAppend([Blank], [TitleLine(h)]);
    assert AllGiven(rest);
    CompactAllGiven(rest);
    assert AllGiven([Blank]);
    CompactAllGiven([Blank]);
  }

  lemma TocPiecesOfSection(opts: FormatterOptions, hs: seq<TocEntry>)
    ensures Compact(TocSection(opts, hs)) == TocPieces(opts, hs)
  {
    if EmitsToc(opts, hs) {
      TocSectionPieces(opts, hs);
    }
  }

  lemma TitleOpenPieces(h: Node, opts: FormatterOptions)
    ensures Compact(TitleOpen(opts) + [Given(Original(h))])
         == [Injected(Html(DivOpen)), Injected(Html("")), Injected(CreateHr(opts.h1Style, opts.h1Thickness)),
             Injected(Html("")), Original(h)]
  {
    var open := TitleOpen(opts) + [Given(Original(h))];
    assert AllGiven(open);
    CompactAllGiven(open);
  }

  lemma TitleClosePieces(h: Node, opts: FormatterOptions, hs: seq<TocEntry>)
    requires h.Heading?
    ensures var blank, hr := Injected(Html("")), Injected(CreateHr(opts.h1Style, opts.h1Thickness));
      Compact(TitleClose(h, opts, hs))
      == ([blank] + SubtitlePieces(h) + [blank, hr, blank, Injected(Html(DivClose))])
         + TocPieces(opts, hs) + [blank, Injected(Html(Divider))]
  {
    var hr := CreateHr(opts.h1Style, opts.h1Thickness);
    var head := [Blank, TitleLine(h), Blank, Inject(hr), Blank, Inject(Html(DivClose))];
    var toc := TocSection(opts, hs);
    var tail := [Blank, Inject(Html(Divider))];
    CompactAppend(head + toc, tail);
    CompactAppend(head, toc);
    assert AllGiven(tail);
    CompactAllGiven(tail);
    TitleHeadPieces(h, opts);
    TocPiecesOfSection(opts, hs);
  }

  /** The first top-level depth-1 heading becomes exactly the title block,
      with both rules in the h1 style and thickness. */
  lemma TitleBlockPieces(h: Node, opts: FormatterOptions, hs: seq<TocEntry>)
    requires h.Heading?
    ensures Compact(TitleBlock(h, opts, hs)) == TitlePieces(h, opts, hs)
  {
    var open := TitleOpen(opts) + [Given(Original(h))];
    CompactAppend(open, TitleClose(h, opts, hs));
    TitleOpenPieces(h, opts);
    TitleClosePieces(h, opts, hs);
    var blank, hr := Injected(Html("")), Injected(CreateHr(opts.h1Style, opts.h1Thickness));
    var x := [Injected(Html(DivOpen)), blank, hr, blank, Original(h)];
    var y := [blank] + SubtitlePieces(h) + [blank, hr, blank, Injected(Html(DivClose))];
    var z, w := TocPieces(opts, hs), [blank, Injected(Html(Divider))];
    assert x + (y + z + w) == x + y + z + w;
  }

  // ---------------------------------------------------------------------
  // Headings other than the title

  /** The decorated block around a non-title heading, as it should read. */
  function FramedPieces(h: Node, hr: Node): seq<Piece> {
    var blank := Injected(Html(""));
    [blank, Injected(hr), blank, Injected(Html(DivOpen)), blank, Original(h),
     blank, Injected(Html(DivClose)), blank, Injected(hr)]
  }

  /** A depth-1 heading that is not the title, or any depth-2 heading,
      becomes the ten-entry centred block with the rule of its level; every
      other child stays alone. */
  lemma HeadingBlocks(n: Node, p: bool, opts: FormatterOptions, hs: seq<TocEntry>)
    ensures IsHeading(n, 1) && !p
        ==> Compact(Step(n, p, opts, hs)) == FramedPieces(n, CreateHr(opts.h1Style, opts.h1Thickness))
    ensures IsHeading(n, 2)
        ==> Compact(Step(n, p, opts, hs)) == FramedPieces(n, CreateHr(opts.h2Style, opts.h2Thickness))
    ensures !IsHeading(n, 1) && !IsHeading(n, 2) ==> Compact(Step(n, p, opts, hs)) == [Original(n)]
  {
    if IsFramed(n) && !(p && IsHeading(n, 1)) {
      var block := Step(n, p, opts, hs);
      assert AllGiven(block);
      CompactAllGiven(block);
    } else if !IsFramed(n) {
      StepPassesThrough(n, p, opts, hs);
    }
  }

  // ---------------------------------------------------------------------
  // The rule line

  const RulePrefix := "<hr style=\"border: "
  const RuleSuffix := ";\">"

  predicate EndsWith(s: string, suffix: string) {
    |suffix| <= |s| && s[|s| - |suffix|..] == suffix
  }

  /** The position of the last space, or -1. */
  function LastSpace(s: string): (r: int)
    ensures -1 <= r < |s|
    ensures r >= 0 ==> s[r] == ' '
    decreases |s|
  {
    if |s| == 0 then -1
    else if s[|s| - 1] == ' ' then |s| - 1
    else LastSpace(s[..|s| - 1])
  }

  /** Reads back the border style and thickness from a rule line: the
      border is everything between the fixed prefix and suffix, and its
      last space separates the thickness from the style name. */
  function ParseRule(v: string): Maybe<(Style, string)> {
    if |v| < |RulePrefix| + |RuleSuffix| || v[..|RulePrefix|] != RulePrefix
       || !EndsWith(v, RuleSuffix)
    then Missing
    else
      var border := v[|RulePrefix|..|v| - |RuleSuffix|];
      var i := LastSpace(border);
      if i < 0 then Missing
      else match ParseStyle(border[i + 1..])
        case Missing => Missing
        case Given(style) => Given((style, border[..i]))
  }

  lemma EndsWithAppend(a: string, b: string)
    ensures EndsWith(a + b, b)
  {
    assert (a + b)[|a + b| - |b|..] == b;
  }

  /** The `T S` border written into the rule line. */
  function Border(style: Style, thickness: string): string {
    thickness + " " + StyleName(style)
  }

  /** The last space of `t + " " + name` is the separator when `name` has
      none. */
  lemma {:induction false} LastSpaceBefore(t: string, name: string)
    requires forall i :: 0 <= i < |name| ==> name[i] != ' '
    ensures LastSpace(t + " " + name) == |t|
    decreases |name|
  {
    var s := t + " " + name;
    if |name| == 0 {
      assert s[|s| - 1] == ' ';
    } else {
      var shorter := name[..|name| - 1];
      assert s[|s| - 1] == name[|name| - 1];
      assert s[..|s| - 1] == t + " " + shorter;
      LastSpaceBefore(t, shorter);
    }
  }

  lemma StyleNamesHaveNoSpace(style: Style)
    ensures forall i :: 0 <= i < |StyleName(style)| ==> StyleName(style)[i] != ' '
  {
  }

  /** Splits a rule line into its fixed prefix, its border and its fixed
      suffix. */
  lemma RuleParts(style: Style, thickness: string)
    ensures var v := CreateHr(style, thickness).value;
            |v| >= |RulePrefix| + |RuleSuffix|
            && v[..|RulePrefix|] == RulePrefix && EndsWith(v, RuleSuffix)
            && v[|RulePrefix|..|v| - |RuleSuffix|] == Border(style, thickness)
  {
    var border := Border(style, thickness);
    var v := CreateHr(style, thickness).value;
    assert v == RulePrefix + border + RuleSuffix;
    assert v[..|RulePrefix|] == RulePrefix;
    EndsWithAppend(RulePrefix + border, RuleSuffix);
    assert v[|RulePrefix|..|v| - |RuleSuffix|] == border;
  }

  lemma BorderParts(style: Style, thickness: string)
    ensures LastSpace(Border(style, thickness)) == |thickness|
    ensures Border(style, thickness)[|thickness| + 1..] == StyleName(style)
    ensures Border(style, thickness)[..|thickness|] == thickness
  {
    StyleNamesHaveNoSpace(style);
    LastSpaceBefore(thickness, StyleName(style));
  }

  /** The rule line carries its style and thickness verbatim and both can be
      read back; in particular the style `none` is written out rather than
      suppressing the line. */
  lemma RuleRoundTrip(style: Style, thickness: string)
    ensures ParseRule(CreateHr(style, thickness).value) == Given((style, thickness))
  {
    RuleParts(style, thickness);
    BorderParts(style, thickness);
    StyleNameRoundTrip(style);
  }

  /** Different styles or thicknesses give different rule lines. */
  lemma RuleInjective(s1: Style, t1: string, s2: Style, t2: string)
    requires CreateHr(s1, t1) == CreateHr(s2, t2)
    ensures s1 == s2 && t1 == t2
  {
    RuleRoundTrip(s1, t1);
    RuleRoundTrip(s2, t2);
  }

  // ---------------------------------------------------------------------
  // Options that change nothing

  lemma {:induction false} RewriteIgnoresSwitches(nodes: seq<Node>, p: bool, opts: FormatterOptions,
                                                  center: bool, rules: bool, hs: seq<TocEntry>)
    ensures Rewrite(nodes, p, opts, hs)
         == Rewrite(nodes, p, opts.(centerHeaders := center, addHrLines := rules), hs)
    decreases |nodes|
  {
    if |nodes| > 0 {
      RewriteIgnoresSwitches(nodes[1..], p && !IsHeading(nodes[0], 1), opts, center, rules, hs);
    }
  }

  /** `centerHeaders` and `addHrLines` are carried in the options but the
      transform never reads them. */
  lemma SwitchesIgnored(tree: Root, opts: FormatterOptions, center: bool, rules: bool)
    ensures Transform(tree, opts) == Transform(tree, opts.(centerHeaders := center, addHrLines := rules))
  {
    RewriteIgnoresSwitches(tree.children, true, opts, center, rules, CollectHeadings(tree, opts));
  }

  /** The table of contents reads only the text and id of each entry: the
      depth has no effect on it. */
  lemma TocIgnoresDepth(hs: seq<TocEntry>, depths: seq<Depth>)
    requires |depths| == |hs|
    ensures GenerateTocItems(hs)
         == GenerateTocItems(seq(|hs|, i requires 0 <= i < |hs| => hs[i].(depth := depths[i])))
  {
    var other := seq(|hs|, i requires 0 <= i < |hs| => hs[i].(depth := depths[i]));
    forall k | 0 <= k < |hs|
      ensures TocLine(k + 1, hs[k]) == TocLine(k + 1, other[k])
    {
      assert other[k].text == hs[k].text && other[k].id == hs[k].id;
    }
  }

  // ---------------------------------------------------------------------
  // The collection pass

  lemma {:induction false} CollectAppend(a: seq<Node>, b: seq<Node>)
    ensures Collect(a + b) == Collect(a) + Collect(b)
    decreases |a|
  {
    if |a| == 0 {
      assert a + b == b;
    } else {
      assert (a + b)[0] == a[0];
      assert (a + b)[1..] == a[1..] + b;
      CollectAppend(a[1..], b);
      var x := CollectNode(a[0]);
      assert x + (Collect(a[1..]) + Collect(b)) == (x + Collect(a[1..])) + Collect(b);
    }
  }

  /** The walk visits the children in order and each child in place, so
      the headings inside a container are listed where the container
      stands. */
  lemma CollectAt(nodes: seq<Node>, i: nat)
    requires i < |nodes|
    ensures Collect(nodes) == Collect(nodes[..i]) + CollectNode(nodes[i]) + Collect(nodes[i + 1..])
  {
    var single := [nodes[i]];
    var after := nodes[i + 1..];
    assert nodes == nodes[..i] + (single + after);
    CollectAppend(nodes[..i], single + after);
    CollectAppend(single, after);
    assert Collect(single) == CollectNode(nodes[i]) by {
      assert single[1..] == [];
    }
  }

  /** Every collected entry links to the slug of its own text. */
  lemma {:induction false} CollectedIdsAreSlugs(nodes: seq<Node>)
    ensures forall i :: 0 <= i < |Collect(nodes)| ==> Collect(nodes)[i].id == Slug.Slugify(Collect(nodes)[i].text)
    decreases nodes, 0
  {
    if |nodes| > 0 {
      CollectedIdsAreSlugs(nodes[1..]);
      var n := nodes[0];
      assert forall i :: 0 <= i < |CollectNode(n)| ==> CollectNode(n)[i].id == Slug.Slugify(CollectNode(n)[i].text) by {
        NodeIdsAreSlugs(n);
      }
    }
  }

  lemma {:induction false} NodeIdsAreSlugs(n: Node)
    ensures forall i :: 0 <= i < |CollectNode(n)| ==> CollectNode(n)[i].id == Slug.Slugify(CollectNode(n)[i].text)
    decreases n, 1
  {
    if n.Container? {
      CollectedIdsAreSlugs(n.children);
    }
  }
}
