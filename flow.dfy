/** The story being built for the PDF and the buffered heading system in front of it, as a pure
    state machine: the specification the imperative composer is proved against. */
module Flow {
  import opened Strings
  import opened Anchors

  datatype Level = H1 | H2 | H3

  /** The paragraph styles the script uses (`S['h1']`, `S['body']`, `S['te']`, …). */
  datatype Style = Heading(level: Level) | Body | BodySmall | TocEntry | TocSubEntry

  datatype Severity = Note | Info | Warning | Critical

  /** The flowables of the PDF library, each kept as the arguments it was built from. */
  datatype Block =
    | Paragraph(markup: string, style: Style)
    | AccentBar(barWidth: real, thickness: int)
    | Spacer(breadth: int, height: int)
    | CalloutBox(text: string, severity: Severity, title: string)
    | CodeBlock(text: string, language: string)
    | CardTable(headers: seq<string>, rows: seq<seq<string>>, colWidths: seq<real>,
                tableWidth: real, highlightCols: Option<seq<int>>)
    | StepIndicator(step: int, title: string, description: string, isLast: bool)
    | PageBreak

  /** An entry of `story`: a flowable on its own, or a `KeepTogether` group of flowables. */
  datatype Item = Single(block: Block) | KeepTogether(blocks: seq<Block>)

  /** `story` and `_pending_heading`. */
  datatype FlowState = FlowState(story: seq<Item>, pending: seq<Block>)

  /** The operations of the buffered heading system, plus a direct `story.append`. */
  datatype Call =
    | HeadingCall(level: Level, text: string, anchor: string)
    | ContentCall(block: Block)
    | SpacerCall(height: int)
    | FlushCall
    | DirectAppend(item: Block)

  // ---------------------------------------------------------------------------
  // Blocks and items
  // ---------------------------------------------------------------------------

  /** `<a name="{anchor}"/>`, the link target put in front of every heading. */
  function NameTag(anchor: string): string
  {
    "<a name=\"" + anchor + "\"/>"
  }

  /** The heading paragraph `f'<a name="{anchor}"/>{text}'` in the level's style. */
  function Title(level: Level, text: string, anchor: string): Block
  {
    Paragraph(NameTag(anchor) + text, Heading(level))
  }

  /** The three blocks a heading call loads into the buffer. */
  function Decoration(level: Level, text: string, anchor: string, cw: real): seq<Block>
  {
    match level
    case H1 => [Title(H1, text, anchor), AccentBar(cw, 1), Spacer(1, 12)]
    case H2 => [Spacer(1, 16), Title(H2, text, anchor), Spacer(1, 6)]
    case H3 => [Spacer(1, 12), Title(H3, text, anchor), Spacer(1, 4)]
  }

  /** A heading call as the script makes it: the anchor is `_make_anchor(text)`. */
  function HeadingOf(level: Level, text: string): Call
  {
    HeadingCall(level, text, MakeAnchor(text))
  }

  function Blocks(it: Item): seq<Block>
  {
    match it
    case Single(b) => [b]
    case KeepTogether(bs) => bs
  }

  /** The flowables of a story in reading order, groups opened up. */
  function Flatten(items: seq<Item>): seq<Block>
  {
    if items == [] then [] else Blocks(items[0]) + Flatten(items[1..])
  }

  /** Each block as an item of its own, in order. */
  function Singles(bs: seq<Block>): seq<Item>
  {
    if bs == [] then [] else [Single(bs[0])] + Singles(bs[1..])
  }

  // ---------------------------------------------------------------------------
  // The operations
  // ---------------------------------------------------------------------------

  /** `_flush_heading`: the buffered blocks go to the story one by one, unwrapped. */
  function Flushed(st: FlowState): FlowState
  {
    FlowState(st.story + Singles(st.pending), [])
  }

  /** `_flush_heading_with`: the buffer and the block become one group; with an empty buffer the
      block goes alone. */
  function FlushedWith(st: FlowState, b: Block): FlowState
  {
    if st.pending != [] then FlowState(st.story + [KeepTogether(st.pending + [b])], [])
    else FlowState(st.story + [Single(b)], [])
  }

  function Step(st: FlowState, c: Call, cw: real): FlowState
  {
    match c
    case HeadingCall(level, text, anchor) =>
      var f := Flushed(st);
      var s := if level == H1 then f.story + [Single(PageBreak)] else f.story;
      FlowState(s, Decoration(level, text, anchor, cw))
    case ContentCall(b) => FlushedWith(st, b)
    case SpacerCall(h) => FlowState(Flushed(st).story + [Single(Spacer(1, h))], [])
    case FlushCall => Flushed(st)
    case DirectAppend(b) => FlowState(st.story + [Single(b)], st.pending)
  }

  /** The blocks a call brings into the document. */
  function Created(c: Call, cw: real): seq<Block>
  {
    match c
    case HeadingCall(level, text, anchor) =>
      (if level == H1 then [PageBreak] else []) + Decoration(level, text, anchor, cw)
    case ContentCall(b) => [b]
    case SpacerCall(h) => [Spacer(1, h)]
    case FlushCall => []
    case DirectAppend(b) => [b]
  }

  function Run(st: FlowState, calls: seq<Call>, cw: real): FlowState
    decreases |calls|
  {
    if calls == [] then st else Run(Step(st, calls[0], cw), calls[1..], cw)
  }

  function CreatedAll(calls: seq<Call>, cw: real): seq<Block>
    decreases |calls|
  {
    if calls == [] then [] else Created(calls[0], cw) + CreatedAll(calls[1..], cw)
  }

  /** Direct appends happen only while no heading is buffered (true of every one in the script). */
  predicate Disciplined(st: FlowState, calls: seq<Call>, cw: real)
    decreases |calls|
  {
    calls == [] ||
    ((calls[0].DirectAppend? ==> st.pending == []) && Disciplined(Step(st, calls[0], cw), calls[1..], cw))
  }

  // ---------------------------------------------------------------------------
  // The invariant: the buffer is empty or exactly one heading's three blocks, and every group in
  // the story is one heading's three blocks followed by one content block
  // ---------------------------------------------------------------------------

  predicate IsTitle(b: Block, level: Level)
  {
    b.Paragraph? && b.style == Heading(level)
  }

  predicate IsDecoration(bs: seq<Block>, cw: real)
  {
    |bs| == 3 &&
    ((IsTitle(bs[0], H1) && bs[1] == AccentBar(cw, 1) && bs[2] == Spacer(1, 12)) ||
     (bs[0] == Spacer(1, 16) && IsTitle(bs[1], H2) && bs[2] == Spacer(1, 6)) ||
     (bs[0] == Spacer(1, 12) && IsTitle(bs[1], H3) && bs[2] == Spacer(1, 4)))
  }

  predicate GroupsBonded(items: seq<Item>, cw: real)
  {
    forall i :: 0 <= i < |items| && items[i].KeepTogether? ==>
      |items[i].blocks| == 4 && IsDecoration(items[i].blocks[..3], cw)
  }

  predicate Valid(st: FlowState, cw: real)
  {
    (st.pending == [] || IsDecoration(st.pending, cw)) && GroupsBonded(st.story, cw)
  }

  // ---------------------------------------------------------------------------
  // Helpers on items
  // ---------------------------------------------------------------------------

  lemma {:induction false} FlattenAppend(a: seq<Item>, b: seq<Item>)
    ensures Flatten(a + b) == Flatten(a) + Flatten(b)
  {
    if a == [] {
      assert a + b == b;
    } else {
      assert (a + b)[1..] == a[1..] + b;
      FlattenAppend(a[1..], b);
    }
  }

  lemma {:induction false} FlattenSingles(bs: seq<Block>)
    ensures Flatten(Singles(bs)) == bs
  {
    if bs != [] {
      FlattenSingles(bs[1..]);
      assert [Single(bs[0])] + Singles(bs[1..]) == Singles(bs);
      FlattenAppend([Single(bs[0])], Singles(bs[1..]));
      assert Flatten([Single(bs[0])]) == [bs[0]];
    }
  }

  lemma {:induction false} SinglesAppend(a: seq<Block>, b: seq<Block>)
    ensures Singles(a + b) == Singles(a) + Singles(b)
  {
    if a == [] {
      assert a + b == b;
    } else {
      assert (a + b)[1..] == a[1..] + b;
      SinglesAppend(a[1..], b);
    }
  }

  lemma {:induction false} SinglesUngrouped(bs: seq<Block>)
    ensures |Singles(bs)| == |bs|
    ensures forall i :: 0 <= i < |bs| ==> Singles(bs)[i] == Single(bs[i])
  {
    if bs != [] {
      SinglesUngrouped(bs[1..]);
    }
  }

  lemma FlattenOne(it: Item)
    ensures Flatten([it]) == Blocks(it)
  {
    assert [it][1..] == [];
  }

  lemma GroupsBondedAppend(a: seq<Item>, b: seq<Item>, cw: real)
    requires GroupsBonded(a, cw) && GroupsBonded(b, cw)
    ensures GroupsBonded(a + b, cw)
  {
    forall i | 0 <= i < |a + b| && (a + b)[i].KeepTogether?
      ensures |(a + b)[i].blocks| == 4 && IsDecoration((a + b)[i].blocks[..3], cw)
    {
      if i >= |a| { assert (a + b)[i] == b[i - |a|]; }
    }
  }

  lemma SinglesBonded(bs: seq<Block>, cw: real)
    ensures GroupsBonded(Singles(bs), cw)
  {
    SinglesUngrouped(bs);
  }

  lemma FlushedBonded(st: FlowState, cw: real)
    requires GroupsBonded(st.story, cw)
    ensures GroupsBonded(Flushed(st).story, cw)
  {
    SinglesBonded(st.pending, cw);
    GroupsBondedAppend(st.story, Singles(st.pending), cw);
  }

  // ---------------------------------------------------------------------------
  // One call
  // ---------------------------------------------------------------------------

  /** Every heading call leaves exactly one heading's decoration in the buffer. */
  lemma DecorationShape(level: Level, text: string, anchor: string, cw: real)
    ensures IsDecoration(Decoration(level, text, anchor, cw), cw)
  {
  }

  /** `_flush_heading` keeps every buffered block, in order, after the old story. */
  lemma FlushKeepsBlocks(st: FlowState)
    ensures Flatten(Flushed(st).story) == Flatten(st.story) + st.pending
  {
    FlattenAppend(st.story, Singles(st.pending));
    FlattenSingles(st.pending);
  }

  /** `_flush_heading` puts each buffered block outside any group, one item per block. */
  lemma FlushEmitsUnwrapped(st: FlowState)
    ensures var f := Flushed(st);
      |f.story| == |st.story| + |st.pending| &&
      forall i :: |st.story| <= i < |f.story| ==> f.story[i] == Single(st.pending[i - |st.story|])
  {
    SinglesUngrouped(st.pending);
  }

  /** A heading call: the old buffer goes out unwrapped; an H1 adds one page break right after it;
      the buffer then holds the new heading's three blocks. */
  lemma HeadingStep(st: FlowState, level: Level, text: string, anchor: string, cw: real)
    ensures var n := Step(st, HeadingCall(level, text, anchor), cw);
      n.pending == Decoration(level, text, anchor, cw) &&
      n.story == st.story + Singles(st.pending) + (if level == H1 then [Single(PageBreak)] else []) &&
      Flatten(n.story) == Flatten(st.story) + st.pending + (if level == H1 then [PageBreak] else [])
  {
    var f := Flushed(st);
    FlushKeepsBlocks(st);
    if level == H1 {
      FlattenAppend(f.story, [Single(PageBreak)]);
      FlattenOne(Single(PageBreak));
    } else {
      assert f.story + [] == f.story;
    }
  }

  /** A content call adds exactly one item and empties the buffer; the item is a group of the
      buffer and the block exactly when the buffer was not empty. */
  lemma ContentStep(st: FlowState, b: Block, cw: real)
    ensures var n := Step(st, ContentCall(b), cw);
      n.pending == [] && |n.story| == |st.story| + 1 && n.story[..|st.story|] == st.story &&
      Blocks(n.story[|st.story|]) == st.pending + [b] &&
      (n.story[|st.story|].KeepTogether? <==> st.pending != [])
  {
    var n := Step(st, ContentCall(b), cw);
    assert n.story[..|st.story|] == st.story;
    if st.pending == [] {
      assert st.pending + [b] == [b];
    }
  }

  /** A heading followed directly by a content block (a paragraph, a box, a table or a step
      indicator): the heading's three blocks and the block end up as one group at the end of the
      story, so a page break can never separate them. */
  lemma HeadingBondsWithNext(st: FlowState, level: Level, text: string, anchor: string, b: Block, cw: real)
    ensures var n := Step(Step(st, HeadingCall(level, text, anchor), cw), ContentCall(b), cw);
      n.pending == [] && |n.story| > 0 &&
      n.story[|n.story| - 1] == KeepTogether(Decoration(level, text, anchor, cw) + [b])
  {
    var m := Step(st, HeadingCall(level, text, anchor), cw);
    assert m.pending == Decoration(level, text, anchor, cw);
    ContentStep(m, b, cw);
  }

  /** `spacer(h)`: the buffer is emptied unwrapped and a standalone spacer becomes the last item. */
  lemma SpacerStep(st: FlowState, h: int, cw: real)
    ensures var n := Step(st, SpacerCall(h), cw);
      n.pending == [] && n.story == st.story + Singles(st.pending) + [Single(Spacer(1, h))] &&
      Flatten(n.story) == Flatten(st.story) + st.pending + [Spacer(1, h)]
  {
    var f := Flushed(st);
    FlushKeepsBlocks(st);
    FlattenAppend(f.story, [Single(Spacer(1, h))]);
    FlattenOne(Single(Spacer(1, h)));
  }

  /** `_flush_heading_with` keeps the buffered blocks and adds the content block after them. */
  lemma ContentKeepsBlocks(st: FlowState, b: Block)
    ensures Flatten(FlushedWith(st, b).story) == Flatten(st.story) + st.pending + [b]
  {
    var it := if st.pending != [] then KeepTogether(st.pending + [b]) else Single(b);
    assert FlushedWith(st, b).story == st.story + [it];
    FlattenAppend(st.story, [it]);
    FlattenOne(it);
    if st.pending == [] {
      assert st.pending + [b] == [b];
    }
  }

  /** Conservation for one call: the blocks of story-then-buffer only grow at the end, by exactly
      the blocks the call creates. */
  lemma StepConserves(st: FlowState, c: Call, cw: real)
    requires c.DirectAppend? ==> st.pending == []
    ensures var n := Step(st, c, cw);
      Flatten(n.story) + n.pending == Flatten(st.story) + st.pending + Created(c, cw)
  {
    var n := Step(st, c, cw);
    match c
    case HeadingCall(level, text, anchor) =>
      HeadingStep(st, level, text, anchor, cw);
    case ContentCall(b) =>
      ContentKeepsBlocks(st, b);
    case SpacerCall(h) =>
      SpacerStep(st, h, cw);
    case FlushCall =>
      FlushKeepsBlocks(st);
    case DirectAppend(b) =>
      FlattenAppend(st.story, [Single(b)]);
      FlattenOne(Single(b));
  }

  /** The story only grows: earlier items are never changed or removed. */
  lemma StepExtendsStory(st: FlowState, c: Call, cw: real)
    ensures st.story <= Step(st, c, cw).story
  {
  }

  /** Every call keeps the invariant; in particular the buffer holds 0 or 3 blocks. */
  lemma StepKeepsValid(st: FlowState, c: Call, cw: real)
    requires Valid(st, cw)
    ensures Valid(Step(st, c, cw), cw)
    ensures |Step(st, c, cw).pending| == 0 || |Step(st, c, cw).pending| == 3
  {
    var n := Step(st, c, cw);
    match c
    case HeadingCall(level, text, anchor) =>
      FlushedBonded(st, cw);
      if level == H1 {
        GroupsBondedAppend(Flushed(st).story, [Single(PageBreak)], cw);
      }
      DecorationShape(level, text, anchor, cw);
    case ContentCall(b) =>
      if st.pending != [] {
        var g := KeepTogether(st.pending + [b]);
        assert g.blocks[..3] == st.pending;
        GroupsBondedAppend(st.story, [g], cw);
      } else {
        GroupsBondedAppend(st.story, [Single(b)], cw);
      }
    case SpacerCall(h) =>
      FlushedBonded(st, cw);
      GroupsBondedAppend(Flushed(st).story, [Single(Spacer(1, h))], cw);
    case FlushCall =>
      FlushedBonded(st, cw);
    case DirectAppend(b) =>
      GroupsBondedAppend(st.story, [Single(b)], cw);
  }

  // ---------------------------------------------------------------------------
  // Call sequences
  // ---------------------------------------------------------------------------

  lemma {:induction false} RunAppend(st: FlowState, a: seq<Call>, b: seq<Call>, cw: real)
    ensures Run(st, a + b, cw) == Run(Run(st, a, cw), b, cw)
    decreases |a|
  {
    if a == [] {
      assert a + b == b;
    } else {
      assert (a + b)[0] == a[0] && (a + b)[1..] == a[1..] + b;
      RunAppend(Step(st, a[0], cw), a[1..], b, cw);
    }
  }

  /** Conservation over any disciplined call sequence: nothing is lost, duplicated or reordered. */
  lemma {:induction false} RunConserves(st: FlowState, calls: seq<Call>, cw: real)
    requires Disciplined(st, calls, cw)
    ensures var n := Run(st, calls, cw);
      Flatten(n.story) + n.pending == Flatten(st.story) + st.pending + CreatedAll(calls, cw)
    decreases |calls|
  {
    if calls != [] {
      var s1 := Step(st, calls[0], cw);
      StepConserves(st, calls[0], cw);
      RunConserves(s1, calls[1..], cw);
    }
  }

  lemma {:induction false} RunKeepsValid(st: FlowState, calls: seq<Call>, cw: real)
    requires Valid(st, cw)
    ensures Valid(Run(st, calls, cw), cw)
    decreases |calls|
  {
    if calls != [] {
      StepKeepsValid(st, calls[0], cw);
      RunKeepsValid(Step(st, calls[0], cw), calls[1..], cw);
    }
  }

  lemma {:induction false} RunExtendsStory(st: FlowState, calls: seq<Call>, cw: real)
    ensures st.story <= Run(st, calls, cw).story
    decreases |calls|
  {
    if calls != [] {
      StepExtendsStory(st, calls[0], cw);
      RunExtendsStory(Step(st, calls[0], cw), calls[1..], cw);
    }
  }

  lemma DisciplinedAppendFlush(st: FlowState, calls: seq<Call>, cw: real)
    requires Disciplined(st, calls, cw)
    ensures Disciplined(st, calls + [FlushCall], cw)
    decreases |calls|
  {
    if calls == [] {
      assert [] + [FlushCall] == [FlushCall];
    } else {
      assert (calls + [FlushCall])[1..] == calls[1..] + [FlushCall];
      DisciplinedAppendFlush(Step(st, calls[0], cw), calls[1..], cw);
    }
  }

  lemma CreatedAllAppend(a: seq<Call>, b: seq<Call>, cw: real)
    ensures CreatedAll(a + b, cw) == CreatedAll(a, cw) + CreatedAll(b, cw)
    decreases |a|
  {
    if a == [] {
      assert a + b == b;
    } else {
      assert (a + b)[1..] == a[1..] + b;
      CreatedAllAppend(a[1..], b, cw);
    }
  }

  /** The final `_flush_heading()`: from an empty document, after any disciplined sequence of calls
      and the closing flush, nothing is left buffered, the story holds every created block in
      creation order, and the invariant holds. */
  lemma FinalFlushDrains(calls: seq<Call>, cw: real)
    requires Disciplined(FlowState([], []), calls, cw)
    ensures var n := Run(FlowState([], []), calls + [FlushCall], cw);
      n.pending == [] && Flatten(n.story) == CreatedAll(calls, cw) && Valid(n, cw)
  {
    var e := FlowState([], []);
    RunAppend(e, calls, [FlushCall], cw);
    var m := Run(e, calls, cw);
    assert Run(m, [FlushCall], cw) == Step(m, FlushCall, cw) by {
      assert [FlushCall][1..] == [];
    }
    DisciplinedAppendFlush(e, calls, cw);
    RunConserves(e, calls + [FlushCall], cw);
    CreatedAllAppend(calls, [FlushCall], cw);
    assert CreatedAll([FlushCall], cw) == [] by { assert [FlushCall][1..] == []; }
    var n := Step(m, FlushCall, cw);
    assert Flatten(e.story) + e.pending == [];
    assert Flatten(n.story) + [] == Flatten(n.story);
    RunKeepsValid(e, calls + [FlushCall], cw);
  }
}
