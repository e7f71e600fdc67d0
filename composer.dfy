/** The script's module-level `story` list and `_pending_heading` buffer, with the helper functions
    that update them in place, each proved to perform one step of the Flow state machine. */
module Whitepaper {
  import opened Strings
  import opened Anchors
  import opened Flow
  import opened Toc

  class Composer {
    /** `cw`, the usable page width. */
    const contentWidth: real
    var story: seq<Item>
    var pending: seq<Block>

    function State(): FlowState
      reads this
    {
      FlowState(story, pending)
    }

    /** The buffer holds nothing or one heading's three blocks, and every group in the story is a
        heading bonded to its first content block. */
    predicate Valid()
      reads this
    {
      Flow.Valid(State(), contentWidth)
    }

    constructor(cw: real)
      ensures contentWidth == cw && story == [] && pending == []
      ensures Valid()
    {
      contentWidth := cw;
      story := [];
      pending := [];
    }

    /** `_flush_heading` */
    method FlushHeading()
      requires Valid()
      modifies this
      ensures State() == Step(old(State()), FlushCall, contentWidth)
      ensures pending == [] && Valid()
    {
      ghost var s0 := State();
      if pending != [] {
        for i := 0 to |pending|
          invariant pending == s0.pending
          invariant story == s0.story + Singles(pending[..i])
        {
          SinglesAppend(pending[..i], [pending[i]]);
          assert pending[..i + 1] == pending[..i] + [pending[i]];
          story := story + [Single(pending[i])];
        }
        assert pending[..|pending|] == pending;
        pending := [];
      }
      StepKeepsValid(s0, FlushCall, contentWidth);
    }

    /** `_flush_heading_with` */
    method FlushHeadingWith(b: Block)
      requires Valid()
      modifies this
      ensures State() == Step(old(State()), ContentCall(b), contentWidth)
      ensures pending == [] && Valid()
    {
      ghost var s0 := State();
      if pending != [] {
        var items := pending + [b];
        story := story + [KeepTogether(items)];
        pending := [];
      } else {
        story := story + [Single(b)];
      }
      StepKeepsValid(s0, ContentCall(b), contentWidth);
    }

    /** What the three heading functions do once the anchor is known: flush any unbonded
        heading, put a page break before an H1, and buffer the level's three blocks. */
    method BufferHeading(level: Level, text: string, anchor: string)
      requires Valid()
      modifies this
      ensures State() == Step(old(State()), HeadingCall(level, text, anchor), contentWidth)
      ensures |pending| == 3 && Valid()
    {
      ghost var s0 := State();
      FlushHeading();
      match level
      case H1 =>
        story := story + [Single(PageBreak)];
        pending := pending + [Paragraph(NameTag(anchor) + text, Heading(H1)), AccentBar(contentWidth, 1), Flow.Spacer(1, 12)];
      case H2 =>
        pending := pending + [Flow.Spacer(1, 16), Paragraph(NameTag(anchor) + text, Heading(H2)), Flow.Spacer(1, 6)];
      case H3 =>
        pending := pending + [Flow.Spacer(1, 12), Paragraph(NameTag(anchor) + text, Heading(H3)), Flow.Spacer(1, 4)];
      assert pending == Decoration(level, text, anchor, contentWidth);
      StepKeepsValid(s0, HeadingCall(level, text, anchor), contentWidth);
    }

    /** `section_heading`: an H1 anchored at `_make_anchor(text)`, after a page break. */
    method SectionHeading(text: string)
      requires Valid()
      modifies this
      ensures State() == Step(old(State()), HeadingOf(H1, text), contentWidth)
      ensures |pending| == 3 && Valid()
    {
      var anchor := MakeAnchor(text);
      BufferHeading(H1, text, anchor);
    }

    /** `sub_heading` */
    method SubHeading(text: string)
      requires Valid()
      modifies this
      ensures State() == Step(old(State()), HeadingOf(H2, text), contentWidth)
      ensures |pending| == 3 && Valid()
    {
      var anchor := MakeAnchor(text);
      BufferHeading(H2, text, anchor);
    }

    /** `sub_sub_heading` */
    method SubSubHeading(text: string)
      requires Valid()
      modifies this
      ensures State() == Step(old(State()), HeadingOf(H3, text), contentWidth)
      ensures |pending| == 3 && Valid()
    {
      var anchor := MakeAnchor(text);
      BufferHeading(H3, text, anchor);
    }

    method Body(text: string)
      requires Valid()
      modifies this
      ensures State() == Step(old(State()), ContentCall(Paragraph(text, Style.Body)), contentWidth)
      ensures pending == [] && Valid()
    {
      FlushHeadingWith(Paragraph(text, Style.Body));
    }

    method BodySmall(text: string)
      requires Valid()
      modifies this
      ensures State() == Step(old(State()), ContentCall(Paragraph(text, Style.BodySmall)), contentWidth)
      ensures pending == [] && Valid()
    {
      FlushHeadingWith(Paragraph(text, Style.BodySmall));
    }

    /** `spacer(h=12)`: flush unbonded, then the spacer on its own. */
    method Spacer(h: int := 12)
      requires Valid()
      modifies this
      ensures State() == Step(old(State()), SpacerCall(h), contentWidth)
      ensures pending == [] && Valid()
    {
      ghost var s0 := State();
      FlushHeading();
      story := story + [Single(Flow.Spacer(1, h))];
      StepKeepsValid(s0, SpacerCall(h), contentWidth);
    }

    method Analogy(text: string)
      requires Valid()
      modifies this
      ensures State() == Step(old(State()), ContentCall(CalloutBox(text, Note, "ANALOGY")), contentWidth)
      ensures pending == [] && Valid()
    {
      FlushHeadingWith(CalloutBox(text, Note, "ANALOGY"));
    }

    method InfoBox(text: string, title: string := "KEY INSIGHT")
      requires Valid()
      modifies this
      ensures State() == Step(old(State()), ContentCall(CalloutBox(text, Info, title)), contentWidth)
      ensures pending == [] && Valid()
    {
      FlushHeadingWith(CalloutBox(text, Info, title));
    }

    method WarningBox(text: string, title: string := "WARNING")
      requires Valid()
      modifies this
      ensures State() == Step(old(State()), ContentCall(CalloutBox(text, Warning, title)), contentWidth)
      ensures pending == [] && Valid()
    {
      FlushHeadingWith(CalloutBox(text, Warning, title));
    }

    method CriticalBox(text: string, title: string := "CRITICAL")
      requires Valid()
      modifies this
      ensures State() == Step(old(State()), ContentCall(CalloutBox(text, Critical, title)), contentWidth)
      ensures pending == [] && Valid()
    {
      FlushHeadingWith(CalloutBox(text, Critical, title));
    }

    method Code(text: string, lang: string := "typescript")
      requires Valid()
      modifies this
      ensures State() == Step(old(State()), ContentCall(CodeBlock(text, lang)), contentWidth)
      ensures pending == [] && Valid()
    {
      FlushHeadingWith(CodeBlock(text, lang));
    }

    /** `table`: the card table always spans the content width. */
    method Table(headers: seq<string>, rows: seq<seq<string>>, colWidths: seq<real>,
                 highlightCols: Option<seq<int>> := None)
      requires Valid()
      modifies this
      ensures State() == Step(old(State()),
        ContentCall(CardTable(headers, rows, colWidths, contentWidth, highlightCols)), contentWidth)
      ensures pending == [] && Valid()
    {
      FlushHeadingWith(CardTable(headers, rows, colWidths, contentWidth, highlightCols));
    }

    /** A direct `story.append`, bypassing the buffer. */
    method Append(b: Block)
      requires Valid()
      modifies this
      ensures State() == Step(old(State()), DirectAppend(b), contentWidth)
      ensures Valid()
    {
      ghost var s0 := State();
      story := story + [Single(b)];
      StepKeepsValid(s0, DirectAppend(b), contentWidth);
    }

    /** The clickable table of contents: one linked paragraph per entry, the buffer untouched. */
    method AddToc(entries: seq<TocEntry>, numColour: string, titleColour: string)
      requires Valid()
      modifies this
      ensures story == old(story) + TocRows(entries, numColour, titleColour)
      ensures pending == old(pending) && Valid()
    {
      ghost var before := story;
      ghost var row := e => TocRow(e, numColour, titleColour);
      for i := 0 to |entries|
        invariant story == before + Rows(entries[..i], row)
        invariant pending == old(pending)
      {
        var e := entries[i];
        var numClean := RStrip(e.num, IsDot);
        var anchor := "sec_" + Replace(numClean, '.', "_");
        if numClean == "A" || numClean == "B" {
          anchor := "sec_Appendix_" + numClean;
        }
        var linkText := Link(anchor, numColour, e.num) + "   " + Link(anchor, titleColour, e.title);
        var style := if e.isSub then TocSubEntry else Style.TocEntry;
        assert anchor == TocAnchor(e.num);
        assert Single(Paragraph(linkText, style)) == row(e);
        assert entries[..i + 1][..i] == entries[..i];
        story := story + [Single(Paragraph(linkText, style))];
      }
      assert entries[..|entries|] == entries;
      TocRowsBonded(entries, numColour, titleColour, contentWidth);
      GroupsBondedAppend(before, TocRows(entries, numColour, titleColour), contentWidth);
    }
  }
}
