/** The clickable table of contents: one paragraph per entry, linking the number and the title
    to the anchor recomputed from the number. */
module Toc {
  import opened Strings
  import opened Anchors
  import opened Flow

  /** `(num, title, is_sub)` */
  datatype TocEntry = Entry(num: string, title: string, isSub: bool)

  /** `<a href="#{anchor}" color="{colour}">{caption}</a>` */
  function Link(anchor: string, colour: string, caption: string): string
  {
    "<a href=\"#" + anchor + "\" color=\"" + colour + "\">" + caption + "</a>"
  }

  /** The two links of a row, three spaces apart, both to the recomputed anchor. */
  function LinkText(e: TocEntry, numColour: string, titleColour: string): string
  {
    var anchor := TocAnchor(e.num);
    Link(anchor, numColour, e.num) + "   " + Link(anchor, titleColour, e.title)
  }

  function TocRow(e: TocEntry, numColour: string, titleColour: string): Item
  {
    Single(Paragraph(LinkText(e, numColour, titleColour), if e.isSub then TocSubEntry else Style.TocEntry))
  }

  /** One item per entry, in order. */
  function Rows(es: seq<TocEntry>, row: TocEntry -> Item): seq<Item>
  {
    if es == [] then [] else Rows(es[..|es| - 1], row) + [row(es[|es| - 1])]
  }

  /** The table the loop appends to the story. */
  function TocRows(es: seq<TocEntry>, numColour: string, titleColour: string): seq<Item>
  {
    Rows(es, e => TocRow(e, numColour, titleColour))
  }

  lemma {:induction false} RowsLength(es: seq<TocEntry>, row: TocEntry -> Item)
    ensures |Rows(es, row)| == |es|
  {
    if es != [] {
      RowsLength(es[..|es| - 1], row);
    }
  }

  /** Item i is the row of entry i. */
  lemma {:induction false} RowsAt(es: seq<TocEntry>, i: nat, row: TocEntry -> Item)
    requires i < |es|
    ensures |Rows(es, row)| == |es| && Rows(es, row)[i] == row(es[i])
  {
    var init := es[..|es| - 1];
    RowsLength(es, row);
    RowsLength(init, row);
    if i < |init| {
      RowsAt(init, i, row);
      assert init[i] == es[i];
    }
  }

  /** Rows of the table of contents, one per entry, in order. */
  lemma TocRowsAt(es: seq<TocEntry>, i: nat, numColour: string, titleColour: string)
    requires i < |es|
    ensures |TocRows(es, numColour, titleColour)| == |es|
    ensures TocRows(es, numColour, titleColour)[i] == TocRow(es[i], numColour, titleColour)
  {
    RowsAt(es, i, e => TocRow(e, numColour, titleColour));
  }

  /** The rows are plain paragraphs: adding them keeps every group of the story bonded. */
  lemma TocRowsBonded(es: seq<TocEntry>, numColour: string, titleColour: string, cw: real)
    ensures GroupsBonded(TocRows(es, numColour, titleColour), cw)
  {
    RowsLength(es, e => TocRow(e, numColour, titleColour));
    forall i | 0 <= i < |es| ensures TocRows(es, numColour, titleColour)[i].Single? {
      TocRowsAt(es, i, numColour, titleColour);
    }
  }

  /** For a numbered entry, the script's heading call for that number carries exactly the anchor the
      row links to, whatever the heading's title (the table's title may even differ from it). */
  lemma NumberedRowResolves(level: Level, num: string, title: string)
    requires IsNumeral(num)
    ensures HeadingOf(level, num + " " + title) == HeadingCall(level, num + " " + title, TocAnchor(num))
  {
    TocAgreesWithNumberedHeading(num, title);
  }

  /** The entries "A." and "B." link to the anchors of the headings "Appendix A: …" and
      "Appendix B: …". */
  lemma AppendixRowResolves(level: Level, x: char, title: string)
    requires x == 'A' || x == 'B'
    ensures HeadingOf(level, "Appendix " + [x, ':'] + " " + title) ==
      HeadingCall(level, "Appendix " + [x, ':'] + " " + title, TocAnchor([x, '.']))
  {
    TocAgreesWithAppendixHeading(x, ':', title);
  }

  /** The entry `('1.', 'Abstract')` links to "sec_1", the anchor the abstract's heading sets by
      hand, which is also what `_make_anchor` gives a heading numbered "1.". */
  lemma AbstractRowAnchor(title: string)
    ensures TocAnchor("1.") == "sec_1"
    ensures MakeAnchor("1." + " " + title) == "sec_1"
  {
    var num := ['1', '.'];
    assert "1." == num && num[1] == '.';
    RStripAppendAll(['1'], ".", IsDot);
    assert ['1'] + "." == num;
    NumeralAnchorShape(num);
    var a := TocAnchor(num);
    assert a == "sec_" + a[4..];
    assert a[4..] == ['1'];
    TocAgreesWithNumberedHeading(num, title);
  }

  /** The anchor of a section number that ends in a digit is four characters longer than the
      number and ends in that same digit. */
  lemma AnchorLastDigit(num: string)
    requires IsNumeral(num) && IsDigit(num[|num| - 1])
    ensures |TocAnchor(num)| == |num| + 4 && TocAnchor(num)[|num| + 3] == num[|num| - 1]
  {
    RStripAppendAll(num, [], IsDot);
    assert num + [] == num;
    NumeralAnchorShape(num);
  }

  /** A row links to the heading carrying its number, whatever that heading's title, and never to
      a heading whose number ends in another digit, even one carrying the row's own title. */
  lemma StaleRowAsWritten(num: string, other: string, title: string, heading: string,
                          numColour: string, titleColour: string)
    requires IsNumeral(num) && IsNumeral(other)
    requires IsDigit(num[|num| - 1]) && IsDigit(other[|other| - 1]) && num[|num| - 1] != other[|other| - 1]
    ensures var target := MakeAnchor(num + " " + heading);
      LinkText(Entry(num, title, true), numColour, titleColour) ==
        Link(target, numColour, num) + "   " + Link(target, titleColour, title)
    ensures TocAnchor(num) != MakeAnchor(other + " " + title)
  {
    TocAgreesWithNumberedHeading(num, heading);
    TocAgreesWithNumberedHeading(other, title);
    AnchorLastDigit(num);
    AnchorLastDigit(other);
    if |num| == |other| {
      assert TocAnchor(num)[|num| + 3] != TocAnchor(other)[|num| + 3];
    }
  }

  /** A sub-entry numbered like the heading that carries its title links to that heading with
      both links. */
  lemma RowReachesHeading(num: string, title: string, numColour: string, titleColour: string)
    requires IsNumeral(num)
    ensures var target := MakeAnchor(num + " " + title);
      LinkText(Entry(num, title, true), numColour, titleColour) ==
        Link(target, numColour, num) + "   " + Link(target, titleColour, title)
  {
    TocAgreesWithNumberedHeading(num, title);
  }

  /** The row `('9.7', title)` links to the heading numbered 9.7 whatever its title, and never to
      the heading numbered 9.6, even when that heading carries the row's title. */
  lemma ComplaintRowAsWritten(title: string, heading: string, numColour: string, titleColour: string)
    ensures var target := MakeAnchor("9.7" + " " + heading);
      LinkText(Entry("9.7", title, true), numColour, titleColour) ==
        Link(target, numColour, "9.7") + "   " + Link(target, titleColour, title)
    ensures TocAnchor("9.7") != MakeAnchor("9.6" + " " + title)
  {
    assert "9.7" == ['9', '.', '7'] && "9.6" == ['9', '.', '6'];
    StaleRowAsWritten("9.7", "9.6", title, heading, numColour, titleColour);
  }

  /** With the number corrected to 9.6 the row links to the heading numbered 9.6. */
  lemma ComplaintRowCorrected(title: string, numColour: string, titleColour: string)
    ensures var target := MakeAnchor("9.6" + " " + title);
      LinkText(Entry("9.6", title, true), numColour, titleColour) ==
        Link(target, numColour, "9.6") + "   " + Link(target, titleColour, title)
  {
    assert "9.6" == ['9', '.', '6'];
    RowReachesHeading("9.6", title, numColour, titleColour);
  }

  /** `"{major}.{k}"` for a one-digit k. */
  function SubNumber(major: string, k: nat): (num: string)
    requires k <= 9
    ensures |num| == |major| + 2 && num[|num| - 1] == ('0' as int + k) as char
  {
    major + "." + [('0' as int + k) as char]
  }

  lemma SubNumberIsNumeral(major: string, k: nat)
    requires k <= 9 && major != [] && All(major, IsDigit)
    ensures IsNumeral(SubNumber(major, k))
  {
    var num := SubNumber(major, k);
    assert num[|major|] == '.';
    forall i | 0 <= i < |num| ensures IsDigitOrDot(num[i]) {
      if i < |major| {
        assert num[i] == major[i];
      }
    }
  }

  /** The rows `7.1` and `7.2` carry the titles of the headings numbered 7.2 and 7.3: row 7.k links
      to the heading numbered 7.k and never to the heading numbered 7.(k+1). */
  lemma SectionSevenRowsAsWritten(k: nat, title: string, heading: string, numColour: string, titleColour: string)
    requires 1 <= k <= 2
    ensures var target := MakeAnchor(SubNumber("7", k) + " " + heading);
      LinkText(Entry(SubNumber("7", k), title, true), numColour, titleColour) ==
        Link(target, numColour, SubNumber("7", k)) + "   " + Link(target, titleColour, title)
    ensures TocAnchor(SubNumber("7", k)) != MakeAnchor(SubNumber("7", k + 1) + " " + title)
  {
    SubNumberIsNumeral("7", k);
    SubNumberIsNumeral("7", k + 1);
    StaleRowAsWritten(SubNumber("7", k), SubNumber("7", k + 1), title, heading, numColour, titleColour);
  }

  /** The rows `10.1` to `10.4` carry the titles of the headings numbered 10.2 to 10.5: row 10.k
      links to the heading numbered 10.k and never to the heading numbered 10.(k+1). */
  lemma SectionTenRowsAsWritten(k: nat, title: string, heading: string, numColour: string, titleColour: string)
    requires 1 <= k <= 4
    ensures var target := MakeAnchor(SubNumber("10", k) + " " + heading);
      LinkText(Entry(SubNumber("10", k), title, true), numColour, titleColour) ==
        Link(target, numColour, SubNumber("10", k)) + "   " + Link(target, titleColour, title)
    ensures TocAnchor(SubNumber("10", k)) != MakeAnchor(SubNumber("10", k + 1) + " " + title)
  {
    SubNumberIsNumeral("10", k);
    SubNumberIsNumeral("10", k + 1);
    StaleRowAsWritten(SubNumber("10", k), SubNumber("10", k + 1), title, heading, numColour, titleColour);
  }

  /** Renumbered one up, each of these rows links to the heading numbered like it, whatever
      longer title that heading carries. */
  lemma ShiftedRowsCorrected(major: string, k: nat, title: string, heading: string,
                             numColour: string, titleColour: string)
    requires (major == "7" && 1 <= k <= 2) || (major == "10" && 1 <= k <= 4)
    ensures var target := MakeAnchor(SubNumber(major, k + 1) + " " + heading);
      LinkText(Entry(SubNumber(major, k + 1), title, true), numColour, titleColour) ==
        Link(target, numColour, SubNumber(major, k + 1)) + "   " + Link(target, titleColour, title)
  {
    SubNumberIsNumeral(major, k + 1);
    TocAgreesWithNumberedHeading(SubNumber(major, k + 1), heading);
  }
}
