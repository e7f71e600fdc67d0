# The PERMAFROST whitepaper composer, modelled in Dafny

`docs/cryptography/permafrost-whitepaper-build.py` builds the PERMAFROST whitepaper PDF. It appends flowables to a module-level `story` list, one helper call at a time. Almost all of the script is prose and table data. Its logic sits in three places, and this project models them:

- **Anchor derivation** (`_make_anchor`). It strips markup tags from the heading text. A leading section number (`2.1 `, `9.7 `) or appendix prefix (`Appendix A: `) becomes the anchor `sec_2_1` / `sec_Appendix_A`. Otherwise the anchor is built from the first four ASCII words: filtered, lower-cased and joined by `_`.
- **The buffered heading system** (`_pending_heading`, `_flush_heading`, `_flush_heading_with`, the three heading functions and the content wrappers).
  - A heading is not appended at once. Its three decoration blocks wait in a buffer.
  - The next content block is appended together with them as one `KeepTogether` group, so a page break cannot separate a heading from its first paragraph.
  - A spacer, another heading or the final flush lets the buffered blocks go out one by one.
- **The clickable table of contents.** Each entry gets two links, one on its number and one on its title. The anchor is recomputed from the number alone, and it must equal the anchor of the matching heading.

The script's `esc` helper (the XML escape for paragraph text) is modelled too.

Modules:

| file | module | form |
|---|---|---|
| `strings.dfy` | `Strings` | the Python `str` operations the code uses (`replace`, `strip`, `rstrip`, `split()`, `lower()`, `join`), over ASCII |
| `escape.dfy` | `Escape` | `esc`, pure |
| `anchors.dfy` | `Anchors` | `_make_anchor` and the table-of-contents anchor rule, pure |
| `flow.dfy` | `Flow` | the flowables as datatypes, and the buffered heading system as a pure state machine `Step` over `(story, pending)` |
| `toc.dfy` | `Toc` | the table-of-contents rows |
| `composer.dfy` | `Whitepaper` | class `Composer`, whose `story` and `pending` fields the methods update in place; each heading and content method is proved to perform exactly one `Flow.Step`, `Append` one direct append, and `AddToc` one direct append per table-of-contents entry |

The invariant `Flow.Valid` is kept by every operation:

- the buffer is empty or holds exactly one heading's three blocks;
- every `KeepTogether` group in the story is one heading's three blocks followed by one content block.

Conservation (`Flow.RunConserves`) says that, as long as every direct `story.append` happens while nothing is buffered, the flowables of the story, followed by the buffer, are exactly the flowables the calls created, in call order. Nothing is lost, duplicated or reordered.

The page break of a level-1 heading is appended to the story directly (:87), before the buffer is loaded (:88-92), so it is never inside a `KeepTogether` group, and a buffered H1 decoration is title, accent bar and spacer. `Flow.Step` and `Whitepaper.Composer.BufferHeading` do the same.

## Model

| member | source | states |
|---|---|---|
| Escape.Esc | docs/cryptography/permafrost-whitepaper-build.py:20-26 | `esc`: the three chained `str.replace` calls in the source's order, `&` first; its properties are the `Escape` rows below |
| Escape.EscNoAngles | docs/cryptography/permafrost-whitepaper-build.py:20-26 | the escaped text contains no `<` and no `>`, so it can never open or close a markup tag |
| Escape.EscPlain | docs/cryptography/permafrost-whitepaper-build.py:20-26 | a text without `&`, `<` and `>` is returned unchanged |
| Escape.EscAppend | docs/cryptography/permafrost-whitepaper-build.py:22-25 | escaping distributes over concatenation |
| Escape.EscIsPerChar | docs/cryptography/permafrost-whitepaper-build.py:22-25 | because `&` is replaced first, the three chained replacements equal escaping each character on its own: the `&` of an inserted entity is never escaped again |
| Escape.UnescapeEsc | docs/cryptography/permafrost-whitepaper-build.py:20-26 | reading `&amp;`, `&lt;` and `&gt;` back gives the original text: the escape loses nothing |
| Anchors.MakeAnchor | docs/cryptography/permafrost-whitepaper-build.py:69-81 | `_make_anchor` is total and every anchor starts with `sec_` |
| Anchors.StripTags | docs/cryptography/permafrost-whitepaper-build.py:72-73 | tag removal never lengthens the text and keeps a first character that does not open a tag |
| Anchors.StripTagsAvoids | docs/cryptography/permafrost-whitepaper-build.py:72-73 | tag removal introduces no character absent from its input |
| Anchors.StripTagsClean | docs/cryptography/permafrost-whitepaper-build.py:72-73 | what `re.sub(r'<[^>]+>', '', text)` leaves contains no tag, and a second pass changes nothing |
| Anchors.StripTagsPlainPrefix | docs/cryptography/permafrost-whitepaper-build.py:72-73 | a prefix without `<` passes through tag removal untouched |
| Anchors.StripTagsDropsTag | docs/cryptography/permafrost-whitepaper-build.py:72-73 | a tag after plain text is removed and everything after it is kept: removal resumes right after the tag's closing `>` |
| Anchors.StripTagsKeepsEmptyBrackets | docs/cryptography/permafrost-whitepaper-build.py:72-73 | an empty pair `<>` after plain text is not a tag: it is kept, and removal goes on after it, so `<>x<y>` becomes `<>x` |
| Anchors.AnchorIgnoresTags | docs/cryptography/permafrost-whitepaper-build.py:69-81 | the anchor depends only on the tag-stripped text |
| Anchors.NumeralMatch | docs/cryptography/permafrost-whitepaper-build.py:75 | the first alternative `\d+\.[\d.]*\s*` of the heading-number pattern, matched greedily at the start, giving the length of the match; `NumeralMatchIsLongest` proves it against the regex language |
| Anchors.AppendixMatch | docs/cryptography/permafrost-whitepaper-build.py:75 | the second alternative `Appendix\s+[A-Z][\.:]\s*`, giving the length of the match; `AppendixHeadingAnchor` and `AppendixWithoutPunctuation` state it for `Appendix` followed by one space |
| Anchors.NumberMatch | docs/cryptography/permafrost-whitepaper-build.py:75-76 | `re.match` of the alternation: the first alternative when it matches, else the second; a match never extends past the text |
| Anchors.NoDotNoNumeral | docs/cryptography/permafrost-whitepaper-build.py:75 | a number without a dot, such as `21 Known`, matches neither alternative, so such a heading falls to the word fallback |
| Anchors.Normalise | docs/cryptography/permafrost-whitepaper-build.py:77 | `.strip().rstrip('.').replace('.', '_').replace(' ', '_').replace(':', '')` on the matched prefix; `NumeralAnchorShape` and `AppendixHeadingAnchor` state its results |
| Anchors.Fallback | docs/cryptography/permafrost-whitepaper-build.py:80-81 | non-alphanumeric, non-space characters removed, `split()`, the first four words lower-cased and joined by `_`; `FallbackShape` states its shape and `FallbackOfWords` its value |
| Anchors.CleanAnchor | docs/cryptography/permafrost-whitepaper-build.py:75-81 | the anchor of a tag-free text: `sec_` plus the normalised match when the pattern matches, else `sec_` plus the word fallback; every result starts with `sec_` |
| Anchors.NumeralMatchIsLongest | docs/cryptography/permafrost-whitepaper-build.py:75-76 | the scanner for the first alternative `\d+\.[\d.]*\s*` returns the longest matching prefix, and reports no match exactly when no prefix is in that language |
| Anchors.NumeralHeadingAgrees | docs/cryptography/permafrost-whitepaper-build.py:75-79 | a heading that starts with a section number, followed by anything that does not continue it, gets `sec_` plus the number without trailing dots, with `_` for every other dot |
| Anchors.NumeralAnchorShape | docs/cryptography/permafrost-whitepaper-build.py:77-79 | a numbered anchor after `sec_` is digits and `_` only, begins and ends with a digit, and is character by character the trimmed number with `.` replaced by `_` |
| Anchors.NumberedHeadingsCollide | docs/cryptography/permafrost-whitepaper-build.py:75-79 | two headings with the same section number get the same anchor whatever their titles: collisions go undetected |
| Anchors.AppendixHeadingAnchor | docs/cryptography/permafrost-whitepaper-build.py:75-79 | `Appendix X.` or `Appendix X:` followed by anything gives exactly `sec_Appendix_X` |
| Anchors.AppendixWithoutPunctuation | docs/cryptography/permafrost-whitepaper-build.py:75-81 | without the `.` or `:` after the letter the appendix alternative does not match; the word fallback gives `sec_appendix_x…` in lower case, never `sec_Appendix_X` |
| Anchors.FallbackShape | docs/cryptography/permafrost-whitepaper-build.py:80-81 | the word fallback is at most four words of lower-case letters and digits joined by single `_`, with no leading, trailing or doubled `_`; it is empty exactly when the text has no ASCII letter or digit |
| Anchors.FallbackAnchor | docs/cryptography/permafrost-whitepaper-build.py:69-81 | the same shape stated on `_make_anchor` itself, for every heading without a number prefix |
| Strings.WordsOfJoin | docs/cryptography/permafrost-whitepaper-build.py:80 | `split()` gives back exactly the words that `' '.join` put together, when they are non-empty and contain no whitespace |
| Anchors.FallbackOfWords | docs/cryptography/permafrost-whitepaper-build.py:80-81 | on plain alphanumeric words separated by single spaces, the fallback is exactly the first four words, lower-cased and joined by `_` |
| Anchors.WordHeadingAnchor | docs/cryptography/permafrost-whitepaper-build.py:69-81 | `_make_anchor` of such a heading without a number prefix is `sec_` followed by its first four words, lower-cased and joined by `_` |
| Anchors.TocAnchor | docs/cryptography/permafrost-whitepaper-build.py:241-246 | every table-of-contents anchor starts with `sec_` |
| Anchors.TocAgreesWithNumberedHeading | docs/cryptography/permafrost-whitepaper-build.py:239-246 | for every section number `\d+\.[\d.]*` and every title, the table-of-contents anchor equals `_make_anchor(num + ' ' + title)` |
| Anchors.TocAgreesWithAppendixHeading | docs/cryptography/permafrost-whitepaper-build.py:244-246 | the hard-coded anchors for `A.` and `B.` equal `_make_anchor` of `Appendix A: …` / `Appendix B: …` (or with `.`), and `A` gives the same as `A.` |
| Anchors.TocMissesOtherAppendices | docs/cryptography/permafrost-whitepaper-build.py:244-246 | for any other appendix letter the table of contents gives `sec_X`, which never equals the heading's anchor |
| Toc.LinkText | docs/cryptography/permafrost-whitepaper-build.py:247-250 | the two links of a row, three spaces apart, on the number and on the title, both to the anchor computed once from the number |
| Toc.TocRow | docs/cryptography/permafrost-whitepaper-build.py:239-251 | one ungrouped paragraph of the row's link text, in the sub-entry style for a sub-entry and the entry style otherwise |
| Toc.TocRowsAt | docs/cryptography/permafrost-whitepaper-build.py:239-251 | the table has one row per entry, in order; row i is entry i's two-link paragraph in the sub-entry or entry style |
| Toc.TocRowsBonded | docs/cryptography/permafrost-whitepaper-build.py:239-251 | the rows are ungrouped paragraphs, so adding them keeps every group of the story bonded |
| Toc.AbstractRowAnchor | docs/cryptography/permafrost-whitepaper-build.py:166 | the entry `('1.', 'Abstract')` links to `sec_1`, the anchor the abstract's heading writes by hand (:258), which is also `_make_anchor` of any heading numbered `1.` |
| Toc.NumberedRowResolves | docs/cryptography/permafrost-whitepaper-build.py:239-251 | for a numbered entry, the heading call the script makes for that number carries exactly the anchor both links of the row point at |
| Toc.AppendixRowResolves | docs/cryptography/permafrost-whitepaper-build.py:244-246 | the rows `A.` and `B.` link to the anchors of the headings `Appendix A: …` and `Appendix B: …` |
| Toc.StaleRowAsWritten | docs/cryptography/permafrost-whitepaper-build.py:239-251 | a row links to the heading carrying its number whatever either title says, and never to a heading whose number ends in another digit, even one carrying the row's own title |
| Toc.RowReachesHeading | docs/cryptography/permafrost-whitepaper-build.py:239-251 | a row numbered like the heading that carries its title reaches that heading with both links |
| Toc.ComplaintRowAsWritten | docs/cryptography/permafrost-whitepaper-build.py:208 | the row `('9.7', 'Complaint and Abort Protocol')` links to the heading numbered 9.7, never to the heading numbered 9.6 |
| Toc.ComplaintRowCorrected | docs/cryptography/permafrost-whitepaper-build.py:1256 | with the number 9.6 both links of the row reach the heading `9.6 Complaint and Abort Protocol` |
| Toc.SectionSevenRowsAsWritten | docs/cryptography/permafrost-whitepaper-build.py:196-197 | the rows `7.1` and `7.2` link to the headings numbered 7.1 and 7.2, never to 7.2 and 7.3, which carry their titles (:924, :954) |
| Toc.SectionTenRowsAsWritten | docs/cryptography/permafrost-whitepaper-build.py:211-214 | the rows `10.1` to `10.4` link to the headings numbered 10.1 to 10.4, never to 10.2 to 10.5, which carry their titles (:1562-1628) |
| Toc.ShiftedRowsCorrected | docs/cryptography/permafrost-whitepaper-build.py:196-214 | renumbered one up (7.2, 7.3 and 10.2 to 10.5), each of those rows links to the heading the script writes under that number, whatever longer title it carries (`7.2 The Hyperball Masking Breakthrough`, `10.5 The C1 Fix: Avoiding log(0)`, …) |
| Flow.Decoration | docs/cryptography/permafrost-whitepaper-build.py:88-111 | the three blocks each heading level loads: title, accent bar and 12-point spacer for H1; 16/6-point spacers around the title for H2; 12/4-point for H3 |
| Flow.Flushed | docs/cryptography/permafrost-whitepaper-build.py:51-57 | `_flush_heading`: the buffer goes to the story as one item per block, and the buffer is emptied; `FlushKeepsBlocks` and `FlushEmitsUnwrapped` state it |
| Flow.FlushedWith | docs/cryptography/permafrost-whitepaper-build.py:59-67 | `_flush_heading_with`: one `KeepTogether` of the buffer and the block when the buffer is non-empty, else the block alone; `ContentStep` states it |
| Flow.Step | docs/cryptography/permafrost-whitepaper-build.py:83-143 | one helper call on `(story, pending)`: heading, content wrapper, spacer, flush or direct append; the `Flow` lemmas below state what each call does |
| Flow.DecorationShape | docs/cryptography/permafrost-whitepaper-build.py:83-112 | every heading level loads exactly one decoration of three blocks, with its title in the level's style |
| Flow.FlushKeepsBlocks | docs/cryptography/permafrost-whitepaper-build.py:51-57 | `_flush_heading` keeps every buffered block, in order, after the old story, and empties the buffer |
| Flow.FlushEmitsUnwrapped | docs/cryptography/permafrost-whitepaper-build.py:51-57 | each flushed block becomes an item of its own, outside any `KeepTogether` |
| Flow.ContentStep | docs/cryptography/permafrost-whitepaper-build.py:59-67 | `_flush_heading_with` adds exactly one item and empties the buffer; that item is a `KeepTogether` of the buffer and the block exactly when the buffer was non-empty; earlier items are unchanged |
| Flow.ContentKeepsBlocks | docs/cryptography/permafrost-whitepaper-build.py:59-67 | `_flush_heading_with` keeps the buffered blocks and adds the content block after them |
| Flow.HeadingStep | docs/cryptography/permafrost-whitepaper-build.py:83-112 | the new story is the old story, then every buffered block as an item of its own (no `KeepTogether`), then one page break for an H1 only; the buffer then holds exactly the new decoration; the blocks of the story grow by the old buffer and the page break |
| Flow.HeadingBondsWithNext | docs/cryptography/permafrost-whitepaper-build.py:1148-1152 | a heading followed directly by a content block, such as the `StepIndicator` calls after `sub_heading`, ends as one `KeepTogether` of the heading's three blocks and that block |
| Flow.SpacerStep | docs/cryptography/permafrost-whitepaper-build.py:122-124 | `spacer(h)`: the new story is the old story, then every buffered block as an item of its own, then a standalone `Spacer(1, h)`; the buffer is empty |
| Flow.StepConserves | docs/cryptography/permafrost-whitepaper-build.py:49-143 | for every call except a direct append made while a heading is buffered, story-then-buffer grows only at its end, by exactly the blocks the call creates |
| Flow.StepKeepsValid | docs/cryptography/permafrost-whitepaper-build.py:49-143 | every call keeps the invariant: the buffer holds 0 or 3 blocks, and every group is a heading's decoration plus one block |
| Flow.StepExtendsStory | docs/cryptography/permafrost-whitepaper-build.py:49-143 | no call changes or removes an item already in the story |
| Flow.RunConserves | docs/cryptography/permafrost-whitepaper-build.py:49-143 | over any call sequence whose direct appends happen with an empty buffer, nothing is lost, duplicated or reordered |
| Flow.RunKeepsValid | docs/cryptography/permafrost-whitepaper-build.py:49-143 | the invariant holds after any call sequence |
| Flow.RunExtendsStory | docs/cryptography/permafrost-whitepaper-build.py:49-143 | the story only grows over any call sequence |
| Flow.FinalFlushDrains | docs/cryptography/permafrost-whitepaper-build.py:2664 | after any such call sequence and the closing `_flush_heading()`, nothing is left buffered, the story holds every created block in creation order, and the invariant holds |
| Whitepaper.Composer.constructor | docs/cryptography/permafrost-whitepaper-build.py:14 | the story and the buffer start empty with the page width `cw` |
| Whitepaper.Composer.FlushHeading | docs/cryptography/permafrost-whitepaper-build.py:51-57 | the loop appends the buffered blocks one by one; the new state is `Step(old, FlushCall)` and the invariant holds |
| Whitepaper.Composer.FlushHeadingWith | docs/cryptography/permafrost-whitepaper-build.py:59-67 | the new state is `Step(old, ContentCall(b))`; also what the direct `StepIndicator` calls do |
| Whitepaper.Composer.BufferHeading | docs/cryptography/permafrost-whitepaper-build.py:83-112 | flush, a page break for an H1, then buffer the level's three blocks: the new state is `Step(old, HeadingCall(level, text, anchor))` |
| Whitepaper.Composer.SectionHeading | docs/cryptography/permafrost-whitepaper-build.py:83-92 | the new state is the H1 heading step with anchor `_make_anchor(text)`; the buffer then holds 3 blocks |
| Whitepaper.Composer.SubHeading | docs/cryptography/permafrost-whitepaper-build.py:94-102 | the H2 heading step with anchor `_make_anchor(text)` |
| Whitepaper.Composer.SubSubHeading | docs/cryptography/permafrost-whitepaper-build.py:104-112 | the H3 heading step with anchor `_make_anchor(text)` |
| Whitepaper.Composer.Body | docs/cryptography/permafrost-whitepaper-build.py:114-116 | a body paragraph bonded to any pending heading |
| Whitepaper.Composer.BodySmall | docs/cryptography/permafrost-whitepaper-build.py:118-120 | a small body paragraph bonded to any pending heading |
| Whitepaper.Composer.Spacer | docs/cryptography/permafrost-whitepaper-build.py:122-124 | the spacer step, height 12 by default |
| Whitepaper.Composer.Analogy | docs/cryptography/permafrost-whitepaper-build.py:126-128 | a `note` callout titled `ANALOGY`, bonded |
| Whitepaper.Composer.InfoBox | docs/cryptography/permafrost-whitepaper-build.py:130-131 | an `info` callout, title `KEY INSIGHT` by default, bonded |
| Whitepaper.Composer.WarningBox | docs/cryptography/permafrost-whitepaper-build.py:133-134 | a `warning` callout, title `WARNING` by default, bonded |
| Whitepaper.Composer.CriticalBox | docs/cryptography/permafrost-whitepaper-build.py:136-137 | a `critical` callout, title `CRITICAL` by default, bonded |
| Whitepaper.Composer.Code | docs/cryptography/permafrost-whitepaper-build.py:139-140 | a code block, language `typescript` by default, bonded |
| Whitepaper.Composer.Table | docs/cryptography/permafrost-whitepaper-build.py:142-143 | a card table of the full content width, no highlighted columns by default, bonded |
| Whitepaper.Composer.Append | docs/cryptography/permafrost-whitepaper-build.py:235-237 | a direct `story.append` (the table-of-contents heading, the page breaks, the abstract heading): one item, buffer untouched, invariant kept |
| Whitepaper.Composer.AddToc | docs/cryptography/permafrost-whitepaper-build.py:239-251 | the loop appends exactly the table-of-contents rows after the old story, leaves the buffer alone and keeps the invariant |

## Left out

- The PDF library (`g.*`): flowables are datatype values holding the arguments they were built from. Rendering, pagination, fonts and colours are not modelled. The theme colours of the links are parameters.
- `g.create_document`, `g.get_styles`, `g.build_document` and `g.add_severity_badges`: file output and environment are outside the model. The badges are direct appends with an empty buffer, which `Whitepaper.Composer.Append` covers.
- The prose, the table data and the list of table-of-contents entries are static data. They are not reproduced, apart from the entries used in the finding below.
- `b`, `i`, `mono` and `heading_with_content` are cosmetic markup helpers that no other core operation calls.
- Unicode: characters are modelled as Dafny `char`, with ASCII rules for digits, letters, case and whitespace. Python's `str.isspace`, `\s`, `\d` and `lower()` also accept non-ASCII characters, which the model treats as ordinary non-space, non-alphanumeric characters.
- Widths and heights are `real` and `int` values compared for equality only; no arithmetic is done on them.
- `g.add_cover(story, …)` (:149-158): the cover page is appended by the PDF library before any other call, with an empty buffer; it is one more direct append in the model's terms and is not modelled itself.
- Anchors.AppendixHeadingAnchor: stated for exactly one space between `Appendix` and the letter. `Anchors.AppendixMatch` accepts any `\s+` run, as the source does. A longer run gives more `_` (`sec_Appendix__A`), and a tab is kept as it is, because only spaces are replaced.
- Anchors.AppendixWithoutPunctuation: stated for exactly one space after `Appendix`, for the same reason.
- Flow.StepConserves: stated only for calls other than a direct append made while a heading is buffered, for the same reason as `Flow.RunConserves` below.
- Flow.RunConserves: stated only for call sequences whose direct appends happen while the buffer is empty. A direct append with a buffered heading would land before the heading's blocks. Every direct append in the script happens with an empty buffer.
- Unescape: a reference decoder used only to show that `esc` loses no information. The script has no such function.
- Both links of a row pointing at the same anchor holds by construction: `Toc.LinkText` computes the anchor once and uses it in both links.

## Findings

| source | as written | input that shows it | evidently intended | confidence | as-written member | corrected member |
|---|---|---|---|---|---|---|
| docs/cryptography/permafrost-whitepaper-build.py:208 | the table-of-contents entry `('9.7', 'Complaint and Abort Protocol', True)` | the heading `9.6 Complaint and Abort Protocol` (:1256) gets `sec_9_6`, but the row links to `sec_9_7`, the anchor of `9.7 Message Complexity` (:1282) | the entry `('9.6', 'Complaint and Abort Protocol', True)`, so that the row reaches the section its title names | medium, not executed | Toc.ComplaintRowAsWritten | Toc.ComplaintRowCorrected |
| docs/cryptography/permafrost-whitepaper-build.py:196-197 | the entries `('7.1', 'Hyperball Masking', True)` and `('7.2', 'Additive Secret Sharing', True)` | the headings `7.2 The Hyperball Masking Breakthrough` (:924) and `7.3 Additive Secret Sharing over Bitmasks` (:954) get `sec_7_2` and `sec_7_3`, but the rows link to `sec_7_1` (`7.1 High-Level Protocol Flow`, :915) and `sec_7_2`; the entry `7.3 Combinatorial Approach` (:198) names no heading at all | the entries numbered 7.2 and 7.3, so that each row reaches the section its title names | medium, not executed | Toc.SectionSevenRowsAsWritten | Toc.ShiftedRowsCorrected |
| docs/cryptography/permafrost-whitepaper-build.py:211-214 | the entries `10.1` to `10.4` with the titles `The sampleHyperball Algorithm`, `Box-Muller Transform`, `BigInt Precision`, `The C1 Fix` | those titles head the sections numbered 10.2 to 10.5 (:1562, :1588, :1607, :1628), so every row links one section too early; `sec_10_1` is `10.1 Motivation` (:1547) | the entries numbered 10.2 to 10.5 | medium, not executed | Toc.SectionTenRowsAsWritten | Toc.ShiftedRowsCorrected |
