/** Heading-anchor derivation (`_make_anchor`) and the table-of-contents rule that
    recomputes the same anchor from a section number alone. */
module Anchors {
  import opened Strings

  // ---------------------------------------------------------------------------
  // Step 1: removing markup tags, `re.sub(r'<[^>]+>', '', text)`
  // ---------------------------------------------------------------------------

  /** Position of the first '>' in `s` at or after `k`, or `|s|` if there is none. */
  function FindGt(s: string, k: nat): (j: nat)
    requires k <= |s|
    ensures k <= j <= |s|
    ensures j < |s| ==> s[j] == '>'
    decreases |s| - k
  {
    if k == |s| || s[k] == '>' then k else FindGt(s, k + 1)
  }

  /** Nothing before the position FindGt reports is a '>'. */
  lemma {:induction false} FindGtSkips(s: string, k: nat, i: nat)
    requires k <= |s| && k <= i < FindGt(s, k)
    ensures s[i] != '>'
    decreases |s| - k
  {
    if i > k {
      FindGtSkips(s, k + 1, i);
    }
  }

  /** True when a tag `<[^>]+>` starts at the front of `s`; its length is then FindGt(s, 1) + 1. */
  predicate TagAtFront(s: string)
  {
    |s| > 0 && s[0] == '<' && 2 <= FindGt(s, 1) < |s|
  }

  /** Leftmost, non-overlapping removal of every `<…>` with at least one character inside. */
  function StripTags(s: string): (t: string)
    ensures |t| <= |s|
    ensures s != [] && s[0] != '<' ==> t != [] && t[0] == s[0]
    decreases |s|
  {
    if s == [] then []
    else if TagAtFront(s) then StripTags(s[FindGt(s, 1) + 1..])
    else [s[0]] + StripTags(s[1..])
  }

  /** Tag removal never introduces a character absent from its input. */
  lemma {:induction false} StripTagsAvoids(s: string, d: char)
    requires d !in s
    ensures d !in StripTags(s)
    decreases |s|
  {
    if s != [] {
      assert forall i :: 0 <= i < |s[1..]| ==> s[1..][i] == s[i + 1];
      if TagAtFront(s) {
        var u := s[FindGt(s, 1) + 1..];
        assert forall i :: 0 <= i < |u| ==> u[i] == s[FindGt(s, 1) + 1 + i];
        StripTagsAvoids(u, d);
      } else {
        StripTagsAvoids(s[1..], d);
      }
    }
  }

  /** A complete markup tag: '<', at least one character other than '>', then '>'. */
  predicate IsTag(t: string)
  {
    |t| >= 3 && t[0] == '<' && t[|t| - 1] == '>' && forall i :: 0 < i < |t| - 1 ==> t[i] != '>'
  }

  /** No substring of `t` is a tag. */
  predicate TagFree(t: string)
  {
    forall i, j :: 0 <= i < j <= |t| ==> !IsTag(t[i..j])
  }

  /** Every '<' is either last, directly followed by '>', or followed by no '>' at all. */
  predicate OpenersInert(t: string)
  {
    forall i :: 0 <= i < |t| - 1 && t[i] == '<' ==> t[i + 1] == '>' || '>' !in t[i + 1..]
  }

  lemma OpenersInertTagFree(t: string)
    requires OpenersInert(t)
    ensures TagFree(t)
  {
    forall i, j | 0 <= i < j <= |t|
      ensures !IsTag(t[i..j])
    {
      if j - i >= 3 && t[i] == '<' && t[j - 1] == '>' {
        assert t[i..j][1] == t[i + 1] && t[j - 1] == t[i + 1..][j - 2 - i];
      }
    }
  }

  lemma {:induction false} StripTagsInert(s: string)
    ensures OpenersInert(StripTags(s))
    decreases |s|
  {
    if s == [] {
    } else if TagAtFront(s) {
      StripTagsInert(s[FindGt(s, 1) + 1..]);
    } else {
      var rest := StripTags(s[1..]);
      StripTagsInert(s[1..]);
      var t := [s[0]] + rest;
      forall i | 0 <= i < |t| - 1 && t[i] == '<'
        ensures t[i + 1] == '>' || '>' !in t[i + 1..]
      {
        if i > 0 {
          assert rest[i - 1] == t[i] && t[i + 1..] == rest[i..];
        } else {
          assert t[1..] == rest;
          var j := FindGt(s, 1);
          if j == 1 {
            assert s[1..][0] == '>';
          } else {
            assert j == |s|;
            assert '>' !in s[1..] by {
              forall c | c in s[1..] ensures c != '>' {
                var k :| 0 <= k < |s[1..]| && s[1..][k] == c;
                assert s[k + 1] == c;
                FindGtSkips(s, 1, k + 1);
              }
            }
            StripTagsAvoids(s[1..], '>');
          }
        }
      }
    }
  }

  lemma {:induction false} InertFixed(t: string)
    requires OpenersInert(t)
    ensures StripTags(t) == t
    decreases |t|
  {
    if t != [] {
      assert OpenersInert(t[1..]) by {
        forall i | 0 <= i < |t[1..]| - 1 && t[1..][i] == '<'
          ensures t[1..][i + 1] == '>' || '>' !in t[1..][i + 1..]
        {
          assert t[1..][i + 1..] == t[i + 2..];
        }
      }
      InertFixed(t[1..]);
    }
  }

  /** What re.sub leaves behind contains no tag, and a second pass changes nothing. */
  lemma StripTagsClean(s: string)
    ensures TagFree(StripTags(s))
    ensures StripTags(StripTags(s)) == StripTags(s)
  {
    StripTagsInert(s);
    OpenersInertTagFree(StripTags(s));
    InertFixed(StripTags(s));
  }

  /** A prefix without '<' passes through tag removal untouched. */
  lemma {:induction false} StripTagsPlainPrefix(a: string, b: string)
    requires '<' !in a
    ensures StripTags(a + b) == a + StripTags(b)
  {
    if a == [] {
      assert a + b == b;
    } else {
      assert (a + b)[0] == a[0] && (a + b)[1..] == a[1..] + b;
      StripTagsPlainPrefix(a[1..], b);
    }
  }

  /** Inside a tag the first '>' from any inner position is the tag's own closing one,
      whatever follows the tag. */
  lemma {:induction false} FindGtIn(t: string, b: string, k: nat)
    requires IsTag(t) && 1 <= k <= |t| - 1
    ensures FindGt(t + b, k) == |t| - 1
    decreases |t| - k
  {
    assert (t + b)[k] == t[k];
    if k < |t| - 1 {
      FindGtIn(t, b, k + 1);
    }
  }

  /** A tag after plain text is removed, and the text after it is kept: the removal resumes
      right after the tag's '>'. */
  lemma StripTagsDropsTag(a: string, t: string, b: string)
    requires '<' !in a && IsTag(t)
    ensures StripTags(a + t + b) == a + StripTags(b)
  {
    assert a + t + b == a + (t + b);
    StripTagsPlainPrefix(a, t + b);
    FindGtIn(t, b, 1);
    assert TagAtFront(t + b);
    assert (t + b)[|t|..] == b;
  }

  /** A character that opens no tag at the front is kept, and removal goes on after it. */
  lemma StripTagsKeepsFront(c: char, b: string)
    requires c != '<' || b == [] || b[0] == '>'
    ensures StripTags([c] + b) == [c] + StripTags(b)
  {
    var s := [c] + b;
    assert s[1..] == b;
    if c == '<' && b != [] {
      assert FindGt(s, 1) == 1;
    }
  }

  /** `<>` at the front is kept whole. */
  lemma EmptyPairKept(e: string, b: string)
    requires |e| == 2 && e[0] == '<' && e[1] == '>'
    ensures StripTags(e + b) == e + StripTags(b)
  {
    var g := (e + b)[1..];
    assert e + b == [e[0]] + g && g == [e[1]] + b;
    StripTagsKeepsFront(e[1], b);
    StripTagsKeepsFront(e[0], g);
    assert [e[0]] + ([e[1]] + StripTags(b)) == e + StripTags(b);
  }

  /** An empty pair `<>` encloses no character, so it is kept, and removal goes on after it. */
  lemma StripTagsKeepsEmptyBrackets(a: string, e: string, b: string)
    requires '<' !in a && |e| == 2 && e[0] == '<' && e[1] == '>'
    ensures StripTags(a + e + b) == a + e + StripTags(b)
  {
    EmptyPairKept(e, b);
    StripTagsPlainPrefix(a, e + b);
    assert a + e + b == a + (e + b);
    assert a + (e + StripTags(b)) == a + e + StripTags(b);
  }

  // ---------------------------------------------------------------------------
  // Step 2: the leading section-number token
  //   re.match(r'^(\d+\.[\d.]*\s*|Appendix\s+[A-Z][\.:]\s*)', clean)
  // ---------------------------------------------------------------------------

  /** Length of the greedy match of `\d+\.[\d.]*\s*` at the front of `s`. */
  function NumeralMatch(s: string): Option<nat>
  {
    var d := Span(s, IsDigit);
    if 0 < d < |s| && s[d] == '.' then
      var e := d + 1 + Span(s[d + 1..], IsDigitOrDot);
      Some(e + Span(s[e..], IsSpace))
    else None
  }

  /** Length of the greedy match of `Appendix\s+[A-Z][\.:]\s*` at the front of `s`. */
  function AppendixMatch(s: string): Option<nat>
  {
    if |s| >= 8 && s[..8] == "Appendix" then
      var k := 8 + Span(s[8..], IsSpace);
      if k > 8 && k + 1 < |s| && IsUpper(s[k]) && (s[k + 1] == '.' || s[k + 1] == ':') then
        Some(k + 2 + Span(s[k + 2..], IsSpace))
      else None
    else None
  }

  /** The alternation, tried left to right. */
  function NumberMatch(s: string): (m: Option<nat>)
    ensures m.Some? ==> m.value <= |s|
  {
    if NumeralMatch(s).Some? then NumeralMatch(s) else AppendixMatch(s)
  }

  /** A number without a dot, such as "21 Known", matches neither alternative: such a heading
      falls to the word fallback. */
  lemma NoDotNoNumeral(ds: string, rest: string)
    requires ds != [] && All(ds, IsDigit)
    requires rest == [] || rest[0] == ' '
    ensures NumberMatch(ds + rest).None?
  {
    var s := ds + rest;
    SpanAppendAll(ds, rest, IsDigit);
    assert Span(rest, IsDigit) == 0;
    if |ds| < |s| {
      assert s[|ds|] == rest[0];
    }
    assert NumeralMatch(s).None?;
    assert IsDigit(s[0]) && !IsDigit('A');
    assert |s| >= 8 ==> s[..8][0] == s[0];
  }

  /** `\d+\.[\d.]*` as a whole string: a digit first, only digits and dots, at least one dot. */
  predicate IsNumeral(x: string)
  {
    |x| > 0 && IsDigit(x[0]) && '.' in x && All(x, IsDigitOrDot)
  }

  /** The words of `\d+\.[\d.]*\s*`. */
  predicate InNumeralLanguage(p: string)
  {
    exists e :: 0 <= e <= |p| && IsNumeral(p[..e]) && All(p[e..], IsSpace)
  }

  /** The greedy scanner finds exactly the longest prefix the first alternative matches,
      and reports no match exactly when no prefix is in that language. */
  lemma NumeralMatchIsLongest(s: string)
    ensures NumeralMatch(s).Some? ==>
      var n := NumeralMatch(s).value;
      n <= |s| && InNumeralLanguage(s[..n]) &&
      forall m :: n < m <= |s| ==> !InNumeralLanguage(s[..m])
    ensures NumeralMatch(s).None? ==> forall m :: 0 <= m <= |s| ==> !InNumeralLanguage(s[..m])
  {
    if NumeralMatch(s).Some? {
      var e, n := NumeralMatchParts(s);
      assert s[..n][..e] == s[..e] && s[..n][e..] == s[e..n];
      forall m | n < m <= |s| ensures !InNumeralLanguage(s[..m]) {
        NoLongerNumeral(s, e, n, m);
      }
    } else {
      forall m | 0 <= m <= |s| ensures !InNumeralLanguage(s[..m]) {
        NoNumeral(s, m);
      }
    }
  }

  /** The pieces of a successful match: the numeral `s[..e]`, then whitespace up to `n`. */
  lemma NumeralMatchParts(s: string) returns (e: nat, n: nat)
    requires NumeralMatch(s).Some?
    ensures n == NumeralMatch(s).value
    ensures e <= n <= |s| && IsNumeral(s[..e]) && All(s[e..n], IsSpace)
    ensures e < |s| ==> !IsDigitOrDot(s[e])
    ensures n < |s| ==> !IsSpace(s[n])
  {
    var d := Span(s, IsDigit);
    e := SpanFrom(s, d + 1, IsDigitOrDot);
    NumeralPrefix(s, d, e);
    n := SpanFrom(s, e, IsSpace);
  }

  /** The digits, the dot and the digits-or-dots after it form a numeral. */
  lemma NumeralPrefix(s: string, d: nat, e: nat)
    requires d == Span(s, IsDigit) && 0 < d < |s| && s[d] == '.'
    requires d < e <= |s| && All(s[d + 1..e], IsDigitOrDot)
    ensures IsNumeral(s[..e])
  {
    assert All(s[..e], IsDigitOrDot) by {
      forall i | 0 <= i < e ensures IsDigitOrDot(s[..e][i]) {
        if i < d { assert s[..d][i] == s[i]; }
        else if i > d { assert s[d + 1..e][i - d - 1] == s[i]; }
      }
    }
    assert s[..e][d] == '.';
    assert s[..e][0] == s[..d][0];
  }

  lemma NoLongerNumeral(s: string, e: nat, n: nat, m: nat)
    requires e <= n < m <= |s| && IsNumeral(s[..e]) && All(s[e..n], IsSpace)
    requires !IsDigitOrDot(s[e])
    requires !IsSpace(s[n])
    ensures !InNumeralLanguage(s[..m])
  {
    var p := s[..m];
    forall e' | 0 <= e' <= m
      ensures !(IsNumeral(p[..e']) && All(p[e'..], IsSpace))
    {
      if e' > e {
        assert p[..e'][e] == s[e];
      } else if e' < e {
        assert p[e'..][0] == s[e'] && s[..e][e'] == s[e'];
      } else {
        assert p[e'..][n - e] == s[n];
      }
    }
  }

  lemma NoNumeral(s: string, m: nat)
    requires NumeralMatch(s).None? && m <= |s|
    ensures !InNumeralLanguage(s[..m])
  {
    var d := Span(s, IsDigit);
    var p := s[..m];
    forall e' | 0 <= e' <= m
      ensures !IsNumeral(p[..e'])
    {
      var x := p[..e'];
      assert x == s[..e'];
      if d == 0 {
        assert x != [] ==> x[0] == s[0];
      } else if |x| > d {
        assert x[d] == s[d];
      } else {
        assert forall q :: 0 <= q < |x| ==> x[q] == s[..d][q];
      }
    }
  }

  // ---------------------------------------------------------------------------
  // Step 3: normalising the token, and the word fallback
  // ---------------------------------------------------------------------------

  /** `tok.strip().rstrip('.').replace('.', '_').replace(' ', '_').replace(':', '')` */
  function Normalise(tok: string): string
  {
    Replace(Replace(Replace(RStrip(Strip(tok), IsDot), '.', "_"), ' ', "_"), ':', "")
  }

  predicate IsAlnumOrSpace(c: char) { IsAlnum(c) || IsSpace(c) }
  predicate IsWordChar(c: char) { IsLower(c) || IsDigit(c) }
  predicate IsWordCharOrSep(c: char) { IsWordChar(c) || c == '_' }

  /** `'_'.join(w.lower() for w in re.sub(r'[^a-zA-Z0-9\s]', '', clean).split()[:4])` */
  function Fallback(clean: string): string
  {
    Join(LowerAll(Take(Words(Filter(clean, IsAlnumOrSpace)), 4)), '_')
  }

  /** The anchor of an already tag-free heading text. */
  function CleanAnchor(clean: string): (a: string)
    ensures "sec_" <= a
  {
    var m := NumberMatch(clean);
    if m.Some? then "sec_" + Normalise(clean[..m.value]) else "sec_" + Fallback(clean)
  }

  /** `_make_anchor`: pure and total; every result starts with "sec_". */
  function MakeAnchor(text: string): (a: string)
    ensures "sec_" <= a
  {
    CleanAnchor(StripTags(text))
  }

  // ---------------------------------------------------------------------------
  // The table-of-contents twin: `'sec_' + num.rstrip('.').replace('.', '_')`,
  // with the appendix letters A and B special-cased
  // ---------------------------------------------------------------------------

  /** A section number without its trailing dots, with '_' for every other dot. */
  function Underscored(num: string): string
  {
    Replace(RStrip(num, IsDot), '.', "_")
  }

  function TocAnchor(num: string): (a: string)
    ensures "sec_" <= a
  {
    var clean := RStrip(num, IsDot);
    if clean == "A" || clean == "B" then "sec_Appendix_" + clean
    else "sec_" + Underscored(num)
  }

  // ---------------------------------------------------------------------------
  // Properties of the derivation
  // ---------------------------------------------------------------------------

  /** The anchor depends only on the tag-stripped text. */
  lemma AnchorIgnoresTags(text: string)
    ensures MakeAnchor(StripTags(text)) == MakeAnchor(text)
  {
    StripTagsClean(text);
  }

  lemma DigitRunOfNumeral(num: string)
    requires IsNumeral(num)
    ensures 0 < Span(num, IsDigit) < |num| && num[Span(num, IsDigit)] == '.'
  {
    var q :| 0 <= q < |num| && num[q] == '.';
    SpanBound(num, IsDigit, q);
    assert IsDigitOrDot(num[Span(num, IsDigit)]);
  }

  /** The section number without its trailing dots: non-empty, digits and dots only,
      beginning and ending with a digit. */
  lemma TrimmedNumeral(num: string)
    requires IsNumeral(num)
    ensures var c := RStrip(num, IsDot);
      c != [] && c[0] == num[0] && IsDigit(c[|c| - 1]) && All(c, IsDigitOrDot)
  {
    var c := RStrip(num, IsDot);
    assert forall i :: 0 <= i < |c| ==> c[i] == num[i];
    assert num[|c|..] != [] ==> num[|c|..][0] == num[|c|];
  }

  /** On a whole numeral followed by anything that does not continue it, the first
      alternative matches the numeral and the whitespace after it. */
  lemma NumeralPrefixMatch(num: string, rest: string)
    requires IsNumeral(num)
    requires rest == [] || !IsDigitOrDot(rest[0])
    ensures NumeralMatch(num + rest).Some?
    ensures NumeralMatch(num + rest).value == |num| + Span(rest, IsSpace)
  {
    var s := num + rest;
    DigitRunOfNumeral(num);
    var d := Span(num, IsDigit);
    SpanAppendStops(num, rest, IsDigit);
    var tail := num[d + 1..];
    assert tail + rest == s[d + 1..];
    assert All(tail, IsDigitOrDot) by {
      forall i | 0 <= i < |tail| ensures IsDigitOrDot(tail[i]) {
        assert tail[i] == num[d + 1 + i];
      }
    }
    SpanAppendAll(tail, rest, IsDigitOrDot);
    assert Span(rest, IsDigitOrDot) == 0;
    assert Span(s[d + 1..], IsDigitOrDot) == |tail|;
    assert Span(s, IsDigit) == d && 0 < d < |s| && s[d] == '.';
    var e := d + 1 + |tail|;
    assert e == |num|;
    assert s[e..] == rest;
  }

  lemma NormaliseNumeral(num: string, w: string)
    requires IsNumeral(num) && All(w, IsSpace)
    ensures Normalise(num + w) == Underscored(num)
  {
    StripTrailing(num, w);
    TrimmedNumeral(num);
    var c := RStrip(num, IsDot);
    assert ' ' !in c && ':' !in c;
    ReplaceAvoids(c, '.', "_", ' ');
    ReplaceAvoids(c, '.', "_", ':');
    ReplaceAbsent(Replace(c, '.', "_"), ' ', "_");
    ReplaceAbsent(Replace(c, '.', "_"), ':', "");
  }

  /** The matched prefix of a numbered heading normalises to the trimmed number with '_' for '.'. */
  lemma NumeralPrefixNormalised(num: string, r: string, k: nat)
    requires IsNumeral(num)
    requires k <= |r| && All(r[..k], IsSpace)
    ensures Normalise((num + r)[..|num| + k]) == Underscored(num)
  {
    TakeAppend(num, r, k);
    NormaliseNumeral(num, r[..k]);
  }

  /** For a section number the table of contents takes its ordinary branch. */
  lemma TocAnchorOfNumeral(num: string)
    requires IsNumeral(num)
    ensures '<' !in num
    ensures TocAnchor(num) == "sec_" + Underscored(num)
  {
    TrimmedNumeral(num);
    var c := RStrip(num, IsDot);
    assert c != "A" && c != "B" by { assert IsDigit(c[0]); }
    assert '<' !in num by { assert !IsDigitOrDot('<'); }
  }

  /** The anchor of a tag-free text the section-number alternative matches at length `n`. */
  lemma CleanAnchorOfMatch(c: string, n: nat)
    requires NumberMatch(c) == Some(n)
    ensures n <= |c| && CleanAnchor(c) == "sec_" + Normalise(c[..n])
  {
  }

  /** The first alternative matches a section number with the whitespace after it, and the
      matched prefix normalises to the number without trailing dots, '_' for '.'. */
  lemma NumeralPrefixAnchor(num: string, r: string) returns (k: nat)
    requires IsNumeral(num)
    requires r == [] || !IsDigitOrDot(r[0])
    ensures NumberMatch(num + r) == Some(|num| + k) && |num| + k <= |num + r|
    ensures Normalise((num + r)[..|num| + k]) == Underscored(num)
  {
    k := NumeralPrefixSpaces(num, r);
    NumeralPrefixNormalised(num, r, k);
  }

  /** The match is the number and the whitespace run after it. */
  lemma NumeralPrefixSpaces(num: string, r: string) returns (k: nat)
    requires IsNumeral(num)
    requires r == [] || !IsDigitOrDot(r[0])
    ensures k <= |r| && All(r[..k], IsSpace)
    ensures NumberMatch(num + r) == Some(|num| + k)
  {
    NumeralPrefixMatch(num, r);
    k := Span(r, IsSpace);
  }

  /** On the tag-free text of a numbered heading the anchor is the table of contents' one. */
  lemma NumeralCleanAnchor(num: string, r: string)
    requires IsNumeral(num)
    requires r == [] || !IsDigitOrDot(r[0])
    ensures CleanAnchor(num + r) == TocAnchor(num)
  {
    var k := NumeralPrefixAnchor(num, r);
    TocAnchorOfNumeral(num);
    CleanAnchorOfMatch(num + r, |num| + k);
  }

  /** A heading whose tag-stripped text is a section number followed by anything that does not
      continue the number gets the anchor the table of contents computes from the number alone. */
  lemma NumeralHeadingAgrees(num: string, rest: string)
    requires IsNumeral(num)
    requires StripTags(rest) == [] || !IsDigitOrDot(StripTags(rest)[0])
    ensures MakeAnchor(num + rest) == TocAnchor(num)
  {
    TocAnchorOfNumeral(num);
    StripTagsPlainPrefix(num, rest);
    NumeralCleanAnchor(num, StripTags(rest));
  }

  /** The property the comment on the table-of-contents loop promises: for every section number
      `\d+\.[\d.]*` and every title, the link target equals the heading's own anchor. */
  lemma TocAgreesWithNumberedHeading(num: string, title: string)
    requires IsNumeral(num)
    ensures TocAnchor(num) == MakeAnchor(num + " " + title)
  {
    StripTagsPlainPrefix(" ", title);
    assert num + " " + title == num + (" " + title);
    NumeralHeadingAgrees(num, " " + title);
  }

  /** Collisions go undetected: two headings with the same section number get the same anchor,
      whatever their titles. */
  lemma NumberedHeadingsCollide(num: string, t1: string, t2: string)
    requires IsNumeral(num)
    ensures MakeAnchor(num + " " + t1) == MakeAnchor(num + " " + t2)
  {
    TocAgreesWithNumberedHeading(num, t1);
    TocAgreesWithNumberedHeading(num, t2);
  }

  predicate IsDigitOrSep(c: char) { IsDigit(c) || c == '_' }

  /** A numbered anchor is "sec_" followed by the number without its trailing dots, every
      remaining dot turned into '_': only digits and '_', first and last a digit. */
  lemma NumeralAnchorShape(num: string)
    requires IsNumeral(num)
    ensures var u := TocAnchor(num)[4..];
      u != [] && IsDigit(u[0]) && IsDigit(u[|u| - 1]) && All(u, IsDigitOrSep) &&
      var c := RStrip(num, IsDot);
      |u| == |c| && forall i :: 0 <= i < |c| ==> u[i] == if c[i] == '.' then '_' else c[i]
  {
    var c := RStrip(num, IsDot);
    TrimmedNumeral(num);
    ReplaceOneChar(c, '.', '_');
    assert TocAnchor(num) == "sec_" + Replace(c, '.', "_");
    assert TocAnchor(num)[4..] == Replace(c, '.', "_");
  }

  /** A word with no space, dot or colon, starting with a non-space. */
  predicate PlainWord(w: string)
  {
    w != [] && NotSpace(w[0]) && ' ' !in w && '.' !in w && ':' !in w
  }

  /** strip() and rstrip('.') on "<word> <letter><punct><spaces>": the dot goes, the colon stays. */
  lemma TrimAppendix(w: string, x: char, p: char, ws: string)
    requires PlainWord(w)
    requires IsUpper(x) && (p == '.' || p == ':') && All(ws, IsSpace)
    ensures RStrip(Strip(w + " " + [x, p] + ws), IsDot) == w + " " + [x] + (if p == ':' then ":" else "")
  {
    var h := w + " " + [x, p];
    StripTrailing(h, ws);
    var core := w + " " + [x];
    if p == '.' {
      assert h == core + ".";
      RStripAppendAll(core, ".", IsDot);
    } else {
      RStripAppendAll(h, [], IsDot);
      assert h + [] == h;
    }
  }

  /** The three replacements on "<word> <letter>" with an optional colon: the space becomes '_'
      and the colon is removed. */
  lemma ReplaceAppendix(w: string, x: char, tail: string)
    requires PlainWord(w)
    requires IsUpper(x) && (tail == "" || tail == ":")
    ensures Replace(Replace(Replace(w + " " + [x] + tail, '.', "_"), ' ', "_"), ':', "") == w + "_" + [x]
  {
    var g := w + " " + [x] + tail;
    assert '.' !in g;
    ReplaceAbsent(g, '.', "_");
    assert g == w + [' '] + ([x] + tail);
    ReplaceSingle(w, [x] + tail, ' ', "_");
    var u := Replace(g, ' ', "_");
    assert u == (w + "_" + [x]) + tail;
    if tail == ":" {
      ReplaceSingle(w + "_" + [x], [], ':', "");
      assert (w + "_" + [x]) + ":" == (w + "_" + [x]) + [':'] + [];
    } else {
      assert ':' !in u;
      ReplaceAbsent(u, ':', "");
    }
  }

  lemma NormaliseAppendix(w: string, x: char, p: char, ws: string)
    requires PlainWord(w)
    requires IsUpper(x) && (p == '.' || p == ':') && All(ws, IsSpace)
    ensures Normalise(w + " " + [x, p] + ws) == w + "_" + [x]
  {
    TrimAppendix(w, x, p, ws);
    ReplaceAppendix(w, x, if p == ':' then ":" else "");
  }

  /** The second alternative matches "Appendix X." / "Appendix X:" and the whitespace after it. */
  lemma AppendixMatchAt(x: char, p: char, r: string) returns (k: nat)
    requires IsUpper(x) && (p == '.' || p == ':')
    ensures k <= |r| && All(r[..k], IsSpace)
    ensures NumberMatch("Appendix " + [x, p] + r) == Some(11 + k)
  {
    var clean := "Appendix " + [x, p] + r;
    assert NumeralMatch(clean).None? by { assert clean[0] == 'A'; }
    assert clean[..8] == "Appendix";
    assert clean[8..] == " " + ([x, p] + r);
    SpanAppendAll(" ", [x, p] + r, IsSpace);
    assert clean[9] == x && clean[10] == p && clean[11..] == r;
    k := Span(r, IsSpace);
  }

  lemma AppendixPrefixNormalised(x: char, p: char, r: string, k: nat)
    requires k <= |r| && All(r[..k], IsSpace)
    requires IsUpper(x) && (p == '.' || p == ':')
    ensures Normalise(("Appendix " + [x, p] + r)[..11 + k]) == "Appendix_" + [x]
  {
    var w := "Appendix";
    assert PlainWord(w);
    assert ("Appendix " + [x, p] + r)[..11 + k] == w + " " + [x, p] + r[..k];
    NormaliseAppendix(w, x, p, r[..k]);
    assert w + "_" + [x] == "Appendix_" + [x];
  }

  lemma AppendixLiterals(x: char, p: char)
    requires IsUpper(x) && (p == '.' || p == ':')
    ensures '<' !in "Appendix " + [x, p]
    ensures "sec_" + ("Appendix_" + [x]) == "sec_Appendix_" + [x]
  {
  }

  lemma AppendixPrefixAnchor(x: char, p: char, r: string) returns (k: nat)
    requires IsUpper(x) && (p == '.' || p == ':')
    ensures NumberMatch("Appendix " + [x, p] + r) == Some(11 + k)
    ensures 11 + k <= |"Appendix " + [x, p] + r|
    ensures Normalise(("Appendix " + [x, p] + r)[..11 + k]) == "Appendix_" + [x]
  {
    k := AppendixMatchAt(x, p, r);
    AppendixPrefixNormalised(x, p, r, k);
  }

  lemma AppendixCleanAnchor(x: char, p: char, r: string)
    requires IsUpper(x) && (p == '.' || p == ':')
    ensures CleanAnchor("Appendix " + [x, p] + r) == "sec_" + ("Appendix_" + [x])
  {
    var k := AppendixPrefixAnchor(x, p, r);
    CleanAnchorOfMatch("Appendix " + [x, p] + r, 11 + k);
  }

  /** `Appendix X: …` and `Appendix X. …` give exactly "sec_Appendix_X", whatever follows. */
  lemma AppendixHeadingAnchor(x: char, p: char, rest: string)
    requires IsUpper(x) && (p == '.' || p == ':')
    ensures MakeAnchor("Appendix " + [x, p] + rest) == "sec_Appendix_" + [x]
  {
    AppendixLiterals(x, p);
    StripTagsPlainPrefix("Appendix " + [x, p], rest);
    AppendixCleanAnchor(x, p, StripTags(rest));
  }

  /** For the appendix letters A and B the hard-coded table-of-contents anchor coincides with the
      heading's regular-expression branch, with either punctuation and any title. */
  lemma TocAgreesWithAppendixHeading(x: char, p: char, title: string)
    requires x == 'A' || x == 'B'
    requires p == '.' || p == ':'
    ensures TocAnchor([x, '.']) == MakeAnchor("Appendix " + [x, p] + " " + title)
    ensures TocAnchor([x]) == TocAnchor([x, '.'])
  {
    RStripAppendAll([x], ".", IsDot);
    assert [x] + "." == [x, '.'];
    AppendixHeadingAnchor(x, p, " " + title);
    assert "Appendix " + [x, p] + " " + title == "Appendix " + [x, p] + (" " + title);
  }

  /** The special case covers only A and B: for any other appendix letter the table of contents
      would link to "sec_X" while the heading's anchor is "sec_Appendix_X". */
  lemma TocMissesOtherAppendices(x: char, p: char, title: string)
    requires IsUpper(x) && x != 'A' && x != 'B'
    requires p == '.' || p == ':'
    ensures TocAnchor([x, '.']) == "sec_" + [x]
    ensures TocAnchor([x, '.']) != MakeAnchor("Appendix " + [x, p] + title)
  {
    RStripAppendAll([x], ".", IsDot);
    assert [x] + "." == [x, '.'];
    ReplaceAbsent([x], '.', "_");
    AppendixHeadingAnchor(x, p, title);
    assert ("sec_" + [x])[4] == x;
  }

  /** After the filter, "<word> <letter> …" splits into the word, the letter and the rest's words. */
  lemma WordsOfFilteredTwoWords(w: string, x: char, r: string)
    requires w != [] && All(w, IsAlnum) && IsUpper(x)
    ensures Words(Filter(w + " " + [x] + " " + r, IsAlnumOrSpace)) ==
      [w, [x]] + Words(Filter(r, IsAlnumOrSpace))
  {
    var h := w + " " + [x] + " ";
    assert All(h, IsAlnumOrSpace) by {
      forall i | 0 <= i < |h| ensures IsAlnumOrSpace(h[i]) {
        if i < |w| { assert h[i] == w[i]; }
      }
    }
    FilterAppend(h, r, IsAlnumOrSpace);
    var f := Filter(r, IsAlnumOrSpace);
    assert h + f == w + " " + [x] + " " + f;
    assert All(w, NotSpace) by {
      forall i | 0 <= i < |w| ensures NotSpace(w[i]) { assert IsAlnum(w[i]); }
    }
    WordsOfTwoWords(w, [x], f);
  }

  /** Taking four words, lowering and joining keeps the first two in front. */
  lemma JoinedLowerTwoWords(w: string, x: char, more: seq<string>)
    ensures Lower(w) + "_" + [ToLower(x)] <= Join(LowerAll(Take([w, [x]] + more, 4)), '_')
  {
    assert Take([w, [x]] + more, 4) == [w, [x]] + Take(more, 2);
    LowerAllFront(w, [x], Take(more, 2));
    var tail := LowerAll(Take(more, 2));
    assert Lower([x]) == [ToLower(x)];
    JoinFront(Lower(w), [ToLower(x)], tail, '_');
  }

  /** The fallback on "<word> <letter> …" starts with the lowered word, '_' and the lowered letter. */
  lemma FallbackTwoWords(w: string, x: char, r: string)
    requires w != [] && All(w, IsAlnum) && IsUpper(x)
    ensures Lower(w) + "_" + [ToLower(x)] <= Fallback(w + " " + [x] + " " + r)
  {
    WordsOfFilteredTwoWords(w, x, r);
    JoinedLowerTwoWords(w, x, Words(Filter(r, IsAlnumOrSpace)));
  }

  /** A tag-free text without a number prefix whose first two words are w and x. */
  lemma CleanFallbackTwoWords(clean: string, w: string, x: char, r: string)
    requires clean == w + " " + [x] + " " + r
    requires NumberMatch(clean).None?
    requires w != [] && All(w, IsAlnum) && IsUpper(x)
    ensures "sec_" + (Lower(w) + "_" + [ToLower(x)]) <= CleanAnchor(clean)
  {
    FallbackTwoWords(w, x, r);
  }

  /** Neither alternative matches "Appendix X …" when the letter is not followed by '.' or ':'. */
  lemma AppendixNoMatch(x: char, r: string)
    requires IsUpper(x)
    ensures NumberMatch("Appendix " + [x] + " " + r).None?
  {
    var clean := "Appendix " + [x] + " " + r;
    assert NumeralMatch(clean).None? by { assert clean[0] == 'A'; }
    assert clean[..8] == "Appendix";
    assert clean[8..] == " " + ([x, ' '] + r);
    SpanAppendAll(" ", [x, ' '] + r, IsSpace);
    assert clean[10] == ' ';
  }

  lemma AppendixWordSpace()
    ensures "Appendix " == "Appendix" + " "
  {
  }

  lemma AppendixWordAlnum()
    ensures All("Appendix", IsAlnum)
  {
  }

  lemma AppendixWordLower()
    ensures Lower("Appendix") == "appendix"
  {
    var l := Lower("Appendix");
    assert |l| == 8;
    assert l[0] == 'a';
  }

  lemma AppendixFallbackLiterals(x: char)
    requires IsUpper(x)
    ensures '<' !in "Appendix " + [x] + " "
    ensures "sec_" + ("appendix" + "_" + [ToLower(x)]) == "sec_appendix_" + [ToLower(x)]
    ensures |"sec_appendix_" + [ToLower(x)]| > 4 && ("sec_appendix_" + [ToLower(x)])[4] == 'a'
    ensures |"sec_Appendix_" + [x]| > 4 && ("sec_Appendix_" + [x])[4] == 'A'
  {
  }

  lemma AppendixCleanFallback(x: char, r: string)
    requires IsUpper(x)
    ensures "sec_appendix_" + [ToLower(x)] <= CleanAnchor("Appendix " + [x] + " " + r)
  {
    AppendixNoMatch(x, r);
    AppendixWordAlnum();
    AppendixWordLower();
    AppendixFallbackLiterals(x);
    var w := "Appendix";
    AppendixWordSpace();
    var clean := "Appendix " + [x] + " " + r;
    assert clean == w + " " + [x] + " " + r;
    CleanFallbackTwoWords(clean, w, x, r);
  }

  /** Without the '.' or ':' after the letter the appendix branch does not match and the word
      fallback runs, giving "sec_appendix_x…" rather than "sec_Appendix_X". */
  lemma AppendixWithoutPunctuation(x: char, rest: string)
    requires IsUpper(x)
    ensures "sec_appendix_" + [ToLower(x)] <= MakeAnchor("Appendix " + [x] + " " + rest)
    ensures MakeAnchor("Appendix " + [x] + " " + rest) != "sec_Appendix_" + [x]
  {
    AppendixFallbackLiterals(x);
    var h := "Appendix " + [x] + " ";
    StripTagsPlainPrefix(h, rest);
    var t := StripTags(rest);
    AppendixCleanFallback(x, t);
    assert MakeAnchor(h + rest) == CleanAnchor(h + t);
    PrefixesDiffer("sec_appendix_" + [ToLower(x)], MakeAnchor(h + rest), "sec_Appendix_" + [x], 4);
  }

  /** In the fallback the suffix is at most four words of lower-case ASCII letters and digits,
      joined by single '_' with none leading or trailing; it is empty exactly when the text has no
      ASCII letter or digit at all. */
  lemma FallbackShape(clean: string)
    ensures var f := Fallback(clean);
      All(f, IsWordCharOrSep) && NoStraySeparator(f, '_') && Count(f, '_') <= 3 &&
      (f == [] <==> forall i :: 0 <= i < |clean| ==> !IsAlnum(clean[i]))
  {
    var filtered := Filter(clean, IsAlnumOrSpace);
    var ws := Words(filtered);
    WordsFrom(filtered, IsAlnumOrSpace);
    var taken := Take(ws, 4);
    var lows := LowerAll(taken);
    forall k | 0 <= k < |lows| ensures lows[k] != [] && All(lows[k], IsWordChar) {
      var w := taken[k];
      assert w == ws[k];
      WordsAt(filtered, k);
      forall i | 0 <= i < |w| ensures IsWordChar(ToLower(w[i])) {
        assert IsAlnumOrSpace(w[i]) && NotSpace(w[i]);
      }
    }
    JoinShape(lows, '_', IsWordChar);
    WordsEmpty(filtered);
    FilterOnlySpaces(clean, IsAlnumOrSpace);
  }

  /** On a text of plain words separated by single spaces the fallback is exactly the first four
      words, lower-cased and joined by '_'. */
  lemma FallbackOfWords(ws: seq<string>)
    requires forall k :: 0 <= k < |ws| ==> ws[k] != [] && All(ws[k], IsAlnum)
    ensures Fallback(Join(ws, ' ')) == Join(LowerAll(Take(ws, 4)), '_')
  {
    var clean := Join(ws, ' ');
    JoinShape(ws, ' ', IsAlnum);
    assert All(clean, IsAlnumOrSpace);
    assert forall k :: 0 <= k < |ws| ==> All(ws[k], NotSpace);
    WordsOfJoin(ws);
  }

  /** A heading of plain words without a number prefix gets "sec_" and its first four words,
      lower-cased and joined by '_'. */
  lemma WordHeadingAnchor(ws: seq<string>)
    requires forall k :: 0 <= k < |ws| ==> ws[k] != [] && All(ws[k], IsAlnum)
    requires NumberMatch(Join(ws, ' ')).None?
    ensures MakeAnchor(Join(ws, ' ')) == "sec_" + Join(LowerAll(Take(ws, 4)), '_')
  {
    var clean := Join(ws, ' ');
    assert '<' !in clean by {
      JoinShape(ws, ' ', IsAlnum);
      assert !IsAlnum('<');
    }
    assert StripTags(clean) == clean by {
      StripTagsPlainPrefix(clean, []);
      assert clean + [] == clean;
    }
    FallbackOfWords(ws);
    assert MakeAnchor(clean) == CleanAnchor(clean);
  }

  /** The fallback branch of `_make_anchor`, stated on the anchor itself. */
  lemma FallbackAnchor(text: string)
    requires NumberMatch(StripTags(text)).None?
    ensures var f := MakeAnchor(text)[4..];
      All(f, IsWordCharOrSep) && NoStraySeparator(f, '_') && Count(f, '_') <= 3 &&
      (f == [] <==> forall i :: 0 <= i < |StripTags(text)| ==> !IsAlnum(StripTags(text)[i]))
  {
    FallbackShape(StripTags(text));
  }
}
