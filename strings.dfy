/** Character classes and the handful of Python `str` operations that heading-anchor
    derivation and XML escaping are built from: `replace`, `rstrip`, `strip`, `split`,
    `join`, `lower`, and the greedy run of one character class that a regular
    expression quantifier such as `\d+` consumes. Characters are ASCII: Python's
    Unicode digits and Unicode whitespace beyond ASCII are not modelled. */
module Strings {

  datatype Option<T> = None | Some(value: T)

  predicate IsDigit(c: char) { '0' <= c <= '9' }
  predicate IsUpper(c: char) { 'A' <= c <= 'Z' }
  predicate IsLower(c: char) { 'a' <= c <= 'z' }
  predicate IsAlnum(c: char) { IsDigit(c) || IsUpper(c) || IsLower(c) }
  predicate IsDot(c: char) { c == '.' }
  predicate IsDigitOrDot(c: char) { IsDigit(c) || c == '.' }

  /** Python's `\s` and `str.isspace` on ASCII: tab, line feed, vertical tab, form feed,
      carriage return, the four separators 0x1C-0x1F, and space. */
  predicate IsSpace(c: char) { c == ' ' || '\t' <= c <= '\r' || '\U{1C}' <= c <= '\U{1F}' }
  predicate NotSpace(c: char) { !IsSpace(c) }

  predicate All(s: string, p: char -> bool) { forall i :: 0 <= i < |s| ==> p(s[i]) }

  /** Length of the longest prefix of `s` whose characters all satisfy `p`: what a greedy
      `[class]*` consumes at the start of `s`. */
  function Span(s: string, p: char -> bool): (n: nat)
    ensures n <= |s|
    ensures All(s[..n], p)
    ensures n < |s| ==> !p(s[n])
  {
    if s == [] || !p(s[0]) then 0
    else
      var m := Span(s[1..], p);
      assert s[..1 + m] == [s[0]] + s[1..][..m];
      1 + m
  }

  /** `Span` started at an offset, restated on the original string. */
  lemma SpanFrom(s: string, e: nat, p: char -> bool) returns (n: nat)
    requires e <= |s|
    ensures n == e + Span(s[e..], p) && n <= |s|
    ensures All(s[e..n], p)
    ensures n < |s| ==> !p(s[n])
  {
    n := e + Span(s[e..], p);
    forall i | e <= i < n ensures p(s[i]) { assert s[e..][..n - e][i - e] == s[i]; }
    if n < |s| { assert s[e..][n - e] == s[n]; }
  }

  lemma {:induction false} SpanAppendAll(a: string, b: string, p: char -> bool)
    requires All(a, p)
    ensures Span(a + b, p) == |a| + Span(b, p)
  {
    if a != [] {
      assert (a + b)[1..] == a[1..] + b;
      SpanAppendAll(a[1..], b, p);
    } else {
      assert a + b == b;
    }
  }

  /** The run stops at the first character outside the class. */
  lemma {:induction false} SpanBound(s: string, p: char -> bool, q: nat)
    requires q < |s| && !p(s[q])
    ensures Span(s, p) <= q
  {
    if q > 0 && p(s[0]) {
      SpanBound(s[1..], p, q - 1);
    }
  }

  lemma {:induction false} SpanAppendStops(a: string, b: string, p: char -> bool)
    requires Span(a, p) < |a|
    ensures Span(a + b, p) == Span(a, p)
  {
    if p(a[0]) {
      assert (a + b)[1..] == a[1..] + b;
      SpanAppendStops(a[1..], b, p);
    }
  }

  /** Python `s.replace(c, r)` for a one-character pattern. */
  function Replace(s: string, c: char, r: string): string
  {
    if s == [] then []
    else (if s[0] == c then r else [s[0]]) + Replace(s[1..], c, r)
  }

  /** Replacing a character the string does not contain changes nothing. */
  lemma {:induction false} ReplaceAbsent(s: string, c: char, r: string)
    requires c !in s
    ensures Replace(s, c, r) == s
  {
    if s != [] {
      assert c !in s[1..] by { assert forall i :: 0 <= i < |s[1..]| ==> s[1..][i] == s[i + 1]; }
      ReplaceAbsent(s[1..], c, r);
    }
  }

  /** `replace` on a single character. */
  lemma ReplaceUnit(d: char, c: char, r: string)
    ensures Replace([d], c, r) == if d == c then r else [d]
  {
    assert [d][1..] == [];
    var h := if d == c then r else [d];
    assert Replace([d], c, r) == h + [];
    assert h + [] == h;
  }

  /** After replacing `c` by a string without `c`, no `c` is left. */
  lemma {:induction false} ReplaceRemoves(s: string, c: char, r: string)
    requires c !in r
    ensures c !in Replace(s, c, r)
  {
    if s != [] {
      ReplaceRemoves(s[1..], c, r);
    }
  }

  /** Replacing never introduces a character found in neither the input nor the replacement. */
  lemma {:induction false} ReplaceAvoids(s: string, c: char, r: string, d: char)
    requires d !in s && d !in r
    ensures d !in Replace(s, c, r)
  {
    if s != [] {
      assert d !in s[1..] by { assert forall i :: 0 <= i < |s[1..]| ==> s[1..][i] == s[i + 1]; }
      ReplaceAvoids(s[1..], c, r, d);
    }
  }

  lemma {:induction false} ReplaceAppend(a: string, b: string, c: char, r: string)
    ensures Replace(a + b, c, r) == Replace(a, c, r) + Replace(b, c, r)
  {
    if a == [] {
      assert a + b == b;
    } else {
      assert (a + b)[1..] == a[1..] + b;
      ReplaceAppend(a[1..], b, c, r);
    }
  }

  /** Cutting a concatenation inside its second part. */
  lemma TakeAppend(a: string, b: string, k: nat)
    requires k <= |b|
    ensures (a + b)[..|a| + k] == a + b[..k]
  {
  }

  /** Replacing the only occurrence of `c`. */
  lemma ReplaceSingle(a: string, b: string, c: char, r: string)
    requires c !in a && c !in b
    ensures Replace(a + [c] + b, c, r) == a + r + b
  {
    ReplaceAppend(a + [c], b, c, r);
    ReplaceAppend(a, [c], c, r);
    assert [c][1..] == [];
    assert Replace([c], c, r) == r + [] == r;
    ReplaceAbsent(a, c, r);
    ReplaceAbsent(b, c, r);
  }

  /** The characters of `s` that satisfy `p`, in order: `re.sub('[^…]', '', s)`. */
  function Filter(s: string, p: char -> bool): (t: string)
    ensures |t| <= |s|
    ensures All(t, p)
    ensures All(s, p) ==> t == s
  {
    if s == [] then []
    else if p(s[0]) then [s[0]] + Filter(s[1..], p)
    else Filter(s[1..], p)
  }

  lemma {:induction false} FilterAppend(a: string, b: string, p: char -> bool)
    ensures Filter(a + b, p) == Filter(a, p) + Filter(b, p)
  {
    if a == [] {
      assert a + b == b;
    } else {
      assert (a + b)[1..] == a[1..] + b;
      FilterAppend(a[1..], b, p);
    }
  }

  /** Python `s.rstrip(chars)`: drop the longest suffix whose characters satisfy `p`. */
  function RStrip(s: string, p: char -> bool): (t: string)
    ensures t <= s
    ensures t == [] || !p(t[|t| - 1])
    ensures All(s[|t|..], p)
  {
    if s != [] && p(s[|s| - 1]) then
      var t := RStrip(s[..|s| - 1], p);
      assert s[|t|..] == s[..|s| - 1][|t|..] + [s[|s| - 1]];
      t
    else s
  }

  lemma {:induction false} RStripAppendAll(a: string, w: string, p: char -> bool)
    requires a == [] || !p(a[|a| - 1])
    requires All(w, p)
    ensures RStrip(a + w, p) == a
    decreases |w|
  {
    if w == [] {
      assert a + w == a;
    } else {
      assert (a + w)[..|a + w| - 1] == a + w[..|w| - 1];
      RStripAppendAll(a, w[..|w| - 1], p);
    }
  }

  /** Python `s.strip()`: drop leading and trailing whitespace. */
  function Strip(s: string): (t: string)
    ensures |t| <= |s|
    ensures t == [] || (NotSpace(t[0]) && NotSpace(t[|t| - 1]))
  {
    var u := s[Span(s, IsSpace)..];
    var t := RStrip(u, IsSpace);
    assert t != [] ==> t[0] == u[0];
    t
  }

  lemma StripTrailing(a: string, w: string)
    requires a != [] && NotSpace(a[0]) && NotSpace(a[|a| - 1])
    requires All(w, IsSpace)
    ensures Strip(a + w) == a
  {
    assert Span(a + w, IsSpace) == 0;
    assert (a + w)[0..] == a + w;
    RStripAppendAll(a, w, IsSpace);
  }

  /** Python `s.split()` with no argument: the maximal runs of non-whitespace, in order. */
  function Words(s: string): seq<string>
    decreases |s|
  {
    var lead := Span(s, IsSpace);
    if lead == |s| then []
    else
      var t := s[lead..];
      var n := Span(t, NotSpace);
      [t[..n]] + Words(t[n..])
  }

  /** Each word is a non-empty run of non-whitespace. */
  lemma {:induction false} WordsAt(s: string, k: nat)
    requires k < |Words(s)|
    ensures Words(s)[k] != [] && All(Words(s)[k], NotSpace)
    decreases |s|
  {
    var lead := Span(s, IsSpace);
    assert lead < |s|;
    var t := s[lead..];
    var n := Span(t, NotSpace);
    var w := t[..n];
    var more := Words(t[n..]);
    assert Words(s) == [w] + more;
    if k > 0 {
      assert k - 1 < |more|;
      WordsAt(t[n..], k - 1);
      assert Words(s)[k] == more[k - 1];
    } else {
      assert w != [] by { assert t[0] == s[lead]; }
      assert All(w, NotSpace);
      assert Words(s)[0] == w;
    }
  }

  /** There are no words exactly when the text is all whitespace. */
  lemma WordsEmpty(s: string)
    ensures Words(s) == [] <==> All(s, IsSpace)
  {
    var lead := Span(s, IsSpace);
    if lead == |s| {
      assert s[..lead] == s;
    } else {
      assert !IsSpace(s[lead]);
    }
  }

  /** Python `sep.join(ws)` for a one-character separator. */
  function Join(ws: seq<string>, sep: char): string
  {
    if ws == [] then []
    else if |ws| == 1 then ws[0]
    else ws[0] + [sep] + Join(ws[1..], sep)
  }

  function ToLower(c: char): (d: char)
  {
    if IsUpper(c) then (c as int + 32) as char else c
  }

  /** Python `s.lower()` on ASCII. */
  function Lower(s: string): (t: string)
    ensures |t| == |s|
    ensures forall i :: 0 <= i < |s| ==> t[i] == ToLower(s[i])
  {
    if s == [] then [] else [ToLower(s[0])] + Lower(s[1..])
  }

  function LowerAll(ws: seq<string>): (vs: seq<string>)
    ensures |vs| == |ws|
    ensures forall k :: 0 <= k < |ws| ==> vs[k] == Lower(ws[k])
  {
    if ws == [] then [] else [Lower(ws[0])] + LowerAll(ws[1..])
  }

  /** Python `ws[:n]`. */
  function Take<T>(ws: seq<T>, n: nat): (vs: seq<T>)
    ensures |vs| == if |ws| < n then |ws| else n
    ensures vs <= ws
  {
    if |ws| <= n then ws else ws[..n]
  }

  function Count(s: string, c: char): nat
  {
    if s == [] then 0 else (if s[0] == c then 1 else 0) + Count(s[1..], c)
  }

  /** A leading space does not change the words. */
  lemma WordsSkipSpace(f: string)
    ensures Words(" " + f) == Words(f)
  {
    var g := " " + f;
    SpanAppendAll(" ", f, IsSpace);
    assert g[1 + Span(f, IsSpace)..] == f[Span(f, IsSpace)..];
  }

  /** A word followed by a space is split off as the first word. */
  lemma WordsAfterWord(w: string, f: string)
    requires w != [] && All(w, NotSpace)
    ensures Words(w + " " + f) == [w] + Words(f)
  {
    var g := " " + f;
    var s := w + g;
    assert w + " " + f == s;
    assert Span(s, IsSpace) == 0;
    SpanAppendAll(w, g, NotSpace);
    assert Span(g, NotSpace) == 0;
    assert s[0..] == s && s[..|w|] == w && s[|w|..] == g;
    WordsSkipSpace(f);
  }

  /** Every word is made of characters of `s`, so a class all of `s` satisfies carries over. */
  lemma {:induction false} WordsFrom(s: string, p: char -> bool)
    requires All(s, p)
    ensures forall k :: 0 <= k < |Words(s)| ==> All(Words(s)[k], p)
    decreases |s|
  {
    var lead := Span(s, IsSpace);
    if lead < |s| {
      var t := s[lead..];
      var n := Span(t, NotSpace);
      assert All(t[..n], p) by {
        forall i | 0 <= i < n ensures p(t[..n][i]) { assert t[..n][i] == s[lead + i]; }
      }
      assert All(t[n..], p) by {
        forall i | 0 <= i < |t[n..]| ensures p(t[n..][i]) { assert t[n..][i] == s[lead + n + i]; }
      }
      WordsFrom(t[n..], p);
    }
  }

  /** Python's `sep.join` of non-empty separator-free words has no leading, trailing or
      doubled separator. */
  predicate NoStraySeparator(s: string, sep: char)
  {
    s == [] || (s[0] != sep && s[|s| - 1] != sep &&
                forall i :: 0 <= i < |s| - 1 && s[i] == sep ==> s[i + 1] != sep)
  }

  lemma {:induction false} CountAppend(a: string, b: string, c: char)
    ensures Count(a + b, c) == Count(a, c) + Count(b, c)
  {
    if a == [] {
      assert a + b == b;
    } else {
      assert (a + b)[1..] == a[1..] + b;
      CountAppend(a[1..], b, c);
    }
  }

  lemma {:induction false} CountAbsent(s: string, c: char)
    requires c !in s
    ensures Count(s, c) == 0
  {
    if s != [] {
      assert s == [s[0]] + s[1..];
      CountAbsent(s[1..], c);
    }
  }

  lemma {:induction false} JoinShape(ws: seq<string>, sep: char, p: char -> bool)
    requires !p(sep)
    requires forall k :: 0 <= k < |ws| ==> ws[k] != [] && All(ws[k], p)
    ensures All(Join(ws, sep), (c: char) => c == sep || p(c))
    ensures NoStraySeparator(Join(ws, sep), sep)
    ensures Count(Join(ws, sep), sep) == if ws == [] then 0 else |ws| - 1
    ensures Join(ws, sep) == [] <==> ws == []
  {
    if |ws| == 1 {
      assert sep !in ws[0];
      CountAbsent(ws[0], sep);
    } else if |ws| > 1 {
      var w := ws[0];
      var rest := Join(ws[1..], sep);
      JoinShape(ws[1..], sep, p);
      assert sep !in w;
      var j := w + [sep] + rest;
      assert Join(ws, sep) == j;
      forall i | 0 <= i < |j| ensures j[i] == sep || p(j[i]) {
        if i < |w| { assert j[i] == w[i]; }
        else if i > |w| { assert j[i] == rest[i - |w| - 1]; }
      }
      assert j[0] == w[0] && j[|j| - 1] == rest[|rest| - 1];
      forall i | 0 <= i < |j| - 1 && j[i] == sep ensures j[i + 1] != sep {
        if i == |w| {
          assert j[i + 1] == rest[0];
        } else {
          assert j[i] == rest[i - |w| - 1] && j[i + 1] == rest[i - |w|];
        }
      }
      CountAppend(w + [sep], rest, sep);
      CountAppend(w, [sep], sep);
      CountAbsent(w, sep);
    }
  }

  lemma AllCons(c: char, t: string, q: char -> bool)
    ensures All([c] + t, q) <==> q(c) && All(t, q)
  {
    assert ([c] + t)[0] == c;
    assert forall i :: 1 <= i < |t| + 1 ==> ([c] + t)[i] == t[i - 1];
    if q(c) && All(t, q) {
      forall i | 0 <= i < |t| + 1 ensures q(([c] + t)[i]) {
        if i > 0 { assert q(t[i - 1]); }
      }
    }
    if All([c] + t, q) {
      forall i | 0 <= i < |t| ensures q(t[i]) { assert q(([c] + t)[i + 1]); }
    }
  }

  /** Keeping only the characters of a class leaves nothing but whitespace exactly when
      no character of `s` is in that class outside whitespace. */
  lemma {:induction false} FilterOnlySpaces(s: string, p: char -> bool)
    requires forall c :: IsSpace(c) ==> p(c)
    ensures All(Filter(s, p), IsSpace) <==> forall i :: 0 <= i < |s| ==> !p(s[i]) || IsSpace(s[i])
  {
    if s != [] {
      FilterOnlySpaces(s[1..], p);
      assert forall i :: 1 <= i < |s| ==> s[i] == s[1..][i - 1];
      var rhs := forall i :: 0 <= i < |s| ==> !p(s[i]) || IsSpace(s[i]);
      assert rhs <==> ((!p(s[0]) || IsSpace(s[0])) &&
        forall i :: 0 <= i < |s[1..]| ==> !p(s[1..][i]) || IsSpace(s[1..][i]));
      if p(s[0]) {
        AllCons(s[0], Filter(s[1..], p), IsSpace);
      }
    }
  }

  /** `replace` with a one-character replacement keeps positions. */
  lemma {:induction false} ReplaceOneChar(s: string, c: char, r: char)
    ensures |Replace(s, c, [r])| == |s|
    ensures forall i :: 0 <= i < |s| ==> Replace(s, c, [r])[i] == if s[i] == c then r else s[i]
  {
    if s != [] {
      ReplaceOneChar(s[1..], c, r);
    }
  }

  /** The first two words of a text that starts with two space-separated words. */
  lemma WordsOfTwoWords(w: string, y: string, f: string)
    requires w != [] && All(w, NotSpace) && y != [] && All(y, NotSpace)
    ensures Words(w + " " + y + " " + f) == [w, y] + Words(f)
  {
    assert w + " " + y + " " + f == w + " " + (y + " " + f);
    WordsAfterWord(w, y + " " + f);
    WordsAfterWord(y, f);
  }

  /** `split()` undoes `' '.join` on words that are non-empty and free of whitespace. */
  lemma {:induction false} WordsOfJoin(ws: seq<string>)
    requires forall k :: 0 <= k < |ws| ==> ws[k] != [] && All(ws[k], NotSpace)
    ensures Words(Join(ws, ' ')) == ws
    decreases |ws|
  {
    if ws == [] {
    } else if |ws| == 1 {
      var w := ws[0];
      SpanAppendAll(w, [], NotSpace);
      assert w + [] == w && w[0..] == w && w[..|w|] == w && w[|w|..] == [];
    } else {
      var rest := ws[1..];
      assert forall k :: 0 <= k < |rest| ==> rest[k] == ws[k + 1];
      WordsOfJoin(rest);
      assert Join(ws, ' ') == ws[0] + " " + Join(rest, ' ');
      WordsAfterWord(ws[0], Join(rest, ' '));
      assert [ws[0]] + rest == ws;
    }
  }

  lemma LowerAllFront(u: string, v: string, more: seq<string>)
    ensures LowerAll([u, v] + more) == [Lower(u), Lower(v)] + LowerAll(more)
  {
    var ws := [u, v] + more;
    assert ws[1..] == [v] + more && ([v] + more)[1..] == more;
  }

  lemma JoinFront(u: string, v: string, more: seq<string>, sep: char)
    ensures Join([u, v] + more, sep) == u + [sep] + Join([v] + more, sep)
    ensures v <= Join([v] + more, sep)
  {
    assert ([u, v] + more)[1..] == [v] + more;
    if more != [] {
      assert ([v] + more)[1..] == more;
    }
  }

  /** Two strings differ when one extends a prefix that disagrees with the other at some index. */
  lemma PrefixesDiffer(p: string, a: string, q: string, i: nat)
    requires p <= a && i < |p| && i < |q| && p[i] != q[i]
    ensures a != q
  {
    assert a[i] == p[i];
  }
}
