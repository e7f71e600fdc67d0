/** `esc`: escaping the three characters that are special in the paragraph markup. */
module Escape {
  import opened Strings

  /** `text.replace('&', '&amp;').replace('<', '&lt;').replace('>', '&gt;')`, in that order. */
  function Esc(s: string): string
  {
    Replace(Replace(Replace(s, '&', "&amp;"), '<', "&lt;"), '>', "&gt;")
  }

  /** The escape of one character. */
  function EscChar(c: char): string
  {
    if c == '&' then "&amp;" else if c == '<' then "&lt;" else if c == '>' then "&gt;" else [c]
  }

  /** Escaping character by character. */
  function EscapeEach(s: string): string
  {
    if s == [] then [] else EscChar(s[0]) + EscapeEach(s[1..])
  }

  /** Reading the three entities back, as the markup parser does. */
  function Unescape(s: string): string
    decreases |s|
  {
    if |s| >= 5 && s[..5] == "&amp;" then "&" + Unescape(s[5..])
    else if |s| >= 4 && s[..4] == "&lt;" then "<" + Unescape(s[4..])
    else if |s| >= 4 && s[..4] == "&gt;" then ">" + Unescape(s[4..])
    else if s == [] then []
    else [s[0]] + Unescape(s[1..])
  }

  /** The escaped text contains no angle bracket, so it cannot open or close a tag. */
  lemma EscNoAngles(s: string)
    ensures '<' !in Esc(s) && '>' !in Esc(s)
  {
    var a := Replace(s, '&', "&amp;");
    var l := Replace(a, '<', "&lt;");
    ReplaceRemoves(a, '<', "&lt;");
    ReplaceAvoids(l, '>', "&gt;", '<');
    ReplaceRemoves(l, '>', "&gt;");
  }

  /** Text without '&', '<' or '>' is returned unchanged. */
  lemma EscPlain(s: string)
    requires '&' !in s && '<' !in s && '>' !in s
    ensures Esc(s) == s
  {
    ReplaceAbsent(s, '&', "&amp;");
    ReplaceAbsent(s, '<', "&lt;");
    ReplaceAbsent(s, '>', "&gt;");
  }

  lemma EscAppend(a: string, b: string)
    ensures Esc(a + b) == Esc(a) + Esc(b)
  {
    var a1, b1 := Replace(a, '&', "&amp;"), Replace(b, '&', "&amp;");
    ReplaceAppend(a, b, '&', "&amp;");
    var a2, b2 := Replace(a1, '<', "&lt;"), Replace(b1, '<', "&lt;");
    ReplaceAppend(a1, b1, '<', "&lt;");
    ReplaceAppend(a2, b2, '>', "&gt;");
  }

  lemma EscOneChar(c: char)
    ensures Esc([c]) == EscChar(c)
  {
    ReplaceUnit(c, '&', "&amp;");
    if c == '&' {
      ReplaceAbsent("&amp;", '<', "&lt;");
      ReplaceAbsent("&amp;", '>', "&gt;");
    } else {
      ReplaceUnit(c, '<', "&lt;");
      if c == '<' {
        ReplaceAbsent("&lt;", '>', "&gt;");
      } else {
        ReplaceUnit(c, '>', "&gt;");
      }
    }
  }

  /** Because '&' is replaced first, the three chained replacements are one escape per character:
      the '&' of an inserted entity is never escaped again. */
  lemma {:induction false} EscIsPerChar(s: string)
    ensures Esc(s) == EscapeEach(s)
  {
    if s != [] {
      assert s == [s[0]] + s[1..];
      EscAppend([s[0]], s[1..]);
      EscOneChar(s[0]);
      EscIsPerChar(s[1..]);
    }
  }

  lemma UnescapeAmp(rest: string)
    ensures Unescape("&amp;" + rest) == "&" + Unescape(rest)
  {
    var e := "&amp;" + rest;
    assert e[..5] == "&amp;" && e[5..] == rest;
  }

  /** `&lt;` and `&gt;` are read back as the bracket they stand for. */
  lemma UnescapeAngle(c: char, rest: string)
    requires c == '<' || c == '>'
    ensures Unescape(EscChar(c) + rest) == [c] + Unescape(rest)
  {
    if c == '<' {
      var e := "&lt;" + rest;
      assert e[1] == 'l';
      assert e[..4] == "&lt;" && e[4..] == rest;
    } else {
      var e := "&gt;" + rest;
      assert e[1] == 'g';
      assert e[..4] == "&gt;" && e[4..] == rest;
    }
  }

  /** A character other than '&' cannot start an entity. */
  lemma UnescapePlain(c: char, rest: string)
    requires c != '&'
    ensures Unescape([c] + rest) == [c] + Unescape(rest)
  {
    var e := [c] + rest;
    assert e[0] == c && e[1..] == rest;
  }

  lemma UnescapeFront(c: char, rest: string)
    ensures Unescape(EscChar(c) + rest) == [c] + Unescape(rest)
  {
    if c == '&' {
      UnescapeAmp(rest);
    } else if c == '<' || c == '>' {
      UnescapeAngle(c, rest);
    } else {
      UnescapePlain(c, rest);
    }
  }

  /** Unescaping undoes the escape: no information is lost. */
  lemma {:induction false} UnescapeEsc(s: string)
    ensures Unescape(Esc(s)) == s
  {
    EscIsPerChar(s);
    UnescapeEach(s);
  }

  lemma {:induction false} UnescapeEach(s: string)
    ensures Unescape(EscapeEach(s)) == s
  {
    if s != [] {
      UnescapeFront(s[0], EscapeEach(s[1..]));
      UnescapeEach(s[1..]);
    }
  }
}
