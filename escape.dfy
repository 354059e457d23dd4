/**
 * XML escaping of replacement values before they are written into a part.
 * The source escapes with five global replaces, `&` first, so the entities
 * introduced by the later replaces are never escaped again.
 */
module XmlEscape {
  import opened Text

  /** `escapeXml`: `&`, `<`, `>`, `"`, `'` replaced in that order. */
  function EscapeXml(text: string): string {
    ReplaceChar(ReplaceChar(ReplaceChar(ReplaceChar(ReplaceChar(
      text, '&', "&amp;"), '<', "&lt;"), '>', "&gt;"), '"', "&quot;"), '\'', "&apos;")
  }

  /** The five predefined entities of XML 1.0 (section 4.6). */
  function EscapeChar(c: char): string {
    if c == '&' then "&amp;"
    else if c == '<' then "&lt;"
    else if c == '>' then "&gt;"
    else if c == '"' then "&quot;"
    else if c == '\'' then "&apos;"
    else [c]
  }

  /** Reference definition: every character escaped on its own, in one pass. */
  function EscapeEach(s: string): string {
    if s == [] then [] else EscapeChar(s[0]) + EscapeEach(s[1..])
  }

  /** `s` begins with one of the five entity references. */
  predicate StartsWithEntity(s: string) {
    || StartsWith(s, "&amp;") || StartsWith(s, "&lt;") || StartsWith(s, "&gt;")
    || StartsWith(s, "&quot;") || StartsWith(s, "&apos;")
  }

  predicate IsMarkupChar(c: char) {
    c == '<' || c == '>' || c == '"' || c == '\''
  }

  /** Text that cannot introduce markup: no `<`, `>`, `"`, `'`, and every `&` starts an entity. */
  predicate XmlSafe(s: string) {
    && (forall i :: 0 <= i < |s| ==> !IsMarkupChar(s[i]))
    && (forall i :: 0 <= i < |s| && s[i] == '&' ==> StartsWithEntity(s[i..]))
  }

  lemma EscapeXmlAppend(a: string, b: string)
    ensures EscapeXml(a + b) == EscapeXml(a) + EscapeXml(b)
  {
    var s1a, s1b := ReplaceChar(a, '&', "&amp;"), ReplaceChar(b, '&', "&amp;");
    ReplaceCharAppend(a, b, '&', "&amp;");
    var s2a, s2b := ReplaceChar(s1a, '<', "&lt;"), ReplaceChar(s1b, '<', "&lt;");
    ReplaceCharAppend(s1a, s1b, '<', "&lt;");
    var s3a, s3b := ReplaceChar(s2a, '>', "&gt;"), ReplaceChar(s2b, '>', "&gt;");
    ReplaceCharAppend(s2a, s2b, '>', "&gt;");
    var s4a, s4b := ReplaceChar(s3a, '"', "&quot;"), ReplaceChar(s3b, '"', "&quot;");
    ReplaceCharAppend(s3a, s3b, '"', "&quot;");
    ReplaceCharAppend(s4a, s4b, '\'', "&apos;");
  }

  /** The four replace steps after the one that produced entity `e` leave `e` alone. */
  lemma Untouched(e: string, from: nat)
    requires 1 <= from <= 5
    requires from <= 1 ==> '<' !in e
    requires from <= 2 ==> '>' !in e
    requires from <= 3 ==> '"' !in e
    requires from <= 4 ==> '\'' !in e
    ensures from <= 1 ==> ReplaceChar(e, '<', "&lt;") == e
    ensures from <= 2 ==> ReplaceChar(e, '>', "&gt;") == e
    ensures from <= 3 ==> ReplaceChar(e, '"', "&quot;") == e
    ensures from <= 4 ==> ReplaceChar(e, '\'', "&apos;") == e
  {
    if from <= 1 { ReplaceCharAbsent(e, '<', "&lt;"); }
    if from <= 2 { ReplaceCharAbsent(e, '>', "&gt;"); }
    if from <= 3 { ReplaceCharAbsent(e, '"', "&quot;"); }
    if from <= 4 { ReplaceCharAbsent(e, '\'', "&apos;"); }
  }

  lemma EscapeXmlChar(c: char)
    ensures EscapeXml([c]) == EscapeChar(c)
  {
    ReplaceCharSingle(c, '&', "&amp;");
    ReplaceCharSingle(c, '<', "&lt;");
    ReplaceCharSingle(c, '>', "&gt;");
    ReplaceCharSingle(c, '"', "&quot;");
    ReplaceCharSingle(c, '\'', "&apos;");
    if c == '&' {
      Untouched("&amp;", 1);
    } else if c == '<' {
      Untouched("&lt;", 2);
    } else if c == '>' {
      Untouched("&gt;", 3);
    } else if c == '"' {
      Untouched("&quot;", 4);
    }
  }

  /**
   * The chain of five replaces equals escaping each character once: no entity
   * produced by an earlier replace is touched by a later one.
   */
  lemma {:induction false} EscapeXmlIsCharwise(s: string)
    ensures EscapeXml(s) == EscapeEach(s)
  {
    if s != [] {
      assert s == [s[0]] + s[1..];
      EscapeXmlAppend([s[0]], s[1..]);
      EscapeXmlChar(s[0]);
      EscapeXmlIsCharwise(s[1..]);
    }
  }

  lemma SafeAppend(a: string, b: string)
    requires XmlSafe(a) && XmlSafe(b)
    ensures XmlSafe(a + b)
  {
    var s := a + b;
    forall i | 0 <= i < |s| && s[i] == '&'
      ensures StartsWithEntity(s[i..])
    {
      if i < |a| {
        assert a[i] == '&';
        assert StartsWithEntity(a[i..]);
        assert s[i..] == a[i..] + b;
        var x := a[i..];
        if StartsWith(x, "&amp;") { StartsWithExtend(x, "&amp;", b); }
        if StartsWith(x, "&lt;") { StartsWithExtend(x, "&lt;", b); }
        if StartsWith(x, "&gt;") { StartsWithExtend(x, "&gt;", b); }
        if StartsWith(x, "&quot;") { StartsWithExtend(x, "&quot;", b); }
        if StartsWith(x, "&apos;") { StartsWithExtend(x, "&apos;", b); }
      } else {
        assert b[i - |a|] == '&';
        assert s[i..] == b[i - |a|..];
      }
    }
  }

  lemma EscapeCharSafe(c: char)
    ensures XmlSafe(EscapeChar(c))
  {
    if c == '&' {
      EntityStarts("&amp;");
      EntitySafe("&amp;");
    } else if c == '<' {
      EntityStarts("&lt;");
      EntitySafe("&lt;");
    } else if c == '>' {
      EntityStarts("&gt;");
      EntitySafe("&gt;");
    } else if c == '"' {
      EntityStarts("&quot;");
      EntitySafe("&quot;");
    } else if c == '\'' {
      EntityStarts("&apos;");
      EntitySafe("&apos;");
    } else {
      assert EscapeChar(c) == [c];
    }
  }

  lemma EntityStarts(e: string)
    ensures StartsWith(e, e)
  {
    StartsWithAppend(e, "");
    assert e + "" == e;
  }

  /** An entity reference on its own: one `&` at its start and no markup character. */
  lemma EntitySafe(e: string)
    requires e != [] && e[0] == '&' && StartsWithEntity(e)
    requires forall i :: 1 <= i < |e| ==> 'a' <= e[i] <= 'z' || e[i] == ';'
    ensures XmlSafe(e)
  {
    assert e[0..] == e;
  }

  lemma {:induction false} EscapeEachSafe(s: string)
    ensures XmlSafe(EscapeEach(s))
  {
    if s != [] {
      EscapeCharSafe(s[0]);
      EscapeEachSafe(s[1..]);
      SafeAppend(EscapeChar(s[0]), EscapeEach(s[1..]));
    }
  }

  /** escapeXml's output holds no `<`, `>`, `"`, `'`, and each `&` in it begins an entity. */
  lemma EscapeXmlSafe(s: string)
    ensures XmlSafe(EscapeXml(s))
  {
    EscapeXmlIsCharwise(s);
    EscapeEachSafe(s);
  }

  /** Decoding of the five entities in a single left-to-right pass: the inverse of escaping. */
  function Unescape(s: string): string
    decreases |s|
  {
    if s == [] then []
    else if StartsWith(s, "&amp;") then "&" + Unescape(s[5..])
    else if StartsWith(s, "&lt;") then "<" + Unescape(s[4..])
    else if StartsWith(s, "&gt;") then ">" + Unescape(s[4..])
    else if StartsWith(s, "&quot;") then "\"" + Unescape(s[6..])
    else if StartsWith(s, "&apos;") then "'" + Unescape(s[6..])
    else [s[0]] + Unescape(s[1..])
  }

  lemma {:induction false} NotPrefix(s: string, p: string, i: nat)
    requires i < |p| && i < |s| && s[i] != p[i]
    ensures !StartsWith(s, p)
  {
    if i > 0 {
      NotPrefix(s[1..], p[1..], i - 1);
    }
  }

  lemma UnescapeChunk(c: char, rest: string)
    ensures Unescape(EscapeChar(c) + rest) == [c] + Unescape(rest)
  {
    var e := EscapeChar(c);
    var s := e + rest;
    assert s[|e|..] == rest;
    StartsWithAppend(e, rest);
    if c == '&' {
    } else if c == '<' {
      NotPrefix(s, "&amp;", 1);
    } else if c == '>' {
      NotPrefix(s, "&amp;", 1);
      NotPrefix(s, "&lt;", 1);
    } else if c == '"' {
      NotPrefix(s, "&amp;", 1);
      NotPrefix(s, "&lt;", 1);
      NotPrefix(s, "&gt;", 1);
    } else if c == '\'' {
      NotPrefix(s, "&amp;", 2);
      NotPrefix(s, "&lt;", 1);
      NotPrefix(s, "&gt;", 1);
      NotPrefix(s, "&quot;", 1);
    } else {
      NotPrefix(s, "&amp;", 0);
      NotPrefix(s, "&lt;", 0);
      NotPrefix(s, "&gt;", 0);
      NotPrefix(s, "&quot;", 0);
      NotPrefix(s, "&apos;", 0);
      assert s[1..] == rest;
    }
  }

  /** Escaping loses no information: single-pass decoding gives the value back. */
  lemma {:induction false} UnescapeEscape(s: string)
    ensures Unescape(EscapeXml(s)) == s
  {
    EscapeXmlIsCharwise(s);
    UnescapeEscapeEach(s);
  }

  lemma {:induction false} UnescapeEscapeEach(s: string)
    ensures Unescape(EscapeEach(s)) == s
  {
    if s != [] {
      UnescapeChunk(s[0], EscapeEach(s[1..]));
      UnescapeEscapeEach(s[1..]);
    }
  }

  /** A value without any of the five special characters is written unchanged. */
  lemma {:induction false} EscapeXmlPlain(s: string)
    requires forall i :: 0 <= i < |s| ==> EscapeChar(s[i]) == [s[i]]
    ensures EscapeXml(s) == s
  {
    EscapeXmlIsCharwise(s);
    EscapeEachPlain(s);
  }

  lemma {:induction false} EscapeEachPlain(s: string)
    requires forall i :: 0 <= i < |s| ==> EscapeChar(s[i]) == [s[i]]
    ensures EscapeEach(s) == s
  {
    if s != [] {
      EscapeEachPlain(s[1..]);
    }
  }
}
