/**
 * `extractCleanText`: the visible text of an XML part, used by the first
 * detection pass. Tags are stripped, the five entities decoded, whitespace
 * runs collapsed to one space and the ends trimmed.
 */
module CleanText {
  import opened Text

  /**
   * `s.replace(/\s+/g, sep)`: every maximal whitespace run becomes one `sep`,
   * and every character that is neither whitespace nor `sep` is kept, in order.
   */
  function ReplaceSpaceRuns(s: string, sep: char): (r: string)
    ensures |r| <= |s|
    ensures r == [] <==> s == []
    ensures r != [] ==> r[0] == if IsSpace(s[0]) then sep else s[0]
    ensures forall i :: 0 <= i < |r| ==> r[i] == sep || (!IsSpace(r[i]) && r[i] in s)
    ensures NoDoubleSpace(r)
    ensures Solid(r, sep) == Solid(s, sep)
    decreases |s|
  {
    if s == [] then []
    else if IsSpace(s[0]) then
      var rest := TrimStart(s);
      TrimStartSuffix(s);
      SolidTrimStart(s, sep);
      var r := ReplaceSpaceRuns(rest, sep);
      SolidCons(sep, r, sep);
      [sep] + r
    else
      var r := ReplaceSpaceRuns(s[1..], sep);
      SolidCons(s[0], r, sep);
      SolidCons(s[0], s[1..], sep);
      assert [s[0]] + s[1..] == s;
      [s[0]] + r
  }

  /** A non-space character is copied and the scan goes on after it. */
  lemma ReplaceSpaceRunsCons(c: char, s: string, sep: char)
    requires !IsSpace(c)
    ensures ReplaceSpaceRuns([c] + s, sep) == [c] + ReplaceSpaceRuns(s, sep)
  {
    assert ([c] + s)[1..] == s;
  }

  /** A whole whitespace run, however long, becomes exactly one `sep`. */
  lemma ReplaceSpaceRunsRun(w: string, s: string, sep: char)
    requires w != [] && forall i :: 0 <= i < |w| ==> IsSpace(w[i])
    requires s == [] || !IsSpace(s[0])
    ensures ReplaceSpaceRuns(w + s, sep) == [sep] + ReplaceSpaceRuns(s, sep)
  {
    assert (w + s)[0] == w[0];
    TrimStartSpaces(w, s);
  }

  /** A text starting with whitespace: its leading run becomes one `sep`. */
  lemma ReplaceSpaceRunsSpace(s: string, sep: char)
    requires s != [] && IsSpace(s[0])
    ensures ReplaceSpaceRuns(s, sep) == [sep] + ReplaceSpaceRuns(TrimStart(s), sep)
  {
  }

  /** A text ending in a non-space is collapsed independently of what follows it. */
  lemma {:induction false} ReplaceSpaceRunsAppend(a: string, b: string, sep: char)
    requires a == [] || !IsSpace(a[|a| - 1])
    ensures ReplaceSpaceRuns(a + b, sep) == ReplaceSpaceRuns(a, sep) + ReplaceSpaceRuns(b, sep)
    decreases |a|
  {
    if a == [] {
      assert a + b == b;
    } else {
      var h := if IsSpace(a[0]) then [sep] else [a[0]];
      var t := if IsSpace(a[0]) then TrimStart(a) else a[1..];
      assert ReplaceSpaceRuns(a + b, sep) == h + ReplaceSpaceRuns(t + b, sep) by {
        HeadStep(a, b, sep);
      }
      assert ReplaceSpaceRuns(a, sep) == h + ReplaceSpaceRuns(t, sep) by {
        HeadStep(a, [], sep);
        NoTail(a);
        NoTail(t);
      }
      assert |t| < |a| && (t == [] || !IsSpace(t[|t| - 1])) by {
        if IsSpace(a[0]) { TrimStartAppend(a, []); NoTail(a); }
      }
      ReplaceSpaceRunsAppend(t, b, sep);
      Regroup(h, ReplaceSpaceRuns(t, sep), ReplaceSpaceRuns(b, sep));
    }
  }

  /** One step of collapsing at the head of `a + b`, where `a` ends in a non-space. */
  lemma HeadStep(a: string, b: string, sep: char)
    requires a != [] && !IsSpace(a[|a| - 1])
    ensures var h := if IsSpace(a[0]) then [sep] else [a[0]];
      var t := if IsSpace(a[0]) then TrimStart(a) else a[1..];
      ReplaceSpaceRuns(a + b, sep) == h + ReplaceSpaceRuns(t + b, sep)
  {
    assert (a + b)[0] == a[0];
    if IsSpace(a[0]) {
      TrimStartAppend(a, b);
      ReplaceSpaceRunsSpace(a + b, sep);
    } else {
      HeadTail(a, b);
      ReplaceSpaceRunsCons(a[0], a[1..] + b, sep);
    }
  }

  lemma NoTail(a: string)
    ensures a + [] == a
  {
  }

  lemma Regroup(h: string, u: string, v: string)
    ensures h + (u + v) == (h + u) + v
  {
  }

  lemma HeadTail(a: string, b: string)
    requires a != []
    ensures a + b == [a[0]] + (a[1..] + b)
  {
  }

  /** A text ending in a non-space keeps that character at the end when collapsed. */
  lemma {:induction false} ReplaceSpaceRunsLast(a: string, sep: char)
    requires a != [] && !IsSpace(a[|a| - 1])
    ensures var r := ReplaceSpaceRuns(a, sep); r != [] && r[|r| - 1] == a[|a| - 1]
    decreases |a|
  {
    if IsSpace(a[0]) {
      TrimStartAppend(a, []);
      assert a + [] == a;
      ReplaceSpaceRunsLast(TrimStart(a), sep);
    } else if |a| > 1 {
      ReplaceSpaceRunsLast(a[1..], sep);
    }
  }

  /** The characters of `s` that are neither whitespace nor `sep`, in order. */
  function Solid(s: string, sep: char): string {
    if s == [] then []
    else (if IsSpace(s[0]) || s[0] == sep then [] else [s[0]]) + Solid(s[1..], sep)
  }

  lemma SolidCons(c: char, s: string, sep: char)
    ensures Solid([c] + s, sep) == (if IsSpace(c) || c == sep then [] else [c]) + Solid(s, sep)
  {
    assert ([c] + s)[1..] == s;
  }

  lemma {:induction false} SolidAppend(a: string, b: string, sep: char)
    ensures Solid(a + b, sep) == Solid(a, sep) + Solid(b, sep)
  {
    if a != [] {
      var head := if IsSpace(a[0]) || a[0] == sep then [] else [a[0]];
      var p, q := Solid(a[1..], sep), Solid(b, sep);
      SolidAppend(a[1..], b, sep);
      assert a + b == [a[0]] + (a[1..] + b);
      SolidCons(a[0], a[1..] + b, sep);
      assert Solid(a, sep) == head + p;
      assert head + (p + q) == (head + p) + q;
    } else {
      assert a + b == b;
    }
  }

  lemma {:induction false} SolidSpaces(s: string, sep: char)
    requires forall i :: 0 <= i < |s| ==> IsSpace(s[i])
    ensures Solid(s, sep) == []
  {
    if s != [] {
      SolidSpaces(s[1..], sep);
    }
  }

  lemma {:induction false} SolidTrimStart(s: string, sep: char)
    ensures Solid(TrimStart(s), sep) == Solid(s, sep)
  {
    if s != [] && IsSpace(s[0]) {
      SolidTrimStart(s[1..], sep);
    }
  }

  /** Trimming removes only whitespace, so it keeps every other character. */
  lemma SolidTrim(s: string, sep: char)
    ensures Solid(Trim(s), sep) == Solid(s, sep)
  {
    TrimShape(s);
    var r, a := Trim(s), |s| - |TrimStart(s)|;
    var b := a + |r|;
    assert s == s[..a] + r + s[b..];
    SolidSpaces(s[..a], sep);
    SolidSpaces(s[b..], sep);
    SolidAppend(s[..a] + r, s[b..], sep);
    SolidAppend(s[..a], r, sep);
  }

  /** The five entity replaces of `extractCleanText`, in the source's order: lt, gt, amp, quot, apos. */
  function DecodeEntities(s: string): string {
    ReplaceAll(ReplaceAll(ReplaceAll(ReplaceAll(ReplaceAll(
      s, "&lt;", "<"), "&gt;", ">"), "&amp;", "&"), "&quot;", "\""), "&apos;", "'")
  }

  /**
   * The replaces run one after another, so an escaped `&` is decoded before
   * `&quot;` and `&apos;` are looked for but after `&lt;` and `&gt;` were:
   * `&amp;lt;` becomes `&lt;`, while `&amp;quot;` becomes `"`, decoded twice.
   */
  lemma DecodeOrder(lt: string, quot: string)
    requires lt == "&amp;lt;" && quot == "&amp;quot;"
    ensures DecodeEntities(lt) == "&lt;"
    ensures DecodeEntities(quot) == "\""
  {
    DecodeEscapedLt(lt);
    DecodeEscapedQuot(quot);
  }

  /** `&amp;lt;`: only the `&amp;` replace applies. */
  lemma DecodeEscapedLt(lt: string)
    requires lt == "&amp;lt;"
    ensures DecodeEntities(lt) == "&lt;"
  {
    assert lt == "&amp;" + "lt;";
    assert !Contains(lt, "&lt;") by {
      assert lt[1] == 'a' && !StartsWith(lt, "&lt;");
      MissingCharNotContains(lt[1..], "&lt;", 0);
    }
    ReplaceAllAbsent(lt, "&lt;", "<");
    MissingCharNotContains(lt, "&gt;", 1);
    ReplaceAllAbsent(lt, "&gt;", ">");
    ReplaceAllPrefix("&amp;", "lt;", "&");
    ShortNotContains("lt;", "&amp;");
    ReplaceAllAbsent("lt;", "&amp;", "&");
    assert "&" + "lt;" == "&lt;";
    ShortNotContains("&lt;", "&quot;");
    ReplaceAllAbsent("&lt;", "&quot;", "\"");
    ShortNotContains("&lt;", "&apos;");
    ReplaceAllAbsent("&lt;", "&apos;", "'");
  }

  /** `&amp;quot;`: the `&amp;` replace makes a `&quot;` that the next replace decodes. */
  lemma DecodeEscapedQuot(quot: string)
    requires quot == "&amp;quot;"
    ensures DecodeEntities(quot) == "\""
  {
    QuotNoLtGt(quot);
    QuotAmp(quot);
    QuotDecoded("&quot;");
  }

  lemma QuotNoLtGt(quot: string)
    requires quot == "&amp;quot;"
    ensures ReplaceAll(ReplaceAll(quot, "&lt;", "<"), "&gt;", ">") == quot
  {
    MissingCharNotContains(quot, "&lt;", 1);
    ReplaceAllAbsent(quot, "&lt;", "<");
    MissingCharNotContains(quot, "&gt;", 1);
    ReplaceAllAbsent(quot, "&gt;", ">");
  }

  lemma QuotAmp(quot: string)
    requires quot == "&amp;quot;"
    ensures ReplaceAll(quot, "&amp;", "&") == "&quot;"
  {
    var tail := "quot;";
    assert quot == "&amp;" + tail;
    ReplaceAllPrefix("&amp;", tail, "&");
    MissingCharNotContains(tail, "&amp;", 0);
    ReplaceAllAbsent(tail, "&amp;", "&");
  }

  lemma QuotDecoded(q: string)
    requires q == "&quot;"
    ensures ReplaceAll(ReplaceAll(q, "&quot;", "\""), "&apos;", "'") == "\""
  {
    assert q == q + "";
    ReplaceAllPrefix(q, "", "\"");
    assert ReplaceAll("", q, "\"") == "";
    assert "\"" + "" == "\"";
    ShortNotContains("\"", "&apos;");
    ReplaceAllAbsent("\"", "&apos;", "'");
  }

  /** `extractCleanText`. */
  function ExtractCleanText(xml: string): string {
    Trim(ReplaceSpaceRuns(DecodeEntities(StripTags(xml)), ' '))
  }

  /**
   * The clean text has no whitespace at either end, never two whitespace
   * characters in a row, and every whitespace character left in it is a plain space.
   */
  lemma CleanTextShape(xml: string)
    ensures var r := ExtractCleanText(xml);
      && NoSpaceAtEdges(r)
      && NoDoubleSpace(r)
      && (forall i :: 0 <= i < |r| && IsSpace(r[i]) ==> r[i] == ' ')
  {
    var c := ReplaceSpaceRuns(DecodeEntities(StripTags(xml)), ' ');
    TrimShape(c);
    TrimNoDoubleSpace(c);
    var r := Trim(c);
    var a := |c| - |TrimStart(c)|;
    forall i | 0 <= i < |r| && IsSpace(r[i])
      ensures r[i] == ' '
    {
      assert r[i] == c[a + i];
    }
  }

  /**
   * The clean text keeps every character of the decoded, tag-free text that is
   * not whitespace, in order: collapsing and trimming only touch whitespace.
   */
  lemma CleanTextKeeps(xml: string)
    ensures Solid(ExtractCleanText(xml), ' ') == Solid(DecodeEntities(StripTags(xml)), ' ')
  {
    var c := ReplaceSpaceRuns(DecodeEntities(StripTags(xml)), ' ');
    SolidTrim(c, ' ');
  }

  /**
   * Two words of the decoded, tag-free text with whitespace between them stay
   * apart: the run between them becomes exactly one space in the clean text.
   */
  lemma CleanTextWords(xml: string, p: string, w: string, q: string)
    requires DecodeEntities(StripTags(xml)) == p + w + q
    requires p != [] && !IsSpace(p[|p| - 1])
    requires w != [] && forall i :: 0 <= i < |w| ==> IsSpace(w[i])
    requires q != [] && !IsSpace(q[0])
    ensures ExtractCleanText(xml) == Trim(ReplaceSpaceRuns(p, ' ')) + " " + Trim(ReplaceSpaceRuns(q, ' '))
  {
    var x, y := ReplaceSpaceRuns(p, ' '), ReplaceSpaceRuns(q, ' ');
    assert ReplaceSpaceRuns(p + w + q, ' ') == x + " " + y by {
      Regroup(p, w, q);
      ReplaceSpaceRunsAppend(p, w + q, ' ');
      ReplaceSpaceRunsRun(w, q, ' ');
      Regroup(x, " ", y);
    }
    ReplaceSpaceRunsLast(p, ' ');
    TrimAround(x, y);
  }

  /** Collapsing is the identity on text that is already collapsed. */
  lemma {:induction false} ReplaceSpaceRunsIdentity(s: string)
    requires NoDoubleSpace(s)
    requires forall i :: 0 <= i < |s| && IsSpace(s[i]) ==> s[i] == ' '
    ensures ReplaceSpaceRuns(s, ' ') == s
  {
    if s != [] {
      if IsSpace(s[0]) {
        assert |s| > 1 ==> !IsSpace(s[1]);
        assert TrimStart(s) == s[1..];
      }
      ReplaceSpaceRunsIdentity(s[1..]);
    }
  }

  /** Whitespace collapsing and trimming are idempotent: applied to clean text they change nothing. */
  lemma CollapseTrimIdempotent(xml: string)
    ensures var r := ExtractCleanText(xml);
      Trim(ReplaceSpaceRuns(r, ' ')) == r
  {
    CleanTextShape(xml);
    var r := ExtractCleanText(xml);
    ReplaceSpaceRunsIdentity(r);
    TrimIdentity(r);
  }
}
