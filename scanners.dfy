/**
 * The three bracket scans of placeholder detection, each a global regular
 * expression run left to right over a string:
 *  - `/\[([^\]]+)\]/g` over the clean text;
 *  - `findFragmentedPlaceholders`, `/\[([^<>\[\]]*(?:<[^>]*>[^<>\[\]]*)*)\]/g`
 *    over the raw XML, whose interior is plain text with whole tags in between;
 *  - `findBracketPatterns`, `/\[([^\]]*(?:<[^>]*>[^\]]*)*)\]/g` over the raw XML.
 * A failed attempt at a `[` resumes the search one character later; a match
 * resumes it just after its `]`.
 */
module Scanners {
  import opened Text
  import opened Placeholders

  /** A character that cannot stand outside a tag in a fragmented placeholder. */
  predicate IsMarkup(c: char) {
    c == '<' || c == '>' || c == '[' || c == ']'
  }

  /** The `[` that opens a match and the `]` that closes it. */
  datatype Span = Span(open: nat, close: nat)

  predicate NoMarkup(s: string) {
    forall k :: 0 <= k < |s| ==> !IsMarkup(s[k])
  }

  // ---------------------------------------------------------------------
  // clean text: /\[([^\]]+)\]/g

  /**
   * The captured interiors of `/\[([^\]]+)\]/g` from position `p` on: a `[`
   * followed by at least one character that is not `]`, up to the first `]`.
   */
  function CleanTextMatches(t: string, p: nat): (ms: seq<string>)
    ensures forall m :: m in ms ==> m != [] && ']' !in m
    decreases |t| - p
  {
    if p >= |t| then []
    else if t[p] == '[' then
      match IndexOf(t, ']', p + 1)
      case Some(j) =>
        if j > p + 1 then
          var m := t[p + 1..j];
          IndexOfIsFirst(t, ']', p + 1);
          assert forall k :: 0 <= k < |m| ==> m[k] == t[p + 1 + k];
          [m] + CleanTextMatches(t, j + 1)
        else CleanTextMatches(t, p + 1)
      case None => CleanTextMatches(t, p + 1)
    else CleanTextMatches(t, p + 1)
  }

  /**
   * `match.slice(1, -1).trim()` for every match of the clean text: one
   * candidate per match, each a piece of its interior with no whitespace at
   * either end and no `]`.
   */
  function CleanTextCandidates(t: string): (cs: seq<string>)
    ensures |cs| == |CleanTextMatches(t, 0)|
    ensures forall i :: 0 <= i < |cs| ==> cs[i] == Trim(CleanTextMatches(t, 0)[i])
    ensures forall i :: 0 <= i < |cs| ==> NoSpaceAtEdges(cs[i]) && ']' !in cs[i]
  {
    var ms := CleanTextMatches(t, 0);
    TrimmedInteriors(ms);
    seq(|ms|, i requires 0 <= i < |ms| => Trim(ms[i]))
  }

  /** Trimming an interior without `]` leaves one without `]` and without edge whitespace. */
  lemma TrimmedInteriors(ms: seq<string>)
    requires forall m :: m in ms ==> ']' !in m
    ensures forall i :: 0 <= i < |ms| ==> NoSpaceAtEdges(Trim(ms[i])) && ']' !in Trim(ms[i])
  {
    forall i | 0 <= i < |ms|
      ensures NoSpaceAtEdges(Trim(ms[i])) && ']' !in Trim(ms[i])
    {
      var m := ms[i];
      assert m in ms;
      TrimShape(m);
      var a := |m| - |TrimStart(m)|;
      var r := Trim(m);
      assert forall k :: 0 <= k < |r| ==> r[k] == m[a + k];
    }
  }

  lemma {:induction false} CleanTextMatchesFrom(t: string, p: nat)
    requires forall k :: p <= k < |t| ==> t[k] != '['
    ensures CleanTextMatches(t, p) == []
    decreases |t| - p
  {
    if p < |t| {
      CleanTextMatchesFrom(t, p + 1);
    }
  }

  /** A text that is one bracketed run yields exactly that run's interior. */
  lemma SingleCleanMatch(x: string)
    requires x != [] && ']' !in x
    ensures CleanTextMatches("[" + x + "]", 0) == [x]
  {
    var t := "[" + x + "]";
    var j := |x| + 1;
    assert forall k :: 1 <= k < j ==> t[k] == x[k - 1];
    IndexOfFirst(t, ']', 1, j);
    assert t[1..j] == x;
    CleanTextMatchesFrom(t, j + 1);
  }

  // ---------------------------------------------------------------------
  // findFragmentedPlaceholders

  /** The captured group of a match: what lies strictly between its `[` and its `]`. */
  function Interior(t: string, m: Span): (r: string)
    requires m.open < m.close <= |t|
    ensures |r| == m.close - m.open - 1
  {
    t[m.open + 1..m.close]
  }

  /**
   * Where the fragmented pattern's match ends, if the interior starts at `i`:
   * characters other than `<`, `>`, `[`, `]`, and whole tags running from `<`
   * to the first `>`, until a `]`. Any other character, or a `<` never closed,
   * makes the attempt fail.
   */
  function FragmentEnd(t: string, i: nat): (r: Option<nat>)
    ensures r.Some? ==> i <= r.value < |t| && t[r.value] == ']'
    decreases |t| - i
  {
    if i >= |t| then None
    else if t[i] == ']' then Some(i)
    else if t[i] == '<' then
      match IndexOf(t, '>', i + 1)
      case Some(g) => FragmentEnd(t, g + 1)
      case None => None
    else if t[i] == '>' || t[i] == '[' then None
    else FragmentEnd(t, i + 1)
  }

  /** `raw.replace(/<[^>]*>/g, '').trim()`: an interior with its tags deleted and its ends trimmed. */
  function Cleaned(raw: string): string {
    Trim(StripTags(raw))
  }

  /**
   * The match the fragmented pattern makes when tried at position `p`: a `[`
   * there and a fragmented interior after it.
   */
  function FragmentAt(t: string, p: nat): (m: Option<Span>)
    ensures m.Some? ==> m.value.open == p < m.value.close < |t|
  {
    if p < |t| && t[p] == '[' then
      match FragmentEnd(t, p + 1)
      case Some(e) => Some(Span(p, e))
      case None => None
    else None
  }

  /**
   * The interiors `openBracketRegex.exec` captures, in order, when the search
   * resumes at `p` with `found` captured so far. A failed attempt moves on by
   * one character; after a match the search resumes just past its `]`.
   */
  function FragmentInteriors(t: string, p: nat, found: seq<string>): seq<string>
    decreases |t| - p
  {
    if p >= |t| then found
    else match FragmentAt(t, p)
      case None => FragmentInteriors(t, p + 1, found)
      case Some(m) => FragmentInteriors(t, m.close + 1, found + [Interior(t, m)])
  }

  /** A match at `p` leaves the outcome of the fragmented search unchanged. */
  lemma FragmentInteriorsMatch(t: string, p: nat, found: seq<string>, outcome: seq<string>)
    requires FragmentAt(t, p).Some? && FragmentInteriors(t, p, found) == outcome
    ensures var m := FragmentAt(t, p).value; FragmentInteriors(t, m.close + 1, found + [Interior(t, m)]) == outcome
  {
  }

  /** A failed attempt at `p` leaves the outcome of the fragmented search unchanged. */
  lemma FragmentInteriorsMiss(t: string, p: nat, found: seq<string>, outcome: seq<string>)
    requires p < |t| && FragmentAt(t, p).None? && FragmentInteriors(t, p, found) == outcome
    ensures FragmentInteriors(t, p + 1, found) == outcome
  {
  }

  /** Every element of `s` is a valid placeholder. */
  predicate AllValid(s: seq<string>) {
    forall i :: 0 <= i < |s| ==> IsValidPlaceholder(s[i])
  }

  /** The cleaned interiors, in order, that are valid placeholders. */
  function ValidCleaned(raws: seq<string>): (r: seq<string>)
    ensures |r| <= |raws|
  {
    if raws == [] then []
    else
      var c := Cleaned(raws[|raws| - 1]);
      ValidCleaned(raws[..|raws| - 1]) + (if IsValidPlaceholder(c) then [c] else [])
  }

  /** One more interior adds its cleaned text when that is valid. */
  lemma ValidCleanedPush(raws: seq<string>, raw: string, kept: seq<string>)
    requires ValidCleaned(raws) == kept
    ensures IsValidPlaceholder(Cleaned(raw)) ==> ValidCleaned(raws + [raw]) == kept + [Cleaned(raw)]
    ensures !IsValidPlaceholder(Cleaned(raw)) ==> ValidCleaned(raws + [raw]) == kept
  {
    assert (raws + [raw])[..|raws|] == raws;
  }

  lemma {:induction false} ValidCleanedAllValid(raws: seq<string>)
    ensures AllValid(ValidCleaned(raws))
  {
    if raws != [] {
      ValidCleanedAllValid(raws[..|raws| - 1]);
    }
  }

  /** What `findFragmentedPlaceholders` returns for `xml`: each captured interior, cleaned, kept when valid. */
  function FragmentedPlaceholders(xml: string): seq<string> {
    ValidCleaned(FragmentInteriors(xml, 0, []))
  }

  /** Every placeholder the fragmented scan reports is valid. */
  lemma FragmentedAllValid(xml: string)
    ensures AllValid(FragmentedPlaceholders(xml))
  {
    ValidCleanedAllValid(FragmentInteriors(xml, 0, []));
  }

  /** The body of the `regex.exec` loop for one match: clean the interior, push it when valid. */
  method PushIfValid(ghost raws: seq<string>, ghost grown: seq<string>, rawContent: string, placeholders: seq<string>)
    returns (pushed: seq<string>)
    requires grown == raws + [rawContent]
    requires ValidCleaned(raws) == placeholders
    ensures ValidCleaned(grown) == pushed
  {
    var cleanContent := Cleaned(rawContent);
    ValidCleanedPush(raws, rawContent, placeholders);
    pushed := placeholders;
    if IsValidPlaceholder(cleanContent) {
      pushed := pushed + [cleanContent];
    }
  }

  /**
   * `openBracketRegex.exec(xml)` with the regular expression's `lastIndex` at
   * `lastIndex`: the next match, tried position by position.
   */
  method ExecFragment(xml: string, lastIndex: nat, ghost found: seq<string>, ghost outcome: seq<string>)
    returns (m: Option<Span>, ghost grown: seq<string>)
    requires FragmentInteriors(xml, lastIndex, found) == outcome
    ensures m.None? ==> found == outcome
    ensures m.Some? ==> lastIndex <= m.value.open < m.value.close < |xml|
    ensures m.Some? ==> grown == found + [Interior(xml, m.value)]
    ensures m.Some? ==> FragmentInteriors(xml, m.value.close + 1, grown) == outcome
  {
    var p := lastIndex;
    while p < |xml|
      invariant lastIndex <= p
      invariant FragmentInteriors(xml, p, found) == outcome
      decreases |xml| - p
    {
      m := FragmentAt(xml, p);
      if m.Some? {
        FragmentInteriorsMatch(xml, p, found, outcome);
        grown := found + [Interior(xml, m.value)];
        return;
      }
      FragmentInteriorsMiss(xml, p, found, outcome);
      p := p + 1;
    }
    m, grown := None, found;
  }

  /** `findFragmentedPlaceholders`: the `regex.exec` loop. */
  method FindFragmentedPlaceholders(xml: string) returns (placeholders: seq<string>)
    ensures placeholders == FragmentedPlaceholders(xml)
  {
    ghost var matches := FragmentInteriors(xml, 0, []);
    ghost var raws: seq<string> := [];
    placeholders := [];
    var lastIndex := 0;
    while true
      invariant FragmentInteriors(xml, lastIndex, raws) == matches
      invariant ValidCleaned(raws) == placeholders
      decreases |xml| + 1 - lastIndex
    {
      var m, grown := ExecFragment(xml, lastIndex, raws, matches);
      if m.None? {
        break;
      }
      var rawContent := Interior(xml, m.value);
      placeholders := PushIfValid(raws, grown, rawContent, placeholders);
      raws := grown;
      lastIndex := m.value.close + 1;
    }
  }

  // ---------------------------------------------------------------------
  // findBracketPatterns

  /**
   * The match the bracket pattern makes when tried at position `p`: a `[`
   * there and some later `]`. The pattern's leading `[^\]]*` runs up to the
   * first `]`, so the match always ends there, and there is a match exactly
   * when a `[` at `p` has some `]` after it.
   */
  function BracketAt(t: string, p: nat): (m: Option<Span>)
    ensures m.Some? ==> m.value.open == p < m.value.close < |t|
    ensures m.Some? ==> t[p] == '[' && t[m.value.close] == ']' && ']' !in t[p + 1..m.value.close]
    ensures m.None? ==> p >= |t| || t[p] != '[' || ']' !in t[p + 1..]
  {
    if p < |t| && t[p] == '[' then
      IndexOfIsFirst(t, ']', p + 1);
      match IndexOf(t, ']', p + 1)
      case Some(e) =>
        NotInSlice(t, ']', p + 1, e);
        Some(Span(p, e))
      case None =>
        NotInSlice(t, ']', p + 1, |t|);
        assert t[p + 1..|t|] == t[p + 1..];
        None
    else None
  }

  /**
   * The interiors the `findBracketPatterns` regular expression captures, in
   * order, when the search resumes at `p` with `found` captured so far.
   */
  function BracketInteriors(t: string, p: nat, found: seq<string>): seq<string>
    decreases |t| - p
  {
    if p >= |t| then found
    else match BracketAt(t, p)
      case None => BracketInteriors(t, p + 1, found)
      case Some(m) => BracketInteriors(t, m.close + 1, found + [Interior(t, m)])
  }

  /** A match at `p` leaves the outcome of the bracket search unchanged. */
  lemma BracketInteriorsMatch(t: string, p: nat, found: seq<string>, outcome: seq<string>)
    requires BracketAt(t, p).Some? && BracketInteriors(t, p, found) == outcome
    ensures var m := BracketAt(t, p).value; BracketInteriors(t, m.close + 1, found + [Interior(t, m)]) == outcome
  {
  }

  /** A failed attempt at `p` leaves the outcome of the bracket search unchanged. */
  lemma BracketInteriorsMiss(t: string, p: nat, found: seq<string>, outcome: seq<string>)
    requires p < |t| && BracketAt(t, p).None? && BracketInteriors(t, p, found) == outcome
    ensures BracketInteriors(t, p + 1, found) == outcome
  {
  }

  /** No element of `s` holds a `]`. */
  predicate NoCloseBracket(s: seq<string>) {
    forall i :: 0 <= i < |s| ==> ']' !in s[i]
  }

  /** A bracket interior runs up to the first `]`, so it holds none. */
  lemma BracketInteriorNoClose(t: string, p: nat, found: seq<string>)
    requires BracketAt(t, p).Some? && NoCloseBracket(found)
    ensures NoCloseBracket(found + [Interior(t, BracketAt(t, p).value)])
  {
    var m := BracketAt(t, p).value;
    var raw := Interior(t, m);
    IndexOfIsFirst(t, ']', m.open + 1);
    assert forall k :: 0 <= k < |raw| ==> raw[k] == t[m.open + 1 + k];
  }

  lemma {:induction false} BracketInteriorsNoClose(t: string, p: nat, found: seq<string>, outcome: seq<string>)
    requires NoCloseBracket(found) && BracketInteriors(t, p, found) == outcome
    ensures NoCloseBracket(outcome)
    decreases |t| - p
  {
    if p < |t| {
      var m := BracketAt(t, p);
      if m.None? {
        BracketInteriorsMiss(t, p, found, outcome);
        BracketInteriorsNoClose(t, p + 1, found, outcome);
      } else {
        BracketInteriorsMatch(t, p, found, outcome);
        BracketInteriorNoClose(t, p, found);
        BracketInteriorsNoClose(t, m.value.close + 1, found + [Interior(t, m.value)], outcome);
      }
    }
  }

  /** The cleaned interiors, in order, that are not empty. */
  function NonEmptyCleaned(raws: seq<string>): (r: seq<string>)
    ensures |r| <= |raws|
  {
    if raws == [] then []
    else
      var c := Cleaned(raws[|raws| - 1]);
      NonEmptyCleaned(raws[..|raws| - 1]) + (if |c| > 0 then [c] else [])
  }

  /** One more interior adds its cleaned text when that is not empty. */
  lemma NonEmptyCleanedPush(raws: seq<string>, raw: string, kept: seq<string>)
    requires NonEmptyCleaned(raws) == kept
    ensures |Cleaned(raw)| > 0 ==> NonEmptyCleaned(raws + [raw]) == kept + [Cleaned(raw)]
    ensures |Cleaned(raw)| == 0 ==> NonEmptyCleaned(raws + [raw]) == kept
  {
    assert (raws + [raw])[..|raws|] == raws;
  }

  /** What `findBracketPatterns` returns for `content`: each captured interior, cleaned, kept when not empty. */
  function BracketPatterns(content: string): seq<string> {
    NonEmptyCleaned(BracketInteriors(content, 0, []))
  }

  /** Trimming keeps the characters of a contiguous middle part, so it keeps "no tag" and what is absent. */
  lemma TrimNoTag(s: string)
    ensures NoTag(s) ==> NoTag(Trim(s))
    ensures forall c :: c in Trim(s) ==> c in s
  {
    TrimShape(s);
    var r, a := Trim(s), |s| - |TrimStart(s)|;
    assert forall k :: 0 <= k < |r| ==> r[k] == s[a + k];
  }

  lemma CleanedShape(raw: string)
    ensures var c := Cleaned(raw); NoSpaceAtEdges(c) && NoTag(c) && (forall ch :: ch in c ==> ch in raw)
  {
    StripTagsShape(raw);
    TrimShape(StripTags(raw));
    TrimNoTag(StripTags(raw));
  }

  /** What a bracket pattern looks like: non-empty, no whitespace at its ends, no tag and no `]`. */
  predicate IsBracketPattern(x: string) {
    x != [] && NoSpaceAtEdges(x) && NoTag(x) && ']' !in x
  }

  /** Every element of `s` is a bracket pattern. */
  predicate AllBracketPatterns(s: seq<string>) {
    forall i :: 0 <= i < |s| ==> IsBracketPattern(s[i])
  }

  lemma {:induction false} NonEmptyCleanedShape(raws: seq<string>)
    requires NoCloseBracket(raws)
    ensures AllBracketPatterns(NonEmptyCleaned(raws))
  {
    if raws != [] {
      var front := raws[..|raws| - 1];
      assert NoCloseBracket(front) by {
        assert forall i :: 0 <= i < |front| ==> front[i] == raws[i];
      }
      NonEmptyCleanedShape(front);
      CleanedShape(raws[|raws| - 1]);
    }
  }

  /** Every bracket pattern is non-empty, has no whitespace at its ends, holds no tag and no `]`. */
  lemma BracketPatternsShape(content: string)
    ensures AllBracketPatterns(BracketPatterns(content))
  {
    var raws := BracketInteriors(content, 0, []);
    BracketInteriorsNoClose(content, 0, [], raws);
    NonEmptyCleanedShape(raws);
  }

  /** The body of the `regex.exec` loop for one match: clean the interior, push it when not empty. */
  method PushIfNonEmpty(ghost raws: seq<string>, ghost grown: seq<string>, rawMatch: string, patterns: seq<string>)
    returns (pushed: seq<string>)
    requires grown == raws + [rawMatch]
    requires NonEmptyCleaned(raws) == patterns
    ensures NonEmptyCleaned(grown) == pushed
  {
    var cleaned := Cleaned(rawMatch);
    NonEmptyCleanedPush(raws, rawMatch, patterns);
    pushed := patterns;
    if |cleaned| > 0 {
      pushed := pushed + [cleaned];
    }
  }

  /**
   * `regex.exec(content)` for the bracket pattern with `lastIndex` at
   * `lastIndex`: the next match, tried position by position.
   */
  method ExecBracket(content: string, lastIndex: nat, ghost found: seq<string>, ghost outcome: seq<string>)
    returns (m: Option<Span>, ghost grown: seq<string>)
    requires BracketInteriors(content, lastIndex, found) == outcome
    ensures m.None? ==> found == outcome
    ensures m.Some? ==> lastIndex <= m.value.open < m.value.close < |content|
    ensures m.Some? ==> grown == found + [Interior(content, m.value)]
    ensures m.Some? ==> BracketInteriors(content, m.value.close + 1, grown) == outcome
  {
    var p := lastIndex;
    while p < |content|
      invariant lastIndex <= p
      invariant BracketInteriors(content, p, found) == outcome
      decreases |content| - p
    {
      m := BracketAt(content, p);
      if m.Some? {
        BracketInteriorsMatch(content, p, found, outcome);
        grown := found + [Interior(content, m.value)];
        return;
      }
      BracketInteriorsMiss(content, p, found, outcome);
      p := p + 1;
    }
    m, grown := None, found;
  }

  /** `findBracketPatterns`: the `regex.exec` loop. */
  method FindBracketPatterns(content: string) returns (patterns: seq<string>)
    ensures patterns == BracketPatterns(content)
  {
    ghost var matches := BracketInteriors(content, 0, []);
    ghost var raws: seq<string> := [];
    patterns := [];
    var lastIndex := 0;
    while true
      invariant BracketInteriors(content, lastIndex, raws) == matches
      invariant NonEmptyCleaned(raws) == patterns
      decreases |content| + 1 - lastIndex
    {
      var m, grown := ExecBracket(content, lastIndex, raws, matches);
      if m.None? {
        break;
      }
      var rawMatch := Interior(content, m.value);
      patterns := PushIfNonEmpty(raws, grown, rawMatch, patterns);
      raws := grown;
      lastIndex := m.value.close + 1;
    }
  }

  /** Position `k` lies inside a tag opened at or after `i`: a `<` before it with no `>` since. */
  predicate InTag(t: string, i: nat, k: nat)
    requires k < |t|
  {
    exists g :: i <= g < k && t[g] == '<' && '>' !in t[g + 1..k + 1]
  }

  /** Every `]` the fragmented scan passes over before its closing `]` sits inside a tag. */
  lemma {:induction false} FragmentClosesInTags(t: string, i: nat)
    requires FragmentEnd(t, i).Some?
    ensures forall k :: i <= k < FragmentEnd(t, i).value && t[k] == ']' ==> InTag(t, i, k)
    decreases |t| - i
  {
    var e := FragmentEnd(t, i).value;
    if t[i] == '<' {
      var g := IndexOf(t, '>', i + 1).value;
      IndexOfIsFirst(t, '>', i + 1);
      FragmentClosesInTags(t, g + 1);
      forall k | i <= k < e && t[k] == ']'
        ensures InTag(t, i, k)
      {
        if k < g {
          NotInSlice(t, '>', i + 1, k + 1);
          assert t[i] == '<' && '>' !in t[i + 1..k + 1];
        } else {
          assert InTag(t, g + 1, k);
          var h :| g + 1 <= h < k && t[h] == '<' && '>' !in t[h + 1..k + 1];
          assert i <= h;
        }
      }
    } else if t[i] != ']' {
      FragmentClosesInTags(t, i + 1);
      forall k | i <= k < e && t[k] == ']'
        ensures InTag(t, i, k)
      {
        assert InTag(t, i + 1, k);
        var h :| i + 1 <= h < k && t[h] == '<' && '>' !in t[h + 1..k + 1];
        assert i <= h;
      }
    }
  }

  /**
   * The bracket-pattern scan, started at the same `[` as a completed
   * fragmented match, closes at the first `]`: at or before the fragmented
   * match's `]`, every `]` in between lies inside a tag, and the two close
   * together exactly when no tag in between holds a `]`.
   */
  lemma FragmentEndFirstClose(t: string, i: nat)
    requires FragmentEnd(t, i).Some?
    ensures IndexOf(t, ']', i).Some? && IndexOf(t, ']', i).value <= FragmentEnd(t, i).value
    ensures forall k :: i <= k < FragmentEnd(t, i).value && t[k] == ']' ==> InTag(t, i, k)
    ensures IndexOf(t, ']', i) == FragmentEnd(t, i) <==> ']' !in t[i..FragmentEnd(t, i).value]
  {
    var e := FragmentEnd(t, i).value;
    FragmentClosesInTags(t, i);
    IndexOfIsFirst(t, ']', i);
    var f := IndexOf(t, ']', i).value;
    if f == e {
      NotInSlice(t, ']', i, e);
    } else {
      assert t[i..e][f - i] == ']';
    }
  }

  /**
   * A `]` inside a tag separates the two scans: on `[a<x]>b]` the bracket
   * pattern closes at the `]` inside the tag, the fragmented pattern at the last `]`.
   */
  lemma TagHidesClose(t: string)
    requires t == "[a<x]>b]"
    ensures BracketAt(t, 0) == Some(Span(0, 4))
    ensures FragmentAt(t, 0) == Some(Span(0, 7))
  {
    assert |t| == 8 && t[1] == 'a' && t[2] == '<' && t[3] == 'x' && t[4] == ']';
    assert t[5] == '>' && t[6] == 'b' && t[7] == ']';
    assert IndexOf(t, ']', 3) == Some(4);
    assert IndexOf(t, ']', 1) == Some(4);
    assert IndexOf(t, '>', 4) == Some(5);
    assert IndexOf(t, '>', 3) == Some(5);
    assert FragmentEnd(t, 6) == Some(7);
    assert FragmentEnd(t, 2) == Some(7);
  }
}
