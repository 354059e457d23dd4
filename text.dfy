/**
 * String primitives the placeholder engine is built from: JavaScript's `\s`
 * class and `trim()`, the tag-stripping replace `/<[^>]*>/g`, global
 * single-character replaces, ASCII case mapping, and `split`/`join`, which
 * the engine uses for literal counting and replacing.
 */
module Text {

  datatype Option<T> = None | Some(value: T)

  /**
   * The characters of JavaScript's `\s` class, which are also the ones `trim()`
   * removes: tab, line feed, vertical tab, form feed, carriage return, space,
   * no-break space, U+1680, U+2000 to U+200A, U+2028, U+2029, U+202F, U+205F,
   * U+3000 and the byte order mark U+FEFF.
   */
  const WhiteSpace: string :=
    "\t\n\U{000B}\U{000C}\r \U{00A0}\U{1680}"
    + "\U{2000}\U{2001}\U{2002}\U{2003}\U{2004}\U{2005}\U{2006}\U{2007}\U{2008}\U{2009}\U{200A}"
    + "\U{2028}\U{2029}\U{202F}\U{205F}\U{3000}\U{FEFF}"

  predicate IsSpace(c: char) {
    c in WhiteSpace
  }

  predicate NoSpaceAtEdges(s: string) {
    s == [] || (!IsSpace(s[0]) && !IsSpace(s[|s| - 1]))
  }

  /** No two whitespace characters stand next to each other. */
  predicate NoDoubleSpace(s: string) {
    forall i :: 0 <= i < |s| - 1 ==> !(IsSpace(s[i]) && IsSpace(s[i + 1]))
  }

  /** The leading-whitespace half of `trim()`. */
  function TrimStart(s: string): (r: string)
    ensures |r| <= |s|
    ensures r == [] || !IsSpace(r[0])
  {
    if s != [] && IsSpace(s[0]) then TrimStart(s[1..]) else s
  }

  /** The trailing-whitespace half of `trim()`. */
  function TrimEnd(s: string): (r: string)
    ensures |r| <= |s|
    ensures r == [] || !IsSpace(r[|r| - 1])
  {
    if s != [] && IsSpace(s[|s| - 1]) then TrimEnd(s[..|s| - 1]) else s
  }

  /** `String.prototype.trim`. */
  function Trim(s: string): string {
    TrimEnd(TrimStart(s))
  }

  lemma {:induction false} TrimStartSuffix(s: string)
    ensures TrimStart(s) == s[|s| - |TrimStart(s)|..]
  {
    if s != [] && IsSpace(s[0]) {
      TrimStartSuffix(s[1..]);
    }
  }

  lemma {:induction false} TrimEndPrefix(s: string)
    ensures TrimEnd(s) == s[..|TrimEnd(s)|]
  {
    if s != [] && IsSpace(s[|s| - 1]) {
      TrimEndPrefix(s[..|s| - 1]);
    }
  }

  /** TrimStart removes whitespace only. */
  lemma {:induction false} TrimStartRemovesSpace(s: string, i: nat)
    requires i < |s| - |TrimStart(s)|
    ensures IsSpace(s[i])
  {
    if i > 0 {
      TrimStartRemovesSpace(s[1..], i - 1);
    }
  }

  /** TrimEnd removes whitespace only. */
  lemma {:induction false} TrimEndRemovesSpace(s: string, i: nat)
    requires |TrimEnd(s)| <= i < |s|
    ensures IsSpace(s[i])
  {
    if i < |s| - 1 {
      TrimEndRemovesSpace(s[..|s| - 1], i);
    }
  }

  /**
   * Trim keeps a contiguous middle part of the text, leaves no whitespace at
   * its ends, and everything it removes before and after that part is whitespace.
   */
  lemma TrimShape(s: string)
    ensures var r, a := Trim(s), |s| - |TrimStart(s)|;
      && NoSpaceAtEdges(r)
      && 0 <= a <= |s| - |r| && r == s[a..a + |r|]
      && (forall i :: 0 <= i < a ==> IsSpace(s[i]))
      && (forall i :: a + |r| <= i < |s| ==> IsSpace(s[i]))
  {
    TrimEdges(s);
    TrimMiddle(s);
    var r, a := Trim(s), |s| - |TrimStart(s)|;
    forall i | 0 <= i < a || a + |r| <= i < |s|
      ensures IsSpace(s[i])
    {
      TrimRemovesOnlySpace(s, i);
    }
  }

  lemma TrimEdges(s: string)
    ensures NoSpaceAtEdges(Trim(s))
  {
    var t := TrimStart(s);
    var r := TrimEnd(t);
    TrimEndPrefix(t);
    if r != [] {
      assert r[0] == t[0];
    }
  }

  lemma TrimMiddle(s: string)
    ensures var r, a := Trim(s), |s| - |TrimStart(s)|;
      a + |r| <= |s| && r == s[a..a + |r|]
  {
    var t := TrimStart(s);
    var r := TrimEnd(t);
    var a := |s| - |t|;
    TrimStartSuffix(s);
    TrimEndPrefix(t);
    assert s[a..][..|r|] == s[a..a + |r|];
  }

  /** Trim removes exactly whitespace from both ends. */
  lemma TrimRemovesOnlySpace(s: string, i: nat)
    requires i < |s|
    requires i < |s| - |TrimStart(s)| || |s| - |TrimStart(s)| + |Trim(s)| <= i
    ensures IsSpace(s[i])
  {
    var t := TrimStart(s);
    var a := |s| - |t|;
    TrimStartSuffix(s);
    if i < a {
      TrimStartRemovesSpace(s, i);
    } else {
      assert s[i] == t[i - a];
      TrimEndRemovesSpace(t, i - a);
    }
  }

  /** Trimming keeps a string without two adjacent whitespace characters so. */
  lemma TrimNoDoubleSpace(s: string)
    requires NoDoubleSpace(s)
    ensures NoDoubleSpace(Trim(s))
  {
    TrimShape(s);
  }

  /** Trimming a string with no whitespace at either end changes nothing. */
  lemma TrimIdentity(s: string)
    requires NoSpaceAtEdges(s)
    ensures Trim(s) == s
  {
  }

  /** A run of whitespace in front of a non-space is removed by `TrimStart` whole. */
  lemma {:induction false} TrimStartSpaces(w: string, s: string)
    requires forall i :: 0 <= i < |w| ==> IsSpace(w[i])
    requires s == [] || !IsSpace(s[0])
    ensures TrimStart(w + s) == s
  {
    if w == [] {
      assert w + s == s;
    } else {
      assert (w + s)[1..] == w[1..] + s;
      TrimStartSpaces(w[1..], s);
    }
  }

  /** Text ending in a non-space stops `TrimStart` before anything appended to it. */
  lemma {:induction false} TrimStartAppend(a: string, b: string)
    requires a != [] && !IsSpace(a[|a| - 1])
    ensures TrimStart(a + b) == TrimStart(a) + b
    ensures TrimStart(a) != [] && TrimStart(a)[|TrimStart(a)| - 1] == a[|a| - 1]
  {
    if IsSpace(a[0]) {
      assert (a + b)[1..] == a[1..] + b;
      TrimStartAppend(a[1..], b);
    }
  }

  /** Text starting with a non-space stops `TrimEnd` after anything put in front of it. */
  lemma {:induction false} TrimEndPrepend(a: string, b: string)
    requires b != [] && !IsSpace(b[0])
    ensures TrimEnd(a + b) == a + TrimEnd(b)
    decreases |b|
  {
    if IsSpace(b[|b| - 1]) {
      assert (a + b)[..|a + b| - 1] == a + b[..|b| - 1];
      TrimEndPrepend(a, b[..|b| - 1]);
    }
  }

  /** One space between two words survives `trim`, which only cuts the outer ends. */
  lemma TrimAround(x: string, y: string)
    requires x != [] && !IsSpace(x[|x| - 1])
    requires y != [] && !IsSpace(y[0])
    ensures Trim(x + " " + y) == Trim(x) + " " + Trim(y)
  {
    assert x + " " + y == x + (" " + y);
    TrimStartAppend(x, " " + y);
    var h := TrimStart(x);
    assert h + (" " + y) == (h + " ") + y;
    TrimEndPrepend(h + " ", y);
  }

  /** A character absent from every position of a range is absent from that slice. */
  lemma NotInSlice(s: string, c: char, a: nat, b: nat)
    requires a <= b <= |s|
    requires forall k :: a <= k < b ==> s[k] != c
    ensures c !in s[a..b]
  {
    forall k | 0 <= k < b - a
      ensures s[a..b][k] != c
    {
      assert s[a..b][k] == s[a + k];
    }
  }

  /** Position of the first `c` in `s` at or after `from`. */
  function IndexOf(s: string, c: char, from: nat): (r: Option<nat>)
    ensures r.Some? ==> from <= r.value < |s| && s[r.value] == c
    decreases |s| - from
  {
    if from >= |s| then None
    else if s[from] == c then Some(from)
    else IndexOf(s, c, from + 1)
  }

  /** The position found is the first `c` from `from` on, and none is found only when there is none. */
  lemma {:induction false} IndexOfIsFirst(s: string, c: char, from: nat)
    ensures IndexOf(s, c, from).Some? ==> forall k :: from <= k < IndexOf(s, c, from).value ==> s[k] != c
    ensures IndexOf(s, c, from).None? ==> forall k :: from <= k < |s| ==> s[k] != c
    decreases |s| - from
  {
    if from < |s| && s[from] != c {
      IndexOfIsFirst(s, c, from + 1);
    }
  }

  /** Conversely, the first `c` from `from` on is the position found. */
  lemma {:induction false} IndexOfFirst(s: string, c: char, from: nat, e: nat)
    requires from <= e < |s| && s[e] == c
    requires forall k :: from <= k < e ==> s[k] != c
    ensures IndexOf(s, c, from) == Some(e)
    decreases e - from
  {
    if from < e {
      IndexOfFirst(s, c, from + 1, e);
    }
  }

  /** No `<` is followed, anywhere later, by a `>`: the string holds no `<...>` tag. */
  predicate NoTag(s: string) {
    forall i, j :: 0 <= i < j < |s| && s[i] == '<' ==> s[j] != '>'
  }

  /**
   * `s.replace(/<[^>]*>/g, '')`: scanning left to right, a `<` that has a `>`
   * somewhere after it starts a tag that runs to the first such `>` and is
   * deleted; any other character is kept.
   */
  function StripTags(s: string): (r: string)
    ensures |r| <= |s|
  {
    if s == [] then []
    else if s[0] == '<' && IndexOf(s, '>', 1).Some? then StripTags(s[IndexOf(s, '>', 1).value + 1..])
    else [s[0]] + StripTags(s[1..])
  }

  /** Tag stripping only deletes characters, and what it leaves holds no tag. */
  lemma {:induction false} StripTagsShape(s: string)
    ensures forall c :: c in StripTags(s) ==> c in s
    ensures NoTag(StripTags(s))
  {
    if s != [] {
      if s[0] == '<' && IndexOf(s, '>', 1).Some? {
        StripTagsShape(s[IndexOf(s, '>', 1).value + 1..]);
      } else {
        StripTagsShape(s[1..]);
        IndexOfIsFirst(s, '>', 1);
        assert s[0] == '<' ==> '>' !in s[1..];
      }
    }
  }

  /** Text holding no tag is left alone by tag stripping, so StripTags is idempotent. */
  lemma {:induction false} StripTagsNoTag(s: string)
    requires NoTag(s)
    ensures StripTags(s) == s
  {
    if s != [] {
      if s[0] == '<' {
        assert IndexOf(s, '>', 1).None?;
      }
      StripTagsNoTag(s[1..]);
    }
  }

  lemma StripTagsIdempotent(s: string)
    ensures StripTags(StripTags(s)) == StripTags(s)
  {
    StripTagsShape(s);
    StripTagsNoTag(StripTags(s));
  }

  /** Stripping distributes over a leading character that cannot open a tag. */
  lemma StripTagsCons(c: char, s: string)
    requires c != '<'
    ensures StripTags([c] + s) == [c] + StripTags(s)
  {
    assert ([c] + s)[1..] == s;
  }

  /** A complete tag, from `<` to the first `>`, is deleted. */
  lemma StripTagsTag(x: string, rest: string)
    requires '>' !in x
    ensures StripTags(['<'] + x + ['>'] + rest) == StripTags(rest)
  {
    var s := ['<'] + x + ['>'] + rest;
    var k := |x| + 1;
    assert s[k] == '>';
    assert forall j :: 1 <= j < k ==> s[j] == x[j - 1];
    IndexOfFirst(s, '>', 1, k);
    assert s[k + 1..] == rest;
  }

  /** Text without `<` is kept as it is. */
  lemma {:induction false} StripTagsText(text: string, rest: string)
    requires '<' !in text
    ensures StripTags(text + rest) == text + StripTags(rest)
  {
    if text != [] {
      StripTagsText(text[1..], rest);
      assert text + rest == [text[0]] + (text[1..] + rest);
      StripTagsCons(text[0], text[1..] + rest);
    } else {
      assert text + rest == rest;
    }
  }

  /** `s.replace(/c/g, r)` for a single literal character `c`. */
  function ReplaceChar(s: string, c: char, r: string): string {
    if s == [] then [] else (if s[0] == c then r else [s[0]]) + ReplaceChar(s[1..], c, r)
  }

  lemma {:induction false} ReplaceCharAppend(a: string, b: string, c: char, r: string)
    ensures ReplaceChar(a + b, c, r) == ReplaceChar(a, c, r) + ReplaceChar(b, c, r)
  {
    if a != [] {
      var head := if a[0] == c then r else [a[0]];
      assert (a + b)[0] == a[0];
      assert (a + b)[1..] == a[1..] + b;
      ReplaceCharAppend(a[1..], b, c, r);
      calc {
        ReplaceChar(a + b, c, r);
        head + ReplaceChar(a[1..] + b, c, r);
        head + (ReplaceChar(a[1..], c, r) + ReplaceChar(b, c, r));
        (head + ReplaceChar(a[1..], c, r)) + ReplaceChar(b, c, r);
        ReplaceChar(a, c, r) + ReplaceChar(b, c, r);
      }
    } else {
      assert a + b == b;
    }
  }

  lemma ReplaceCharSingle(d: char, c: char, r: string)
    ensures ReplaceChar([d], c, r) == if d == c then r else [d]
  {
    assert [d][1..] == [];
  }

  /** A character that does not occur is not replaced. */
  lemma {:induction false} ReplaceCharAbsent(s: string, c: char, r: string)
    requires c !in s
    ensures ReplaceChar(s, c, r) == s
  {
    if s != [] {
      ReplaceCharAbsent(s[1..], c, r);
    }
  }

  /** Replacing one character by another is a pointwise map. */
  lemma {:induction false} ReplaceCharPointwise(s: string, c: char, d: char)
    ensures |ReplaceChar(s, c, [d])| == |s|
    ensures forall i :: 0 <= i < |s| ==> ReplaceChar(s, c, [d])[i] == if s[i] == c then d else s[i]
  {
    if s != [] {
      ReplaceCharPointwise(s[1..], c, d);
    }
  }

  function UpperAscii(c: char): char {
    if 'a' <= c <= 'z' then (c as int - 32) as char else c
  }

  function LowerAscii(c: char): char {
    if 'A' <= c <= 'Z' then (c as int + 32) as char else c
  }

  /** `toUpperCase()` restricted to ASCII letters. */
  function ToUpper(s: string): (r: string)
    ensures |r| == |s|
    ensures forall i :: 0 <= i < |s| ==> r[i] == UpperAscii(s[i])
  {
    seq(|s|, i requires 0 <= i < |s| => UpperAscii(s[i]))
  }

  /** `toLowerCase()` restricted to ASCII letters. */
  function ToLower(s: string): (r: string)
    ensures |r| == |s|
    ensures forall i :: 0 <= i < |s| ==> r[i] == LowerAscii(s[i])
  {
    seq(|s|, i requires 0 <= i < |s| => LowerAscii(s[i]))
  }

  /** ASCII case-insensitive equality, the comparison of a `/.../i` regex on ASCII letters. */
  predicate EqualIgnoringCase(a: string, b: string) {
    ToUpper(a) == ToUpper(b)
  }

  // ---------------------------------------------------------------------
  // split / join

  /** `t` begins with `s`, character by character. */
  predicate StartsWith(t: string, s: string)
    ensures StartsWith(t, s) ==> |s| <= |t|
  {
    s == [] || (t != [] && t[0] == s[0] && StartsWith(t[1..], s[1..]))
  }

  lemma {:induction false} StartsWithSlice(t: string, s: string)
    ensures StartsWith(t, s) <==> |s| <= |t| && t[..|s|] == s
  {
    if s != [] && t != [] {
      StartsWithSlice(t[1..], s[1..]);
      if |s| <= |t| && t[..|s|] == s {
        assert t[1..][..|s| - 1] == t[..|s|][1..];
      }
      if StartsWith(t, s) {
        assert t[..|s|] == [t[0]] + t[1..][..|s| - 1];
        assert s == [s[0]] + s[1..];
      }
    }
  }

  lemma StartsWithAppend(s: string, rest: string)
    ensures StartsWith(s + rest, s)
  {
    StartsWithSlice(s + rest, s);
    assert (s + rest)[..|s|] == s;
  }

  lemma {:induction false} StartsWithExtend(t: string, s: string, b: string)
    requires StartsWith(t, s)
    ensures StartsWith(t + b, s)
  {
    if s != [] {
      assert (t + b)[1..] == t[1..] + b;
      StartsWithExtend(t[1..], s[1..], b);
    }
  }

  predicate OccursAt(t: string, s: string, i: nat) {
    i <= |t| && StartsWith(t[i..], s)
  }

  /** `s` occurs somewhere in `t`. */
  predicate Contains(t: string, s: string)
    decreases |t|
  {
    StartsWith(t, s) || (t != [] && Contains(t[1..], s))
  }

  /** `Contains` holds exactly when there is a position at which `s` occurs. */
  lemma ContainsIff(t: string, s: string)
    ensures Contains(t, s) <==> exists i :: 0 <= i <= |t| && OccursAt(t, s, i)
  {
    if Contains(t, s) {
      var i := ContainsWitness(t, s);
    }
    if exists i :: 0 <= i <= |t| && OccursAt(t, s, i) {
      var i :| 0 <= i <= |t| && OccursAt(t, s, i);
      OccursContains(t, s, i);
    }
  }

  lemma {:induction false} ContainsWitness(t: string, s: string) returns (i: nat)
    requires Contains(t, s)
    ensures i <= |t| && OccursAt(t, s, i)
    decreases |t|
  {
    if StartsWith(t, s) {
      i := 0;
      assert t[0..] == t;
    } else {
      var j := ContainsWitness(t[1..], s);
      i := j + 1;
      assert t[1..][j..] == t[i..];
    }
  }

  lemma {:induction false} OccursContains(t: string, s: string, i: nat)
    requires OccursAt(t, s, i)
    ensures Contains(t, s)
    decreases i
  {
    if i == 0 {
      assert t[0..] == t;
    } else {
      assert t[1..][i - 1..] == t[i..];
      OccursContains(t[1..], s, i - 1);
    }
  }

  /** A string with a character that `t` lacks does not occur in `t`. */
  lemma {:induction false} MissingCharNotContains(t: string, s: string, k: nat)
    requires k < |s| && s[k] !in t
    ensures !Contains(t, s)
  {
    StartsWithSlice(t, s);
    if |s| <= |t| {
      assert t[..|s|][k] == t[k];
    }
    if t != [] {
      MissingCharNotContains(t[1..], s, k);
    }
  }

  lemma {:induction false} ShortNotContains(t: string, s: string)
    requires |t| < |s|
    ensures !Contains(t, s)
  {
    if t != [] {
      ShortNotContains(t[1..], s);
    }
  }

  /**
   * `t.split(sep)` for a non-empty separator: the pieces between the
   * non-overlapping occurrences of `sep` found scanning left to right.
   */
  function Split(t: string, sep: string): (parts: seq<string>)
    requires sep != []
    ensures |parts| >= 1
    decreases |t|
  {
    if |t| < |sep| then [t]
    else if StartsWith(t, sep) then [[]] + Split(t[|sep|..], sep)
    else
      var rest := Split(t[1..], sep);
      [[t[0]] + rest[0]] + rest[1..]
  }

  /** `t.split("")`: one piece per character (none for the empty string). */
  function Chars(t: string): (parts: seq<string>)
    ensures |parts| == |t|
  {
    seq(|t|, i requires 0 <= i < |t| => [t[i]])
  }

  function SplitJs(t: string, sep: string): seq<string> {
    if sep == [] then Chars(t) else Split(t, sep)
  }

  /** `parts.join(glue)`. */
  function Join(parts: seq<string>, glue: string): string {
    if |parts| == 0 then []
    else if |parts| == 1 then parts[0]
    else parts[0] + glue + Join(parts[1..], glue)
  }

  /** `text.split(search).length - 1`. */
  function CountOccurrences(text: string, search: string): int {
    |SplitJs(text, search)| - 1
  }

  /** `text.split(search).join(replacement)`. */
  function ReplaceAll(text: string, search: string, replacement: string): string {
    Join(SplitJs(text, search), replacement)
  }

  /** A leading occurrence is replaced and the scan resumes after it. */
  lemma ReplaceAllPrefix(s: string, u: string, r: string)
    requires s != []
    ensures ReplaceAll(s + u, s, r) == r + ReplaceAll(u, s, r)
  {
    var t := s + u;
    StartsWithAppend(s, u);
    assert t[|s|..] == u;
    var rest := Split(u, s);
    assert Split(t, s) == [[]] + rest;
    assert ([[]] + rest)[1..] == rest;
  }

  /**
   * A character where no occurrence starts is kept and the scan goes on after
   * it; with `ReplaceAllPrefix` and `ReplaceAllAbsent` this fixes every result.
   */
  lemma ReplaceAllSkip(c: char, u: string, s: string, r: string)
    requires s != [] && !StartsWith([c] + u, s)
    ensures ReplaceAll([c] + u, s, r) == [c] + ReplaceAll(u, s, r)
  {
    var rest := Split(u, s);
    SplitSkip(c, u, s);
    JoinConsHead(c, rest[0], rest[1..], s);
    assert [rest[0]] + rest[1..] == rest;
  }

  /** The split of a text that does not start with the separator: its first character joins the first piece. */
  lemma SplitSkip(c: char, u: string, s: string)
    requires s != [] && !StartsWith([c] + u, s)
    ensures var rest := Split(u, s); Split([c] + u, s) == [[c] + rest[0]] + rest[1..]
  {
    var t := [c] + u;
    assert t[0] == c && t[1..] == u;
  }

  /** Text in which the search string does not occur is left unchanged. */
  lemma ReplaceAllAbsent(t: string, s: string, r: string)
    requires s != [] && !Contains(t, s)
    ensures ReplaceAll(t, s, r) == t
  {
    CountPositiveIffContains(t, s);
    CountZeroUnchanged(t, s, r);
  }

  lemma JoinConsHead(c: char, p: string, ps: seq<string>, glue: string)
    ensures Join([[c] + p] + ps, glue) == [c] + Join([p] + ps, glue)
  {
    if ps != [] {
      assert ([[c] + p] + ps)[1..] == ps;
      assert ([p] + ps)[1..] == ps;
    }
  }

  lemma {:induction false} JoinSplitNonEmpty(t: string, sep: string)
    requires sep != []
    ensures Join(Split(t, sep), sep) == t
    decreases |t|
  {
    StartsWithSlice(t, sep);
    if |t| < |sep| {
    } else if StartsWith(t, sep) {
      JoinSplitNonEmpty(t[|sep|..], sep);
      var rest := Split(t[|sep|..], sep);
      assert ([[]] + rest)[1..] == rest;
      assert t == t[..|sep|] + t[|sep|..];
    } else {
      JoinSplitNonEmpty(t[1..], sep);
      var rest := Split(t[1..], sep);
      JoinConsHead(t[0], rest[0], rest[1..], sep);
      assert [rest[0]] + rest[1..] == rest;
      assert t == [t[0]] + t[1..];
    }
  }

  lemma {:induction false} JoinChars(t: string)
    ensures Join(Chars(t), []) == t
  {
    if |t| > 1 {
      JoinChars(t[1..]);
      assert Chars(t)[1..] == Chars(t[1..]);
      assert t == [t[0]] + t[1..];
    }
  }

  /** Joining the pieces of a split with the separator restores the text. */
  lemma JoinSplit(t: string, sep: string)
    ensures Join(SplitJs(t, sep), sep) == t
  {
    if sep == [] { JoinChars(t); } else { JoinSplitNonEmpty(t, sep); }
  }

  /** `replaceAll(t, s, s) == t`. */
  lemma ReplaceAllSelf(t: string, s: string)
    ensures ReplaceAll(t, s, s) == t
  {
    JoinSplit(t, s);
  }

  /** A search string with no occurrences leaves the text unchanged, whatever the replacement. */
  lemma CountZeroUnchanged(t: string, s: string, r: string)
    requires CountOccurrences(t, s) == 0
    ensures ReplaceAll(t, s, r) == t
  {
    JoinSplit(t, s);
  }

  /** The count is positive exactly when the (non-empty) search string occurs in the text. */
  lemma {:induction false} CountPositiveIffContains(t: string, s: string)
    requires s != []
    ensures CountOccurrences(t, s) >= 0
    ensures CountOccurrences(t, s) > 0 <==> Contains(t, s)
    decreases |t|
  {
    if |t| < |s| {
      ShortNotContains(t, s);
    } else if StartsWith(t, s) {
    } else {
      CountPositiveIffContains(t[1..], s);
    }
  }

  function SumLen(parts: seq<string>): nat {
    if parts == [] then 0 else |parts[0]| + SumLen(parts[1..])
  }

  lemma {:induction false} JoinLength(parts: seq<string>, glue: string)
    requires parts != []
    ensures |Join(parts, glue)| == SumLen(parts) + (|parts| - 1) * |glue|
  {
    if |parts| > 1 {
      JoinLength(parts[1..], glue);
      assert (|parts| - 2) * |glue| + |glue| == (|parts| - 1) * |glue|;
    }
  }

  /**
   * Each occurrence replaced changes the length by the difference of the two
   * strings' lengths (only the empty text split by the empty string is excluded:
   * its count is -1).
   */
  lemma ReplaceAllLength(t: string, s: string, r: string)
    requires t != [] || s != []
    ensures |ReplaceAll(t, s, r)| == |t| + CountOccurrences(t, s) * (|r| - |s|)
  {
    var parts := SplitJs(t, s);
    assert parts != [];
    JoinLength(parts, r);
    JoinLength(parts, s);
    JoinSplit(t, s);
    assert (|parts| - 1) * |r| - (|parts| - 1) * |s| == (|parts| - 1) * (|r| - |s|);
  }

  lemma {:induction false} SplitChars(t: string, sep: string, j: nat, c: char)
    requires sep != []
    requires j < |Split(t, sep)| && c in Split(t, sep)[j]
    ensures c in t
    decreases |t|
  {
    if |t| < |sep| {
    } else if StartsWith(t, sep) {
      if j > 0 {
        SplitChars(t[|sep|..], sep, j - 1, c);
      }
    } else {
      var rest := Split(t[1..], sep);
      if j == 0 {
        if c != t[0] {
          SplitChars(t[1..], sep, 0, c);
        }
      } else {
        SplitChars(t[1..], sep, j, c);
      }
    }
  }

  lemma {:induction false} JoinChars2(parts: seq<string>, glue: string, c: char)
    requires c in Join(parts, glue)
    ensures c in glue || exists j :: 0 <= j < |parts| && c in parts[j]
  {
    if |parts| > 1 {
      if c !in parts[0] && c !in glue {
        JoinChars2(parts[1..], glue, c);
        var j :| 0 <= j < |parts[1..]| && c in parts[1..][j];
        assert c in parts[j + 1];
      }
    }
  }

  /** Every character of a replace-all result comes from the text or from the replacement. */
  lemma ReplaceAllChars(t: string, s: string, r: string, c: char)
    requires c in ReplaceAll(t, s, r)
    ensures c in t || c in r
  {
    JoinChars2(SplitJs(t, s), r, c);
    if c !in r {
      var j :| 0 <= j < |SplitJs(t, s)| && c in SplitJs(t, s)[j];
      if s != [] { SplitChars(t, s, j, c); }
    }
  }
}
