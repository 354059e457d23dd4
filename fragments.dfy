/**
 * `replaceFragmentedPlaceholders`: the tag-tolerant, case-insensitive
 * replace of a bracketed key. The source builds the regular expression
 * `\[` then, for every character `c` of the key, `(?:<[^>]*>)*c(?:<[^>]*>)*`,
 * then `\]`, with the flags `gi`. Here that expression is an explicit
 * scanner. For a key of ASCII characters other than `<` the expression
 * never backtracks: a tag group stops before the first character that
 * does not open a complete tag, and that character must be the key's next
 * character (which is never `<`), so the match tried at a position is
 * unique.
 */
module Fragments {
  import opened Text

  /**
   * A key the scanner describes exactly: ASCII (so that case-insensitive
   * comparison is ASCII folding) and without `<` (so that the tag groups
   * never backtrack). Every normalized placeholder is one.
   */
  predicate IsPatternKey(key: string) {
    forall i :: 0 <= i < |key| ==> key[i] != '<' && key[i] < '\U{0080}'
  }

  /** `(?:<[^>]*>)*` at position `i`, greedy: the position after the complete tags that start there. */
  function SkipTags(t: string, i: nat): (r: nat)
    requires i <= |t|
    ensures i <= r <= |t|
    decreases |t| - i
  {
    if i < |t| && t[i] == '<' then
      match IndexOf(t, '>', i + 1)
      case Some(g) => SkipTags(t, g + 1)
      case None => i
    else i
  }

  /** The two characters are equal under ASCII case folding, the `i` flag's comparison for an ASCII key character. */
  predicate SameLetter(a: char, b: char) {
    UpperAscii(a) == UpperAscii(b)
  }

  /**
   * The key part of the pattern from position `i`: for each key character,
   * tags, the character (either case), tags. The position after it, if it matches.
   */
  function KeyEnd(t: string, i: nat, key: string): (r: Option<nat>)
    requires i <= |t|
    ensures r.Some? ==> i <= r.value <= |t|
    decreases |key|
  {
    if key == [] then Some(i)
    else
      var j := SkipTags(t, i);
      if j < |t| && SameLetter(t[j], key[0]) then KeyEnd(t, SkipTags(t, j + 1), key[1..])
      else None
  }

  /** The end (exclusive) of the match the pattern makes at position `p`, if any. */
  function MatchAt(t: string, p: nat, key: string): (r: Option<nat>)
    ensures r.Some? ==> p + 2 <= r.value <= |t| && t[p] == '[' && t[r.value - 1] == ']'
  {
    if p < |t| && t[p] == '[' then
      match KeyEnd(t, p + 1, key)
      case Some(e) => if e < |t| && t[e] == ']' then Some(e + 1) else None
      case None => None
    else None
  }

  /** `content.match(regex)` from position `p` on: the matched texts, left to right, none overlapping. */
  function Matches(t: string, key: string, p: nat): seq<string>
    decreases |t| - p
  {
    if p >= |t| then []
    else match MatchAt(t, p, key)
      case Some(e) => [t[p..e]] + Matches(t, key, e)
      case None => Matches(t, key, p + 1)
  }

  // ---------------------------------------------------------------------
  // what a match is

  /** Deleting the tags that `SkipTags` passes over removes them entirely. */
  lemma {:induction false} SkipTagsStrip(t: string, i: nat, rest: string)
    requires i <= |t|
    ensures StripTags(t[i..SkipTags(t, i)] + rest) == StripTags(rest)
    decreases |t| - i
  {
    if i < |t| && t[i] == '<' && IndexOf(t, '>', i + 1).Some? {
      var g := IndexOf(t, '>', i + 1).value;
      SkipTagsStrip(t, g + 1, rest);
      SkipTagsStep(t, i, g, rest);
    } else {
      SkipTagsNone(t, i, rest);
    }
  }

  /** A complete tag at `i`: what `SkipTags` passes over from `i` is that tag and what it passes over after it. */
  lemma SkipTagsStep(t: string, i: nat, g: nat, rest: string)
    requires i < |t| && t[i] == '<' && IndexOf(t, '>', i + 1) == Some(g)
    requires StripTags(t[g + 1..SkipTags(t, g + 1)] + rest) == StripTags(rest)
    ensures StripTags(t[i..SkipTags(t, i)] + rest) == StripTags(rest)
  {
    var s := SkipTagsAtTag(t, i, g);
    TagStrip(t, i, g, s, rest);
  }

  lemma SkipTagsAtTag(t: string, i: nat, g: nat) returns (s: nat)
    requires i < |t| && t[i] == '<' && IndexOf(t, '>', i + 1) == Some(g)
    ensures s == SkipTags(t, i) == SkipTags(t, g + 1) && g + 1 <= s <= |t|
  {
    s := SkipTags(t, i);
  }

  /** No complete tag at `i`: `SkipTags` passes over nothing. */
  lemma SkipTagsNone(t: string, i: nat, rest: string)
    requires i <= |t| && !(i < |t| && t[i] == '<' && IndexOf(t, '>', i + 1).Some?)
    ensures StripTags(t[i..SkipTags(t, i)] + rest) == StripTags(rest)
  {
    assert SkipTags(t, i) == i;
    assert t[i..i] + rest == rest;
  }

  /** One complete tag, from `t[i]` to the first `>` at `t[g]`, is deleted in front of what follows it. */
  lemma TagStrip(t: string, i: nat, g: nat, s: nat, rest: string)
    requires i < |t| && t[i] == '<' && IndexOf(t, '>', i + 1) == Some(g) && g + 1 <= s <= |t|
    ensures StripTags(t[i..s] + rest) == StripTags(t[g + 1..s] + rest)
  {
    IndexOfIsFirst(t, '>', i + 1);
    var x := t[i + 1..g];
    assert '>' !in x by {
      assert forall k :: 0 <= k < |x| ==> x[k] == t[i + 1 + k];
    }
    var tail := t[g + 1..s] + rest;
    assert t[i..s] == ['<'] + x + ['>'] + t[g + 1..s];
    assert t[i..s] + rest == ['<'] + x + ['>'] + tail;
    StripTagsTag(x, tail);
  }

  /** The text the key part matches is, once its tags are deleted, the key up to case. */
  lemma {:induction false} KeyEndStrip(t: string, i: nat, key: string, e: nat, rest: string) returns (k: string)
    requires i <= |t| && IsPatternKey(key) && KeyEnd(t, i, key) == Some(e)
    ensures EqualIgnoringCase(k, key)
    ensures StripTags(t[i..e] + rest) == k + StripTags(rest)
    decreases |key|
  {
    if key == [] {
      k := [];
      assert t[i..e] + rest == rest;
    } else {
      var j := SkipTags(t, i);
      var n := SkipTags(t, j + 1);
      assert j < |t| && SameLetter(t[j], key[0]);
      assert KeyEnd(t, n, key[1..]) == Some(e);
      var k' := KeyEndStrip(t, n, key[1..], e, rest);
      assert t[j] != '<' by {
        assert UpperAscii(t[j]) == UpperAscii(key[0]) && key[0] != '<';
      }
      CharStrip(t, i, j, n, e, rest);
      k := [t[j]] + k';
      CaseCons(t[j], k', key);
      Chain(StripTags(t[i..e] + rest), t[j], StripTags(t[n..e] + rest), k', StripTags(rest));
    }
  }

  lemma Chain(x: string, c: char, y: string, k: string, r: string)
    requires x == [c] + y && y == k + r
    ensures x == ([c] + k) + r
  {
  }

  /** Tags, one character that is not `<`, tags: stripping keeps just the character. */
  lemma CharStrip(t: string, i: nat, j: nat, n: nat, e: nat, rest: string)
    requires i <= |t| && j == SkipTags(t, i) && j < |t| && t[j] != '<' && n == SkipTags(t, j + 1) && n <= e <= |t|
    ensures StripTags(t[i..e] + rest) == [t[j]] + StripTags(t[n..e] + rest)
  {
    var r := t[n..e] + rest;
    var x := t[j + 1..n] + r;
    FrontStrip(t, i, j, n, e, rest, x);
    BackStrip(t, j, n, r, x);
  }

  /** The tags in front of the character vanish. */
  lemma FrontStrip(t: string, i: nat, j: nat, n: nat, e: nat, rest: string, x: string)
    requires i <= j < n <= e <= |t| && j == SkipTags(t, i) && x == t[j + 1..n] + (t[n..e] + rest)
    ensures StripTags(t[i..e] + rest) == StripTags([t[j]] + x)
  {
    SliceSplit(t, i, j, n, e, rest);
    SkippedStrip(t, i, j, [t[j]] + x, t[i..e] + rest);
  }

  /** The character is kept and the tags after it vanish. */
  lemma BackStrip(t: string, j: nat, n: nat, r: string, x: string)
    requires j < |t| && t[j] != '<' && n == SkipTags(t, j + 1) && x == t[j + 1..n] + r
    ensures StripTags([t[j]] + x) == [t[j]] + StripTags(r)
  {
    StripTagsCons(t[j], x);
    SkippedStrip(t, j + 1, n, r, x);
  }

  /** The tags `SkipTags` passes over, from `i` to `j`, vanish in front of `y`. */
  lemma SkippedStrip(t: string, i: nat, j: nat, y: string, whole: string)
    requires i <= |t| && j == SkipTags(t, i) && whole == t[i..j] + y
    ensures StripTags(whole) == StripTags(y)
  {
    SkipTagsStrip(t, i, y);
  }

  lemma SliceSplit(t: string, i: nat, j: nat, n: nat, e: nat, rest: string)
    requires i <= j < n <= e <= |t|
    ensures t[i..e] + rest == t[i..j] + ([t[j]] + (t[j + 1..n] + (t[n..e] + rest)))
  {
    assert t[i..e] == t[i..j] + [t[j]] + t[j + 1..n] + t[n..e];
  }

  /** Case-insensitive equality extends by one equal-up-to-case character at the front. */
  lemma CaseCons(c: char, k: string, key: string)
    requires key != [] && UpperAscii(c) == UpperAscii(key[0]) && EqualIgnoringCase(k, key[1..])
    ensures EqualIgnoringCase([c] + k, key)
  {
    UpperCons(c, k);
    UpperCons(key[0], key[1..]);
    assert [key[0]] + key[1..] == key;
  }

  lemma UpperCons(c: char, k: string)
    ensures ToUpper([c] + k) == [UpperAscii(c)] + ToUpper(k)
  {
  }

  /** A match starts with `[`, ends with `]`, and with its tags deleted it is `[key]` up to case. */
  lemma MatchShape(t: string, p: nat, key: string)
    requires IsPatternKey(key) && MatchAt(t, p, key).Some?
    ensures var m := t[p..MatchAt(t, p, key).value];
      && m[0] == '[' && m[|m| - 1] == ']'
      && EqualIgnoringCase(StripTags(m), "[" + key + "]")
  {
    var e := KeyEnd(t, p + 1, key).value;
    assert MatchAt(t, p, key) == Some(e + 1);
    MatchSlice(t, p, e);
    var k := InnerStrip(t, p + 1, key, e);
    BracketsStrip(t[p + 1..e], k);
    CaseBracket(k, key);
  }

  /** The key part followed by the closing `]`, with its tags deleted: the key up to case, then `]`. */
  lemma InnerStrip(t: string, i: nat, key: string, e: nat) returns (k: string)
    requires i <= |t| && IsPatternKey(key) && KeyEnd(t, i, key) == Some(e)
    ensures EqualIgnoringCase(k, key) && StripTags(t[i..e] + "]") == k + "]"
  {
    k := KeyEndStrip(t, i, key, e, "]");
    CloseBracketStrip();
  }

  lemma MatchSlice(t: string, p: nat, e: nat)
    requires p < e < |t| && t[p] == '[' && t[e] == ']'
    ensures t[p..e + 1] == "[" + t[p + 1..e] + "]"
  {
  }

  lemma CloseBracketStrip()
    ensures StripTags("]") == "]"
  {
    assert "]" == [']'] + [];
    StripTagsCons(']', []);
  }

  /** Stripping keeps the brackets around an interior. */
  lemma BracketsStrip(inner: string, k: string)
    requires StripTags(inner + "]") == k + "]"
    ensures StripTags("[" + inner + "]") == "[" + k + "]"
  {
    assert "[" + inner + "]" == ['['] + (inner + "]");
    StripTagsCons('[', inner + "]");
  }

  /** Brackets around two keys equal up to case leave them equal up to case. */
  lemma CaseBracket(k: string, key: string)
    requires EqualIgnoringCase(k, key)
    ensures EqualIgnoringCase("[" + k + "]", "[" + key + "]")
  {
    assert ToUpper("[" + k + "]") == "[" + ToUpper(k) + "]";
    assert ToUpper("[" + key + "]") == "[" + ToUpper(key) + "]";
  }

  /** Every match of the search starts with `[`, ends with `]`, and is `[key]` up to case and tags. */
  lemma {:induction false} MatchesShape(t: string, key: string, p: nat)
    requires IsPatternKey(key)
    ensures forall m :: m in Matches(t, key, p) ==>
      |m| >= 2 && m[0] == '[' && m[|m| - 1] == ']' && EqualIgnoringCase(StripTags(m), "[" + key + "]")
    decreases |t| - p
  {
    if p < |t| {
      match MatchAt(t, p, key)
      case Some(e) =>
        MatchShape(t, p, key);
        MatchesShape(t, key, e);
        assert Matches(t, key, p) == [t[p..e]] + Matches(t, key, e);
      case None =>
        MatchesShape(t, key, p + 1);
        assert Matches(t, key, p) == Matches(t, key, p + 1);
    }
  }

  /** Text without `[` from `p` on holds no match. */
  lemma {:induction false} NoOpenNoMatches(t: string, key: string, p: nat)
    requires forall k :: p <= k < |t| ==> t[k] != '['
    ensures Matches(t, key, p) == []
    decreases |t| - p
  {
    if p < |t| {
      NoOpenNoMatches(t, key, p + 1);
    }
  }

  /** On text without `<`, the key part matches exactly the key's characters, in either case. */
  lemma {:induction false} KeyEndPlain(t: string, i: nat, key: string, k: string)
    requires IsPatternKey(key) && EqualIgnoringCase(k, key)
    requires i + |k| < |t| && t[i..i + |k|] == k && t[i + |k|] != '<'
    ensures KeyEnd(t, i, key) == Some(i + |k|)
    decreases |key|
  {
    if key != [] {
      assert k[0] == t[i];
      assert UpperAscii(k[0]) == UpperAscii(key[0]);
      assert t[i] != '<';
      if |k| > 1 {
        assert t[i + 1] == k[1];
        assert UpperAscii(k[1]) == UpperAscii(key[1]);
      }
      assert k[1..] == t[i + 1..i + |k|];
      assert ToUpper(k[1..]) == ToUpper(k)[1..];
      assert ToUpper(key[1..]) == ToUpper(key)[1..];
      KeyEndPlain(t, i + 1, key[1..], k[1..]);
    }
  }

  /** `[k]`, for any spelling `k` of the key up to case, is matched whole. */
  lemma BracketedMatch(k: string, key: string)
    requires IsPatternKey(key) && EqualIgnoringCase(k, key)
    ensures MatchAt("[" + k + "]", 0, key) == Some(|k| + 2)
  {
    var t := "[" + k + "]";
    assert t[1..1 + |k|] == k;
    KeyEndPlain(t, 1, key, k);
  }

  // ---------------------------------------------------------------------
  // as written: each match's text replaced at its first occurrence

  /**
   * Position of the first occurrence of `s` in `t` at or after `from`:
   * `indexOf`. Nothing is found only when `s` occurs nowhere from `from` on.
   */
  function Find(t: string, s: string, from: nat): (r: Option<nat>)
    ensures r.Some? ==> from <= r.value && r.value + |s| <= |t| && t[r.value..r.value + |s|] == s
    ensures r.Some? ==> forall j :: from <= j < r.value ==> !StartsWith(t[j..], s)
    ensures r.None? ==> forall j :: from <= j <= |t| ==> !StartsWith(t[j..], s)
    decreases |t| - from
  {
    if from > |t| then None
    else if StartsWith(t[from..], s) then
      StartsWithSlice(t[from..], s);
      assert t[from..][..|s|] == t[from..from + |s|];
      Some(from)
    else if from == |t| then None
    else Find(t, s, from + 1)
  }

  /**
   * The replacement text of `String.prototype.replace` with a string pattern
   * (GetSubstitution of the ECMAScript specification): `$$` is `$`, `$&` the
   * matched text, `` $` `` the text before it, `$'` the text after it; any
   * other `$` stands for itself, there being no capture groups.
   */
  function Substitution(matched: string, str: string, position: nat, replacement: string): string
    requires position + |matched| <= |str|
    decreases |replacement|
  {
    if replacement == [] then []
    else if replacement[0] == '$' && |replacement| >= 2 && replacement[1] in "$&`'" then
      var c := replacement[1];
      (if c == '$' then "$"
       else if c == '&' then matched
       else if c == '`' then str[..position]
       else str[position + |matched|..])
      + Substitution(matched, str, position, replacement[2..])
    else [replacement[0]] + Substitution(matched, str, position, replacement[1..])
  }

  /** `content.replace(match, value)`: the first occurrence of `match` replaced, `$` patterns interpreted. */
  function ReplaceFirst(content: string, pattern: string, value: string): string {
    match Find(content, pattern, 0)
    case None => content
    case Some(i) => content[..i] + Substitution(pattern, content, i, value) + content[i + |pattern|..]
  }

  /** `matches.forEach(match => content = content.replace(match, value))`. */
  function ReplaceEachFirst(content: string, matches: seq<string>, value: string): string
    decreases |matches|
  {
    if matches == [] then content
    else ReplaceEachFirst(ReplaceFirst(content, matches[0], value), matches[1..], value)
  }

  /** What `replaceFragmentedPlaceholders` returns, as written. */
  function FragmentReplacedAsWritten(content: string, placeholder: string, value: string): string {
    ReplaceEachFirst(content, Matches(content, placeholder, 0), value)
  }

  /** `replaceFragmentedPlaceholders` as written: the matches collected, then each replaced by `replace`. */
  method ReplaceFragmentedPlaceholdersAsWritten(content: string, placeholder: string, value: string)
    returns (result: string)
    ensures result == FragmentReplacedAsWritten(content, placeholder, value)
  {
    var matches := Matches(content, placeholder, 0);
    result := content;
    var k := 0;
    while k < |matches|
      invariant k <= |matches|
      invariant ReplaceEachFirst(result, matches[k..], value) == FragmentReplacedAsWritten(content, placeholder, value)
    {
      assert matches[k..][1..] == matches[k + 1..];
      result := ReplaceFirst(result, matches[k], value);
      k := k + 1;
    }
  }

  /** A value without `$` is inserted as it is. */
  lemma {:induction false} SubstitutionPlain(matched: string, str: string, position: nat, value: string)
    requires position + |matched| <= |str| && '$' !in value
    ensures Substitution(matched, str, position, value) == value
  {
    if value != [] {
      SubstitutionPlain(matched, str, position, value[1..]);
    }
  }

  /** As written, a lone bracketed key is replaced by the value's `$`-expansion, not by the value. */
  lemma BracketedAsWritten(k: string, key: string, value: string)
    requires IsPatternKey(key) && EqualIgnoringCase(k, key)
    ensures var t := "[" + k + "]";
      FragmentReplacedAsWritten(t, key, value) == Substitution(t, t, 0, value)
  {
    var t := "[" + k + "]";
    BracketedMatch(k, key);
    assert Matches(t, key, 0) == [t] by {
      assert t[0..|k| + 2] == t;
      assert Matches(t, key, |t|) == [];
    }
    var ms := [t];
    assert ReplaceEachFirst(t, ms, value) == ReplaceFirst(t, t, value) by {
      assert ms[1..] == [];
    }
    StartsWithAppend(t, "");
    assert t[0..] == t && t + "" == t;
    assert Find(t, t, 0) == Some(0);
    assert t[..0] == "" && t[|t|..] == "";
    assert ReplaceFirst(t, t, value) == t[..0] + Substitution(t, t, 0, value) + t[|t|..];
  }

  // ---------------------------------------------------------------------
  // corrected: every match replaced in place by the value, literally

  /** Each match from position `p` on replaced, where it was found, by `value` taken literally. */
  function ReplacedFrom(t: string, key: string, value: string, p: nat): string
    decreases |t| - p
  {
    if p >= |t| then []
    else match MatchAt(t, p, key)
      case Some(e) => value + ReplacedFrom(t, key, value, e)
      case None => [t[p]] + ReplacedFrom(t, key, value, p + 1)
  }

  /** What `replaceFragmentedPlaceholders` is evidently meant to return. */
  function FragmentReplaced(content: string, placeholder: string, value: string): string {
    ReplacedFrom(content, placeholder, value, 0)
  }

  /** `replaceFragmentedPlaceholders`, replacing each match where the search found it, by the literal value. */
  method ReplaceFragmentedPlaceholders(content: string, placeholder: string, value: string)
    returns (result: string)
    ensures result == FragmentReplaced(content, placeholder, value)
  {
    result := [];
    var p := 0;
    while p < |content|
      invariant p <= |content|
      invariant result + ReplacedFrom(content, placeholder, value, p) == FragmentReplaced(content, placeholder, value)
      decreases |content| - p
    {
      var m := MatchAt(content, p, placeholder);
      if m.Some? {
        result := result + value;
        p := m.value;
      } else {
        result := result + [content[p]];
        p := p + 1;
      }
    }
  }

  /** Where nothing matches from `p` on, the text from `p` on is kept. */
  lemma {:induction false} ReplacedFromNoMatch(t: string, key: string, value: string, p: nat)
    requires p <= |t| && Matches(t, key, p) == []
    ensures ReplacedFrom(t, key, value, p) == t[p..]
    decreases |t| - p
  {
    if p < |t| {
      assert MatchAt(t, p, key).None?;
      ReplacedFromNoMatch(t, key, value, p + 1);
      assert t[p..] == [t[p]] + t[p + 1..];
    }
  }

  /** With no match, the content is returned unchanged. */
  lemma NoMatchUnchanged(content: string, placeholder: string, value: string)
    requires Matches(content, placeholder, 0) == []
    ensures FragmentReplaced(content, placeholder, value) == content
    ensures FragmentReplacedAsWritten(content, placeholder, value) == content
  {
    ReplacedFromNoMatch(content, placeholder, value, 0);
  }

  /** Content without `[` is never changed. */
  lemma NoBracketUnchanged(content: string, placeholder: string, value: string)
    requires '[' !in content
    ensures FragmentReplaced(content, placeholder, value) == content
  {
    NoOpenNoMatches(content, placeholder, 0);
    NoMatchUnchanged(content, placeholder, value);
  }

  /** A bracketed spelling of the key, in any case, is replaced by exactly the value. */
  lemma BracketedReplaced(k: string, key: string, value: string)
    requires IsPatternKey(key) && EqualIgnoringCase(k, key)
    ensures FragmentReplaced("[" + k + "]", key, value) == value
  {
    var t := "[" + k + "]";
    BracketedMatch(k, key);
    assert ReplacedFrom(t, key, value, |t|) == [];
    assert ReplacedFrom(t, key, value, 0) == value + ReplacedFrom(t, key, value, |t|);
    assert value + [] == value;
  }

  /**
   * The two differ on a value holding `$$`: in a part whose text is `[Name]`,
   * the key `NAME` and the value `$$` leave `$` as written, but `$$` when
   * replaced literally.
   */
  lemma DollarValueMangled(content: string, key: string, value: string)
    requires content == "[Name]" && key == "NAME" && value == "$$"
    ensures FragmentReplacedAsWritten(content, key, value) == "$"
    ensures FragmentReplaced(content, key, value) == value
  {
    NameMatchesKey();
    assert content == "[" + "Name" + "]";
    BracketedAsWritten("Name", key, value);
    BracketedReplaced("Name", key, value);
    assert value[2..] == "";
    assert Substitution(content, content, 0, value) == "$" + Substitution(content, content, 0, "");
  }

  /**
   * Two bracketed spellings of the key in a row are each replaced, where they
   * stand, by the value.
   */
  lemma PairReplaced(k1: string, k2: string, key: string, value: string)
    requires IsPatternKey(key) && EqualIgnoringCase(k1, key) && EqualIgnoringCase(k2, key)
    ensures FragmentReplaced("[" + k1 + "]" + "[" + k2 + "]", key, value) == value + value
  {
    var t := "[" + k1 + "]" + "[" + k2 + "]";
    var n := |k1| + 2;
    assert t[1..1 + |k1|] == k1 && t[n + 1..n + 1 + |k2|] == k2;
    BracketedIn(t, 0, k1, key);
    BracketedIn(t, n, k2, key);
    assert ReplacedFrom(t, key, value, |t|) == [];
    assert ReplacedFrom(t, key, value, n) == value + [];
    assert ReplacedFrom(t, key, value, 0) == value + (value + []);
  }

  /** A bracketed spelling of the key at position `p` is matched whole. */
  lemma BracketedIn(t: string, p: nat, k: string, key: string)
    requires IsPatternKey(key) && EqualIgnoringCase(k, key)
    requires p + |k| + 1 < |t| && t[p] == '[' && t[p + 1..p + 1 + |k|] == k && t[p + 1 + |k|] == ']'
    ensures MatchAt(t, p, key) == Some(p + |k| + 2)
  {
    KeyEndPlain(t, p + 1, key, k);
    MatchFromKeyEnd(t, p, key, p + 1 + |k|);
  }

  /** A `[`, a key span and a `]` right after it make a match. */
  lemma MatchFromKeyEnd(t: string, p: nat, key: string, e: nat)
    requires p < |t| && t[p] == '[' && p + 1 <= |t|
    requires KeyEnd(t, p + 1, key) == Some(e) && e < |t| && t[e] == ']'
    ensures MatchAt(t, p, key) == Some(e + 1)
  {
  }

  /**
   * The two also differ in where a value lands: each `replace` searches the
   * text rewritten so far from its start, so in `[A][A]` with the value
   * `x[A]` the second match is found inside the first value, not after it.
   */
  lemma SearchRestarts(content: string, key: string, value: string)
    requires content == "[A][A]" && key == "A" && value == "x[A]"
    ensures FragmentReplacedAsWritten(content, key, value) == "xx[A][A]"
    ensures FragmentReplaced(content, key, value) == value + value
  {
    var m := "[A]";
    KeyIsOwnSpelling(key);
    assert content == "[" + key + "]" + "[" + key + "]";
    PairReplaced(key, key, key, value);
    RepeatedMatches(content, key);
    ReplaceEachTwo(content, m, value);
    var u := FirstOfTwo(content, m, value);
    SecondFound(u, m, value);
  }

  lemma ReplaceEachTwo(content: string, m: string, value: string)
    ensures ReplaceEachFirst(content, [m, m], value) == ReplaceFirst(ReplaceFirst(content, m, value), m, value)
  {
    var w := ReplaceFirst(content, m, value);
    assert [m, m][1..] == [m] && [m][1..] == [];
    assert ReplaceEachFirst(content, [m, m], value) == ReplaceEachFirst(w, [m], value);
    assert ReplaceEachFirst(w, [m], value) == ReplaceEachFirst(ReplaceFirst(w, m, value), [], value);
  }

  lemma KeyIsOwnSpelling(key: string)
    requires key == "A"
    ensures IsPatternKey(key) && EqualIgnoringCase(key, key)
  {
  }

  lemma RepeatedMatches(content: string, key: string)
    requires content == "[A][A]" && key == "A"
    ensures Matches(content, key, 0) == ["[A]", "[A]"]
  {
    KeyIsOwnSpelling(key);
    assert content[1..2] == key && content[4..5] == key;
    KeyEndPlain(content, 1, key, key);
    KeyEndPlain(content, 4, key, key);
    assert MatchAt(content, 0, key) == Some(3);
    assert MatchAt(content, 3, key) == Some(6);
    assert Matches(content, key, 6) == [];
    assert content[0..3] == "[A]" && content[3..6] == "[A]";
  }

  /** The first `replace` finds `[A]` at the start and puts the value there. */
  lemma FirstOfTwo(content: string, m: string, value: string) returns (u: string)
    requires content == "[A][A]" && m == "[A]" && value == "x[A]"
    ensures u == value + m && ReplaceFirst(content, m, value) == u
  {
    assert content == m + m;
    StartsWithAppend(m, m);
    assert content[0..] == content;
    assert Find(content, m, 0) == Some(0);
    SubstitutionPlain(m, content, 0, value);
    assert content[..0] == [] && content[3..] == m;
    u := value + m;
  }

  /** The second `replace` finds `[A]` inside the value the first one wrote. */
  lemma SecondFound(u: string, m: string, value: string)
    requires u == "x[A][A]" && m == "[A]" && value == "x[A]"
    ensures ReplaceFirst(u, m, value) == "xx[A][A]"
  {
    assert u[0..] == u && u[0] != m[0];
    assert !StartsWith(u[0..], m);
    assert u[1..] == m + m;
    StartsWithAppend(m, m);
    assert Find(u, m, 0) == Some(1);
    SubstitutionPlain(m, u, 1, value);
    assert u[..1] == "x" && u[4..] == m;
  }

  lemma NameMatchesKey()
    ensures IsPatternKey("NAME") && EqualIgnoringCase("Name", "NAME")
  {
    var u := ToUpper("Name");
    assert u[0] == 'N' && u[1] == 'A' && u[2] == 'M' && u[3] == 'E';
    assert u == "NAME";
    var v := ToUpper("NAME");
    assert v[0] == 'N' && v[1] == 'A' && v[2] == 'M' && v[3] == 'E';
    assert v == "NAME";
  }

  /** A key split by markup, `[NA<w:t>ME]`, is still recognised and replaced. */
  lemma SplitKeyReplaced(content: string, key: string, value: string)
    requires content == "[NA<w:t>ME]" && key == "NAME"
    ensures FragmentReplaced(content, key, value) == value
  {
    var t := content;
    assert |t| == 11 && t[3] == '<' && t[7] == '>' && t[10] == ']';
    IndexOfFirst(t, '>', 4, 7);
    assert SkipTags(t, 3) == SkipTags(t, 8) == 8;
    assert SkipTags(t, 9) == 9 && SkipTags(t, 10) == 10;
    assert key[1..][1..][1..][1..] == "";
    assert KeyEnd(t, 9, key[1..][1..][1..]) == Some(10);
    assert KeyEnd(t, 8, key[1..][1..]) == Some(10);
    assert KeyEnd(t, 2, key[1..]) == Some(10);
    assert KeyEnd(t, 1, key) == Some(10);
    assert MatchAt(t, 0, key) == Some(11);
    assert ReplacedFrom(t, key, value, 11) == "";
    assert ReplacedFrom(t, key, value, 0) == value + "";
  }
}
