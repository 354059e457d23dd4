/**
 * `isValidPlaceholder` and `normalizePlaceholder`: which bracket interiors
 * are accepted as placeholders, and the canonical key each one is stored under.
 */
module Placeholders {
  import opened Text
  import opened CleanText

  /** The letters of the class `[A-ZÆØÅa-zæøå]`. */
  predicate IsLetter(c: char) {
    || ('A' <= c <= 'Z') || ('a' <= c <= 'z')
    || c == '\U{00C6}' || c == '\U{00D8}' || c == '\U{00C5}'
    || c == '\U{00E6}' || c == '\U{00F8}' || c == '\U{00E5}'
  }

  /** The class `[A-ZÆØÅa-zæøå0-9_\s\-\.]`. */
  predicate IsAllowedChar(c: char) {
    IsLetter(c) || ('0' <= c <= '9') || c == '_' || IsSpace(c) || c == '-' || c == '.'
  }

  /**
   * `isValidPlaceholder`: only allowed characters (and at least one of them),
   * at least one letter, and fewer than 100 characters.
   */
  predicate IsValidPlaceholder(text: string) {
    && (forall i :: 0 <= i < |text| ==> IsAllowedChar(text[i]))
    && (exists i :: 0 <= i < |text| && IsLetter(text[i]))
    && 0 < |text| < 100
  }

  /** The ASCII word characters of `\w`, plus `-` and `.`: what `[^\w\-\.]` leaves alone. */
  predicate IsKeyChar(c: char) {
    ('A' <= c <= 'Z') || ('a' <= c <= 'z') || ('0' <= c <= '9') || c == '_' || c == '-' || c == '.'
  }

  /** The characters a normalized key is made of. */
  predicate IsNormalChar(c: char) {
    ('A' <= c <= 'Z') || ('0' <= c <= '9') || c == '_' || c == '-' || c == '.'
  }

  predicate NoDoubleUnderscore(s: string) {
    forall i :: 0 <= i < |s| - 1 ==> !(s[i] == '_' && s[i + 1] == '_')
  }

  /**
   * What `normalizePlaceholder` promises of its result: upper-case ASCII
   * letters, digits, `_`, `-` and `.` only, no `__`, and no `_` at either end.
   */
  predicate IsNormalized(s: string) {
    && (forall i :: 0 <= i < |s| ==> IsNormalChar(s[i]))
    && NoDoubleUnderscore(s)
    && (s == [] || (s[0] != '_' && s[|s| - 1] != '_'))
  }

  /** `replace(/[^\w\-\.]/g, '_')`. */
  function MapNonWord(s: string): (r: string)
    ensures |r| == |s|
    ensures forall i :: 0 <= i < |s| ==> r[i] == if IsKeyChar(s[i]) then s[i] else '_'
  {
    if s == [] then [] else [if IsKeyChar(s[0]) then s[0] else '_'] + MapNonWord(s[1..])
  }

  /** Leading `c`s removed. */
  function DropLeading(s: string, c: char): (r: string)
    ensures |r| <= |s| && r == s[|s| - |r|..]
    ensures r == [] || r[0] != c
  {
    if s != [] && s[0] == c then DropLeading(s[1..], c) else s
  }

  /** `replace(/_+/g, '_')`: every run of underscores becomes one. */
  function CollapseUnderscores(s: string): (r: string)
    ensures |r| <= |s|
    ensures r == [] <==> s == []
    ensures r != [] ==> r[0] == s[0]
    ensures forall i :: 0 <= i < |r| ==> r[i] == '_' || r[i] in s
    ensures NoDoubleUnderscore(r)
    decreases |s|
  {
    if s == [] then []
    else if s[0] == '_' then ['_'] + CollapseUnderscores(DropLeading(s, '_'))
    else [s[0]] + CollapseUnderscores(s[1..])
  }

  /** `replace(/^_|_$/g, '')`: at most one underscore removed at each end. */
  function StripEdgeUnderscores(s: string): (r: string)
    ensures NoDoubleUnderscore(s) ==> NoDoubleUnderscore(r) && (r == [] || (r[0] != '_' && r[|r| - 1] != '_'))
    ensures forall i :: 0 <= i < |r| ==> r[i] in s
  {
    var t := if s != [] && s[0] == '_' then s[1..] else s;
    assert forall i :: 0 <= i < |t| ==> t[i] == s[|s| - |t| + i];
    if t != [] && t[|t| - 1] == '_' then t[..|t| - 1] else t
  }

  /** A character other than `_` is copied and the scan goes on after it. */
  lemma CollapseUnderscoresCons(c: char, s: string)
    requires c != '_'
    ensures CollapseUnderscores([c] + s) == [c] + CollapseUnderscores(s)
  {
    assert ([c] + s)[1..] == s;
  }

  /** A whole run of underscores, however long, becomes exactly one `_`. */
  lemma CollapseUnderscoresRun(w: string, s: string)
    requires w != [] && forall i :: 0 <= i < |w| ==> w[i] == '_'
    requires s == [] || s[0] != '_'
    ensures CollapseUnderscores(w + s) == "_" + CollapseUnderscores(s)
  {
    assert (w + s)[0] == '_';
    DropLeadingRun(w, s);
  }

  lemma {:induction false} DropLeadingRun(w: string, s: string)
    requires forall i :: 0 <= i < |w| ==> w[i] == '_'
    requires s == [] || s[0] != '_'
    ensures DropLeading(w + s, '_') == s
  {
    if w == [] {
      assert w + s == s;
    } else {
      assert (w + s)[1..] == w[1..] + s;
      DropLeadingRun(w[1..], s);
    }
  }

  /**
   * Which underscores `replace(/^_|_$/g, '')` removes: one leading `_` exactly
   * when the text starts with one, then one trailing `_` exactly when what is
   * left ends with one; everything between is kept as it is.
   */
  lemma StripEdgeShape(s: string)
    ensures var r, a := StripEdgeUnderscores(s), if s != [] && s[0] == '_' then 1 else 0;
      && a + |r| <= |s| <= a + |r| + 1
      && r == s[a..a + |r|]
      && (|s| == a + |r| + 1 <==> |s| > a && s[|s| - 1] == '_')
  {
  }

  /** `normalizePlaceholder`. After the second step every character is ASCII, so ASCII upper-casing is exact. */
  function Normalize(placeholder: string): string {
    ToUpper(StripEdgeUnderscores(CollapseUnderscores(MapNonWord(ReplaceSpaceRuns(placeholder, '_')))))
  }

  predicate AllKeyChars(s: string) {
    forall i :: 0 <= i < |s| ==> IsKeyChar(s[i])
  }

  lemma CollapseKeyChars(s: string)
    requires AllKeyChars(s)
    ensures AllKeyChars(CollapseUnderscores(s))
  {
    var r := CollapseUnderscores(s);
    forall i | 0 <= i < |r| && r[i] != '_'
      ensures IsKeyChar(r[i])
    {
      var j :| 0 <= j < |s| && s[j] == r[i];
    }
  }

  lemma StripKeyChars(s: string)
    requires AllKeyChars(s)
    ensures AllKeyChars(StripEdgeUnderscores(s))
  {
    var r := StripEdgeUnderscores(s);
    forall i | 0 <= i < |r|
      ensures IsKeyChar(r[i])
    {
      var j :| 0 <= j < |s| && s[j] == r[i];
    }
  }

  lemma UpperNormalized(e: string)
    requires AllKeyChars(e) && NoDoubleUnderscore(e)
    requires e == [] || (e[0] != '_' && e[|e| - 1] != '_')
    ensures IsNormalized(ToUpper(e))
  {
    var r := ToUpper(e);
    assert forall i :: 0 <= i < |r| ==> (r[i] == '_' <==> e[i] == '_');
  }

  /** Every normalized key has the promised shape, whatever the input. */
  lemma NormalizeIsNormalized(placeholder: string)
    ensures IsNormalized(Normalize(placeholder))
  {
    var m := MapNonWord(ReplaceSpaceRuns(placeholder, '_'));
    var c := CollapseUnderscores(m);
    CollapseKeyChars(m);
    var e := StripEdgeUnderscores(c);
    StripKeyChars(c);
    UpperNormalized(e);
  }

  lemma NormalCharNotSpace(c: char)
    requires IsNormalChar(c)
    ensures !IsSpace(c)
  {
  }

  lemma {:induction false} SpaceRunsNoSpace(s: string, sep: char)
    requires forall i :: 0 <= i < |s| ==> !IsSpace(s[i])
    ensures ReplaceSpaceRuns(s, sep) == s
  {
    if s != [] {
      SpaceRunsNoSpace(s[1..], sep);
    }
  }

  lemma {:induction false} CollapseNoDouble(s: string)
    requires NoDoubleUnderscore(s)
    ensures CollapseUnderscores(s) == s
  {
    if s != [] {
      if s[0] == '_' {
        assert DropLeading(s, '_') == s[1..] by {
          if |s| > 1 {
            assert s[1] != '_';
          }
        }
      }
      CollapseNoDouble(s[1..]);
    }
  }

  lemma MapNonWordKeyChars(s: string)
    requires AllKeyChars(s)
    ensures MapNonWord(s) == s
  {
  }

  lemma UpperNormalChars(s: string)
    requires forall i :: 0 <= i < |s| ==> IsNormalChar(s[i])
    ensures ToUpper(s) == s
  {
  }

  /** A key that is already normalized is its own normal form. */
  lemma NormalizedFixpoint(s: string)
    requires IsNormalized(s)
    ensures Normalize(s) == s
  {
    forall i | 0 <= i < |s|
      ensures !IsSpace(s[i])
    {
      NormalCharNotSpace(s[i]);
    }
    SpaceRunsNoSpace(s, '_');
    MapNonWordKeyChars(s);
    CollapseNoDouble(s);
    assert StripEdgeUnderscores(s) == s;
    UpperNormalChars(s);
  }

  /** `normalizePlaceholder` is idempotent. */
  lemma NormalizeIdempotent(placeholder: string)
    ensures Normalize(Normalize(placeholder)) == Normalize(placeholder)
  {
    NormalizeIsNormalized(placeholder);
    NormalizedFixpoint(Normalize(placeholder));
  }

  /** A word of kept characters only: ASCII letters, digits, `-` and `.`. */
  predicate IsWord(s: string) {
    s != [] && forall i :: 0 <= i < |s| ==> IsKept(s[i])
  }

  /**
   * Two words separated by whitespace give two upper-cased words joined by
   * exactly one `_`: "first name" and "first   name" both become FIRST_NAME.
   */
  lemma NormalizeWords(p: string, w: string, q: string)
    requires IsWord(p) && IsWord(q)
    requires w != [] && forall i :: 0 <= i < |w| ==> IsSpace(w[i])
    ensures Normalize(p + w + q) == ToUpper(p) + "_" + ToUpper(q)
  {
    var m := p + "_" + q;
    assert ReplaceSpaceRuns(p + w + q, '_') == m by {
      WordNoSpace(p);
      WordNoSpace(q);
      Regroup(p, w, q);
      ReplaceSpaceRunsAppend(p, w + q, '_');
      ReplaceSpaceRunsRun(w, q, '_');
      SpaceRunsNoSpace(p, '_');
      SpaceRunsNoSpace(q, '_');
      Regroup(p, "_", q);
    }
    JoinedWords(p, q);
    MapNonWordKeyChars(m);
    CollapseNoDouble(m);
    UpperJoin(p, q);
  }

  lemma WordNoSpace(p: string)
    requires IsWord(p)
    ensures forall i :: 0 <= i < |p| ==> !IsSpace(p[i])
  {
  }

  /** Two words joined by one `_`: key characters, no `__`, no `_` at the ends. */
  lemma JoinedWords(p: string, q: string)
    requires IsWord(p) && IsWord(q)
    ensures var m := p + "_" + q;
      && AllKeyChars(m) && NoDoubleUnderscore(m)
      && m[0] != '_' && m[|m| - 1] != '_'
      && StripEdgeUnderscores(m) == m
  {
    var m := p + "_" + q;
    assert forall i :: 0 <= i < |m| ==> (m[i] == '_' <==> i == |p|);
  }

  lemma UpperJoin(p: string, q: string)
    ensures ToUpper(p + "_" + q) == ToUpper(p) + "_" + ToUpper(q)
  {
  }

  // ---------------------------------------------------------------------
  // What normalization keeps

  /** The characters normalization never drops: ASCII letters and digits, `-` and `.`. */
  predicate IsKept(c: char) {
    IsKeyChar(c) && c != '_'
  }

  /** The kept characters of `s`, in order. */
  function Kept(s: string): string {
    if s == [] then [] else (if IsKept(s[0]) then [s[0]] else []) + Kept(s[1..])
  }

  lemma {:induction false} KeptAppend(a: string, b: string)
    ensures Kept(a + b) == Kept(a) + Kept(b)
  {
    if a != [] {
      assert (a + b)[1..] == a[1..] + b;
      KeptAppend(a[1..], b);
    } else {
      assert a + b == b;
    }
  }

  lemma SpaceNotKept(c: char)
    requires IsSpace(c)
    ensures !IsKept(c)
  {
  }

  lemma {:induction false} KeptTrimStart(s: string)
    ensures Kept(TrimStart(s)) == Kept(s)
  {
    if s != [] && IsSpace(s[0]) {
      SpaceNotKept(s[0]);
      KeptTrimStart(s[1..]);
    }
  }

  lemma {:induction false} KeptSpaceRuns(s: string)
    ensures Kept(ReplaceSpaceRuns(s, '_')) == Kept(s)
    decreases |s|
  {
    if s != [] {
      var r := ReplaceSpaceRuns(s, '_');
      if IsSpace(s[0]) {
        KeptTrimStart(s);
        KeptSpaceRuns(TrimStart(s));
        assert r[1..] == ReplaceSpaceRuns(TrimStart(s), '_');
      } else {
        KeptSpaceRuns(s[1..]);
        assert r[1..] == ReplaceSpaceRuns(s[1..], '_');
      }
    }
  }

  lemma {:induction false} KeptMapNonWord(s: string)
    ensures Kept(MapNonWord(s)) == Kept(s)
  {
    if s != [] {
      KeptMapNonWord(s[1..]);
    }
  }

  lemma {:induction false} KeptDropUnderscores(s: string)
    ensures Kept(DropLeading(s, '_')) == Kept(s)
  {
    if s != [] && s[0] == '_' {
      KeptDropUnderscores(s[1..]);
    }
  }

  lemma {:induction false} KeptCollapse(s: string)
    ensures Kept(CollapseUnderscores(s)) == Kept(s)
    decreases |s|
  {
    if s != [] {
      var r := CollapseUnderscores(s);
      if s[0] == '_' {
        KeptDropUnderscores(s);
        KeptCollapse(DropLeading(s, '_'));
        assert r[1..] == CollapseUnderscores(DropLeading(s, '_'));
      } else {
        KeptCollapse(s[1..]);
        assert r[1..] == CollapseUnderscores(s[1..]);
      }
    }
  }

  lemma KeptStripEdges(s: string)
    ensures Kept(StripEdgeUnderscores(s)) == Kept(s)
  {
    var t := if s != [] && s[0] == '_' then s[1..] else s;
    KeptUnderscoreFront(s, t);
    KeptUnderscoreBack(t, StripEdgeUnderscores(s));
  }

  lemma KeptUnderscoreFront(s: string, t: string)
    requires t == if s != [] && s[0] == '_' then s[1..] else s
    ensures Kept(t) == Kept(s)
  {
    if s != [] && s[0] == '_' {
      assert s == ['_'] + t;
      KeptAppend(['_'], t);
    }
  }

  lemma KeptUnderscoreBack(t: string, r: string)
    requires r == if t != [] && t[|t| - 1] == '_' then t[..|t| - 1] else t
    ensures Kept(r) == Kept(t)
  {
    if t != [] && t[|t| - 1] == '_' {
      assert t == r + ['_'];
      KeptAppend(r, ['_']);
    }
  }

  lemma {:induction false} KeptToUpper(s: string)
    ensures Kept(ToUpper(s)) == ToUpper(Kept(s))
  {
    if s != [] {
      KeptToUpper(s[1..]);
      var u := ToUpper(s);
      assert u[1..] == ToUpper(s[1..]);
      if IsKept(s[0]) {
        assert ToUpper([s[0]] + Kept(s[1..])) == [UpperAscii(s[0])] + ToUpper(Kept(s[1..]));
      }
    }
  }

  /**
   * Normalization keeps every ASCII letter, digit, `-` and `.` of the input,
   * in order and upper-cased, and nothing else but underscores.
   */
  lemma NormalizeKeeps(placeholder: string)
    ensures Kept(Normalize(placeholder)) == ToUpper(Kept(placeholder))
  {
    var s1 := ReplaceSpaceRuns(placeholder, '_');
    KeptSpaceRuns(placeholder);
    var s2 := MapNonWord(s1);
    KeptMapNonWord(s1);
    var s3 := CollapseUnderscores(s2);
    KeptCollapse(s2);
    var s4 := StripEdgeUnderscores(s3);
    KeptStripEdges(s3);
    KeptToUpper(s4);
  }

  /** A normalized key is empty exactly when it keeps nothing. */
  lemma NormalizedEmptyIff(s: string)
    requires IsNormalized(s)
    ensures s == [] <==> Kept(s) == []
  {
    if s != [] {
      assert s == [s[0]] + s[1..];
      KeptAppend([s[0]], s[1..]);
    }
  }

  /**
   * A placeholder normalizes to the empty key exactly when it has no ASCII
   * letter, digit, `-` or `.`: one written only in æ, ø, å (and separators)
   * is valid yet yields the empty key.
   */
  lemma NormalizeEmptyIff(placeholder: string)
    ensures Normalize(placeholder) == [] <==> Kept(placeholder) == []
  {
    NormalizeIsNormalized(placeholder);
    NormalizedEmptyIff(Normalize(placeholder));
    NormalizeKeeps(placeholder);
  }

  /** "æ" is a valid placeholder, yet its normalized key is empty. */
  lemma NordicOnlyKeyIsEmpty(s: string)
    requires s == "\U{00E6}"
    ensures IsValidPlaceholder(s)
    ensures Normalize(s) == []
  {
    assert IsLetter(s[0]);
    assert Kept(s) == [] by {
      assert !IsKept(s[0]) && s[1..] == [];
    }
    NormalizeEmptyIff(s);
  }

  /** A normalized key holds no markup or bracket character and only ASCII. */
  lemma NormalizedIsPlain(s: string)
    requires IsNormalized(s)
    ensures forall i :: 0 <= i < |s| ==> s[i] != '<' && s[i] != '>' && s[i] != '[' && s[i] != ']' && s[i] < '\U{0080}'
  {
  }
}
