/**
 * `detectPlaceholders` without its file reading: for every relevant part
 * of the archive, the three scans add normalized keys to a JavaScript
 * `Set` (kept here as its insertion-ordered list of distinct keys), and the
 * set is returned sorted.
 */
module Detection {
  import opened Text
  import opened CleanText
  import opened Placeholders
  import opened Scanners
  import opened Parts

  // ---------------------------------------------------------------------
  // Array.prototype.sort on strings

  /**
   * The default order of `sort()`: lexicographic by character. It compares
   * UTF-16 code units, which agree with code points on the ASCII keys that
   * normalization produces.
   */
  predicate Less(a: string, b: string)
    decreases |a|
  {
    b != [] && (a == [] || a[0] < b[0] || (a[0] == b[0] && Less(a[1..], b[1..])))
  }

  lemma {:induction false} LessIrreflexive(a: string)
    ensures !Less(a, a)
  {
    if a != [] {
      LessIrreflexive(a[1..]);
    }
  }

  lemma {:induction false} LessTransitive(a: string, b: string, c: string)
    requires Less(a, b) && Less(b, c)
    ensures Less(a, c)
    decreases |a|
  {
    if a != [] && a[0] == b[0] && b[0] == c[0] {
      LessTransitive(a[1..], b[1..], c[1..]);
    }
  }

  lemma {:induction false} LessTotal(a: string, b: string)
    requires a != b
    ensures Less(a, b) || Less(b, a)
    decreases |a|
  {
    if a != [] && b != [] && a[0] == b[0] {
      assert a == [a[0]] + a[1..] && b == [b[0]] + b[1..];
      LessTotal(a[1..], b[1..]);
    }
  }

  predicate StrictlySorted(s: seq<string>) {
    forall i, j :: 0 <= i < j < |s| ==> Less(s[i], s[j])
  }

  /** `x` put before the first element it is less than. */
  function Insert(x: string, s: seq<string>): (r: seq<string>)
    ensures multiset(r) == multiset(s) + multiset{x}
  {
    if s == [] || Less(x, s[0]) then [x] + s
    else
      assert s == [s[0]] + s[1..];
      [s[0]] + Insert(x, s[1..])
  }

  /** Insertion sort: what `Array.from(placeholders).sort()` returns. */
  function Sort(s: seq<string>): seq<string> {
    if s == [] then [] else Insert(s[|s| - 1], Sort(s[..|s| - 1]))
  }

  lemma {:induction false} InsertSorted(x: string, s: seq<string>)
    requires StrictlySorted(s) && x !in s
    ensures StrictlySorted(Insert(x, s))
  {
    var r := Insert(x, s);
    if s == [] || Less(x, s[0]) {
      forall i, j | 0 <= i < j < |r|
        ensures Less(r[i], r[j])
      {
        if i == 0 && j > 1 {
          LessTransitive(x, s[0], s[j - 1]);
        }
      }
    } else {
      assert s[0] != x;
      LessTotal(x, s[0]);
      InsertSorted(x, s[1..]);
      var t := Insert(x, s[1..]);
      forall j | 0 <= j < |t|
        ensures Less(s[0], t[j])
      {
        assert t[j] in multiset(t);
        assert t[j] == x || t[j] in s[1..];
      }
    }
  }

  /** Sorting a list of distinct keys orders them strictly and keeps exactly them. */
  lemma {:induction false} SortSpec(s: seq<string>)
    requires Distinct(s)
    ensures StrictlySorted(Sort(s))
    ensures multiset(Sort(s)) == multiset(s)
  {
    if s != [] {
      var init, last := s[..|s| - 1], s[|s| - 1];
      assert s == init + [last];
      SortSpec(init);
      assert last !in init;
      assert last !in multiset(Sort(init));
      InsertSorted(last, Sort(init));
    }
  }

  // ---------------------------------------------------------------------
  // the keys a part and a document yield

  /** The distinct elements of a list. */
  function Elems(s: seq<string>): set<string> {
    set x | x in s
  }

  /** The keys `candidates` add to the set: each normalized, when valid or when no check is made. */
  function KeysOf(candidates: seq<string>, validate: bool): set<string> {
    set c | c in candidates && (!validate || IsValidPlaceholder(c)) :: Normalize(c)
  }

  /** The keys the three scans of `detectPlaceholders` find in one part. */
  function PartKeys(content: string): set<string> {
    KeysOf(CleanTextCandidates(ExtractCleanText(content)), true)
    + KeysOf(FragmentedPlaceholders(content), false)
    + KeysOf(BracketPatterns(content), true)
  }

  /** The keys found in the listed parts the archive holds. */
  function FilesKeys(files: seq<string>, archive: map<string, string>): set<string> {
    if files == [] then {}
    else
      var last := files[|files| - 1];
      FilesKeys(files[..|files| - 1], archive) + FileKeys(archive, last)
  }

  /** The keys one listed part yields: none when the archive does not hold it. */
  function FileKeys(archive: map<string, string>, name: string): set<string> {
    if name in archive then PartKeys(archive[name]) else {}
  }

  /** The keys `detectPlaceholders` finds in an archive. */
  function DetectedKeys(archive: map<string, string>): set<string> {
    FilesKeys(RelevantXmlFiles(archive), archive)
  }

  // ---------------------------------------------------------------------
  // the loops

  /** `placeholders.add(x)` on the set's insertion-ordered list. */
  function Add(placeholders: seq<string>, x: string): (r: seq<string>)
    requires Distinct(placeholders)
    ensures Distinct(r) && Elems(r) == Elems(placeholders) + {x}
  {
    if x in placeholders then placeholders else placeholders + [x]
  }

  lemma KeysOfPush(candidates: seq<string>, k: nat, validate: bool)
    requires k < |candidates|
    ensures var c := candidates[k];
      KeysOf(candidates[..k + 1], validate)
      == KeysOf(candidates[..k], validate) + (if !validate || IsValidPlaceholder(c) then {Normalize(c)} else {})
  {
    assert candidates[..k + 1] == candidates[..k] + [candidates[k]];
  }

  /** One `forEach` over a list of candidates: each (valid one) normalized and added. */
  method AddCandidates(placeholders: seq<string>, candidates: seq<string>, validate: bool)
    returns (result: seq<string>)
    requires Distinct(placeholders)
    ensures Distinct(result)
    ensures Elems(result) == Elems(placeholders) + KeysOf(candidates, validate)
  {
    result := placeholders;
    var k := 0;
    while k < |candidates|
      invariant k <= |candidates|
      invariant Distinct(result)
      invariant Elems(result) == Elems(placeholders) + KeysOf(candidates[..k], validate)
    {
      var placeholder := candidates[k];
      ghost var before := result;
      ghost var added: set<string> := if !validate || IsValidPlaceholder(placeholder) then {Normalize(placeholder)} else {};
      KeysOfPush(candidates, k, validate);
      if !validate || IsValidPlaceholder(placeholder) {
        result := Add(result, Normalize(placeholder));
      }
      UnionStep(Elems(placeholders), KeysOf(candidates[..k], validate), KeysOf(candidates[..k + 1], validate),
        added, Elems(before), Elems(result));
      k := k + 1;
    }
    assert candidates[..k] == candidates;
  }

  lemma UnionStep(p: set<string>, keys: set<string>, keys': set<string>, added: set<string>, e: set<string>, e': set<string>)
    requires e == p + keys && keys' == keys + added && e' == e + added
    ensures e' == p + keys'
  {
  }

  /** The body of the `xmlFiles.forEach` of `detectPlaceholders` for one part's text. */
  method DetectInPart(content: string, placeholders: seq<string>) returns (result: seq<string>)
    requires Distinct(placeholders)
    ensures Distinct(result)
    ensures Elems(result) == Elems(placeholders) + PartKeys(content)
  {
    var cleanText := ExtractCleanText(content);
    result := AddCandidates(placeholders, CleanTextCandidates(cleanText), true);
    var fragmented := FindFragmentedPlaceholders(content);
    result := AddCandidates(result, fragmented, false);
    var patterns := FindBracketPatterns(content);
    result := AddCandidates(result, patterns, true);
  }

  /** One iteration of the `xmlFiles.forEach` of `detectPlaceholders`: a part the archive does not hold adds nothing. */
  method DetectInFile(archive: map<string, string>, fileName: string, placeholders: seq<string>)
    returns (result: seq<string>)
    requires Distinct(placeholders)
    ensures Distinct(result)
    ensures Elems(result) == Elems(placeholders) + FileKeys(archive, fileName)
  {
    result := placeholders;
    if fileName in archive {
      result := DetectInPart(archive[fileName], placeholders);
    }
  }

  /** `detectPlaceholders`: the keys of every relevant part, distinct and sorted. */
  method DetectPlaceholders(archive: map<string, string>) returns (result: seq<string>)
    ensures StrictlySorted(result)
    ensures Elems(result) == DetectedKeys(archive)
  {
    var xmlFiles := GetRelevantXmlFiles(archive);
    var placeholders: seq<string> := [];
    var k := 0;
    while k < |xmlFiles|
      invariant k <= |xmlFiles|
      invariant Distinct(placeholders)
      invariant Elems(placeholders) == FilesKeys(xmlFiles[..k], archive)
    {
      ghost var before := placeholders;
      FilesKeysPush(xmlFiles, k, archive);
      placeholders := DetectInFile(archive, xmlFiles[k], placeholders);
      GrowStep(FilesKeys(xmlFiles[..k], archive), FilesKeys(xmlFiles[..k + 1], archive),
        FileKeys(archive, xmlFiles[k]), Elems(before), Elems(placeholders));
      k := k + 1;
    }
    assert xmlFiles[..k] == xmlFiles;
    result := Sort(placeholders);
    SortedKeys(placeholders);
  }

  /** Sorting the set's list orders it strictly and keeps its keys. */
  lemma SortedKeys(placeholders: seq<string>)
    requires Distinct(placeholders)
    ensures StrictlySorted(Sort(placeholders)) && Elems(Sort(placeholders)) == Elems(placeholders)
  {
    SortSpec(placeholders);
    SameElems(Sort(placeholders), placeholders);
  }

  lemma GrowStep(keys: set<string>, keys': set<string>, added: set<string>, e: set<string>, e': set<string>)
    requires e == keys && keys' == keys + added && e' == e + added
    ensures e' == keys'
  {
  }

  lemma FilesKeysPush(files: seq<string>, k: nat, archive: map<string, string>)
    requires k < |files|
    ensures FilesKeys(files[..k + 1], archive)
      == FilesKeys(files[..k], archive) + FileKeys(archive, files[k])
  {
    assert files[..k + 1][..k] == files[..k];
  }

  lemma SameElems(a: seq<string>, b: seq<string>)
    requires multiset(a) == multiset(b)
    ensures Elems(a) == Elems(b)
  {
    assert forall x :: x in a <==> x in multiset(a);
    assert forall x :: x in b <==> x in multiset(b);
  }

  // ---------------------------------------------------------------------
  // what detection promises

  /** Every key a list of candidates adds is the normal form of a valid placeholder. */
  lemma KeysOfValid(candidates: seq<string>, validate: bool, x: string)
    requires x in KeysOf(candidates, validate)
    requires !validate ==> AllValid(candidates)
    ensures IsNormalized(x)
    ensures exists c :: IsValidPlaceholder(c) && Normalize(c) == x
  {
    var c :| c in candidates && (!validate || IsValidPlaceholder(c)) && Normalize(c) == x;
    if !validate {
      var i :| 0 <= i < |candidates| && candidates[i] == c;
    }
    NormalizeIsNormalized(c);
  }

  /** Every key one part yields is the normal form of a valid placeholder. */
  lemma PartKeysValid(content: string, x: string)
    requires x in PartKeys(content)
    ensures IsNormalized(x)
    ensures exists c :: IsValidPlaceholder(c) && Normalize(c) == x
  {
    var clean := CleanTextCandidates(ExtractCleanText(content));
    var frag := FragmentedPlaceholders(content);
    var pats := BracketPatterns(content);
    if x in KeysOf(clean, true) {
      KeysOfValid(clean, true, x);
    } else if x in KeysOf(frag, false) {
      FragmentedAllValid(content);
      KeysOfValid(frag, false, x);
    } else {
      KeysOfValid(pats, true, x);
    }
  }

  lemma {:induction false} FilesKeysValid(files: seq<string>, archive: map<string, string>, x: string)
    requires x in FilesKeys(files, archive)
    ensures IsNormalized(x)
    ensures exists c :: IsValidPlaceholder(c) && Normalize(c) == x
  {
    var last := files[|files| - 1];
    if x in FilesKeys(files[..|files| - 1], archive) {
      FilesKeysValid(files[..|files| - 1], archive, x);
    } else {
      PartKeysValid(archive[last], x);
    }
  }

  /**
   * Every detected key is the normalized form of a valid placeholder, and so
   * holds only upper-case ASCII letters, digits, `_`, `-` and `.`, with no
   * `__` and no `_` at either end.
   */
  lemma DetectedKeysValid(archive: map<string, string>, x: string)
    requires x in DetectedKeys(archive)
    ensures IsNormalized(x)
    ensures exists c :: IsValidPlaceholder(c) && Normalize(c) == x
  {
    FilesKeysValid(RelevantXmlFiles(archive), archive, x);
  }

  /** A part contributes its keys exactly when it is one of the listed files the archive holds. */
  lemma {:induction false} FilesKeysMembers(files: seq<string>, archive: map<string, string>, name: string)
    requires name in files && name in archive
    ensures PartKeys(archive[name]) <= FilesKeys(files, archive)
  {
    var last := files[|files| - 1];
    if name != last {
      assert name in files[..|files| - 1] by {
        assert files == files[..|files| - 1] + [last];
      }
      FilesKeysMembers(files[..|files| - 1], archive, name);
    }
  }

  /** Every key of every relevant part of the archive is detected. */
  lemma RelevantPartKeysDetected(archive: map<string, string>, name: string)
    requires name in archive && IsCandidate(name)
    ensures PartKeys(archive[name]) <= DetectedKeys(archive)
  {
    RelevantFilesMembers(archive, name);
    FilesKeysMembers(RelevantXmlFiles(archive), archive, name);
  }

  /** A part whose visible text is `[NAME]` but whose key is split by a run boundary still yields `NAME`. */
  lemma SplitKeyDetected(content: string, raw: string, key: string)
    requires content == "[NA<w:t>ME]" && raw == "NA<w:t>ME" && key == "NAME"
    ensures key in PartKeys(content)
  {
    SplitKeyPatterns(content, raw, key);
    assert IsValidPlaceholder(key) by {
      assert IsLetter(key[0]);
    }
    assert IsNormalized(key);
    NormalizedFixpoint(key);
    assert key in KeysOf(BracketPatterns(content), true);
  }

  /** The bracket scan of `[NA<w:t>ME]` reports `NAME` alone. */
  lemma SplitKeyPatterns(content: string, raw: string, key: string)
    requires content == "[NA<w:t>ME]" && raw == "NA<w:t>ME" && key == "NAME"
    ensures BracketPatterns(content) == [key]
  {
    SplitKeyInteriors(content, raw);
    StripSplitKey(raw, key);
    TrimIdentity(key);
    assert Cleaned(raw) == key;
    assert [raw][..0] == [];
  }

  /** The bracket search over `[NA<w:t>ME]` captures the one interior `NA<w:t>ME`. */
  lemma SplitKeyInteriors(content: string, raw: string)
    requires content == "[NA<w:t>ME]" && raw == "NA<w:t>ME"
    ensures BracketInteriors(content, 0, []) == [raw]
  {
    var t := content;
    assert forall k :: 1 <= k < 10 ==> t[k] != ']';
    IndexOfFirst(t, ']', 1, 10);
    assert BracketAt(t, 0) == Some(Span(0, 10));
    assert Interior(t, Span(0, 10)) == raw;
  }

  lemma StripSplitKey(raw: string, key: string)
    requires raw == "NA<w:t>ME" && key == "NAME"
    ensures StripTags(raw) == key
  {
    var na, tag, me := "NA", "w:t", "ME";
    var x := ['<'] + tag + ['>'] + me;
    assert raw == na + x;
    StripTagsText(na, x);
    TagThenText(tag, me, x);
    Rejoin(StripTags(raw), na, StripTags(x), me);
  }

  lemma TagThenText(tag: string, me: string, x: string)
    requires tag == "w:t" && me == "ME" && x == ['<'] + tag + ['>'] + me
    ensures StripTags(x) == me
  {
    StripTagsTag(tag, me);
    StripTagsNoTag(me);
  }

  lemma Rejoin(r: string, a: string, x: string, b: string)
    requires r == a + x && x == b
    ensures r == a + b
  {
  }
}
