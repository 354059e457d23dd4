/**
 * The substitution loop of `processDocument` without its file reading and
 * archive serialization. For each relevant part, and for each (key, value)
 * pair in the order `Object.entries` gives them, the value is XML-escaped,
 * six literal spellings of `[key]` are counted and replaced, and then the
 * tag-tolerant replace runs. A part whose text changed is written back to
 * the archive.
 */
module Substitution {
  import opened Text
  import opened XmlEscape
  import opened Fragments
  import opened Parts

  /** The six spellings of `[placeholder]` tried literally, in the source's order. */
  function Variations(placeholder: string): (vs: seq<string>)
    ensures |vs| == 6
  {
    var spaced := ReplaceChar(placeholder, '_', " ");
    [ "[" + placeholder + "]",
      "[" + ToLower(placeholder) + "]",
      "[" + spaced + "]",
      "[" + ToLower(spaced) + "]",
      "[" + ReplaceChar(placeholder, '_', "-") + "]",
      "[" + ReplaceChar(placeholder, '_', ".") + "]" ]
  }

  /** Every spelling is the key's length plus two, starts with `[` and ends with `]`. */
  predicate AreSpellings(vs: seq<string>, n: nat) {
    forall i :: 0 <= i < |vs| ==> |vs[i]| == n + 2 && vs[i][0] == '[' && vs[i][n + 1] == ']'
  }

  lemma VariationsShape(placeholder: string)
    ensures AreSpellings(Variations(placeholder), |placeholder|)
  {
    ReplaceCharPointwise(placeholder, '_', ' ');
    ReplaceCharPointwise(placeholder, '_', '-');
    ReplaceCharPointwise(placeholder, '_', '.');
  }

  /** A part's text and the number of literal replacements made in it. */
  datatype Rewrite = Rewrite(content: string, count: nat)

  /** One spelling: counted before replacing, and replaced only when it occurs. */
  function ApplyVariation(content: string, variation: string, escaped: string): Rewrite
    requires variation != []
  {
    var beforeCount := CountOccurrences(content, variation);
    if beforeCount > 0 then Rewrite(ReplaceAll(content, variation, escaped), beforeCount)
    else Rewrite(content, 0)
  }

  /** The spellings `vs`, one after the other, with their counts added up. */
  function ApplyVariations(content: string, vs: seq<string>, escaped: string): Rewrite
    requires forall i :: 0 <= i < |vs| ==> vs[i] != []
    decreases |vs|
  {
    if vs == [] then Rewrite(content, 0)
    else
      var first := ApplyVariation(content, vs[0], escaped);
      var rest := ApplyVariations(first.content, vs[1..], escaped);
      Rewrite(rest.content, first.count + rest.count)
  }

  /** One (key, value) pair: the six spellings, then the tag-tolerant replace, which is not counted. */
  function ApplyPlaceholder(content: string, placeholder: string, value: string): Rewrite {
    var escaped := EscapeXml(value);
    VariationsShape(placeholder);
    var r := ApplyVariations(content, Variations(placeholder), escaped);
    Rewrite(FragmentReplaced(r.content, placeholder, escaped), r.count)
  }

  /** All pairs, in order, with their counts added up. */
  function ApplyAll(content: string, placeholders: seq<(string, string)>): Rewrite
    decreases |placeholders|
  {
    if placeholders == [] then Rewrite(content, 0)
    else
      var first := ApplyPlaceholder(content, placeholders[0].0, placeholders[0].1);
      var rest := ApplyAll(first.content, placeholders[1..]);
      Rewrite(rest.content, first.count + rest.count)
  }

  // ---------------------------------------------------------------------
  // the loops over one part

  /** `variations.forEach(...)`: count each spelling, replace it when it occurs, add up the counts. */
  method ReplaceVariations(content: string, variations: seq<string>, escapedValue: string)
    returns (result: string, replacements: nat)
    requires forall i :: 0 <= i < |variations| ==> variations[i] != []
    ensures Rewrite(result, replacements) == ApplyVariations(content, variations, escapedValue)
  {
    result, replacements := content, 0;
    var k := 0;
    while k < |variations|
      invariant k <= |variations|
      invariant ApplyVariations(result, variations[k..], escapedValue).content
        == ApplyVariations(content, variations, escapedValue).content
      invariant replacements + ApplyVariations(result, variations[k..], escapedValue).count
        == ApplyVariations(content, variations, escapedValue).count
    {
      var variation := variations[k];
      assert variations[k..][1..] == variations[k + 1..];
      var beforeCount := CountOccurrences(result, variation);
      if beforeCount > 0 {
        result := ReplaceAll(result, variation, escapedValue);
        replacements := replacements + beforeCount;
      }
      k := k + 1;
    }
  }

  /** The `Object.entries(placeholders).forEach` loop over one part's text. */
  method ProcessPart(content: string, placeholders: seq<(string, string)>)
    returns (result: string, replacements: nat)
    ensures Rewrite(result, replacements) == ApplyAll(content, placeholders)
  {
    result, replacements := content, 0;
    var k := 0;
    while k < |placeholders|
      invariant k <= |placeholders|
      invariant ApplyAll(result, placeholders[k..]).content == ApplyAll(content, placeholders).content
      invariant replacements + ApplyAll(result, placeholders[k..]).count == ApplyAll(content, placeholders).count
    {
      var (placeholder, value) := placeholders[k];
      assert placeholders[k..][1..] == placeholders[k + 1..];
      var escapedValue := EscapeXml(value);
      VariationsShape(placeholder);
      var count;
      result, count := ReplaceVariations(result, Variations(placeholder), escapedValue);
      replacements := replacements + count;
      result := ReplaceFragmentedPlaceholders(result, placeholder, escapedValue);
      k := k + 1;
    }
  }

  // ---------------------------------------------------------------------
  // what one part's substitution promises

  /**
   * The count of a spelling is taken before it is replaced; a spelling that
   * does not occur leaves the text unchanged; one that occurs is counted once
   * per occurrence, and each occurrence changes the length by the difference
   * between the escaped value's length and its own.
   */
  lemma VariationStep(content: string, variation: string, escaped: string)
    requires variation != []
    ensures var r := ApplyVariation(content, variation, escaped);
      && r.count == CountOccurrences(content, variation)
      && (r.count > 0 <==> Contains(content, variation))
      && (r.count == 0 ==> r.content == content)
      && |r.content| == |content| + r.count * (|escaped| - |variation|)
  {
    CountPositiveIffContains(content, variation);
    ReplaceAllLength(content, variation, escaped);
  }

  lemma NoBracketNotContained(content: string, variation: string)
    requires '[' !in content && variation != [] && variation[0] == '['
    ensures CountOccurrences(content, variation) == 0
  {
    MissingCharNotContains(content, variation, 0);
    CountPositiveIffContains(content, variation);
  }

  /** On text without `[`, no spelling occurs: nothing is counted or changed. */
  lemma {:induction false} NoBracketVariations(content: string, vs: seq<string>, escaped: string)
    requires '[' !in content
    requires forall i :: 0 <= i < |vs| ==> vs[i] != [] && vs[i][0] == '['
    ensures ApplyVariations(content, vs, escaped) == Rewrite(content, 0)
  {
    if vs != [] {
      NoBracketNotContained(content, vs[0]);
      NoBracketVariations(content, vs[1..], escaped);
    }
  }

  /** A part without `[` is left byte for byte as it is, and no replacement is counted. */
  lemma {:induction false} NoBracketUntouched(content: string, placeholders: seq<(string, string)>)
    requires '[' !in content
    ensures ApplyAll(content, placeholders) == Rewrite(content, 0)
  {
    if placeholders != [] {
      var (key, value) := placeholders[0];
      VariationsShape(key);
      NoBracketVariations(content, Variations(key), EscapeXml(value));
      NoBracketUnchanged(content, key, EscapeXml(value));
      NoBracketUntouched(content, placeholders[1..]);
    }
  }

  /**
   * Where no spelling occurs, the count stays zero even though the tag-tolerant
   * replace may still rewrite the text: those replacements are not counted.
   */
  lemma {:induction false} NoSpellingOccurs(content: string, vs: seq<string>, escaped: string)
    requires forall i :: 0 <= i < |vs| ==> vs[i] != [] && !Contains(content, vs[i])
    ensures ApplyVariations(content, vs, escaped) == Rewrite(content, 0)
  {
    if vs != [] {
      CountPositiveIffContains(content, vs[0]);
      NoSpellingOccurs(content, vs[1..], escaped);
    }
  }

  lemma FragmentsNotCounted(content: string, placeholder: string, value: string)
    requires forall i :: 0 <= i < 6 ==> !Contains(content, Variations(placeholder)[i])
    ensures ApplyPlaceholder(content, placeholder, value)
      == Rewrite(FragmentReplaced(content, placeholder, EscapeXml(value)), 0)
  {
    VariationsShape(placeholder);
    NoSpellingOccurs(content, Variations(placeholder), EscapeXml(value));
  }

  /** A string occurs in one of its own length only when the two are equal. */
  lemma SameLengthContains(t: string, s: string)
    requires |t| == |s| && Contains(t, s)
    ensures t == s
  {
    ContainsIff(t, s);
    var i :| 0 <= i <= |t| && OccursAt(t, s, i);
    StartsWithSlice(t[i..], s);
    assert t[i..][..|s|] == t;
  }

  /** A non-empty string occurs once in itself, and replacing it leaves just the replacement. */
  lemma ReplaceWhole(s: string, r: string)
    requires s != []
    ensures CountOccurrences(s, s) == 1
    ensures ReplaceAll(s, s, r) == r
  {
    StartsWithAppend(s, "");
    assert s + "" == s && s[|s|..] == "";
    assert Split(s, s) == [""] + Split("", s);
    assert Split("", s) == [""];
    assert Join(["", ""], r) == "" + r + Join([""], r);
  }

  /**
   * A text that is exactly one of the spellings `vs` of a key becomes the
   * escaped value, counted once, provided the value brings in no `[`.
   */
  lemma {:induction false} SpellingReplaced(content: string, vs: seq<string>, escaped: string, n: nat)
    requires content in vs && '[' !in escaped
    requires AreSpellings(vs, n)
    ensures ApplyVariations(content, vs, escaped) == Rewrite(escaped, 1)
  {
    assert vs[0] != [];
    if vs[0] == content {
      ReplaceWhole(content, escaped);
      assert AreSpellings(vs[1..], n);
      NoBracketVariations(escaped, vs[1..], escaped);
    } else {
      if Contains(content, vs[0]) {
        SameLengthContains(content, vs[0]);
      }
      CountPositiveIffContains(content, vs[0]);
      assert content in vs[1..];
      SpellingReplaced(content, vs[1..], escaped, n);
    }
  }

  /**
   * Case and separator tolerance: a part whose text is any one of the six
   * spellings of `[key]` (`[full name]` for the key `FULL_NAME`, say) is
   * replaced by the escaped value, with one replacement counted.
   */
  lemma VariationReplaced(placeholder: string, value: string, i: nat)
    requires i < 6 && '[' !in value
    ensures var v := Variations(placeholder)[i];
      ApplyPlaceholder(v, placeholder, value) == Rewrite(EscapeXml(value), 1)
  {
    var v := Variations(placeholder)[i];
    var escaped := EscapeXml(value);
    VariationsShape(placeholder);
    EscapeNoBracket(value);
    SpellingReplaced(v, Variations(placeholder), escaped, |placeholder|);
    NoBracketUnchanged(escaped, placeholder, escaped);
  }

  /** Escaping brings in no `[`. */
  lemma EscapeNoBracket(value: string)
    requires '[' !in value
    ensures '[' !in EscapeXml(value)
  {
    var e := EscapeXml(value);
    if '[' in e {
      ReplaceCharAll(value);
      assert false;
    }
  }

  lemma ReplaceCharAll(value: string)
    requires '[' in EscapeXml(value)
    ensures '[' in value
  {
    EscapeXmlIsCharwise(value);
    EscapeEachChars(value);
  }

  lemma {:induction false} EscapeEachChars(value: string)
    requires '[' in EscapeEach(value)
    ensures '[' in value
  {
    if value != [] {
      var head := EscapeChar(value[0]);
      if '[' !in head {
        assert EscapeEach(value) == head + EscapeEach(value[1..]);
        EscapeEachChars(value[1..]);
      }
    }
  }

  // ---------------------------------------------------------------------
  // the archive

  /**
   * The opened archive: part names and texts, and the names of the parts
   * written back since it was opened (a written entry gets new metadata
   * when the archive is serialized, even when its text is the same).
   */
  class Zip {
    var files: map<string, string>
    var touched: set<string>

    constructor (files: map<string, string>)
      ensures this.files == files && touched == {}
    {
      this.files := files;
      touched := {};
    }

    /** `zip.file(name, data)`: the entry replaced by the new text. */
    method File(name: string, data: string)
      modifies this
      ensures files == old(files)[name := data]
      ensures touched == old(touched) + {name}
    {
      files := files[name := data];
      touched := touched + {name};
    }
  }

  /** The archive after the parts `files` are processed in order, the total count, and the parts written. */
  datatype Outcome = Outcome(archive: map<string, string>, total: nat, written: set<string>)

  /** One part: its substituted text written back when it changed; a name the archive does not hold changes nothing. */
  function ProcessFile(name: string, archive: map<string, string>, placeholders: seq<(string, string)>): Outcome {
    if name !in archive then Outcome(archive, 0, {})
    else
      var r := ApplyAll(archive[name], placeholders);
      if r.content != archive[name] then Outcome(archive[name := r.content], r.count, {name})
      else Outcome(archive, r.count, {})
  }

  function ProcessFiles(files: seq<string>, archive: map<string, string>, placeholders: seq<(string, string)>): Outcome
    decreases |files|
  {
    if files == [] then Outcome(archive, 0, {})
    else
      var first := ProcessFile(files[0], archive, placeholders);
      var rest := ProcessFiles(files[1..], first.archive, placeholders);
      Outcome(rest.archive, first.total + rest.total, first.written + rest.written)
  }

  /** What `processDocument` does to the archive. */
  function ProcessArchive(archive: map<string, string>, placeholders: seq<(string, string)>): Outcome {
    ProcessFiles(RelevantXmlFiles(archive), archive, placeholders)
  }

  /**
   * `processDocument` from the opened archive to the archive about to be
   * serialized: every relevant part processed, and written back only when
   * its text changed. `processDocument` logs a warning itself when the total is zero.
   */
  method ProcessDocument(zip: Zip, placeholders: seq<(string, string)>) returns (totalReplacements: nat)
    modifies zip
    ensures var o := ProcessArchive(old(zip.files), placeholders);
      && zip.files == o.archive
      && zip.touched == old(zip.touched) + o.written
      && totalReplacements == o.total
  {
    var xmlFiles := GetRelevantXmlFiles(zip.files);
    totalReplacements := ProcessParts(zip, xmlFiles, placeholders);
  }

  /** The `xmlFiles.forEach` of `processDocument`: the parts `xmlFiles`, in order, with the total count. */
  method ProcessParts(zip: Zip, xmlFiles: seq<string>, placeholders: seq<(string, string)>) returns (totalReplacements: nat)
    modifies zip
    ensures var o := ProcessFiles(xmlFiles, old(zip.files), placeholders);
      && zip.files == o.archive
      && zip.touched == old(zip.touched) + o.written
      && totalReplacements == o.total
  {
    ghost var outcome := ProcessFiles(xmlFiles, zip.files, placeholders);
    ghost var written: set<string> := {};
    totalReplacements := 0;
    var k := 0;
    assert xmlFiles[k..] == xmlFiles;
    CombineNothing(outcome);
    while k < |xmlFiles|
      invariant k <= |xmlFiles|
      invariant Combine(totalReplacements, written, ProcessFiles(xmlFiles[k..], zip.files, placeholders)) == outcome
      invariant zip.touched == old(zip.touched) + written
    {
      ghost var step := ProcessFile(xmlFiles[k], zip.files, placeholders);
      ProcessFilesStep(xmlFiles, k, zip.files, placeholders);
      CombineStep(totalReplacements, written, step, ProcessFiles(xmlFiles[k + 1..], step.archive, placeholders));
      var count := ProcessEntry(zip, xmlFiles[k], placeholders);
      totalReplacements := totalReplacements + count;
      written := written + step.written;
      k := k + 1;
    }
  }

  /** The outcome `o` of the parts still to process, after `total` replacements and the writes `written` so far. */
  function Combine(total: nat, written: set<string>, o: Outcome): Outcome {
    Outcome(o.archive, total + o.total, written + o.written)
  }

  lemma CombineNothing(o: Outcome)
    ensures Combine(0, {}, o) == o
  {
    assert {} + o.written == o.written;
  }

  lemma CombineStep(total: nat, written: set<string>, first: Outcome, rest: Outcome)
    ensures Combine(total, written, Outcome(rest.archive, first.total + rest.total, first.written + rest.written))
      == Combine(total + first.total, written + first.written, rest)
  {
  }

  lemma ProcessFilesStep(files: seq<string>, k: nat, archive: map<string, string>, placeholders: seq<(string, string)>)
    requires k < |files|
    ensures var first := ProcessFile(files[k], archive, placeholders);
      var rest := ProcessFiles(files[k + 1..], first.archive, placeholders);
      ProcessFiles(files[k..], archive, placeholders) == Outcome(rest.archive, first.total + rest.total, first.written + rest.written)
  {
    assert files[k..][1..] == files[k + 1..];
  }

  /** The body of the `xmlFiles.forEach` of `processDocument` for one part. */
  method ProcessEntry(zip: Zip, fileName: string, placeholders: seq<(string, string)>) returns (count: nat)
    modifies zip
    ensures var o := ProcessFile(fileName, old(zip.files), placeholders);
      && zip.files == o.archive
      && zip.touched == old(zip.touched) + o.written
      && count == o.total
  {
    count := 0;
    if fileName in zip.files {
      var content := zip.files[fileName];
      var originalContent := content;
      content, count := ProcessPart(content, placeholders);
      if content != originalContent {
        zip.File(fileName, content);
      }
    }
  }

  // ---------------------------------------------------------------------
  // what processDocument promises

  /** The names among `files` that the archive holds and whose text the substitution changes. */
  function Changed(files: seq<string>, archive: map<string, string>, placeholders: seq<(string, string)>): set<string> {
    set n | n in files && n in archive && ApplyAll(archive[n], placeholders).content != archive[n]
  }

  /**
   * Processing distinct parts: the archive keeps its names; each listed part
   * holds its own substituted text, every other part is untouched; and exactly
   * the parts whose text changed are written.
   */
  lemma {:induction false} ProcessFilesSpec(files: seq<string>, archive: map<string, string>, placeholders: seq<(string, string)>)
    requires Distinct(files)
    ensures var o := ProcessFiles(files, archive, placeholders);
      && o.archive.Keys == archive.Keys
      && (forall n :: n in archive ==>
            o.archive[n] == if n in files then ApplyAll(archive[n], placeholders).content else archive[n])
      && o.written == Changed(files, archive, placeholders)
    decreases |files|
  {
    if files != [] {
      var name, tail := files[0], files[1..];
      assert Distinct(tail) by {
        assert forall i :: 0 <= i < |tail| ==> tail[i] == files[i + 1];
      }
      assert files == [name] + tail;
      var first := ProcessFile(name, archive, placeholders);
      ProcessFileSpec(name, archive, placeholders);
      ProcessFilesSpec(tail, first.archive, placeholders);
      ChangedTail(tail, first.archive, archive, name, placeholders);
      ChangedCons(name, tail, archive, placeholders);
      var o := ProcessFiles(files, archive, placeholders);
      forall n | n in archive
        ensures o.archive[n] == if n in files then ApplyAll(archive[n], placeholders).content else archive[n]
      {
        if n == name {
          assert n !in tail;
        }
      }
    }
  }

  /** One part: the archive keeps its names, only that part's text changes, and it is written exactly when it changed. */
  lemma ProcessFileSpec(name: string, archive: map<string, string>, placeholders: seq<(string, string)>)
    ensures var o := ProcessFile(name, archive, placeholders);
      && o.archive.Keys == archive.Keys
      && (forall n :: n in archive ==>
            o.archive[n] == if n == name then ApplyAll(archive[n], placeholders).content else archive[n])
      && o.written == Changed([name], archive, placeholders)
  {
  }

  lemma ChangedTail(tail: seq<string>, a: map<string, string>, archive: map<string, string>, name: string, placeholders: seq<(string, string)>)
    requires name !in tail && a.Keys == archive.Keys
    requires forall n :: n in archive && n != name ==> a[n] == archive[n]
    ensures Changed(tail, a, placeholders) == Changed(tail, archive, placeholders)
  {
  }

  lemma ChangedCons(name: string, tail: seq<string>, archive: map<string, string>, placeholders: seq<(string, string)>)
    ensures Changed([name] + tail, archive, placeholders) == Changed([name], archive, placeholders) + Changed(tail, archive, placeholders)
  {
  }

  /**
   * After `processDocument`, every relevant part (a candidate name the archive
   * holds) holds its substituted text, every other part is as it was, and the
   * parts written back are exactly the relevant ones whose text changed.
   */
  lemma ProcessArchiveSpec(archive: map<string, string>, placeholders: seq<(string, string)>)
    ensures var o := ProcessArchive(archive, placeholders);
      && o.archive.Keys == archive.Keys
      && (forall n :: n in archive ==>
            o.archive[n] == if IsCandidate(n) then ApplyAll(archive[n], placeholders).content else archive[n])
      && (forall n :: n in o.written <==>
            n in archive && IsCandidate(n) && ApplyAll(archive[n], placeholders).content != archive[n])
  {
    var files := RelevantXmlFiles(archive);
    RelevantFilesDistinct(archive);
    ProcessFilesSpec(files, archive, placeholders);
    forall n
      ensures n in archive ==> (n in files <==> IsCandidate(n))
    {
      RelevantFilesMembers(archive, n);
    }
  }

  /** With no relevant part holding a `[`, nothing is replaced, written or counted. */
  lemma {:induction false} NoBracketFiles(files: seq<string>, archive: map<string, string>, placeholders: seq<(string, string)>)
    requires forall n :: n in files && n in archive ==> '[' !in archive[n]
    ensures ProcessFiles(files, archive, placeholders) == Outcome(archive, 0, {})
    decreases |files|
  {
    if files != [] {
      if files[0] in archive {
        NoBracketUntouched(archive[files[0]], placeholders);
      }
      NoBracketFiles(files[1..], archive, placeholders);
    }
  }

  /**
   * A document without any `[` in its relevant parts comes back unchanged
   * with a count of zero, the case in which `processDocument` logs a
   * warning rather than failing.
   */
  lemma NoPlaceholderDocument(archive: map<string, string>, placeholders: seq<(string, string)>)
    requires forall n :: n in archive && IsCandidate(n) ==> '[' !in archive[n]
    ensures ProcessArchive(archive, placeholders) == Outcome(archive, 0, {})
  {
    forall n | n in RelevantXmlFiles(archive) && n in archive
      ensures '[' !in archive[n]
    {
      RelevantFilesMembers(archive, n);
    }
    NoBracketFiles(RelevantXmlFiles(archive), archive, placeholders);
  }
}
