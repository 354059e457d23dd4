/**
 * `getRelevantXmlFiles`: which parts of a .docx archive are searched for
 * placeholders, and in which order. The archive is a map from part name to
 * part text; a part exists when its name is a key.
 */
module Parts {

  /** The parts checked first, in this order. */
  const PossibleFiles: seq<string> := [
    "word/document.xml",
    "word/header.xml",
    "word/footer.xml",
    "word/header1.xml",
    "word/footer1.xml",
    "word/header2.xml",
    "word/footer2.xml",
    "word/header3.xml",
    "word/footer3.xml",
    "word/comments.xml",
    "word/endnotes.xml",
    "word/footnotes.xml"
  ]

  /** The numbered headers and footers run from 1 to this bound. */
  const MaxNumbered: nat := 20

  /** The decimal digit for `d`. */
  function DigitChar(d: nat): (c: char)
    requires d < 10
    ensures '0' <= c <= '9'
  {
    ('0' as int + d) as char
  }

  /** `n` divided by ten, rounded down. */
  function Tens(n: nat): (q: nat)
    ensures 10 * q <= n < 10 * q + 10
  {
    if n < 10 then 0 else Tens(n - 10) + 1
  }

  /** `${n}` for a non-negative integer: its decimal digits, without leading zeros. */
  function Decimal(n: nat): (r: string)
    ensures |r| > 0 && forall k :: 0 <= k < |r| ==> '0' <= r[k] <= '9'
  {
    if n < 10 then [DigitChar(n)] else Decimal(Tens(n)) + [DigitChar(n - 10 * Tens(n))]
  }

  function HeaderName(i: nat): string {
    "word/header" + Decimal(i) + ".xml"
  }

  function FooterName(i: nat): string {
    "word/footer" + Decimal(i) + ".xml"
  }

  /** The header and footer names the numbered loop tries from `i` on, in order. */
  function NumberedFrom(i: nat): (r: seq<string>)
    ensures |r| == if i <= MaxNumbered then 2 * (MaxNumbered + 1 - i) else 0
    decreases MaxNumbered + 1 - i
  {
    if i > MaxNumbered then [] else [HeaderName(i), FooterName(i)] + NumberedFrom(i + 1)
  }

  /** A numbered header or footer name, `word/header{N}.xml` or `word/footer{N}.xml` with `1 <= N <= 20`. */
  predicate IsNumberedName(name: string) {
    exists i :: 1 <= i <= MaxNumbered && (name == HeaderName(i) || name == FooterName(i))
  }

  /** A name `getRelevantXmlFiles` can ever return. */
  predicate IsCandidate(name: string) {
    name in PossibleFiles || IsNumberedName(name)
  }

  /** The first loop: the names of `names` that the archive holds, in order. */
  function Present(names: seq<string>, archive: map<string, string>): (r: seq<string>)
    ensures |r| <= |names|
  {
    if names == [] then []
    else
      var last := names[|names| - 1];
      Present(names[..|names| - 1], archive) + (if last in archive then [last] else [])
  }

  /** The second loop: `names` tried in order, each added when the archive holds it and `files` does not yet. */
  function AddNew(files: seq<string>, names: seq<string>, archive: map<string, string>): seq<string>
    decreases |names|
  {
    if names == [] then files
    else
      var name := names[0];
      AddNew(if name in archive && name !in files then files + [name] else files, names[1..], archive)
  }

  /** What `getRelevantXmlFiles` returns for an archive. */
  function RelevantXmlFiles(archive: map<string, string>): seq<string> {
    AddNew(Present(PossibleFiles, archive), NumberedFrom(1), archive)
  }

  predicate Distinct(s: seq<string>) {
    forall i, j :: 0 <= i < j < |s| ==> s[i] != s[j]
  }

  /**
   * `a` is `b` with some elements left out and the rest kept in order,
   * matched greedily from the back.
   */
  predicate IsSubsequence(a: seq<string>, b: seq<string>)
    decreases |b|
  {
    if a == [] then true
    else if b == [] then false
    else if a[|a| - 1] == b[|b| - 1] then IsSubsequence(a[..|a| - 1], b[..|b| - 1])
    else IsSubsequence(a, b[..|b| - 1])
  }

  // ---------------------------------------------------------------------
  // the first loop

  lemma {:induction false} PresentMembers(names: seq<string>, archive: map<string, string>, name: string)
    ensures name in Present(names, archive) <==> name in names && name in archive
  {
    if names != [] {
      var init := names[..|names| - 1];
      PresentMembers(init, archive, name);
      assert names == init + [names[|names| - 1]];
    }
  }

  lemma {:induction false} PresentDistinct(names: seq<string>, archive: map<string, string>)
    requires Distinct(names)
    ensures Distinct(Present(names, archive))
  {
    if names != [] {
      var init, last := names[..|names| - 1], names[|names| - 1];
      PresentDistinct(init, archive);
      PresentMembers(init, archive, last);
    }
  }

  /** The first loop keeps the fixed list's order. */
  lemma {:induction false} PresentInOrder(names: seq<string>, archive: map<string, string>)
    ensures IsSubsequence(Present(names, archive), names)
  {
    if names != [] {
      var init, last := names[..|names| - 1], names[|names| - 1];
      PresentInOrder(init, archive);
      assert names == init + [last];
      if last !in archive {
        assert Present(names, archive) == Present(init, archive);
        SubsequenceExtend(Present(init, archive), init, last);
      } else {
        var p := Present(init, archive) + [last];
        assert p[..|p| - 1] == Present(init, archive);
      }
    }
  }

  /** A subsequence of `b` stays one when `b` grows at the back. */
  lemma {:induction false} SubsequenceExtend(a: seq<string>, b: seq<string>, x: string)
    requires IsSubsequence(a, b)
    ensures IsSubsequence(a, b + [x])
    decreases |b|, 1
  {
    var bx := b + [x];
    assert bx[..|bx| - 1] == b;
    if a != [] && a[|a| - 1] == x {
      SubsequenceDropLast(a, b);
    }
  }

  /** Leaving out the last element of a subsequence keeps it a subsequence. */
  lemma {:induction false} SubsequenceDropLast(a: seq<string>, b: seq<string>)
    requires a != [] && IsSubsequence(a, b)
    ensures IsSubsequence(a[..|a| - 1], b)
    decreases |b|, 0
  {
    var a', b' := a[..|a| - 1], b[..|b| - 1];
    assert b == b' + [b[|b| - 1]];
    if a[|a| - 1] != b[|b| - 1] {
      SubsequenceDropLast(a, b');
    }
    SubsequenceExtend(a', b', b[|b| - 1]);
  }

  /** The fixed list names twelve different parts. */
  lemma PossibleFilesDistinct()
    ensures Distinct(PossibleFiles)
  {
  }

  // ---------------------------------------------------------------------
  // the numbered loop

  /** Every name the numbered loop tries from `i` on is header or footer `j` for some `j` from `i` to 20. */
  lemma {:induction false} NumberedIndex(i: nat, name: string) returns (j: nat)
    requires name in NumberedFrom(i)
    ensures i <= j <= MaxNumbered && (name == HeaderName(j) || name == FooterName(j))
    decreases MaxNumbered + 1 - i
  {
    assert i <= MaxNumbered;
    if name == HeaderName(i) || name == FooterName(i) {
      j := i;
    } else {
      assert name in NumberedFrom(i + 1);
      j := NumberedIndex(i + 1, name);
    }
  }

  /** Header and footer `j` are both tried by the numbered loop from any `i` up to `j`. */
  lemma {:induction false} NumberedHas(i: nat, j: nat)
    requires i <= j <= MaxNumbered
    ensures HeaderName(j) in NumberedFrom(i) && FooterName(j) in NumberedFrom(i)
    decreases j - i
  {
    if i < j {
      NumberedHas(i + 1, j);
    }
  }

  lemma NumberedMembers(name: string)
    ensures name in NumberedFrom(1) <==> IsNumberedName(name)
  {
    if name in NumberedFrom(1) {
      var j := NumberedIndex(1, name);
    }
    if IsNumberedName(name) {
      var j :| 1 <= j <= MaxNumbered && (name == HeaderName(j) || name == FooterName(j));
      NumberedHas(1, j);
    }
  }

  /** One step of the second loop leaves what it ends with unchanged. */
  lemma AddNewStep(files: seq<string>, names: seq<string>, archive: map<string, string>, outcome: seq<string>)
    requires names != [] && AddNew(files, names, archive) == outcome
    ensures var name := names[0];
      AddNew(if name in archive && name !in files then files + [name] else files, names[1..], archive) == outcome
  {
  }

  lemma {:induction false} AddNewMembers(files: seq<string>, names: seq<string>, archive: map<string, string>, name: string)
    ensures name in AddNew(files, names, archive) <==> name in files || (name in names && name in archive)
    decreases |names|
  {
    if names != [] {
      var n := names[0];
      var files' := if n in archive && n !in files then files + [n] else files;
      AddNewMembers(files', names[1..], archive, name);
      assert names == [n] + names[1..];
    }
  }

  /** The second loop only appends, and only names of the archive that the first loop did not already list. */
  lemma {:induction false} AddNewExtends(files: seq<string>, names: seq<string>, archive: map<string, string>)
    ensures var r := AddNew(files, names, archive);
      && |files| <= |r| && r[..|files|] == files
      && (forall k :: |files| <= k < |r| ==> r[k] !in files && r[k] in names && r[k] in archive)
      && (Distinct(files) ==> Distinct(r))
    decreases |names|
  {
    if names != [] {
      var n := names[0];
      var files' := if n in archive && n !in files then files + [n] else files;
      AddNewExtends(files', names[1..], archive);
      var r := AddNew(files, names, archive);
      assert r == AddNew(files', names[1..], archive);
      assert r[..|files'|][..|files|] == r[..|files|];
      forall k | |files| <= k < |r|
        ensures r[k] !in files && r[k] in names && r[k] in archive
      {
        if k >= |files'| {
          assert r[k] in names[1..];
        } else {
          assert r[k] == n;
        }
      }
    }
  }

  // ---------------------------------------------------------------------
  // what getRelevantXmlFiles promises

  /** A part is listed exactly when the archive holds it and it is a candidate name. */
  lemma RelevantFilesMembers(archive: map<string, string>, name: string)
    ensures name in RelevantXmlFiles(archive) <==> name in archive && IsCandidate(name)
  {
    PresentMembers(PossibleFiles, archive, name);
    AddNewMembers(Present(PossibleFiles, archive), NumberedFrom(1), archive, name);
    NumberedMembers(name);
  }

  /** No part is listed twice, although the fixed list and the numbered names overlap. */
  lemma RelevantFilesDistinct(archive: map<string, string>)
    ensures Distinct(RelevantXmlFiles(archive))
  {
    PossibleFilesDistinct();
    PresentDistinct(PossibleFiles, archive);
    AddNewExtends(Present(PossibleFiles, archive), NumberedFrom(1), archive);
  }

  /**
   * The parts of the fixed list come first, in the list's order; every part
   * after them is a numbered header or footer outside the fixed list.
   */
  lemma RelevantFilesFixedFirst(archive: map<string, string>)
    ensures var fixed, r := Present(PossibleFiles, archive), RelevantXmlFiles(archive);
      && IsSubsequence(fixed, PossibleFiles)
      && |fixed| <= |r| && r[..|fixed|] == fixed
      && forall k :: |fixed| <= k < |r| ==> r[k] !in PossibleFiles && IsNumberedName(r[k])
  {
    var fixed, r := Present(PossibleFiles, archive), RelevantXmlFiles(archive);
    PresentInOrder(PossibleFiles, archive);
    AddNewExtends(fixed, NumberedFrom(1), archive);
    forall k | |fixed| <= k < |r|
      ensures r[k] !in PossibleFiles && IsNumberedName(r[k])
    {
      PresentMembers(PossibleFiles, archive, r[k]);
      NumberedMembers(r[k]);
    }
  }

  /** The first loop of `getRelevantXmlFiles`: the parts of the fixed list the archive holds. */
  method FixedFiles(archive: map<string, string>) returns (files: seq<string>)
    ensures files == Present(PossibleFiles, archive)
  {
    files := [];
    var k := 0;
    while k < |PossibleFiles|
      invariant k <= |PossibleFiles|
      invariant files == Present(PossibleFiles[..k], archive)
    {
      var fileName := PossibleFiles[k];
      assert PossibleFiles[..k + 1][..k] == PossibleFiles[..k];
      if fileName in archive {
        files := files + [fileName];
      }
      k := k + 1;
    }
    assert PossibleFiles[..k] == PossibleFiles;
  }

  /** One round of the numbered loop: header `i`, then footer `i`, each added when present and not yet listed. */
  method AddNumberedPair(archive: map<string, string>, files: seq<string>, i: nat, ghost outcome: seq<string>)
    returns (files': seq<string>)
    requires 1 <= i <= MaxNumbered
    requires AddNew(files, NumberedFrom(i), archive) == outcome
    ensures AddNew(files', NumberedFrom(i + 1), archive) == outcome
  {
    files' := files;
    var pair := [HeaderName(i), FooterName(i)];
    ghost var rest := NumberedFrom(i + 1);
    assert pair[0..] + rest == NumberedFrom(i);
    var j := 0;
    while j < |pair|
      invariant j <= |pair|
      invariant AddNew(files', pair[j..] + rest, archive) == outcome
    {
      var fileName := pair[j];
      AddNewStep(files', pair[j..] + rest, archive, outcome);
      assert (pair[j..] + rest)[1..] == pair[j + 1..] + rest;
      if fileName in archive && fileName !in files' {
        files' := files' + [fileName];
      }
      j := j + 1;
    }
    assert pair[j..] + rest == rest;
  }

  /** The numbered loop of `getRelevantXmlFiles`, headers and footers 1 to 20 after the `files` listed so far. */
  method AddNumbered(archive: map<string, string>, files: seq<string>) returns (files': seq<string>)
    ensures files' == AddNew(files, NumberedFrom(1), archive)
  {
    files' := files;
    var i := 1;
    ghost var outcome := AddNew(files, NumberedFrom(i), archive);
    while i <= MaxNumbered
      invariant 1 <= i <= MaxNumbered + 1
      invariant AddNew(files', NumberedFrom(i), archive) == outcome
    {
      files' := AddNumberedPair(archive, files', i, outcome);
      i := i + 1;
    }
  }

  /** `getRelevantXmlFiles`: the fixed list, then the numbered headers and footers. */
  method GetRelevantXmlFiles(archive: map<string, string>) returns (files: seq<string>)
    ensures files == RelevantXmlFiles(archive)
  {
    files := FixedFiles(archive);
    files := AddNumbered(archive, files);
  }
}
