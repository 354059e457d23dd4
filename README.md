# Placeholder engine of a .docx template filler

This project models the core of the document processor, `src/utils/DocumentProcessor.ts`. The processor opens a Word document (a zip archive of XML parts) and does two jobs:

- **Detection** (`detectPlaceholders`) finds every `[KEY]` placeholder in the document's relevant parts. It uses three scans:
  - one over the visible text;
  - one over the raw XML that tolerates tags between the characters;
  - one that collects every bracketed run.

  Each candidate is validated and normalized to a canonical upper-case key. The result is a sorted list of distinct keys.
- **Substitution** (`processDocument`) replaces the placeholders with user values:
  - Each value is XML-escaped.
  - Six literal spellings of `[KEY]` are counted and replaced.
  - A case-insensitive pattern then replaces placeholders whose characters are split across XML runs.
  - Each part whose text changed is written back to the archive.

The archive is a map from part names to their text. During substitution it is the class `Substitution.Zip`, whose entries `ProcessDocument` overwrites in place. Regular expressions are modelled as explicit scanners that follow the engine's leftmost, greedy matching. Each loop of the source is a Dafny method, proved equal to a specification function. The functions' properties are proved as lemmas.

Modules (one file each):

- `Text` (`text.dfy`): JavaScript string operations the core relies on:
  - `trim` and `\s`;
  - deleting tags, as `/<[^>]*>/g` does;
  - `split`/`join`, as used by `countOccurrences` and `replaceAll`;
  - ASCII case mapping.
- `XmlEscape` (`escape.dfy`): `escapeXml`.
- `CleanText` (`cleantext.dfy`): `extractCleanText`.
- `Placeholders` (`placeholders.dfy`): `isValidPlaceholder` and `normalizePlaceholder`.
- `Scanners` (`scanners.dfy`): the clean-text bracket scan, `findFragmentedPlaceholders` and `findBracketPatterns`.
- `Parts` (`parts.dfy`): `getRelevantXmlFiles`.
- `Fragments` (`fragments.dfy`): `replaceFragmentedPlaceholders`, both as written and corrected.
- `Detection` (`detection.dfy`): `detectPlaceholders`.
- `Substitution` (`substitution.dfy`): `processDocument`.

## Model

| member | source | states |
|---|---|---|
| `Text.Trim` | src/utils/DocumentProcessor.ts:92 | `String.prototype.trim`: the leading and then the trailing `\s` characters removed; its properties are stated by `Text.TrimShape` |
| `Text.TrimShape` | src/utils/DocumentProcessor.ts:92 | `trim` keeps a contiguous middle part with no whitespace at its ends, and everything it removes before and after that part is whitespace |
| `Text.TrimIdentity` | src/utils/DocumentProcessor.ts:92 | text without whitespace at its ends is unchanged by `trim` |
| `Text.StripTags` | src/utils/DocumentProcessor.ts:85 | `replace(/<[^>]*>/g, '')`: each `<` with a later `>` is deleted through the first such `>`; the result is never longer than the text |
| `Text.StripTagsShape` | src/utils/DocumentProcessor.ts:85 | deleting tags leaves no complete `<...>` tag and introduces no character |
| `Text.StripTagsIdempotent` | src/utils/DocumentProcessor.ts:105 | deleting tags a second time changes nothing |
| `Text.CountOccurrences` | src/utils/DocumentProcessor.ts:309-311 | `text.split(searchString).length - 1`, with JavaScript's `split` (the empty separator splits into characters); its properties are stated by the two lemmas below |
| `Text.ReplaceAll` | src/utils/DocumentProcessor.ts:313-315 | `text.split(searchString).join(replaceString)`; its properties are stated by `Text.ReplaceAllPrefix`, `Text.ReplaceAllSkip`, `Text.JoinSplit`, `Text.ReplaceAllSelf`, `Text.CountZeroUnchanged` and `Text.ReplaceAllLength` |
| `Text.CountPositiveIffContains` | src/utils/DocumentProcessor.ts:309-311 | for a non-empty search string, `countOccurrences` is never negative, and is positive exactly when the search string occurs (for the empty search string on empty text it is -1, as in the source) |
| `Text.JoinSplit` | src/utils/DocumentProcessor.ts:313-315 | joining the pieces of a split with the separator gives the text back |
| `Text.ReplaceAllPrefix` | src/utils/DocumentProcessor.ts:313-315 | an occurrence at the front is replaced and the scan resumes right after it |
| `Text.ReplaceAllAbsent` | src/utils/DocumentProcessor.ts:313-315 | text in which the search string does not occur is returned unchanged |
| `Text.ReplaceAllSkip` | src/utils/DocumentProcessor.ts:313-315 | a character where no occurrence starts is kept and the replacing goes on after it; with `Text.ReplaceAllPrefix` (an occurrence at the front is replaced and the scan resumes after it) this makes every occurrence, left to right, be replaced |
| `Text.ReplaceAllSelf` | src/utils/DocumentProcessor.ts:313-315 | `replaceAll` of a string by itself is the identity |
| `Text.CountZeroUnchanged` | src/utils/DocumentProcessor.ts:309-315 | when the count is zero, `replaceAll` leaves the text unchanged |
| `Text.ReplaceAllLength` | src/utils/DocumentProcessor.ts:309-315 | each counted occurrence changes the length by the replacement's length minus the search string's |
| `XmlEscape.EscapeXml` | src/utils/DocumentProcessor.ts:317-324 | the five global replaces `&`, `<`, `>`, `"`, `'`, in that order; its properties are stated by the lemmas below |
| `XmlEscape.EscapeXmlIsCharwise` | src/utils/DocumentProcessor.ts:317-324 | the five chained replaces (`&` first) equal escaping each character once, so no entity is escaped twice |
| `XmlEscape.EscapeXmlSafe` | src/utils/DocumentProcessor.ts:317-324 | the escaped value holds no `<`, `>`, `"` or `'`, and each `&` begins one of the five entities |
| `XmlEscape.UnescapeEscape` | src/utils/DocumentProcessor.ts:317-324 | escaping is reversible: decoding the five entities in one pass gives the value back |
| `XmlEscape.EscapeXmlPlain` | src/utils/DocumentProcessor.ts:317-324 | a value without any of the five special characters is written as it is |
| `CleanText.ReplaceSpaceRuns` | src/utils/DocumentProcessor.ts:91 | collapsing whitespace runs leaves no two whitespace characters in a row, keeps every character that is neither whitespace nor the separator, in order (`CleanText.Solid`), and empties only the empty text |
| `CleanText.ReplaceSpaceRunsCons` | src/utils/DocumentProcessor.ts:91 | a non-whitespace character is copied in place and collapsing goes on after it |
| `CleanText.ReplaceSpaceRunsRun` | src/utils/DocumentProcessor.ts:91 | a whole whitespace run, however long, becomes exactly one separator where it stood; with `CleanText.ReplaceSpaceRunsCons` this determines the result for every input |
| `CleanText.ReplaceSpaceRunsAppend` | src/utils/DocumentProcessor.ts:91 | a text ending in a non-whitespace character is collapsed independently of what follows it |
| `CleanText.ExtractCleanText` | src/utils/DocumentProcessor.ts:82-93 | `extractCleanText`: tags deleted, the five entity replaces in the source's order, whitespace runs collapsed to one space, ends trimmed; its properties are stated by the lemmas below, `CleanText.CleanTextWords` for the whitespace between words |
| `CleanText.CleanTextWords` | src/utils/DocumentProcessor.ts:91-92 | two words of the decoded, tag-free text with whitespace between them come out as their own clean texts joined by exactly one space |
| `CleanText.CleanTextKeeps` | src/utils/DocumentProcessor.ts:82-93 | the clean text keeps every non-whitespace character of the decoded, tag-free text, in order |
| `CleanText.DecodeOrder` | src/utils/DocumentProcessor.ts:86-90 | the decoding replaces run one after another: `&amp;lt;` becomes `&lt;`, but `&amp;quot;` becomes `"` |
| `CleanText.CleanTextShape` | src/utils/DocumentProcessor.ts:82-93 | clean text has no whitespace at its ends, no two whitespace characters in a row, and only plain spaces |
| `CleanText.CollapseTrimIdempotent` | src/utils/DocumentProcessor.ts:82-93 | collapsing and trimming clean text again changes nothing |
| `Placeholders.IsValidPlaceholder` | src/utils/DocumentProcessor.ts:135-141 | `isValidPlaceholder`: only letters (ASCII and `ÆØÅæøå`), digits, `_`, `\s`, `-` and `.`, at least one letter, and a length from 1 to 99 |
| `Placeholders.Normalize` | src/utils/DocumentProcessor.ts:143-150 | `normalizePlaceholder`: the five steps in the source's order; its properties are stated by the lemmas below, `Placeholders.NormalizeWords` for the `_` between words |
| `Placeholders.NormalizeWords` | src/utils/DocumentProcessor.ts:143-150 | two words of letters, digits, `-` and `.` separated by any whitespace run become the upper-cased words joined by exactly one `_` (`first name` gives `FIRST_NAME`) |
| `Placeholders.MapNonWord` | src/utils/DocumentProcessor.ts:146 | each character outside `[\w\-\.]` becomes `_` and the length is kept |
| `Placeholders.CollapseUnderscores` | src/utils/DocumentProcessor.ts:147 | the result has no `__`, keeps the first character, and is empty only for empty input |
| `Placeholders.CollapseUnderscoresCons` | src/utils/DocumentProcessor.ts:147 | a character other than `_` is copied in place and collapsing goes on after it |
| `Placeholders.CollapseUnderscoresRun` | src/utils/DocumentProcessor.ts:147 | a whole run of `_`, however long, becomes exactly one `_` where it stood |
| `Placeholders.StripEdgeUnderscores` | src/utils/DocumentProcessor.ts:148 | on text without `__`, the result has no `_` at either end |
| `Placeholders.StripEdgeShape` | src/utils/DocumentProcessor.ts:148 | one leading `_` is removed exactly when the text starts with one, then one trailing `_` exactly when what is left ends with one, and the middle is kept as it is |
| `Placeholders.NormalizeIsNormalized` | src/utils/DocumentProcessor.ts:143-150 | every normalized key is upper-case ASCII letters, digits, `_`, `-` and `.`, with no `__` and no `_` at either end |
| `Placeholders.NormalizedFixpoint` | src/utils/DocumentProcessor.ts:143-150 | a key that is already normalized is its own normal form |
| `Placeholders.NormalizeIdempotent` | src/utils/DocumentProcessor.ts:143-150 | normalizing twice is normalizing once |
| `Placeholders.NormalizeKeeps` | src/utils/DocumentProcessor.ts:143-150 | normalization keeps every ASCII letter, digit, `-` and `.` in order, upper-cased, and adds only underscores |
| `Placeholders.NormalizeEmptyIff` | src/utils/DocumentProcessor.ts:143-150 | the key is empty exactly when the placeholder has no ASCII letter, digit, `-` or `.` |
| `Placeholders.NordicOnlyKeyIsEmpty` | src/utils/DocumentProcessor.ts:135-150 | the placeholder `æ` passes validation yet normalizes to the empty key |
| `Placeholders.NormalizedIsPlain` | src/utils/DocumentProcessor.ts:143-150 | a normalized key is ASCII and holds no `<`, `>`, `[` or `]` |
| `Scanners.CleanTextMatches` | src/utils/DocumentProcessor.ts:30 | every captured interior of `/\[([^\]]+)\]/g` is non-empty and holds no `]` |
| `Scanners.CleanTextCandidates` | src/utils/DocumentProcessor.ts:30-34 | one candidate per match; each has no whitespace at either end and holds no `]` |
| `Scanners.SingleCleanMatch` | src/utils/DocumentProcessor.ts:30 | the text `[x]` yields exactly the interior `x` |
| `Scanners.FragmentEnd` | src/utils/DocumentProcessor.ts:99 | the fragmented interior ends at a `]` |
| `Scanners.FragmentEndFirstClose` | src/utils/DocumentProcessor.ts:99-100 | the first `]` after a fragmented match's `[` is at or before the match's closing `]`; every `]` in between lies inside a tag; the two are the same `]` exactly when no tag in between holds a `]` |
| `Scanners.TagHidesClose` | src/utils/DocumentProcessor.ts:99-120 | on `[a<x]>b]` the two raw-XML patterns disagree: the bracket pattern closes at the `]` inside the tag, the fragmented one at the last `]` |
| `Scanners.FindFragmentedPlaceholders` | src/utils/DocumentProcessor.ts:95-114 | the `exec` loop returns every captured interior, tags deleted and trimmed, that is a valid placeholder, in order |
| `Scanners.FragmentedAllValid` | src/utils/DocumentProcessor.ts:95-114 | every reported fragmented placeholder is valid |
| `Scanners.BracketAt` | src/utils/DocumentProcessor.ts:120 | the bracket pattern matches at a position exactly when a `[` there has some later `]`, and the match closes at the first one |
| `Scanners.FindBracketPatterns` | src/utils/DocumentProcessor.ts:116-133 | the `exec` loop returns every captured interior, tags deleted and trimmed, that is not empty, in order |
| `Scanners.BracketPatternsShape` | src/utils/DocumentProcessor.ts:116-133 | every bracket pattern is non-empty, has no whitespace at its ends, and holds no tag and no `]` |
| `Parts.Decimal` | src/utils/DocumentProcessor.ts:298 | `${i}` is a non-empty string of decimal digits |
| `Parts.FixedFiles` | src/utils/DocumentProcessor.ts:290-294 | the first loop lists the fixed parts the archive holds, in the fixed order |
| `Parts.AddNumbered` | src/utils/DocumentProcessor.ts:297-303 | the numbered loop adds headers and footers 1 to 20 that are present and not yet listed |
| `Parts.GetRelevantXmlFiles` | src/utils/DocumentProcessor.ts:271-307 | returns the fixed parts the archive holds, in the fixed order, then the present numbered headers and footers not yet listed |
| `Parts.NumberedMembers` | src/utils/DocumentProcessor.ts:297-303 | the numbered loop tries exactly the names `word/header{N}.xml` and `word/footer{N}.xml` for N from 1 to 20 |
| `Parts.RelevantFilesMembers` | src/utils/DocumentProcessor.ts:271-307 | a part is listed exactly when the archive holds it and its name is a candidate |
| `Parts.RelevantFilesDistinct` | src/utils/DocumentProcessor.ts:271-307 | no part is listed twice, although the fixed list and the numbered names overlap |
| `Parts.RelevantFilesFixedFirst` | src/utils/DocumentProcessor.ts:271-307 | fixed parts come first in the fixed order; every later part is a numbered header or footer outside the fixed list |
| `Fragments.MatchAt` | src/utils/DocumentProcessor.ts:248-258 | a match of the per-character pattern starts with `[` and ends with `]` |
| `Fragments.KeyEndStrip` | src/utils/DocumentProcessor.ts:251-254 | the text matched by the key part, with its tags deleted, is the key up to case |
| `Fragments.MatchesShape` | src/utils/DocumentProcessor.ts:258-259 | every match of `content.match(regex)` is, with its tags deleted, `[key]` up to case |
| `Fragments.NoOpenNoMatches` | src/utils/DocumentProcessor.ts:258-259 | text without `[` holds no match |
| `Fragments.BracketedMatch` | src/utils/DocumentProcessor.ts:248-258 | `[k]`, for any spelling `k` of the key that differs only in case, is matched whole |
| `Fragments.Find` | src/utils/DocumentProcessor.ts:264 | `indexOf`: the position found is the first one from the start where the search string occurs, and nothing is found only when it occurs nowhere |
| `Fragments.ReplaceFragmentedPlaceholdersAsWritten` | src/utils/DocumentProcessor.ts:244-269 | the matches are collected and then each is replaced by `replace` with `$` patterns expanded, as the code does |
| `Fragments.SubstitutionPlain` | src/utils/DocumentProcessor.ts:264 | a value without `$` is inserted as it is, even as written |
| `Fragments.BracketedAsWritten` | src/utils/DocumentProcessor.ts:259-265 | as written, a lone bracketed key becomes the value's `$` expansion |
| `Fragments.ReplaceFragmentedPlaceholders` | src/utils/DocumentProcessor.ts:244-269 | the corrected loop replaces each match, where it was found, by the literal value |
| `Fragments.NoMatchUnchanged` | src/utils/DocumentProcessor.ts:259-268 | with no match, both versions return the content unchanged |
| `Fragments.NoBracketUnchanged` | src/utils/DocumentProcessor.ts:244-269 | content without `[` is never changed |
| `Fragments.BracketedReplaced` | src/utils/DocumentProcessor.ts:244-269 | a bracketed spelling of the key, in any case, is replaced by exactly the value |
| `Fragments.SplitKeyReplaced` | src/utils/DocumentProcessor.ts:244-269 | `[NA<w:t>ME]`, with the key split by markup, is replaced by the value |
| `Fragments.DollarValueMangled` | src/utils/DocumentProcessor.ts:264 | for `[Name]`, key `NAME` and value `$$`, the code as written leaves `$`; the literal replace leaves `$$` |
| `Fragments.PairReplaced` | src/utils/DocumentProcessor.ts:244-269 | two bracketed spellings of the key in a row, in any case, are each replaced where they stand, giving the value twice |
| `Fragments.SearchRestarts` | src/utils/DocumentProcessor.ts:259-265 | for `[A][A]`, key `A` and value `x[A]`, the code as written gives `xx[A][A]`, because the second `replace` finds the `[A]` inside the first value; the literal in-place replace gives `x[A]x[A]` |
| `Detection.LessIrreflexive` | src/utils/DocumentProcessor.ts:66 | the default sort order is irreflexive |
| `Detection.LessTransitive` | src/utils/DocumentProcessor.ts:66 | the default sort order is transitive |
| `Detection.LessTotal` | src/utils/DocumentProcessor.ts:66 | any two different keys are ordered |
| `Detection.Insert` | src/utils/DocumentProcessor.ts:66 | inserting keeps the elements and adds the one key |
| `Detection.SortSpec` | src/utils/DocumentProcessor.ts:66 | sorting distinct keys gives a strictly increasing permutation of them |
| `Detection.Add` | src/utils/DocumentProcessor.ts:37 | `Set.add` keeps the list distinct and adds exactly the one key |
| `Detection.AddCandidates` | src/utils/DocumentProcessor.ts:33-59 | a `forEach` over candidates adds exactly the normalized keys of the valid candidates (of all candidates when there is no check) |
| `Detection.DetectInPart` | src/utils/DocumentProcessor.ts:19-64 | one part adds exactly the keys of its three scans |
| `Detection.DetectPlaceholders` | src/utils/DocumentProcessor.ts:13-66 | the result is strictly sorted and holds exactly the keys of every relevant part |
| `Detection.DetectInFile` | src/utils/DocumentProcessor.ts:20-61 | one part's visit adds exactly that part's keys to the set without duplicates; a missing part adds nothing |
| `Detection.DetectedKeysValid` | src/utils/DocumentProcessor.ts:19-66 | every detected key is the normal form of a valid placeholder, and so is normalized |
| `Detection.RelevantPartKeysDetected` | src/utils/DocumentProcessor.ts:19-64 | every key found in any relevant part is in the result |
| `Detection.SplitKeyDetected` | src/utils/DocumentProcessor.ts:43-49 | a part `[NA<w:t>ME]`, with the key split by a run boundary, still yields `NAME` |
| `Substitution.VariationsShape` | src/utils/DocumentProcessor.ts:180-187 | every spelling is the key's length plus two, and starts with `[` and ends with `]` |
| `Substitution.ReplaceVariations` | src/utils/DocumentProcessor.ts:189-196 | the spelling loop counts each spelling before replacing it and adds up the counts |
| `Substitution.VariationStep` | src/utils/DocumentProcessor.ts:189-196 | a spelling's count is positive exactly when it occurs; a zero count leaves the text unchanged; the length changes by count times (value length minus spelling length) |
| `Substitution.ProcessPart` | src/utils/DocumentProcessor.ts:176-200 | the entries loop gives the part's substituted text and its count of literal replacements |
| `Substitution.NoBracketUntouched` | src/utils/DocumentProcessor.ts:176-200 | a part without `[` stays byte-identical, with no replacement counted |
| `Substitution.FragmentsNotCounted` | src/utils/DocumentProcessor.ts:189-199 | when no spelling occurs, the count is zero, even though the fragmented replace may still change the text |
| `Substitution.VariationReplaced` | src/utils/DocumentProcessor.ts:177-199 | for a value without `[`, a text that is any of the six spellings (`[full name]` for `FULL_NAME`) becomes the escaped value, counted once; a value holding `[` can be found again by a later spelling and counted again, so the lemma does not cover it |
| `Substitution.EscapeNoBracket` | src/utils/DocumentProcessor.ts:177 | escaping introduces no `[` |
| `Substitution.Zip.constructor` | src/utils/DocumentProcessor.ts:159 | the opened archive holds its parts, and none has been written yet |
| `Substitution.Zip.File` | src/utils/DocumentProcessor.ts:204 | `zip.file(name, data)` overwrites that one entry and marks it written |
| `Substitution.ProcessDocument` | src/utils/DocumentProcessor.ts:163-210 | processes every relevant part in order and writes back only the parts whose text changed; its out-parameter is the running total `totalReplacements` |
| `Substitution.ProcessParts` | src/utils/DocumentProcessor.ts:164-208 | the `forEach` over the relevant parts leaves the archive, the written set and the running total equal to the fold of the per-part outcomes |
| `Substitution.ProcessEntry` | src/utils/DocumentProcessor.ts:167-207 | a missing part is skipped; a present part is rewritten and counted, and written back only if its text changed |
| `Substitution.ProcessFilesSpec` | src/utils/DocumentProcessor.ts:167-210 | over distinct parts, each listed part gets its substituted text, all others are unchanged, and exactly the changed ones are written |
| `Substitution.ProcessArchiveSpec` | src/utils/DocumentProcessor.ts:164-210 | after processing, every relevant part holds its substituted text, every other part is unchanged, and the parts written are exactly the relevant ones that changed |
| `Substitution.NoPlaceholderDocument` | src/utils/DocumentProcessor.ts:213-223 | a document with no `[` in its relevant parts comes back unchanged with a total of zero, the case in which `processDocument` logs its warning |

## Left out

- Reading the file (`FileReader`), the promise plumbing, the zip container itself, and serializing with `zip.generate` are not modelled. The archive is a map from part names to their decoded text, and a lookup of a missing name stands for `zip.file` returning `null`.
- Scanners.BracketAt: the running time of the regular expression at line 120 is not modelled. The model answers at once, but at a `[` with no later `]` the regex engine can split the tags that follow between `[^\]]*` and `<[^>]*>` in exponentially many ways before it fails. The model gives the result the regex would eventually return.
- Scanners.FindBracketPatterns: for the same reason, a part whose last `[` is never closed and is followed by many tags can make the source's scan, and so detection, practically hang. The model does not capture this and returns the patterns at once.
- Substitution.ProcessDocument: `processDocument` resolves with the regenerated archive as a `Blob` and keeps `totalReplacements` as a local that only feeds its logging and its warning. The model returns the archive map together with that total, so that the zero-total case can be stated.
- Console logging is not modelled. It has no effect on results.
- The debug listing that follows a zero total is also console output only.
- Case mapping is ASCII only. The source's `toUpperCase`/`toLowerCase` and the `i` flag are Unicode-aware. Normalized keys are ASCII, so the two agree on every key that detection produces.
- Fragments.MatchAt: the regular expression is built from the key. It is modelled for keys that are ASCII and contain no `<` (`Fragments.IsPatternKey`); every normalized key is such a key (`Placeholders.NormalizedIsPlain`). For other keys, the regex engine's backtracking through the tag groups and its Unicode case folding are not modelled.
- Fragments.KeyEndStrip, Fragments.MatchesShape and Fragments.BracketedMatch: these also require `IsPatternKey`, for the same reason.
- Detection.SortSpec: `sort()` compares UTF-16 code units. The model compares characters. The two agree on the ASCII keys that normalization produces, and the model does not cover astral-plane characters.
- Entries are processed in the order `Object.entries` gives them. The model takes that order as a list, and does not model the JavaScript rule that puts integer-like keys first.
- `\s` is modelled as the whitespace set of ECMAScript (the WhiteSpace and LineTerminator code points), character by character. Surrogate pairs are not modelled.
- `escapeRegex` is not modelled as a function of its own. For a key without `<`, matching an escaped key character is the same as comparing that character, and that comparison is what the scanner does.

## Findings

| source | as written | input that shows it | evidently intended | confidence | as-written member | corrected member |
|---|---|---|---|---|---|---|
| src/utils/DocumentProcessor.ts:264 | `content.replace(match, value)` treats the escaped value as a replacement pattern, so `$$`, `$&`, `` $` `` and `$'` in the value are expanded; `escapeXml` leaves `$` alone | a part `[Name]`, key `NAME`, value `$$`: no literal spelling matches `[Name]`, so the fragmented replace writes `$` | the value is inserted literally, where each match was found | high; proved, not executed | `Fragments.DollarValueMangled` | `Fragments.BracketedReplaced` |
| src/utils/DocumentProcessor.ts:263-265 | each `replace(match, value)` searches again from the start of the already-updated content, so it can find the match inside a value written by an earlier step instead of at the next original occurrence | the content `[A][A]` passed to `replaceFragmentedPlaceholders` with key `A` and value `x[A]`: the second `replace` hits the `[A]` inside the first value, giving `xx[A][A]`. In `processDocument` such content gets this far only when none of the six literal spellings (lines 180-187) matches it, for instance a part `[aB][aB]` for key `AB`; that end-to-end case is read from the spelling list, not proved | each match is replaced where it was found, giving `x[A]x[A]` | high; proved, not executed | `Fragments.SearchRestarts` | `Fragments.PairReplaced` |

The corrected replace (`Fragments.FragmentReplaced`, built by `Fragments.ReplaceFragmentedPlaceholders`) corrects both rows: it inserts the value literally and replaces each match at the position where it was found. The substitution model uses it. The code as written remains available as `Fragments.FragmentReplacedAsWritten`.
