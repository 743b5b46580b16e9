# fisharebest/str in Dafny

A model of `Fisharebest\Str` (`src/Str.php`), a small PHP class that wraps a
UTF-8 string in an immutable, fluent value. The class provides:

- construction (`new Str`, `Str::make`) and conversion back (`__toString`);
- `e()`, HTML escaping with `htmlspecialchars`;
- `length()`, a codepoint count with `mb_strlen`;
- `substr()`, `mb_substr`;
- `tr()`, `strtr` with a table of replacements;
- `trim()`, a loop that strips listed multi-codepoint "characters" from
  both ends until a whole pass strips nothing.

In the model a string is a Dafny `string`, i.e. a sequence of Unicode
codepoints. `Str` is a datatype with one field, so every operation returns a
fresh value and leaves the receiver alone. `trim` is a method that runs the
source's loops: a `do … while (!$done)`, a `foreach` over the list and two
inner `while` loops. It is proved equal to `Trimming.Trimmed`, a functional
statement of the same computation. The PHP built-ins the class calls are
modelled in modules of their own:

- `Html`: the `htmlspecialchars` table with ENT_QUOTES (the default since
  PHP 8.1), plus its inverse `Unescape` as a partner.
- `MbString`: `mb_substr` as PHP 8's mbstring computes it (real start, real
  length, cut), and the UTF-8 byte length as a reference for `length()`.
- `StrTr`: the array form of `strtr`. It scans left to right, tries the
  longest key first and resumes after the replaced key.
- `Trimming`: one pass of the trim loop, the repetition of passes, and a
  reference strip for lists of single codepoints.
- `Affixes`: prefix, suffix and infix predicates.
- `StrTest`: the concrete cases of `tests/StrTest.php`.

The order in which `trim` tries the entries is the source's: each entry is
stripped from the start, then from the end, and the whole list is tried
again after any pass that stripped something. For lists of single codepoints
the order does not matter (`Trimming.TrimmedSingleCodepoints`). For entries
of several codepoints it does: with the entries "abc", "ab", "cd" the string
"abcd" trims to "d" (`StrTest.TrimmedKeepsRemainder`), while with the same
entries in the order "cd", "ab", "abc" it trims to the empty string
(`StrTest.TrimmedReversedOrder`).

## Model

| member | source | states |
|---|---|---|
| Fisharebest.Utf8Whitespace | src/Str.php:37-47 | the nine default entries, in the source's order: space, NUL, LF, CR, TAB, VT, NEL, LS, PS; `WhitespaceList` states what is proved of them |
| Fisharebest.WhitespaceList | src/Str.php:37-47 | the default list has no empty entry and lists each of its nine white-space codepoints on its own |
| Fisharebest.Str.Make | src/Str.php:63-66 | `make` wraps its argument: converting the result back gives the same string |
| Fisharebest.Str.ToString | src/Str.php:148-151 | `__toString` returns the wrapped string, and wrapping it again gives the same value |
| Fisharebest.Str.E | src/Str.php:71-74 | the escaped text decodes back to the input, contains no raw `<`, `>`, `"` or `'`, is at least as long, and is empty exactly when the input is |
| Fisharebest.Str.Length | src/Str.php:79-82 | `length` counts codepoints: it is at most the UTF-8 byte length, and equal to it exactly when the text is ASCII |
| Fisharebest.Str.Substr | src/Str.php:101-104 | the result is the slice from the clamped start to the clamped end, no longer than the input, and empty for an offset at or past the end |
| Fisharebest.Str.Tr | src/Str.php:111-114 | a table with only empty keys, or whose keys occur nowhere in the text, changes nothing; with single-codepoint keys each codepoint is replaced on its own |
| Fisharebest.Str.Trim | src/Str.php:123-143 | the loops compute `Trimmed`; the result is an infix of the input and neither starts nor ends with a listed entry; the list may not hold an empty entry |
| Fisharebest.TrimmedWhitespaceOnly | src/Str.php:37-47 | with the default list, a string of white space alone trims to the empty string |
| Fisharebest.WhitespaceListed | src/Str.php:37-47 | each codepoint of a white-space string is an entry of the default list |
| Fisharebest.TrimmedDefaultStrip | src/Str.php:123-143 | with the default list, `trim` is the strip of listed codepoints from both ends |
| Affixes.HasPrefix | src/Str.php:131 | `str_starts_with`: holds exactly when the string is the entry followed by something (`Affixes.PrefixConcat`) |
| Affixes.PrefixConcat | src/Str.php:131 | a string has a prefix exactly when it is that prefix followed by some string |
| Affixes.HasSuffix | src/Str.php:135 | `str_ends_with`: holds exactly when the string is something followed by the entry (`Affixes.SuffixConcat`) |
| Affixes.SuffixConcat | src/Str.php:135 | a string has a suffix exactly when it is some string followed by that suffix |
| Html.EscapeChar | src/Str.php:73 | exactly the five special codepoints are rewritten, each to an entity starting with `&`, and no replacement contains markup |
| Html.Escape | src/Str.php:73 | the escaped text is at least as long as the input, and is empty exactly when the input is |
| Html.EscapeNoMarkup | src/Str.php:73 | the escaped text contains no raw `<`, `>`, `"` or `'` |
| Html.EscapeAppend | src/Str.php:73 | escaping distributes over concatenation |
| Html.EscapePlain | src/Str.php:73 | text with none of the five special codepoints is left unchanged |
| Html.UnescapeEscapeChar | src/Str.php:73 | decoding the entity of one codepoint gives that codepoint back, whatever follows |
| Html.UnescapeEscape | src/Str.php:73 | decoding undoes escaping for every string |
| MbString.SubstrStart | src/Str.php:103 | the clamped start lies within the string |
| MbString.SubstrEnd | src/Str.php:103 | the clamped end lies between the start and the end of the string |
| MbString.MbSubstr | src/Str.php:103 | the extension's real-start and real-length computation equals the slice between the clamped start and end |
| MbString.SubstrLength | src/Str.php:103 | the result is no longer than the input, nor than a non-negative length |
| MbString.SubstrPastEnd | src/Str.php:103 | an offset at or past the end gives the empty string, whatever the length |
| MbString.SubstrNegativeLength | src/Str.php:103 | a negative length only shortens the run to the end: the result is its prefix, shorter by the length but never below empty |
| MbString.SubstrNegativeOffset | src/Str.php:103 | a negative offset within the string keeps that many trailing codepoints |
| MbString.SubstrSplit | src/Str.php:103 | the part before an index and the part from it join back to the string |
| MbString.SubstrDropEnds | src/Str.php:132-137 | the two calls in `trim` remove exactly a prefix or a suffix of the given length |
| MbString.ByteLength | src/Str.php:81 | the UTF-8 length in bytes is between one and four times the number of codepoints |
| MbString.ByteLengthAscii | src/Str.php:81 | bytes and codepoints agree exactly on ASCII text |
| StrTr.LongestKeyUpTo | src/Str.php:113 | the key found matches at the start, is no longer than the bound, and is the longest such key; none is found only when every match is longer |
| StrTr.LongestKey | src/Str.php:113 | the key found is the longest non-empty key at the start; none is found exactly when no key matches |
| StrTr.Translate | src/Str.php:113 | a table with only empty keys changes nothing; values as long as their keys keep the length |
| StrTr.TranslateStep | src/Str.php:113 | where the longest key matches, the output is its value followed by the translation of what follows the key, so replacement text is not scanned again |
| StrTr.TranslateCopy | src/Str.php:113 | where no key matches, one codepoint is copied and the scan goes on at the next one |
| StrTr.TranslateNoOccurrence | src/Str.php:113 | a text in which no non-empty key occurs is returned unchanged |
| StrTr.TranslateSingleCodepointKeys | src/Str.php:113 | with keys of at most one codepoint the scan equals the per-codepoint map |
| Trimming.StripPrefixes | src/Str.php:131-134 | the inner start loop leaves a suffix of its input that does not start with the entry, and changes nothing exactly when the input did not start with it |
| Trimming.StripSuffixes | src/Str.php:135-138 | the inner end loop leaves a prefix of its input that does not end with the entry, and changes nothing exactly when the input did not end with it |
| Trimming.StripPrefixesStep | src/Str.php:131-134 | after one turn of the start loop, the rest of the loop strips the same as the whole loop |
| Trimming.StripSuffixesStep | src/Str.php:135-138 | after one turn of the end loop, the rest of the loop strips the same as the whole loop |
| Trimming.StripBoth | src/Str.php:130-139 | one entry's two loops leave an infix, and change nothing exactly when neither end matches |
| Trimming.Pass | src/Str.php:127-140 | one pass over the list leaves an infix of its input |
| Trimming.PassStep | src/Str.php:130-139 | the pass from entry `i` on is entry `i`'s loops followed by the pass from `i + 1` on |
| Trimming.TrimmedAfterPass | src/Str.php:127-140 | after a pass that stripped something, the rest of the trim is the trim of the shorter string |
| Trimming.PassUnchanged | src/Str.php:127-140 | a string with no listed entry at either end passes unchanged |
| Trimming.PassUnchangedOnlyIf | src/Str.php:127-140 | a pass that changes nothing found no listed entry at either end |
| Trimming.Trimmed | src/Str.php:127-140 | passes repeated until one strips nothing; its result is an infix of the input, and with `TrimmedIsInfix`, `TrimmedNoEdgeMatch`, `TrimmedFixpoint` and `TrimmedIdempotent` it has no listed entry at either end, is a fixpoint, and trimming twice is trimming once |
| Trimming.TrimmedIsInfix | src/Str.php:123-143 | the trimmed string is a contiguous piece of the input |
| Trimming.TrimmedNoEdgeMatch | src/Str.php:123-143 | the trimmed string neither starts nor ends with a listed entry |
| Trimming.TrimmedFixpoint | src/Str.php:123-143 | trimming leaves a string alone exactly when no listed entry is at either end |
| Trimming.TrimmedIdempotent | src/Str.php:123-143 | trimming twice is trimming once |
| Trimming.TrimmedNoCharacters | src/Str.php:123-143 | an empty list strips nothing |
| Trimming.TrimmedAllListed | src/Str.php:123-143 | when each codepoint of the input is an entry on its own, the result is empty |
| Trimming.TrimStart | src/Str.php:131-134 | stripping listed codepoints from the start leaves a suffix whose first codepoint is not listed |
| Trimming.TrimEnd | src/Str.php:135-138 | stripping listed codepoints from the end leaves a prefix whose last codepoint is not listed |
| Trimming.TrimCodepointsPeeled | src/Str.php:123-143 | a cut between listed borders whose ends are not listed is what the plain strip leaves |
| Trimming.TrimmedSingleCodepoints | src/Str.php:123-143 | with single-codepoint entries, `trim` equals the plain strip from both ends, in any list order |
| Trimming.TrimmedCut | src/Str.php:123-143 | with single-codepoint entries, the result of `trim` is a slice of the input with only listed codepoints outside it |
| Trimming.TrimmedBetween | src/Str.php:123-143 | with single-codepoint entries, `trim` removes exactly a listed border whose inside has unlisted ends |
| Trimming.TrimmedAround | src/Str.php:123-143 | with single-codepoint entries, a piece with unlisted ends between two listed borders is what `trim` leaves |
| StrTest.ConstructorRoundTrip | tests/StrTest.php:39-66 | `new Str`, `make` and `__toString` give back the data string |
| StrTest.LengthCedilla | tests/StrTest.php:79-86 | "C with cedilla: Ç" has 17 codepoints and 18 bytes |
| StrTest.EscapeTag | tests/StrTest.php:69-76 | a tag `<name>` whose name escapes to itself becomes `&lt;name&gt;` |
| StrTest.EscapeExamples | tests/StrTest.php:69-76 | `e()` turns `<script>evil()</script>` into `&lt;script&gt;evil()&lt;/script&gt;` |
| StrTest.EscapeEmpty | tests/StrTest.php:69-76 | `e()` of the empty string is empty |
| StrTest.SubstrFoo | tests/StrTest.php:99-116 | `substr` on "Foo": seven of the thirty offset/length cases the test draws from 0, 1, -1, 2, -2 |
| StrTest.TrFoo | tests/StrTest.php:119-126 | `tr(['o' => 'O'])` turns "foo" into "fOO" |
| StrTest.TrLongestAndNoRescan | src/Str.php:113 | with keys "a" and "ab", "ab" becomes the value of "ab"; with "a"→"b" and "b"→"c", "ab" becomes "bc" and not "cc" |
| StrTest.TrimmedBrackets | tests/StrTest.php:137-141 | `trim(['<', '>'])` strips one bracket from each end of `<script>evil()</script>` |
| StrTest.TrimBrackets | tests/StrTest.php:137-141 | the `trim` method gives `script>evil()</script` on that string |
| StrTest.TrimmedPaddedFoo | src/Str.php:123-143 | with the default list, white space around "Foo" is removed |
| StrTest.TrimmedKeepsRemainder | src/Str.php:127-140 | for any codepoints a, b, c, d, with entries "abc", "ab", "cd" the string "ab" + "cd" trims to "d": earlier entries are tried first |
| StrTest.TrimmedReversedOrder | src/Str.php:127-140 | with the same entries in the order "cd", "ab", "abc" (and a ≠ c), the same string trims to the empty string |

## Left out

- `match` (src/Str.php:90-93): it calls `preg_match`, a regular-expression engine that is not part of this model.
- UTF-8 bytes: strings are codepoint sequences. Malformed byte sequences, and `htmlspecialchars`' ENT_SUBSTITUTE handling of them, are not modelled. `str_starts_with` and `str_ends_with` compare bytes; on well-formed UTF-8 that is the same as comparing codepoints.
- `Stringable` arguments of `make`: only the string that the conversion yields is modelled.
- 64-bit PHP integers: offsets and lengths of `substr` are unbounded integers. This only differs for values near PHP_INT_MIN.
- Integer keys of the `tr` table: keys are strings. PHP turns numeric string keys into integers, and `strtr` turns them back.
- The single-pair fast paths of `strtr`: the model uses the general longest-key scan, which gives the same result.
- Fisharebest.Str.Trim: requires that no entry of the list is empty. With an empty entry the source's start loop never ends, because every string starts with "" and `mb_substr($str, 0)` changes nothing.
- Fisharebest.Str.Tr: the per-codepoint law is stated only for keys of at most one codepoint. For longer keys the longest-key scan is stated by `StrTr.LongestKey`, `StrTr.TranslateStep` (a key matches) and `StrTr.TranslateCopy` (no key matches).
- `Html.Unescape` decodes only the five entities that `e()` produces. It is a partner for the round trip, not a model of `htmlspecialchars_decode`.
- The mbstring internal encoding: `mb_strlen` and `mb_substr` (src/Str.php:81, 103, 132, 136) use `mb_internal_encoding()`; the model takes it to be UTF-8, its default. Only `e()` names its encoding explicitly.
