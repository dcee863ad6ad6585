# CloudSoft.Extensions in Dafny

A model of the core of CloudSoft.Extensions, a C# library of extension
methods, with proofs about it. The core has three parts.

- **URL helpers** (`UriExtensions.cs`):
  - The rolling hash behind `HostId`, `ToHostId`, `PathId` and `LinkId`.
  - The query-string rewriter `ExcludeUrlParameter`, and the operations built on it:
    `AddUrlParameter` (both overloads), `RemoveUrlParameter`, `AddUrlParameters(string)`
    and `AddUrlParameters<T>`.
  - `GetParameters` and `GetZoneAndTld`.
- **String helpers** (`StringExtension.cs`): `IsNullOrTrimmedEmpty`, `Left`, `Right`,
  `ToFixedLength`, `ToMaxLength`, `Reverse`, `LineCount`, `CleanupPhoneNumber`,
  `ToNameValueDictionary`, `ToWordList`, `EllipsisWordsAt`, `EllipsisAt`,
  `RemoveIllegalXmlChar` and `AccentLess`.
- **Sequence helpers** (`IEnumerableExtension.cs`): `IsNullOrEmpty`, `RemoveAll`,
  `Distinct` by key, `Traverse`, `IsIndexPair`, `ColumnIndex` and `ColumnIndexName`.

How .NET values are modelled:

- A .NET `string` is a sequence of UTF-16 code units (`Char16`, 0 to 0xFFFF).
- A `null` string or list is `None`.
- A call that throws is `Throws(...)` of an `Outcome`. This covers `Substring` out of
  range, a division by zero and a null dereference.
- `int` arithmetic that can overflow is written out with `Wrap32`.

The modules:

| module | file | what it holds |
|---|---|---|
| `Wrappers` | `wrappers.dfy` | `Option` and `Outcome` |
| `Text` | `text.dfy` | the .NET string primitives the core calls: `ToLower`, `IndexOf`, `Trim`, `Split`, `Join`, `Replace`, decimal formatting, Int32 wrap-around |
| `NameValues` | `name_values.dfy` | `NameValueCollection`: a class whose `Add` merges keys ignoring case, keeps first-insertion order and comma-joins values |
| `IEnumerableExtension` | `ienumerable_extension.dfy` | the sequence helpers; a `MutableList` class for the in-place `RemoveAll` |
| `StringExtension` | `string_extension.dfy` | the string helpers |
| `UriFingerprint` | `uri_fingerprint.dfy` | the hash loop, written once over `bv32`, and the four Id methods |
| `UriExtensions` | `uri_extensions.dfy` | the query-string rewriter, `GetParameters`, `GetZoneAndTld` |
| `QueryRoundTrip` | `query_round_trip.dfy` | what the rewriter does to a query it can read back: removal, replacement, appending, idempotence, the documented examples |

Each loop in the source becomes a `method` with a `while` or `for` loop. The method is
proved equal to a specification function, and the properties are lemmas about that
function. This applies to:

- the hash;
- the two loops of `ExcludeUrlParameter`;
- the loops of `AddUrlParameter`, `AddUrlParameters` and `AddUrlParameters<T>`;
- the loops of `GetParameters` and `ToNameValueDictionary`;
- `RemoveAll`, `Distinct`, `RemoveIllegalXmlChar`, `AccentLess`, `ToWordList` and `EllipsisWordsAt`.

`Reverse` reverses an `array` in place.

`IsNullOrEmpty` (IEnumerableExtension.cs:34-37) is the predicate
`IEnumerableExtension.IsNullOrEmpty`, and its definition is the property: null, or no
elements. `IsNullOrTrimmedEmpty` (StringExtension.cs:24-27) is defined the same way over
`Trim`. `IsNullOrTrimmedEmptyMeaning` restates it character by character.

Choices worth knowing:

- Host normalisation removes every `"www."`, not only a leading one, because
  `String.Replace` replaces all occurrences.
- `Left` with a negative length throws in the code. The model returns
  `Throws(ArgumentOutOfRange)` instead of excluding those lengths with a precondition.
- Two assertions of the `Left` test disagree with the code; see "## Findings".

## Model

| member | source | states |
|---|---|---|
| Text.ToLowerIdempotent | CloudSoft.Extensions/UriExtensions.cs:34 | lower-casing twice is lower-casing once |
| Text.IndexOf | CloudSoft.Extensions/IEnumerableExtension.cs:192 | -1 exactly when the item is absent, otherwise the index of its first occurrence |
| Text.LastIndexOf | CloudSoft.Extensions/StringExtension.cs:286 | -1 exactly when the character is absent, otherwise the index of its last occurrence |
| Text.Without | CloudSoft.Extensions/StringExtension.cs:537 | the result holds no occurrence of the character, only characters of the input, and is shorter by its number of occurrences |
| Text.TrimWhereShape | CloudSoft.Extensions/UriExtensions.cs:19 | trimming gives the empty string exactly when every character is trimmed; otherwise a contiguous slice of the input whose ends are not trimmed |
| Text.SplitPiecesFree | CloudSoft.Extensions/UriExtensions.cs:219-220 | no piece of a split holds the separator |
| Text.SplitCount | CloudSoft.Extensions/StringExtension.cs:116-118 | a split has one piece more than there are separators |
| Text.SplitConcat | CloudSoft.Extensions/UriExtensions.cs:240 | splitting around one separator splits each side independently |
| Text.SplitUnfold | CloudSoft.Extensions/UriExtensions.cs:219 | the first piece of a split is the text before the first separator |
| Text.JoinSplit | CloudSoft.Extensions/UriExtensions.cs:324 | joining the pieces of a split with the separator gives back the string |
| Text.SplitJoin | CloudSoft.Extensions/UriExtensions.cs:240 | splitting a join of separator-free pieces gives back the pieces |
| Text.SplitChars | CloudSoft.Extensions/UriExtensions.cs:219 | every character of a piece occurs in the split string |
| Text.ReplaceSkip | CloudSoft.Extensions/UriExtensions.cs:228 | Replace leaves alone a prefix that holds no first character of the pattern |
| Text.ReplaceAbsent | CloudSoft.Extensions/UriExtensions.cs:228 | Replace changes nothing when the pattern cannot start anywhere |
| Text.ReplaceLeading | CloudSoft.Extensions/UriExtensions.cs:303 | a leading pattern is replaced and the rest is untouched |
| Text.ReplaceCharByNothing | CloudSoft.Extensions/StringExtension.cs:537 | replacing a one-character pattern by nothing deletes every occurrence of that character |
| Text.DigitsRoundTrip | CloudSoft.Extensions/UriExtensions.cs:113 | the decimal digits of a natural number read back as that number |
| Text.DecimalRoundTrip | CloudSoft.Extensions/UriExtensions.cs:113 | `int.ToString()`, with a minus sign for negatives, is never empty and parses back to the number |
| Text.Wrap32 | CloudSoft.Extensions/StringExtension.cs:74 | Int32 wrap-around: the identity in range, otherwise congruent modulo 2^32 |
| NameValues.Find | CloudSoft.Extensions/UriExtensions.cs:248 | the position of the first key equal to the name ignoring case, -1 exactly when there is none |
| NameValues.NameValueCollection.Add | CloudSoft.Extensions/UriExtensions.cs:248 | the new entries are those of `AddEntry`: the value is appended to an existing entry whose key matches ignoring case, otherwise a new entry goes at the end |
| NameValues.AddKeepsValid | CloudSoft.Extensions/UriExtensions.cs:248 | adding keeps keys pairwise distinct ignoring case and each entry non-empty |
| NameValues.FindOwnKey | CloudSoft.Extensions/UriExtensions.cs:254-260 | in a valid collection each key is found at its own position |
| NameValues.LookupOwnKey | CloudSoft.Extensions/UriExtensions.cs:260 | looking up a key of the collection gives its comma-joined values |
| NameValues.KeysAfterAdd | CloudSoft.Extensions/UriExtensions.cs:254 | `AllKeys` grows by the new name exactly when no key matched it |
| NameValues.FindSameKeys | CloudSoft.Extensions/UriExtensions.cs:254 | find depends only on the keys |
| NameValues.LookupAfterAdd | CloudSoft.Extensions/UriExtensions.cs:248-260 | adding affects only lookups of names equal ignoring case; those gain the value, after a comma when one was there |
| NameValues.CollectValid | CloudSoft.Extensions/UriExtensions.cs:241-250 | a collection filled by Add is valid |
| NameValues.LookupCollect | CloudSoft.Extensions/UriExtensions.cs:241-260 | looking a name up gives all values added under it, in order, joined by commas, and null when there are none |
| NameValues.FindCollect | CloudSoft.Extensions/UriExtensions.cs:241-260 | a name is found exactly when some pair had it as key |
| NameValues.KeysCollect | CloudSoft.Extensions/UriExtensions.cs:254 | the keys are the first spelling of each key, in order of first insertion |
| NameValues.CollectDistinct | CloudSoft.Extensions/UriExtensions.cs:241-250 | pairs with distinct keys give one single-valued entry each, in order |
| NameValues.ExactPairsStep | CloudSoft.Extensions/UriExtensions.cs:243-249 | a token adds a pair exactly when it splits on '=' into two parts |
| NameValues.AddTokens | CloudSoft.Extensions/UriExtensions.cs:240-250 | the first loop of ExcludeUrlParameter fills the collection with the pairs of the tokens that have exactly two `=`-parts |
| IEnumerableExtension.RemoveWhere | CloudSoft.Extensions/IEnumerableExtension.cs:118-136 | the survivors: no element satisfies the predicate, every survivor comes from the input, and every non-matching element of the input survives |
| IEnumerableExtension.FirstWhere | CloudSoft.Extensions/IEnumerableExtension.cs:127 | `FirstOrDefault` finds nothing exactly when no element matches; what it finds is an element that matches and no earlier element matches |
| IEnumerableExtension.RemoveFirst | CloudSoft.Extensions/IEnumerableExtension.cs:132 | `IList.Remove` takes out one element when the item is present and nothing otherwise |
| IEnumerableExtension.RemoveFirstAt | CloudSoft.Extensions/IEnumerableExtension.cs:132 | what `IList.Remove` takes out is the element at `IndexOf(item)`; the elements before and after it stay in order |
| IEnumerableExtension.MutableList.Remove | CloudSoft.Extensions/IEnumerableExtension.cs:132 | the list becomes the old list without the first occurrence of the item |
| IEnumerableExtension.RemoveFirstMatch | CloudSoft.Extensions/IEnumerableExtension.cs:127-132 | removing the first match keeps the same survivors, which is what makes the loop converge |
| IEnumerableExtension.RemoveWhereNothing | CloudSoft.Extensions/IEnumerableExtension.cs:127-130 | with no match, nothing is removed |
| IEnumerableExtension.RemoveWhereCount | CloudSoft.Extensions/IEnumerableExtension.cs:133-135 | the number removed is the number of matching elements |
| IEnumerableExtension.RemoveAll | CloudSoft.Extensions/IEnumerableExtension.cs:118-136 | 0 for null; otherwise the list keeps exactly the non-matching elements in their order, and the result is the number removed |
| IEnumerableExtension.ValueTypePass | CloudSoft.Extensions/IEnumerableExtension.cs:127-133 | one pass of the loop for a value type: once nothing matches, it removes nothing unless default(T) is in the list, and then removes that non-matching element |
| IEnumerableExtension.ValueTypeLoopStalls | CloudSoft.Extensions/IEnumerableExtension.cs:125-134 | once nothing matches and default(T) is absent, every pass leaves the list as it is and the count grows by one |
| IEnumerableExtension.ValueTypeLoopRunsOn | CloudSoft.Extensions/IEnumerableExtension.cs:125-134 | for `[7]` and `x > 5`, after any number k >= 1 of passes the list is empty and the count is k |
| IEnumerableExtension.KeySetAppend | CloudSoft.Extensions/IEnumerableExtension.cs:222 | the HashSet grows by the selected key of each item |
| IEnumerableExtension.Distinct | CloudSoft.Extensions/IEnumerableExtension.cs:216-227 | throws NullReference exactly for null items; otherwise `DistinctBy`, the items whose key was not seen before |
| IEnumerableExtension.DistinctLoop | CloudSoft.Extensions/IEnumerableExtension.cs:218-226 | the loop yields `DistinctBy`, the items whose key was not seen before |
| IEnumerableExtension.DistinctByFirstOccurrences | CloudSoft.Extensions/IEnumerableExtension.cs:216-227 | `DistinctBy` is the subsequence of items that are the first with their key |
| IEnumerableExtension.DistinctByKeys | CloudSoft.Extensions/IEnumerableExtension.cs:216-227 | output keys are pairwise distinct, and every input key occurs in the output |
| IEnumerableExtension.Traverse | CloudSoft.Extensions/IEnumerableExtension.cs:172-188 | throws NullReference exactly for a null source; otherwise the traversal of the source |
| IEnumerableExtension.Traversal | CloudSoft.Extensions/IEnumerableExtension.cs:172-188 | the traversal starts with the first item of the source, is at least as long as the source, and holds every item of the source |
| IEnumerableExtension.DescendantsTraverse | CloudSoft.Extensions/IEnumerableExtension.cs:178-186 | the inner loop yields the traversal of the children, or nothing for null children |
| IEnumerableExtension.TraverseAppend | CloudSoft.Extensions/IEnumerableExtension.cs:174-187 | traversing two sibling lists is traversing each in turn |
| IEnumerableExtension.TraverseFirst | CloudSoft.Extensions/IEnumerableExtension.cs:174-187 | the traversal is the first item, then its subtree, then the rest |
| IEnumerableExtension.Preorder | CloudSoft.Extensions/IEnumerableExtension.cs:172-188 | pre-order: each item comes right after its earlier siblings' subtrees and right before its own subtree, and then its later siblings' subtrees follow |
| IEnumerableExtension.TruncDivRem | CloudSoft.Extensions/IEnumerableExtension.cs:199 | C# truncating division and remainder recombine, and the remainder is smaller in magnitude than the divisor |
| IEnumerableExtension.IsIndexPair | CloudSoft.Extensions/IEnumerableExtension.cs:190-194 | throws NullReference exactly for a null source; otherwise true exactly when the item is absent or its index is odd |
| IEnumerableExtension.ColumnIndex | CloudSoft.Extensions/IEnumerableExtension.cs:196-200 | throws NullReference exactly for a null source; otherwise throws DivideByZero exactly for 0 columns; for a present item it lies in 1 to the number of columns; for an absent one it is 0, or 1 for one column |
| IEnumerableExtension.ColumnIndexName | CloudSoft.Extensions/IEnumerableExtension.cs:202-206 | throws NullReference exactly for a null source; otherwise throws DivideByZero exactly for 0 columns, and else the prefix (empty for null) followed by the decimal ColumnIndex |
| StringExtension.IsNullOrTrimmedEmptyMeaning | CloudSoft.Extensions/StringExtension.cs:24-27 | blank means null or white space in every position |
| StringExtension.Left | CloudSoft.Extensions/StringExtension.cs:53-60 | blank input is returned; a negative length throws; otherwise a prefix of length min(length, Length) |
| StringExtension.LeftExamples | CloudSofts.Extensions.Tests/StringExtensionsTests.cs:22-30 | `"123456789".Left(5) == "12345"` and `Left(50)` gives the input |
| StringExtension.LeftZeroAndNegative | CloudSofts.Extensions.Tests/StringExtensionsTests.cs:32-38 | for the test's input the code gives `""` for 0 and throws for -1 |
| StringExtension.LeftAsTested | CloudSofts.Extensions.Tests/StringExtensionsTests.cs:20-46 | Left as the test expects it: blank input or a length of 0 or less gives back the input; a positive length takes what Left takes |
| StringExtension.LeftAsTestedExamples | CloudSofts.Extensions.Tests/StringExtensionsTests.cs:20-46 | all five assertions of the test hold for LeftAsTested |
| StringExtension.Right | CloudSoft.Extensions/StringExtension.cs:68-75 | as written: blank input is returned; otherwise a suffix, of length min(length, Length) for a non-negative length and empty for a negative length unless Length - length overflows |
| StringExtension.RightWrapsAround | CloudSoft.Extensions/StringExtension.cs:74 | `"1".Right(int.MinValue)` is `"1"`, not `""` |
| StringExtension.RightIntended | CloudSoft.Extensions/StringExtension.cs:68-75 | the intended Right: a suffix of length max(0, min(length, Length)) for every length |
| StringExtension.RightAgreesWithoutWrap | CloudSoft.Extensions/StringExtension.cs:74 | Right as written equals the intended Right whenever Length - length does not overflow |
| StringExtension.ToFixedLength | CloudSoft.Extensions/StringExtension.cs:126-145 | a negative length throws; otherwise exactly `length` characters: the input's prefix, then the padding character |
| StringExtension.ToFixedLengthSpaced | CloudSoft.Extensions/StringExtension.cs:121-124 | a negative length throws `ArgumentOutOfRange`; otherwise exactly `length` characters: the input's prefix, then spaces |
| StringExtension.ToMaxLength | CloudSoft.Extensions/StringExtension.cs:149-167 | `""` for null or empty; throws exactly for a negative limit on non-empty input; otherwise the prefix of length min(Length, maxLength) |
| StringExtension.ReversedInvolution | CloudSoft.Extensions/StringExtension.cs:103-108 | reversing twice gives back the string |
| StringExtension.ReverseInPlace | CloudSoft.Extensions/StringExtension.cs:106 | `Array.Reverse`: the array holds its old contents reversed |
| StringExtension.Reverse | CloudSoft.Extensions/StringExtension.cs:103-108 | null throws; otherwise the reversed string, character i being character Length-1-i |
| StringExtension.LineCount | CloudSoft.Extensions/StringExtension.cs:110-119 | 0 exactly for null or empty, otherwise one more than the number of '\n' |
| StringExtension.CleanupPhoneNumber | CloudSoft.Extensions/StringExtension.cs:531-539 | null stays null; otherwise every '.' is removed and nothing else |
| StringExtension.DictionaryPairs | CloudSoft.Extensions/StringExtension.cs:261-264 | blank input, or input without '?', gives no pairs |
| StringExtension.ToNameValueDictionary | CloudSoft.Extensions/StringExtension.cs:259-276 | a new collection holding the pairs with exactly two `=`-parts from the text after the first '?', up to the second `?` |
| StringExtension.CollapseNoDouble | CloudSoft.Extensions/StringExtension.cs:509-512 | collapsing leaves no two consecutive spaces |
| StringExtension.CollapseFixed | CloudSoft.Extensions/StringExtension.cs:509 | a string without a double space is already collapsed |
| StringExtension.CollapseReplace | CloudSoft.Extensions/StringExtension.cs:511 | one Replace("  ", " ") pass does not change the collapsed form |
| StringExtension.ReplaceDoubleSpaceShrinks | CloudSoft.Extensions/StringExtension.cs:509-512 | each pass shortens a string that has a double space, so the loop ends |
| StringExtension.SplitWords | CloudSoft.Extensions/StringExtension.cs:513 | splitting a collapsed, trimmed string on ' ' gives no empty word |
| StringExtension.WordListShape | CloudSoft.Extensions/StringExtension.cs:497-515 | blank input exactly gives no words; every word is non-empty and holds no space; joined with " " they give the trimmed input with space runs collapsed |
| StringExtension.ToWordList | CloudSoft.Extensions/StringExtension.cs:497-515 | the while loop computes `WordList` |
| StringExtension.TakeWords | CloudSoft.Extensions/StringExtension.cs:310-325 | the first `wordCount` words, then `"..."` exactly when words remain |
| StringExtension.EllipsisWordsAt | CloudSoft.Extensions/StringExtension.cs:301-328 | null or empty is returned; otherwise TakeWords of the word list, joined by " " |
| StringExtension.EllipsisAt | CloudSoft.Extensions/StringExtension.cs:278-293 | input not longer than `length` is returned; otherwise the first max(1, length-4) characters cut at their last space (or at min(length, cut) without one) followed by `" ..."`, at most `length` long for length >= 5; Substring throws for some negative lengths, decided by the first character and by the Int32 wrap of length-4 |
| StringExtension.XmlChars | CloudSoft.Extensions/StringExtension.cs:409-422 | as written: at most as long as the input, and every kept code unit is a legal XML code unit |
| StringExtension.XmlCharsAppend | CloudSoft.Extensions/StringExtension.cs:409-422 | filtering works piece by piece |
| StringExtension.XmlCharsCount | CloudSoft.Extensions/StringExtension.cs:412-420 | each legal code unit is kept as often as it occurs; each illegal one disappears |
| StringExtension.XmlCharsKeeps | CloudSoft.Extensions/StringExtension.cs:412-420 | a string of legal code units is unchanged |
| StringExtension.XmlCharsIdempotent | CloudSoft.Extensions/StringExtension.cs:402-424 | removing illegal characters twice is removing them once |
| StringExtension.RemoveIllegalXmlChar | CloudSoft.Extensions/StringExtension.cs:402-424 | null stays null; otherwise the loop computes XmlChars |
| StringExtension.XmlCharsDropsPair | CloudSoft.Extensions/StringExtension.cs:417 | a surrogate pair for U+1F600, legal under section 2.2 of XML 1.0, is dropped entirely |
| StringExtension.XmlText | CloudSoft.Extensions/StringExtension.cs:412-417 | corrected: the result is legal XML text, with surrogate pairs allowed, and no longer than the input |
| StringExtension.XmlTextKeeps | CloudSoft.Extensions/StringExtension.cs:412-417 | corrected: legal XML text, surrogate pairs included, is unchanged |
| StringExtension.XmlTextAgrees | CloudSoft.Extensions/StringExtension.cs:412-417 | without high surrogates the corrected filter and the code agree |
| StringExtension.AccentTable | CloudSoft.Extensions/StringExtension.cs:483-484 | both tables have 67 entries; the accented ones are distinct and non-ASCII, the plain ones ASCII |
| StringExtension.AccentStep | CloudSoft.Extensions/StringExtension.cs:486-491 | one turn of the loop replaces table entry i by its plain counterpart |
| StringExtension.AccentLess | CloudSoft.Extensions/StringExtension.cs:481-495 | null throws; otherwise same length, and each character is mapped through the table |
| StringExtension.UnaccentedTable | CloudSoft.Extensions/StringExtension.cs:483-491 | an accented entry maps to the plain entry at the same index, and a character outside the table is unchanged |
| StringExtension.UnaccentedIdempotent | CloudSoft.Extensions/StringExtension.cs:481-495 | removing accents twice is removing them once |
| UriFingerprint.Step | CloudSoft.Extensions/UriExtensions.cs:40-45 | one hash step stays below 2^31 |
| UriFingerprint.HashBits | CloudSoft.Extensions/UriExtensions.cs:37-47 | the hash is never negative as an Int32 |
| UriFingerprint.Fingerprint | CloudSoft.Extensions/UriExtensions.cs:37-47 | the right-to-left loop computes HashBits; 0 for the empty string |
| UriFingerprint.MaskIsModulo | CloudSoft.Extensions/UriExtensions.cs:41 | `(h << 6) & 0xfffffff` is h*64 modulo 2^28, so the mask cancels any wrap of the shift |
| UriFingerprint.FoldIsSmall | CloudSoft.Extensions/UriExtensions.cs:42-44 | `g >> 21` is below 128 |
| UriFingerprint.FoldKeepsHighBits | CloudSoft.Extensions/UriExtensions.cs:42-45 | the xor fold changes only bits 0-6 |
| UriFingerprint.FoldIsXor | CloudSoft.Extensions/UriExtensions.cs:42-45 | the conditional fold equals the unconditional xor |
| UriFingerprint.HashPrepend | CloudSoft.Extensions/UriExtensions.cs:38-46 | the first character is hashed last |
| UriFingerprint.HostId | CloudSoft.Extensions/UriExtensions.cs:31-48 | throws NullReference exactly for a null uri; otherwise the hash of the normalised host, below 2^31 |
| UriFingerprint.ToHostId | CloudSoft.Extensions/UriExtensions.cs:295-316 | 1 for null, otherwise the same hash as HostId |
| UriFingerprint.PathId | CloudSoft.Extensions/UriExtensions.cs:50-66 | throws NullReference exactly for a null uri; otherwise the hash of the lower-cased local path |
| UriFingerprint.LinkId | CloudSoft.Extensions/UriExtensions.cs:68-84 | throws NullReference exactly for a null uri; otherwise the hash of the lower-cased URL |
| UriFingerprint.ToLowerConcat | CloudSoft.Extensions/UriExtensions.cs:34 | lower-casing works piece by piece |
| UriFingerprint.NormalizeHostIgnoresCase | CloudSoft.Extensions/UriExtensions.cs:34-35 | hosts equal ignoring case normalise, and so hash, equal |
| UriFingerprint.NormalizeHostDropsWww | CloudSoft.Extensions/UriExtensions.cs:35 | a leading "www." in any case does not change the hash |
| UriExtensions.AnchorOf | CloudSoft.Extensions/UriExtensions.cs:220-227 | the anchor is empty or starts with '#' |
| UriExtensions.AnchorAppended | CloudSoft.Extensions/UriExtensions.cs:204-207 | the anchor is non-blank exactly when the input has a '#', and it holds no second '#'; RemoveUrlParameter appends it exactly then |
| UriExtensions.PairTexts | CloudSoft.Extensions/UriExtensions.cs:261 | each pair is written `key=value` |
| UriExtensions.Pairs | CloudSoft.Extensions/UriExtensions.cs:254-260 | each key of the collection with its comma-joined value, in order |
| UriExtensions.QueryStringAppend | CloudSoft.Extensions/UriExtensions.cs:185 | appending a pair to a query writes the next separator and `key=value` |
| UriExtensions.SurvivorsStep | CloudSoft.Extensions/UriExtensions.cs:256-259 | a key equal to the target ignoring case is skipped; any other key is kept |
| UriExtensions.WriteStep | CloudSoft.Extensions/UriExtensions.cs:254-263 | one turn of the second loop: a kept key extends the output by the separator and `key=value`, and the separator becomes '&' |
| UriExtensions.WriteParameters | CloudSoft.Extensions/UriExtensions.cs:253-263 | the path, then the surviving keys in order with '?' before the first and '&' between; the separator is '?' exactly when nothing was written |
| UriExtensions.ExcludeUrlParameter | CloudSoft.Extensions/UriExtensions.cs:211-265 | the method computes `Exclude`: null gives null and two empty strings; otherwise path plus surviving parameters, next separator, anchor |
| UriExtensions.ExcludeKeys | CloudSoft.Extensions/UriExtensions.cs:179-184 | excluding the deny-list keeps a non-null path-and-query non-null |
| UriExtensions.AddUrlParameter | CloudSoft.Extensions/UriExtensions.cs:168-192 | the method computes `AddParameter`: input unchanged when the path-and-query, key or value is null or empty; otherwise the key and "gclid" are removed, `separator key=value` is appended, then a non-blank anchor |
| UriExtensions.AddUrlParameterInt | CloudSoft.Extensions/UriExtensions.cs:111-114 | the int overload adds the decimal form of the value |
| UriExtensions.RemoveUrlParameter | CloudSoft.Extensions/UriExtensions.cs:199-209 | the method computes `RemoveParameter`: the key is excluded, then a non-blank anchor is re-appended |
| UriExtensions.AddPairsAppend | CloudSoft.Extensions/UriExtensions.cs:131-138 | adding several pairs is a left fold of AddUrlParameter |
| UriExtensions.AddTokenStep | CloudSoft.Extensions/UriExtensions.cs:133-137 | a token is added exactly when it has two `=`-parts |
| UriExtensions.AddUrlParameters | CloudSoft.Extensions/UriExtensions.cs:122-141 | the method computes `AddParameters`: input unchanged when either argument is blank, otherwise the fold over the tokens with two `=`-parts |
| UriExtensions.Present | CloudSoft.Extensions/UriExtensions.cs:279-288 | at most one pair per property; AddPropertySkip and AddPropertyAdd state which properties give one |
| UriExtensions.AddPropertySkip | CloudSoft.Extensions/UriExtensions.cs:280-288 | a null or empty property value adds nothing |
| UriExtensions.AddPropertyAdd | CloudSoft.Extensions/UriExtensions.cs:290 | any other property is added with AddUrlParameter |
| UriExtensions.AddUrlParametersOf | CloudSoft.Extensions/UriExtensions.cs:267-293 | null input leaves the path-and-query unchanged; otherwise the fold over the present properties in order |
| UriExtensions.LenientPairs | CloudSoft.Extensions/UriExtensions.cs:22-26 | at most one pair per token |
| UriExtensions.ReadPair | CloudSoft.Extensions/UriExtensions.cs:22-26 | a token with more than one `=`-part adds its first two parts |
| UriExtensions.ReadSkip | CloudSoft.Extensions/UriExtensions.cs:23 | a token without '=' adds nothing |
| UriExtensions.ReadTokens | CloudSoft.Extensions/UriExtensions.cs:20-27 | the loop fills the collection from the lenient pairs of the tokens |
| UriExtensions.GetParameters | CloudSoft.Extensions/UriExtensions.cs:12-29 | null for a null URI; otherwise a new collection holding the lenient pairs of the trimmed query, split on '&' |
| UriExtensions.JoinEndsWithLastTwo | CloudSoft.Extensions/UriExtensions.cs:324 | a join ends with its last two pieces and the separator between them |
| UriExtensions.GetZoneAndTld | CloudSoft.Extensions/UriExtensions.cs:318-327 | throws NullReference exactly for a null uri; otherwise the last two labels of the host, present exactly when the host has a '.' |
| UriExtensions.LastTwoLabels | CloudSoft.Extensions/UriExtensions.cs:320-326 | a result exactly when the host has a '.' |
| UriExtensions.ZoneAndTldShape | CloudSoft.Extensions/UriExtensions.cs:318-327 | a result of LastTwoLabels is a suffix of the host holding exactly one '.', and it is the whole host or follows a '.': the last two labels |
| QueryRoundTrip.FragmentText | CloudSoft.Extensions/UriExtensions.cs:227 | the anchor text is empty exactly when there is no fragment |
| QueryRoundTrip.RemoveKey | CloudSoft.Extensions/UriExtensions.cs:256-259 | keeps only pairs of the input whose key differs from the target ignoring case |
| QueryRoundTrip.SplitPair | CloudSoft.Extensions/UriExtensions.cs:243 | `key=value` without '=' in either part splits back into key and value |
| QueryRoundTrip.SplitJoined | CloudSoft.Extensions/UriExtensions.cs:240 | a written query splits on '&' back into its pair texts |
| QueryRoundTrip.ExactPairsTexts | CloudSoft.Extensions/UriExtensions.cs:241-250 | ExcludeUrlParameter reads back the pairs it writes |
| QueryRoundTrip.LenientPairsTexts | CloudSoft.Extensions/UriExtensions.cs:20-27 | GetParameters reads back the pairs ExcludeUrlParameter writes |
| QueryRoundTrip.RenderShape | CloudSoft.Extensions/UriExtensions.cs:253-263 | a URL is its path, then '?' and the pairs joined by '&' when there are any, then its anchor |
| QueryRoundTrip.AnchorOfRender | CloudSoft.Extensions/UriExtensions.cs:220-227 | the anchor of such a URL is its fragment |
| QueryRoundTrip.ReplaceTrailingAnchor | CloudSoft.Extensions/UriExtensions.cs:228 | replacing the anchor away removes it from the end |
| QueryRoundTrip.PathOfRender | CloudSoft.Extensions/UriExtensions.cs:219-228 | the path is read back |
| QueryRoundTrip.ParametersOfRender | CloudSoft.Extensions/UriExtensions.cs:233-239 | the parameters are read back, null when there are none |
| QueryRoundTrip.QueryPairsRender | CloudSoft.Extensions/UriExtensions.cs:233-250 | the pairs are read back |
| QueryRoundTrip.SurvivorsOfSingletons | CloudSoft.Extensions/UriExtensions.cs:254-261 | on distinct keys the surviving entries are the pairs without the key |
| QueryRoundTrip.ExcludeRender | CloudSoft.Extensions/UriExtensions.cs:211-265 | excluding a key from a URL with distinct keys gives the path and the other pairs in order, the next separator and the anchor |
| QueryRoundTrip.DistinctSnoc | CloudSoft.Extensions/UriExtensions.cs:248 | keys stay distinct after adding a pair exactly when its key was absent |
| QueryRoundTrip.RemoveKeyDistinct | CloudSoft.Extensions/UriExtensions.cs:256-259 | removing a key keeps the others distinct |
| QueryRoundTrip.RemoveKeyWellFormed | CloudSoft.Extensions/UriExtensions.cs:256-259 | removing a key keeps a URL well formed |
| QueryRoundTrip.AnchorBlank | CloudSoft.Extensions/UriExtensions.cs:204 | the anchor is blank exactly when there is no fragment |
| QueryRoundTrip.RemoveParameterRender | CloudSoft.Extensions/UriExtensions.cs:199-209 | RemoveUrlParameter removes exactly the key's pair and keeps everything else in place |
| QueryRoundTrip.RemoveKeyIdempotent | CloudSoft.Extensions/UriExtensions.cs:256-259 | removing a key twice is removing it once |
| QueryRoundTrip.RemoveParameterIdempotent | CloudSoft.Extensions/UriExtensions.cs:199-209 | RemoveUrlParameter is idempotent |
| QueryRoundTrip.AddedPairWellFormed | CloudSoft.Extensions/UriExtensions.cs:168-192 | adding a safe pair keeps a URL well formed |
| QueryRoundTrip.ExcludeKeysOne | CloudSoft.Extensions/UriExtensions.cs:179-184 | the deny-list loop is one exclusion of "gclid" |
| QueryRoundTrip.AddParameterExcludes | CloudSoft.Extensions/UriExtensions.cs:176-184 | the two exclusions drop the key and every "gclid" and keep the anchor of the first |
| QueryRoundTrip.AddParameterRender | CloudSoft.Extensions/UriExtensions.cs:168-192 | adding to a well-formed URL removes the key and "gclid" and appends the new pair last, before the fragment |
| QueryRoundTrip.AddParameterRenderAdds | CloudSoft.Extensions/UriExtensions.cs:176-191 | the same, for a non-empty key and value |
| QueryRoundTrip.AddedBody | CloudSoft.Extensions/UriExtensions.cs:185 | writing `separator key=value` after a query appends the pair to it |
| QueryRoundTrip.AddedPairsWellFormed | CloudSoft.Extensions/UriExtensions.cs:131-138 | adding safe pairs one by one keeps the URL well formed and non-empty |
| QueryRoundTrip.AddPairsRender | CloudSoft.Extensions/UriExtensions.cs:131-138 | the fold adds each pair in turn |
| QueryRoundTrip.JoinedNotBlank | CloudSoft.Extensions/UriExtensions.cs:124 | a written non-empty query is not blank |
| QueryRoundTrip.AddParametersRender | CloudSoft.Extensions/UriExtensions.cs:122-141 | AddUrlParameters with a written query adds its pairs in order |
| QueryRoundTrip.QueryTokensRender | CloudSoft.Extensions/UriExtensions.cs:19 | trimming '?' and white space off a written query and splitting on '&' gives its pair texts |
| QueryRoundTrip.ReadBack | CloudSoft.Extensions/UriExtensions.cs:12-29 | GetParameters of a written query with distinct keys holds exactly its pairs |
| QueryRoundTrip.DictionaryQuery | CloudSoft.Extensions/StringExtension.cs:261-265 | ToNameValueDictionary reads the text after the only '?' |
| QueryRoundTrip.DictionaryReadBack | CloudSoft.Extensions/StringExtension.cs:259-276 | ToNameValueDictionary of a written query with distinct keys holds exactly its pairs |
| QueryRoundTrip.RenderOne | CloudSoft.Extensions/UriExtensions.cs:98 | a one-pair URL is `path?k=v` |
| QueryRoundTrip.RenderTwo | CloudSoft.Extensions/UriExtensions.cs:101 | a two-pair URL is `path?k1=v1&k2=v2` |
| QueryRoundTrip.AddParameterAppendsExample | CloudSoft.Extensions/UriExtensions.cs:97-101 | the documented example: `test?param1=valeur1` plus a new key gives `test?param1=valeur1&param2=valeur2` |
| QueryRoundTrip.AddParameterReplacesExample | CloudSoft.Extensions/UriExtensions.cs:102-104 | the documented example: the same key replaces the value, giving `test?param1=valeur2` |

## Left out

- Uri parsing: `Uri.Host`, `Uri.LocalPath`, `Uri.Query` and `Uri.ToString()` are library
  calls. The model takes the host, path, query or URL as a string, and a null URI as `None`.
- `IEnumerableExtension.Distinct` and `IEnumerableExtension.Traverse` are iterators in the
  source, so a null source throws when the result is first enumerated. The model throws
  at the call. The order of that exception against other effects is not modelled.
- Culture: `ToLower`, `InvariantCultureIgnoreCase` and the NameValueCollection key
  comparer are modelled as ASCII case folding. Unicode case tables are not modelled.
  - `ToWordList` (StringExtension.cs:509) tests for a double space with the
    culture-sensitive `IndexOf(string)`, and replaces it with the ordinal `Replace`. The
    model searches ordinally. Under a culture that ignores some characters, such as the
    soft hyphen U+00AD in `"a \u00AD b"`, that search can find a double space that
    `Replace` never removes, and the loop would not end. The model does not capture this.
  - An `int` written as text, by `ToString()` in `AddUrlParameter(int)`
    (UriExtensions.cs:113) and by `string.Format` in `ColumnIndexName`
    (IEnumerableExtension.cs:205), is written with '-' for a negative number. The
    current culture's `NegativeSign` is not modelled.
  - `ToNameValueDictionary` (StringExtension.cs:261) tests for a '?' with the
    culture-sensitive `IndexOf(string)`, and then splits on the character '?'. The
    model searches ordinally for the character.
- `AddUrlParameters<T>`: the reflection over properties and the culture-formatted
  `string.Format` are not modelled. The model takes the properties as a list of names
  and already-formatted optional values.
- `IEnumerableExtension.Traverse`: the callback `recursiveFunction` is treated as a pure
  function whose results form a finite tree, given up front as the `Node` datatype. The
  source calls it lazily on each item it yields. Cyclic or unbounded structures are not
  modelled: on them the source never yields the later items (for source `[a, b]` with
  `recursiveFunction(a) == [a]` it yields a, a, a, ... and never b), or it overflows the
  stack.
- The `ICollection` overload of `RemoveAll` (IEnumerableExtension.cs:145-163) has the
  same body as the `IList` one, which is modelled once.
- `IEnumerableExtension.RemoveAll`: the contract holds for lists of a reference type only.
  - The model has no null elements. The source loop would stop early at a null match.
  - It assumes that `Remove(item)`, which uses `Equals`, takes out the element that
    `FirstOrDefault` found, or one equal to it that also matches. An `Equals` that
    disagrees with the predicate is not modelled.
  - For a value type the loop never ends; see "## Findings".
- `AddUrlParameterWithHtmlEncoding` (UriExtensions.cs:194-197) only calls
  `AddUrlParameter`, so it has no member of its own.
- `StringExtension.EllipsisAt`: the `continuousHref` parameter is unused by the source
  and is not modelled.
- `StringExtension.EllipsisWordsAt`: the Int32 wrap of the `wordCount--` decrement is
  not modelled. A count that wraps is never 0 again while words remain, so the result
  is the same.
- `StringExtension.Right`: requires the input shorter than 2^31 characters, which .NET
  guarantees for every string.
- `UriExtensions.AddUrlParameterInt`: requires the value in Int32 range, which is the
  source's parameter type.
- The `QueryRoundTrip` lemmas are stated for well-formed URLs (`WellFormed`). In such a URL:
  - the path has no '?' or '#';
  - the fragment, when there is one, has no '?' or '#';
  - keys and values have no '?', '#', '&' or '=' (`SafePairs`);
  - no two keys are equal ignoring case (`DistinctKeys`).

  Some lemmas ask for more:
  - `QueryTokensRender` and `ReadBack` also need keys and values without white space
    (`PlainPairs`), because `GetParameters` trims the query first.
  - `AddParameterRender`, `AddParameterRenderAdds`, `AddedPairsWellFormed` and
    `AddPairsRender` need a non-empty URL, which `AddUrlParameter` otherwise returns
    as it is.
  - `AddParameterRenderAdds` and the two documented examples also need a non-empty key and
    value.
  - `AddParametersRender` needs a URL that is not blank and at least one added pair.
  - `DictionaryReadBack` needs a path without '?' and safe pairs with distinct keys.

  Other inputs are covered only by the general contracts of `UriExtensions`.
- `UriExtensions.ExcludeKeys`: its contract only says a non-null input stays non-null.
  Its effect on a well-formed URL is stated by `QueryRoundTrip.AddParameterExcludes`.
- `UriFingerprint.HashBits`: the hash is specified over `bv32`, as the source operates.
  The equal form over naturals is not stated separately. `MaskIsModulo` and
  `FoldIsXor` state its two steps.
- StringExtension.cs has helpers that are not part of this model:
  - the GZip helpers `GZipToBase64String`, `UnGZip` and `UnGZipFromBase64String`, which
    are compression library calls;
  - the regex-based `IsMatch`, `IsInteger`, `Replace(pattern)` and `GetWordList`;
  - `TakeLines` and `ToHtmlAttribute`, which depend on `Environment.NewLine`;
  - `With` and `Words`, which are library calls;
  - `CapitalizeWords`, which depends on `char.IsLetter` and `ToUpper`;
  - the thin wrappers `DefaultValueIfNullOrTrimmedEmpty`, `StringEmptyIfNull`, `Cleanup`
    and `IgnoreCaseEquals`.

  `LineCount` counts regex matches of "\n"; the model counts '\n' directly.
- IEnumerableExtension.cs has helpers that are not part of this model:
  `ListIsNullOrEmpty`, `IsNotNullOrEmpty`, `FirstOrNewDefault` and `JoinString`. These
  are one-line wrappers. `JoinString(" ")` appears in the model as `Join` with a space,
  where `EllipsisWordsAt` uses it.
- IQueryableExtensions.cs, ObjectExtensions.cs, GZipExtensions.cs,
  DictionaryExtensions.cs and DateTimeExtensions.cs are not part of this model.
  They are reflection, serialization, compression and library date arithmetic.

## Findings

| source | as written | input that shows it | evidently intended | confidence | as-written member | corrected member |
|---|---|---|---|---|---|---|
| CloudSoft.Extensions/StringExtension.cs:74 | `value.Length - length` is unchecked Int32 arithmetic | `"1".Right(int.MinValue)` wraps to a negative start, which is clamped to 0, so it returns `"1"` | a negative length gives `""` | not executed | StringExtension.RightWrapsAround | StringExtension.RightIntended |
| CloudSoft.Extensions/IEnumerableExtension.cs:125-134 | the loop's only exit is a null item, but for a value type `FirstOrDefault` gives default(T), never null, when nothing matches | `new List<int> { 7 }.RemoveAll(x => x > 5)`: 7 is removed, then every pass tries `Remove(0)`, which does nothing, and the count grows forever | stop when nothing matches, as for a list of references | not executed | IEnumerableExtension.ValueTypeLoopRunsOn | IEnumerableExtension.RemoveAll |
| CloudSofts.Extensions.Tests/StringExtensionsTests.cs:32-38 | `Left(0)` returns `""`, and `Left(-1)` throws from `Substring` (StringExtension.cs:53-60) | `"123456789".Left(0)` and `"123456789".Left(-1)`, for which the test expects `"123456789"` | per the test, a length of 0 or less gives back the input | not executed | StringExtension.LeftZeroAndNegative | StringExtension.LeftAsTested |
| CloudSoft.Extensions/StringExtension.cs:417 | the test runs per UTF-16 code unit, so the 0x10000-0x10FFFF clause can never hold and every surrogate is dropped | `"😀"` (U+1F600) gives `""` | keep well-formed surrogate pairs, which section 2.2 of XML 1.0 allows | not executed | StringExtension.XmlCharsDropsPair | StringExtension.XmlText |
