# node-emojis, modelled in Dafny

This project models the read-only core of the node-emojis library: a set of
lookups over an immutable emoji dataset. The dataset is five JSON files:

- `emojis.json`: name to character;
- `metadata.json`: name to keywords, category and Unicode version;
- `aliases.json`: primary name to its list of aliases;
- `categories.json`: category to its member names;
- `skin-tones.json`: the modifiers and the list of names that accept them.

The data is not part of the model. Every operation takes it as a parameter
(`Dataset.Data`). Each JSON object is a `Table`: the sequence of its entries
in `Object.entries` order. This lets the model state "first match" and "last
write wins" exactly.

The modules follow the library's files:

| module | source | form |
|---|---|---|
| `Search` | `src/features/search/index.ts` | The substring indexes (`byName`, `byKeyword`, `byAlias`) and `search`, as a class whose constructor runs the index-building loops. `getByCategory` and `getCategories`. |
| `Aliases` | `src/features/aliases/index.ts` | Primary-name resolution as a scanning method, sibling aliases, equivalence, all names, `resolveEmoji`, and the alias map built by nested loops. |
| `SkinTones` | `src/features/skin-tones/index.ts` | Applying, stripping and listing skin tones over code-point sequences (Unicode Technical Standard #51, section 1.4), and capability queries. |
| `Filters` | `src/features/filters/index.ts` | Dotted-version comparison as the source's indexed loop with early return, the three pushing filters, and `getUnicodeVersions`. |
| `ReverseMapping` | `src/utils/reverse-mapping.ts` | Character-to-name inversion, where the last write wins, and the module-level `reverseMap` as a class whose fields are fixed once the constructor has filled them. |
| `Validators` | `src/utils/validators.ts` | Each regular expression written as a predicate on characters. |
| `NameFormatter` | `scripts/emoji-name-formatter.js` | The chain of four `replace` calls and `toLowerCase`. |

Shared pieces:

- `Text`: ASCII lowercasing, substrings, character deletion and UTF-16 length.
- `Dataset`: tables, property access, `||` defaulting and the last-write-wins fold.
- `Sorting`: `Array.prototype.sort` as a stable insertion sort, with proofs that it sorts, permutes and is stable.

Preconditions `UniqueKeys`/`WellFormed` say that a table has no repeated key.
That always holds for a parsed JSON object, so these preconditions exclude
no input the library can see.

Where the code and its documentation disagree, the model follows the code:

- The doc comment of `removeSkinTone` shows a family emoji keeping its zero
  width joiners. The code deletes every U+200D, and `SkinTones.FamilyLosesJoiners`
  proves what the code returns for that example.
- Character-to-name lookup differs between files. It takes the FIRST name
  carrying a character in `supportsSkinTone` (src/features/skin-tones/index.ts:177-180),
  but the LAST in `reverseMap`. `ReverseMapping.FirstAndLastDisagree` gives
  two entries that show this. `ReverseMapping.FirstAndLastAgree` shows the two
  agree when no character is shared.
- `filterByVersion(v, 'exact')` compares strings, so `'13'` does not match an
  emoji of version `'13.0'`, although `compareVersions` calls the two equal
  (`Filters.ExactIsTextual`).
- `filterByKeyword('')` keeps every entry that has a keyword
  (`Filters.EmptyKeywordKeepsAll`), while `search('')` returns nothing
  (`Search.SearchEmptyTerm`).

## Model

| member | source | states |
|---|---|---|
| Search.IndexText | src/features/search/index.ts:38-48 | The nested `i`/`j` loops over one lowercased text add the owner under exactly the non-empty substrings of that text, leaving every other key as it was. |
| Search.IndexRow | src/features/search/index.ts:41-47 | The inner `j` loop for one start `i` adds the owner under every substring starting at `i`, and under no other key. |
| Search.IndexTexts | src/features/search/index.ts:54-66 | Indexing every keyword (or alias) of one owner adds the owner under the union of their substrings. |
| Search.BuildIndex | src/features/search/index.ts:37-49 | The `forEach` over all documents builds exactly the index `IndexOf(docs)`. |
| Search.SearchIndex.constructor | src/features/search/index.ts:35-89 | `buildSearchIndex` fills `byName` from the names, `byKeyword` from the metadata keywords and `byAlias` from the alias lists. |
| Search.TextsSubsMember | src/features/search/index.ts:40-46 | A key is indexed for an owner exactly when it is non-empty and some lowercased text of that owner `includes` it. |
| Search.IndexOfDistinct | src/features/search/index.ts:43-46 | The `Set` under any key holds each owner at most once. |
| Search.IndexOfOrder | src/features/search/index.ts:37-49 | With distinct owners, the set under `s` is exactly the owners whose texts contain `s`, in table order. |
| Search.OwnersMatchingMember | src/features/search/index.ts:40-47 | An owner is listed under `s` exactly when one of its lowercased texts contains `s` (soundness and completeness). |
| Search.OwnersMatchingOrder | src/features/search/index.ts:37 | The owners listed under a key keep the table's order. |
| Search.IndexOfEmptyKey | src/features/search/index.ts:40-41 | No index stores anything under the empty string, because every indexed substring has `j > i`. |
| Search.IndexesHold | src/features/search/index.ts:37-85 | Under any term, `byName` holds exactly the names containing it, `byKeyword` exactly the names with a metadata keyword containing it, and `byAlias` exactly the primaries with an alias containing it (never the alias itself). Each holds every name once. |
| Search.ByScoreOrder | src/features/search/index.ts:170 | The comparator `(b.score \|\| 0) - (a.score \|\| 0)` is a total, transitive order, so the sort is well defined. |
| Search.SearchResults | src/features/search/index.ts:122-171 | Definition of what `search` returns: the three passes on the lowercased term, then the stable sort by score. `Search.SearchSpec`, `Search.SearchNameMatchesInOrder` and `Search.SearchStableGroups` state its meaning. |
| Search.SearchIndex.Search | src/features/search/index.ts:122-171 | The three passes over the name, keyword and alias matches, followed by the sort, return exactly `SearchResults(data, keyword)`. |
| Search.SetNameMatches | src/features/search/index.ts:127-137 | The first `forEach` over the name matches builds the result map `NamePass`, one result per match with score 1.0. |
| Search.AddLaterMatches | src/features/search/index.ts:140-167 | The keyword and alias `forEach` loops, with their `has` guard, build `LaterPass` from the map so far. |
| Search.PutNew | src/features/search/index.ts:130 | `resultMap.set` of a new name appends it at the end of the insertion order. |
| Search.NamePassShape | src/features/search/index.ts:127-137 | The first pass holds one result per name match, in match order, each with score 1.0. |
| Search.FirstPassSpec | src/features/search/index.ts:127-137 | On well-formed data the first pass holds each name once, exactly the names containing the term, each result scored 1.0 and carrying that name's character, keywords and category. |
| Search.LaterPassPrefix | src/features/search/index.ts:140-167 | A later pass keeps every earlier result in place and only appends; each appended result carries that pass's score. |
| Search.LaterPassNew | src/features/search/index.ts:140-166 | Each appended result is a match of that pass whose name was not yet in the map (the `!resultMap.has` guard). |
| Search.LaterPassHas | src/features/search/index.ts:140-167 | After a pass, a name is present exactly when it was present before or is one of that pass's matches. |
| Search.LaterPassUnique | src/features/search/index.ts:140-166 | A later pass never adds a second result for a name already present. |
| Search.CollectedSpec | src/features/search/index.ts:124-167 | The result map holds each found name once. Its score comes from the first index that finds it: name over keyword over alias. Missing metadata gives keywords `[]` and category `'other'`. |
| Search.SearchSpec | src/features/search/index.ts:122-171 | `search` returns each found name exactly once, only found names, each with the score of its highest-precedence index, in non-increasing score order. |
| Search.SearchIgnoresCase | src/features/search/index.ts:123 | `search(t)` depends only on the lowercased term. |
| Search.SearchEmptyTerm | src/features/search/index.ts:127-170 | The empty term finds nothing. |
| Search.SearchNameMatchesInOrder | src/features/search/index.ts:127-170 | Because the sort is stable, the results scored 1.0 are exactly the name matches, in the order of `emojis.json`. |
| Search.SearchStableGroups | src/features/search/index.ts:170 | For every score, the results with that score appear in the order the result map received them, so the 0.8 and 0.6 groups keep insertion order too. |
| Search.SortUniqueNames | src/features/search/index.ts:170 | Sorting keeps exactly the same results, each name once. |
| Search.SortKeepsResults | src/features/search/index.ts:170 | Sorting by score keeps exactly the found names, once each, with their results untouched, and orders them by non-increasing score. |
| Search.NamePassIsMatches | src/features/search/index.ts:127-137 | The name pass is one score-1.0 result per owner matching the term in `byName`, in that index's order. |
| Search.NameMatchesOrder | src/features/search/index.ts:37-47 | The names found in `byName` appear in the order of `emojis.json`. |
| Search.GetByCategory | src/features/search/index.ts:194-209 | Definition of `getByCategory` as the `filter` and `map` over `emojis.json`. `Search.GetByCategorySpec` states its meaning. |
| Search.GetByCategorySpec | src/features/search/index.ts:194-209 | `getByCategory(c)` keeps exactly the entries whose metadata category is strictly `c`, in dataset order, without a score, and with category `c` (`'other'` for the empty string). It returns `[]` when no metadata has that category. |
| Search.EntriesInCategoryNone | src/features/search/index.ts:194-209 | When no entry has the category, the `filter` keeps nothing. |
| Search.EntriesInCategoryMember | src/features/search/index.ts:194-209 | A result is present exactly when it is built from an entry whose category is the argument. |
| Search.EntriesInCategoryOrder | src/features/search/index.ts:194-209 | The results keep the order of the entries. |
| Search.GetCategories | src/features/search/index.ts:222-230 | The `Set` filled inside `forEach`, then sorted, is `Sort(CategorySet(metadata), LexLe)`. |
| Search.CategorySetSpec | src/features/search/index.ts:223-228 | The set holds every truthy metadata category, and only those, each once. |
| Search.GetCategoriesSpec | src/features/search/index.ts:222-230 | `getCategories` is duplicate-free, strictly increasing in code-point order, and holds exactly the truthy categories. |
| Aliases.PrimaryName | src/features/aliases/index.ts:78-92 | Definition of `getPrimaryName` without the loop. `Aliases.GetPrimaryName`, `Aliases.PrimaryNameIsKeyOrSelf` and `Aliases.PrimaryNameIdempotent` state its meaning. |
| Aliases.GetPrimaryName | src/features/aliases/index.ts:78-92 | A primary key is returned unchanged. Otherwise the result is the first primary, in table order, whose list contains the name, or the name itself when none does. |
| Aliases.PrimaryNameIsKeyOrSelf | src/features/aliases/index.ts:78-92 | The primary name is either the input or a key of the alias table. |
| Aliases.PrimaryNameIdempotent | src/features/aliases/index.ts:78-92 | Resolving a primary name again changes nothing. |
| Aliases.GetAliases | src/features/aliases/index.ts:39-52 | Definition of `getAliases`, with its three cases. `Aliases.GetAliasesOfPrimary`, `Aliases.GetAliasesOfAlias`, `Aliases.GetAliasesUnknown` and `Aliases.GetAliasesAreSame` state its meaning. |
| Aliases.GetAliasesOfPrimary | src/features/aliases/index.ts:41-43 | For a primary key, `getAliases` returns its stored list verbatim. |
| Aliases.GetAliasesOfAlias | src/features/aliases/index.ts:46-48 | For an alias, the result is its primary followed by the list without that alias, so it never contains the alias. |
| Aliases.GetAliasesUnknown | src/features/aliases/index.ts:51 | A name that is neither a key nor listed has no aliases. |
| Aliases.IsSameEmoji | src/features/aliases/index.ts:123-127 | Definition of `isSameEmoji` as equal primary names. `Aliases.IsSameEmojiReflexiveSymmetric` and `Aliases.IsSameEmojiListed` state its meaning. |
| Aliases.IsSameEmojiReflexiveSymmetric | src/features/aliases/index.ts:123-127 | `isSameEmoji` is reflexive and symmetric on every string, known or not. |
| Aliases.IsSameEmojiListed | src/features/aliases/index.ts:123-127 | An alias that is not itself a key is the same emoji as the first primary listing it, and resolves to that primary. |
| Aliases.PrimaryNameOfAlias | src/features/aliases/index.ts:85-89 | On data where each alias is listed once and no alias is a key, every alias resolves to the key listing it. |
| Aliases.GetAliasesAreSame | src/features/aliases/index.ts:39-52 | On data where each alias is listed once and no alias is a key, every name `getAliases` returns is the same emoji as its argument. |
| Aliases.GetAllNames | src/features/aliases/index.ts:153-158 | `getAllNames(x)` is never empty, and its first element is `getPrimaryName(x)`. |
| Aliases.GetAllNamesUnknown | src/features/aliases/index.ts:153-158 | An unknown name gives `[x]`. |
| Aliases.GetAllNamesOfClass | src/features/aliases/index.ts:153-158 | Any name of a class gives the primary followed by its stored list. |
| Aliases.ResolveEmoji | src/features/aliases/index.ts:185-194 | Definition of `resolveEmoji`: the name's own truthy character, else its primary's. `Aliases.ResolveEmojiAlias` and `Aliases.ResolveEmojiDirect` state its meaning. |
| Aliases.ResolveEmojiAlias | src/features/aliases/index.ts:185-194 | A name with no character of its own resolves to the character of its primary. |
| Aliases.ResolveEmojiDirect | src/features/aliases/index.ts:187-189 | A name with a character resolves to that character. |
| Aliases.GetAliasMap | src/features/aliases/index.ts:222-232 | The nested `forEach` builds the map that the writes `map[alias] = primary` leave, in table order. |
| Aliases.WriteAliases | src/features/aliases/index.ts:226-228 | The inner `forEach` maps every alias of one primary to that primary and leaves other keys as they were. |
| Aliases.AliasMapHas | src/features/aliases/index.ts:222-232 | A name is a key of the alias map exactly when some primary lists it. |
| Aliases.AliasMapSource | src/features/aliases/index.ts:222-232 | The primary an alias maps to lists it, and no later primary does. |
| Aliases.AliasMapLastPrimary | src/features/aliases/index.ts:222-232 | The alias map holds exactly the listed aliases. Each maps to the LAST primary that lists it. |
| Aliases.AliasMapAgreesWithPrimary | src/features/aliases/index.ts:222-232 | When no alias is listed twice, the alias map agrees with `getPrimaryName`. |
| Aliases.OverlappingListsDisagree | src/features/aliases/index.ts:85-89 | When two primaries list one alias, `getPrimaryName` picks the first and `getAliasMap` the last. |
| SkinTones.ModifierForNumeric | src/features/skin-tones/index.ts:11-17 | Each numeric tone `'1'`..`'5'` finds the modifier of the named tone it stands for. |
| SkinTones.ModifierForValid | src/features/skin-tones/index.ts:46-52 | A tone has a modifier exactly when it is one of the ten identifiers. The modifier is always one of U+1F3FB..U+1F3FF. |
| SkinTones.StripTones | src/features/skin-tones/index.ts:163-174 | Definition of what `removeSkinTone` returns. `SkinTones.StripTonesExact`, `SkinTones.StripTonesIdempotent` and `SkinTones.StripTonesNoop` state its meaning. |
| SkinTones.RemoveSkinTone | src/features/skin-tones/index.ts:163-174 | One global replace per modifier, then the removal of U+FE0F and U+200D, returns the input without those code points (`StripTones`). |
| SkinTones.StripTonesExact | src/features/skin-tones/index.ts:163-174 | Every modifier, U+FE0F and U+200D is deleted, every other code point keeps its count, and stripping distributes over concatenation, so order is kept. |
| SkinTones.StripTonesIdempotent | src/features/skin-tones/index.ts:163-174 | Removing skin tones twice gives what removing them once gives. |
| SkinTones.StripTonesNoop | src/features/skin-tones/index.ts:163-174 | An input with none of those code points is returned unchanged. |
| SkinTones.ApplySkinTone | src/features/skin-tones/index.ts:45-58 | Definition of `applySkinTone`, throwing modelled as an error result. `SkinTones.ApplySkinToneFails`, `SkinTones.ApplyNumericTone`, `SkinTones.ApplySkinToneShape` and `SkinTones.ApplySkinToneReplaces` state its meaning. |
| SkinTones.ApplySkinToneFails | src/features/skin-tones/index.ts:50-52 | `applySkinTone` throws `Invalid skin tone: <tone>` exactly for tones outside the ten identifiers. |
| SkinTones.ApplyNumericTone | src/features/skin-tones/index.ts:46-48 | `applySkinTone(e, d)` for a digit equals `applySkinTone(e, T[d])` for the named tone `T[d]`. |
| SkinTones.ApplySkinToneShape | src/features/skin-tones/index.ts:55-57 | The result is the stripped emoji followed by one modifier, the only modifier it contains. |
| SkinTones.ApplySkinToneReplaces | src/features/skin-tones/index.ts:55-57 | Tones replace rather than stack: applying `t1` and then `t2` is applying `t2`. |
| SkinTones.RemoveAppliedTone | src/features/skin-tones/index.ts:163-174 | Removing the tone just applied gives the stripped emoji back, and an untoned emoji exactly. |
| SkinTones.FamilyLosesJoiners | src/features/skin-tones/index.ts:171 | For the documented family example, stripping also deletes the zero width joiners. |
| SkinTones.GetAllSkinToneVariations | src/features/skin-tones/index.ts:126-137 | Definition of `getAllSkinToneVariations`. `SkinTones.Variant` and `SkinTones.VariationsOfToned` state its meaning. |
| SkinTones.Variant | src/features/skin-tones/index.ts:131-135 | Each tone entry of the variations is the stripped emoji followed by that tone's modifier. |
| SkinTones.VariationsOfToned | src/features/skin-tones/index.ts:126-137 | `default` is the stripped emoji, each entry is `applySkinTone(default, tone)`, and the result does not depend on a tone the input already carries. |
| SkinTones.FirstNameOf | src/features/skin-tones/index.ts:177-180 | `getNameFromEmoji` here finds a name exactly when some entry has that character, and returns the FIRST such name. |
| SkinTones.FindListingIsFirst | src/features/skin-tones/index.ts:189-191 | `Object.entries(aliases).find` returns the first entry whose list contains the name. |
| SkinTones.LocalPrimaryNameAgrees | src/features/skin-tones/index.ts:182-194 | The local `getPrimaryName` returns the same as the one in the aliases feature, for every input. |
| SkinTones.SupportsSkinTone | src/features/skin-tones/index.ts:87-99 | Definition of `supportsSkinTone`. `SkinTones.SupportsSkinToneUnknown` and `SkinTones.SupportsSkinToneResolved` state its meaning. |
| SkinTones.SupportsSkinToneUnknown | src/features/skin-tones/index.ts:89-91 | A string that is neither a dataset name nor a dataset character is not capable. |
| SkinTones.SupportsSkinToneResolved | src/features/skin-tones/index.ts:87-99 | Otherwise `supportsSkinTone` holds exactly when the resolved name is non-empty and it, or its primary, is in the capable list. |
| SkinTones.ResolveCharacterIsFirst | src/features/skin-tones/index.ts:177-180 | A character that is not itself a name resolves to the first name carrying it. |
| Filters.FilterByCategory | src/features/filters/index.ts:45-58 | Definition of `filterByCategory`. `Filters.FilterByCategorySpec` and `Filters.FilterByUnknownCategory` state its meaning. |
| Filters.FilterByCategorySpec | src/features/filters/index.ts:45-58 | One result per listed name, in list order. Each result carries that name's character from `emojis.json`, and its metadata category, falling back to the argument. |
| Filters.FilterByUnknownCategory | src/features/filters/index.ts:46 | An unknown category gives `[]`. |
| Filters.Compare | src/features/filters/index.ts:207-221 | Definition of `compareVersions` on the zero-padded numeric parts. `Filters.CompareAntisymmetric`, `Filters.CompareZero`, `Filters.ComparePartsFirstDifference` and `Filters.VersionLeTransitive` state its meaning. |
| Filters.CompareVersions | src/features/filters/index.ts:207-221 | The indexed loop with early return gives `Compare(a, b)`: the difference of the first differing numeric parts, missing parts counting as 0. |
| Filters.CompareAntisymmetric | src/features/filters/index.ts:211-218 | Swapping the arguments negates the result. |
| Filters.CompareZero | src/features/filters/index.ts:211-220 | The result is 0 exactly when the parts agree once the shorter list is padded with zeros. |
| Filters.ComparePartsFirstDifference | src/features/filters/index.ts:215-216 | The first differing part decides, and its difference is the result. |
| Filters.CompareExamples | src/features/filters/index.ts:207-221 | `'6.0'` is older than `'11.0'`, although `'11.0'` sorts first as text, and `'13'` equals `'13.0'`. |
| Filters.CompareSixEleven | src/features/filters/index.ts:207-221 | `'6.0'` compares below `'11.0'` though it sorts after it as text. |
| Filters.CompareTrailingZero | src/features/filters/index.ts:207-221 | `'13'` and `'13.0'` compare equal. |
| Filters.VersionLeTotal | src/features/filters/index.ts:203 | The order `sort(compareVersions)` uses is total. |
| Filters.ComparePartsTransitive | src/features/filters/index.ts:211-220 | If `a` is not newer than `b` and `b` is not newer than `c`, then `a` is not newer than `c`, on the zero-padded parts. |
| Filters.VersionLeTransitive | src/features/filters/index.ts:203 | The order `sort(compareVersions)` uses is transitive, so with totality it is a total preorder. |
| Filters.FilterByVersion | src/features/filters/index.ts:88-120 | The pushing loop returns `ByVersion` over `emojis.json`, with a missing version defaulting to `'1.0'`. The comparison defaults to `min`, as in the source. |
| Filters.Accepts | src/features/filters/index.ts:96-106 | The `switch` keeps an entry exactly when its version (default `'1.0'`) is equal to, at least or at most the argument, as the comparison says. |
| Filters.ByVersionMember | src/features/filters/index.ts:91-117 | An entry is in the result exactly when its version passes the comparison. |
| Filters.ByVersionInOrder | src/features/filters/index.ts:91-119 | `filterByVersion` returns a subsequence of `emojis.json`'s entries, in its order. |
| Filters.ComparisonsCover | src/features/filters/index.ts:96-106 | An exact match passes both bounds, and every version passes `min` or `max`. |
| Filters.ExactWithinBound | src/features/filters/index.ts:88-120 | The `exact` results are a subsequence of the `min` and of the `max` results. |
| Filters.ExactIsTextual | src/features/filters/index.ts:98 | `exact` compares strings: `'13.0'` fails `exact` for `'13'` but passes both bounds. |
| Filters.KeywordFiltered | src/features/filters/index.ts:147-171 | Definition of what `filterByKeyword` returns. `Filters.ByKeywordMember`, `Filters.ExactWithinPartial` and `Filters.KeywordFilterIgnoresCase` state its meaning. |
| Filters.FilterByKeyword | src/features/filters/index.ts:147-171 | The loop, with its inner `some`, returns `KeywordFiltered(d, keyword, exact)`. `exact` defaults to `false`, a partial match. |
| Filters.SomeKeywordMatches | src/features/filters/index.ts:154-157 | The `some` over the lowercased keywords holds exactly when one of them equals (exact) or contains (partial) the term. |
| Filters.KeptMember | src/features/filters/index.ts:91-117 | An entry is kept exactly when it passes the test, and every kept result is built from such an entry. |
| Filters.KeptSubsequence | src/features/filters/index.ts:151-168 | A stricter test keeps a subsequence of what a looser one keeps. |
| Filters.All | src/features/filters/index.ts:91-119 | The `EmojiInfo` of every entry of the table, one per entry, in table order. |
| Filters.KeptAll | src/features/filters/index.ts:91-119 | A pushing loop whose test accepts every name returns the `EmojiInfo` of every entry, in order. |
| Filters.KeptInOrder | src/features/filters/index.ts:91-119 | Whatever its test, a pushing loop returns a subsequence of the dataset's entries in dataset order. |
| Filters.ByKeywordMember | src/features/filters/index.ts:151-168 | An entry is kept exactly when one lowercased keyword equals the term (exact) or contains it (partial). |
| Filters.ByKeywordInOrder | src/features/filters/index.ts:151-170 | `filterByKeyword` returns a subsequence of `emojis.json`'s entries, in its order. |
| Filters.ExactWithinPartial | src/features/filters/index.ts:155-157 | The exact results are a subsequence of the partial results. |
| Filters.KeywordFilterIgnoresCase | src/features/filters/index.ts:148 | `filterByKeyword(k, ex)` equals `filterByKeyword(lower(k), ex)`. |
| Filters.EmptyKeywordKeepsAll | src/features/filters/index.ts:157 | A partial match on `''` keeps every entry that has a keyword. |
| Filters.GetUnicodeVersions | src/features/filters/index.ts:194-204 | The `Set` of versions, then `sort(compareVersions)`, is `Sort(VersionSet(metadata), VersionLe)`. |
| Filters.VersionSetSpec | src/features/filters/index.ts:195-201 | The set holds every truthy version, and only those, each once. |
| Filters.GetUnicodeVersionsSpec | src/features/filters/index.ts:194-204 | `getUnicodeVersions` is duplicate-free, non-decreasing under `compareVersions`, and holds exactly the truthy versions. |
| Filters.GetUnicodeVersionsOrdered | src/features/filters/index.ts:194-204 | Every version that `getUnicodeVersions` lists is `compareVersions`-older than or equal to every version after it, not only its neighbour. |
| ReverseMapping.Reverse | src/utils/reverse-mapping.ts:128-134 | Definition of the object `createReverseMapping` returns, as the last-write-wins fold. `ReverseMapping.ReverseSpec`, `ReverseMapping.ReverseLast` and `ReverseMapping.ReverseConsistent` state its meaning. |
| ReverseMapping.CreateReverseMapping | src/utils/reverse-mapping.ts:128-134 | The loop writing `reverse[emoji] = name` returns `Reverse(input)`, the fold of those writes. |
| ReverseMapping.ReverseSpec | src/utils/reverse-mapping.ts:128-134 | The keys are exactly the input's characters. Each maps to the name of the last entry carrying it. |
| ReverseMapping.ReverseLast | src/utils/reverse-mapping.ts:130-132 | The last entry with a character gives its name. |
| ReverseMapping.ReverseConsistent | src/utils/reverse-mapping.ts:130-132 | For every key `e` of the result, `input[result[e]] == e`. |
| ReverseMapping.ReverseEmpty | src/utils/reverse-mapping.ts:129-133 | An empty input gives an empty map. |
| ReverseMapping.ReverseDuplicates | src/utils/reverse-mapping.ts:130-132 | Three names for one character map it to the last of them. |
| ReverseMapping.FirstAndLastDisagree | src/utils/reverse-mapping.ts:6-8 | For a shared character, the skin-tone helper gives the first name and the reverse map the last. |
| ReverseMapping.FirstAndLastAgree | src/utils/reverse-mapping.ts:6-8 | When no character is shared, both give the entry's own name. |
| ReverseMapping.ReverseIndex.constructor | src/utils/reverse-mapping.ts:4-8 | The module-level `reverseMap` is filled once from `emojis.json` and equals `createReverseMapping(emojis)`. Its fields are constants, so this holds for every later call. |
| ReverseMapping.ReverseIndex.GetNameFromEmoji | src/utils/reverse-mapping.ts:34-36 | A name is found exactly when some entry of `emojis.json` has that character, and it is the name of the last such entry; otherwise the result is `undefined`. |
| ReverseMapping.ReverseIndex.IsKnownEmoji | src/utils/reverse-mapping.ts:95-97 | A string is known exactly when some entry of `emojis.json` has it as its character. |
| ReverseMapping.ReverseIndex.GetReverseMapping | src/utils/reverse-mapping.ts:63-65 | The copy equals `createReverseMapping(emojis)`: its keys are exactly the characters of `emojis.json`. |
| ReverseMapping.KnownEmojiSpec | src/utils/reverse-mapping.ts:34-97 | `isKnownEmoji(s)` holds exactly when `getNameFromEmoji(s)` is defined, and with unique names the name found maps back to `s` in `emojis.json`. |
| Validators.IsValidEmoji | src/utils/validators.ts:7-25 | Definition of `isValidEmoji`: the dataset lookup, then the emoji expression. `Validators.IsValidEmojiSpec`, `Validators.TextRejected` and `Validators.KeycapNeedsDataset` state its meaning. |
| Validators.IsValidEmojiName | src/utils/validators.ts:30-36 | Definition of `isValidEmojiName`: non-empty and only `[A-Za-z0-9_-]`, upper case and hyphens included. `Validators.SanitizeSpec` shows that every non-empty sanitized name passes it. |
| Validators.IsValidEmojiSpec | src/utils/validators.ts:7-25 | `''` is invalid, and any dataset character is valid. For any other string, validity means non-empty with every code point in the emoji ranges. |
| Validators.TextRejected | src/utils/validators.ts:16-18 | An unknown string with an ASCII letter, a digit or a `\s` character is rejected. |
| Validators.KeycapNeedsDataset | src/utils/validators.ts:11-18 | The keycap 1 U+FE0F U+20E3 contains a digit. It is valid when the dataset lists it, because the dataset lookup comes first, and invalid otherwise. |
| Validators.IsValidSkinTone | src/utils/validators.ts:41-44 | Definition of `isValidSkinTone` as membership in the ten identifiers. `Validators.IsValidSkinToneAgrees` states its meaning. |
| Validators.IsValidSkinToneAgrees | src/utils/validators.ts:41-44 | `isValidSkinTone` accepts exactly the ten identifiers, the same tones `applySkinTone` accepts. |
| Validators.ReplaceUnsafe | src/utils/validators.ts:50 | The replacement puts only `[a-z0-9_]` in its output, one character per UTF-16 unit of the input. |
| Validators.SanitizeEmojiName | src/utils/validators.ts:49-51 | Definition of `sanitizeEmojiName`: lowercase, then replace each unsafe UTF-16 unit. `Validators.SanitizeSpec`, `Validators.SanitizeNoop` and the example lemmas state its meaning. |
| Validators.SanitizeSpec | src/utils/validators.ts:49-51 | The output uses only `[a-z0-9_]` and has the input's UTF-16 length, which for ASCII input is its length. A non-empty output is a valid emoji name, and sanitizing is idempotent. |
| Validators.SanitizeNoop | src/utils/validators.ts:49-51 | A name already made of `[a-z0-9_]` is unchanged. |
| Validators.SanitizeHyphen | src/utils/validators.ts:49-51 | `'Smiley-Face'` becomes `'smiley_face'`. |
| Validators.SanitizeHyphenated | src/utils/validators.ts:49-51 | Two words of letters joined by a hyphen become the lowercased words joined by an underscore. |
| Validators.SanitizeAstral | src/utils/validators.ts:50 | A character outside the Basic Multilingual Plane becomes two underscores: the expression has no `u` flag. |
| Validators.HasVariationSelector | src/utils/validators.ts:56-58 | Definition of `hasVariationSelector`. `Validators.HasVariationSelectorSpec` states its meaning. |
| Validators.HasVariationSelectorSpec | src/utils/validators.ts:56-58 | `hasVariationSelector(s)` holds exactly when U+FE0F occurs in `s`. |
| Validators.StripVariationSelectors | src/utils/validators.ts:63-65 | Definition of `stripVariationSelectors`. `Validators.StripVariationSelectorsSpec` and `Validators.StripBeforeTones` state its meaning. |
| Validators.StripVariationSelectorsSpec | src/utils/validators.ts:63-65 | Stripping leaves no U+FE0F and keeps every other character's count. It changes a string exactly when the string has a selector. |
| Validators.StripBeforeTones | src/utils/validators.ts:63-65 | Stripping selectors before removing skin tones changes nothing. |
| NameFormatter.GetEmojiName | scripts/emoji-name-formatter.js:1-7 | Definition of `getEmojiName` as its four replacements and the final lowercasing, in order. `NameFormatter.GetEmojiNameSpec`, `NameFormatter.GetEmojiNameKeepsAlnums` and `NameFormatter.RunBetweenWords` state its meaning. |
| NameFormatter.BlankNonWord | scripts/emoji-name-formatter.js:2 | `\W` to space leaves only word characters and spaces, one per UTF-16 unit. |
| NameFormatter.GetEmojiNameSpec | scripts/emoji-name-formatter.js:1-7 | The output is lowercase `[a-z0-9_]` only, and never longer than the input's JavaScript length. |
| NameFormatter.GetEmojiNameKeepsAlnums | scripts/emoji-name-formatter.js:2-6 | The input's letters and digits appear in the output in the same order, lowercased, and no other letter or digit does. |
| NameFormatter.CollapseRun | scripts/emoji-name-formatter.js:3-5 | The non-overlapping, left-to-right replacement turns a run of `n` copies into `(n + 1) / 2` copies. |
| NameFormatter.RunBetweenWords | scripts/emoji-name-formatter.js:1-7 | Between two words of letters and digits, a run of `n` non-word characters of the Basic Multilingual Plane becomes `((n + 1) / 2 + 1) / 2` underscores. Runs with characters outside that plane are not covered; `\W` without the `u` flag sees each of them as two UTF-16 units. |
| NameFormatter.WordIsLowered | scripts/emoji-name-formatter.js:6 | A name of letters and digits is only lowercased. |
| NameFormatter.RunOfFour | scripts/emoji-name-formatter.js:3-5 | Four dashes between letters give one underscore. |
| NameFormatter.RunOfFive | scripts/emoji-name-formatter.js:3-5 | Five dashes give two underscores. |
| NameFormatter.FormatterLowercases | scripts/emoji-name-formatter.js:6 | `'CAT'` becomes `'cat'`. |
| NameFormatter.FormatterHyphen | scripts/emoji-name-formatter.js:2-5 | `'smiley-face'` becomes `'smiley_face'`. |
| NameFormatter.FormatterDoubleHyphen | scripts/emoji-name-formatter.js:2-5 | `'smiley--face'` becomes `'smiley_face'`. |

## Left out

- NameFormatter.RunBetweenWords: covers runs of characters of the Basic Multilingual Plane only. A run with a character outside that plane is longer in UTF-16 units than in code points, so the same formula does not apply to `n` counted in code points.
- **The data files.** `emojis.json`, `metadata.json`, `aliases.json`, `categories.json` and the `capable` list are parameters.
  - `SkinTones.Modifiers` assumes `skin-tones.json` holds the five modifiers U+1F3FB..U+1F3FF of Unicode Technical Standard #51 under the five tone names.
- **Full Unicode `toLowerCase`.** Lowercasing is ASCII only. Full lowercasing also maps a few non-ASCII characters, for example U+212A KELVIN SIGN to `k`, and U+0130 to two characters. So for sanitizeEmojiName, search and filterByKeyword, the model stays exact only for terms without such characters.
  - The name formatter is exact anyway, because `\W` has removed every non-ASCII character before lowercasing.
- **UTF-16 strings.** Strings are sequences of code points. `search` and the index take substrings of UTF-16 units, so a substring that splits a surrogate pair has no counterpart in the model.
  - The sanitiser and the formatter run expressions without the `u` flag. For these, surrogate pairs are modelled explicitly as two units.
- **`sort()` without a comparator.** It orders by UTF-16 units. `Sorting.LexLe` orders by code points, and the two agree only for categories below U+D800.
- **`Number()` in compareVersions.** A part made only of digits gives its decimal value; anything else gives 0, which covers both the `NaN || 0` case and the empty part. Not modelled:
  - whitespace, signs, hexadecimal, exponent and fractional forms;
  - the precision of very large numbers as floating point.
- **Floating-point scores.** The scores 1.0/0.8/0.6 are the ordered ranks 5/4/3, in fifths, and a missing score is 0. Only their differences are used.
- **filterByVersion's comparison argument.** It is one of `exact`/`min`/`max`, as its TypeScript type says. An untyped caller passing another string gets `[]` from the source's `switch`, and the model cannot express that call.
- **Prototype-chain and object quirks.** Examples:
  - `'toString' in reverseMap` makes `isKnownEmoji('toString')` true;
  - `getNameFromEmoji('toString')` returns the inherited `Object.prototype.toString` instead of `undefined`;
  - dataset names such as `__proto__`.

  The maps are plain Dafny maps and tables, so none of this is modelled.
- **`Object.freeze` and object identity.** `getReverseMapping` returns a frozen new object each time; the model returns the map value, which cannot be changed anyway.
- **Module loading order and lazy caches.** The indexes and `reverseMap` are built by constructors taking the data. Also not modelled: `src/backward-compat.ts`, the category files, the export wiring, the scraping and git scripts, and the examples, because they have no logic of their own.
