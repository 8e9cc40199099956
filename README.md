# Recipe search core in Dafny

This project models the search core of a recipe application. The core keeps an
immutable in-memory catalog, a `Map<string, RecipeInfo>` from a unique key to a
recipe record, and offers two things:

- `SearchIndex` selects catalog keys by keyword. The query is trimmed and split
  on runs of whitespace. Each token is case-folded. A key survives when its
  record contains every token (a substring match) in its name, its headline or
  one of its ingredient names. Matching is AND across tokens and OR across fields.
- `SearchEngine` ranks the index's results. It sorts by rating, highest first,
  with an absent rating counted as 0. Ties are broken by name, ascending. It can
  also pick one result by position.

Modules, one file each:

- `Types` (`types.dfy`): the recipe record and its ingredients, `Option`, and the
  catalog. A `RecipeMap` holds the keys in insertion order plus a `map` from key to
  record; the subset type `Catalog` requires distinct keys and exactly those keys
  in the map.
- `Text` (`text.dfy`): the string primitives the code calls.
  - `toLowerCase` becomes `Lower`, an ASCII fold.
  - `includes` becomes `Contains`: it tries each start position from the left.
  - The whitespace class is JavaScript's WhiteSpace plus LineTerminator.
  - `localeCompare` becomes `CompareStrings`, an ordinal three-way compare.
- `Tokens` (`tokens.dfy`): `query.trim().split(/\s+/).filter(Boolean)` is
  `QueryWords`: the maximal runs of non-whitespace, left to right.
- `Index` (`index.dfy`): the predicate `Matches` and the class `SearchIndex`.
  - `FindKeys` is the nested loop of `findKeys`. `matchingKeys` is a `seq`, kept in
    the JavaScript `Set`'s iteration order; a deletion removes the element where the
    iteration stands.
  - `DeleteUnmatched` is the loop over the keys for one word.
  - Both are proved against the specification function `MatchingKeys`.
- `Engine` (`engine.dfy`): the comparator `Compare` and a stable insertion sort.
  - `Insert` and `InsertionSort` are the specification functions.
  - `SortInPlace` and `InsertLast` sort an `array` in place and are proved equal to
    `InsertionSort`. `Array.prototype.sort` is stable, so a stable sort pins down the
    result exactly.
  - The class `SearchEngine` has `Search` and `Random`. `Random` takes the chosen
    position as a parameter.

The comment on the comparator (src/lib/searchEngine.ts:28) and the name of the test
at src/lib/searchEngine.test.ts:134 say that an absent rating ranks lowest. The
code instead maps it to 0 (`a.rating ?? 0`, lines 29-30), so the model follows the
code. Two consequences follow, and `Engine.UnratedRanksAsZero` states both:

- an unrated recipe sorts before a negatively rated one;
- an unrated recipe ties with a rating of exactly 0, and the name decides.

## Model

| member | source | states |
|---|---|---|
| Index.MatchesIff | src/lib/searchIndex.ts:23-31 | a record matches a word exactly when the word is a substring of its case-folded name, of its case-folded headline or of some case-folded ingredient name, so partial words count |
| Index.Matches | src/lib/searchIndex.ts:23-31 | the body: the word occurs (by `Contains`) in the folded name, or in the folded headline, or in the folded name of some ingredient |
| Text.ContainsIsSubstring | src/lib/searchIndex.ts:25-28 | the left-to-right search behind `includes` succeeds exactly when the word occurs at some position of the text |
| Text.Contains | src/lib/searchIndex.ts:25-28 | `includes`, by its body: the text starts with the word, or its tail contains it |
| Text.Lower | src/lib/searchIndex.ts:25-28 | `toLowerCase`: the result has the input's length and each character is the ASCII fold of the input's character at that position |
| Index.SearchIndex.constructor | src/lib/searchIndex.ts:42-44 | the index keeps the catalog it is given, read-only |
| Index.SearchIndex.FindKeys | src/lib/searchIndex.ts:51-71 | the keys left in `matchingKeys` are the catalog keys, in catalog order, whose record matches every case-folded token; they are distinct, a key is kept iff it matches every token, and a blank query keeps every key |
| Index.SearchIndex.DeleteUnmatched | src/lib/searchIndex.ts:62-67 | one pass of deletions over `matchingKeys` leaves exactly the keys whose record matches the word, in their previous order |
| Index.FilterNextWord | src/lib/searchIndex.ts:58-68 | filtering by the first w+1 tokens equals filtering the survivors of the first w tokens by token w, and the survivors are catalog keys |
| Index.FilterMembers | src/lib/searchIndex.ts:58-68 | the loop only deletes: a key survives iff it was a candidate and its record matches every word, distinct keys stay distinct, and the result is no longer than the input |
| Index.FilterCompose | src/lib/searchIndex.ts:58-68 | filtering by one list of words and then by another equals filtering by both lists at once |
| Index.MatchingKeysMembers | src/lib/searchIndex.ts:58-68 | a key is selected iff it is a catalog key whose record matches the case-folded form of every token of the query; the selection has no duplicates |
| Index.BlankQueryMatchesAll | src/lib/searchIndex.ts:53-58 | an empty or all-whitespace query selects exactly the catalog's keys, in catalog order |
| Index.CaseInsensitive | src/lib/searchIndex.ts:56-59 | case-folding the query first selects the same keys |
| Index.RefineQuery | src/lib/searchIndex.ts:58-68 | appending more words after a whitespace character filters the previous selection by the new words |
| Index.RefineQueryNarrows | src/lib/searchIndex.ts:58-68 | appending words to a query never adds a key to its selection |
| Index.UnmatchedTokenSelectsNothing | src/lib/searchIndex.ts:62-66 | a token that no record matches makes the selection and the records of `search` empty, with no error |
| Index.SearchIndex.Search | src/lib/searchIndex.ts:78-81 | returns, in order, the record of each selected key, exactly one per key |
| Tokens.WordsEmptyIffBlank | src/lib/searchIndex.ts:56 | a string yields no tokens exactly when it is empty or all whitespace |
| Tokens.Words | src/lib/searchIndex.ts:56 | `split(/\s+/).filter(Boolean)`, by its body: skip whitespace, take the longest run of non-whitespace as a token, repeat; every token it returns is non-empty and free of whitespace |
| Tokens.TrimStart | src/lib/searchIndex.ts:56 | the leading half of `trim()`: the result is a suffix of the input, what it drops is all whitespace, and it does not start with whitespace |
| Tokens.TrimEnd | src/lib/searchIndex.ts:56 | the trailing half of `trim()`: the result is a prefix of the input, what it drops is all whitespace, and it does not end with whitespace |
| Tokens.Trim | src/lib/searchIndex.ts:56 | `trim()`, by its body: `TrimStart`, then `TrimEnd` |
| Tokens.QueryWords | src/lib/searchIndex.ts:56 | the body: `Words` of the trimmed query, the list `findKeys` loops over |
| Tokens.WordsOfWord | src/lib/searchIndex.ts:56 | tokens are maximal runs: a non-empty string without whitespace is exactly one token, itself |
| Tokens.TrimKeepsWords | src/lib/searchIndex.ts:56 | trimming before splitting changes no token |
| Tokens.WordsAcrossSpace | src/lib/searchIndex.ts:56 | the tokens of `a`, a whitespace character, then `b` are the tokens of `a` followed by those of `b` |
| Tokens.WordsKeepNonSpace | src/lib/searchIndex.ts:56 | concatenated, the tokens spell out every non-whitespace character of the string, in order, so splitting loses only whitespace |
| Tokens.WordsOfLower | src/lib/searchIndex.ts:56-59 | tokenizing the case-folded string gives the case-folded tokens |
| Tokens.QueryWordsOfLower | src/lib/searchIndex.ts:56-59 | the same for the trimmed query |
| Text.LowerIdempotent | src/lib/searchIndex.ts:59 | folding a folded string changes nothing |
| Text.CompareStringsZero | src/lib/searchEngine.ts:34 | the name comparison reports a tie only for equal names |
| Text.CompareStringsAntisymmetric | src/lib/searchEngine.ts:34 | swapping the two names flips the sign of the comparison |
| Text.CompareStringsTransitive | src/lib/searchEngine.ts:34 | "sorts no later than" on names is transitive |
| Text.CompareStrings | src/lib/searchEngine.ts:34 | `localeCompare`, taken as ordinal order: the first differing character decides, a proper prefix sorts first, and the result is -1, 0 or 1 |
| Engine.EffectiveRating | src/lib/searchEngine.ts:29-30 | the body: `rating ?? 0`, the rating when present and 0 otherwise |
| Engine.Compare | src/lib/searchEngine.ts:27-35 | the body: `bRating - aRating` when the effective ratings differ, otherwise the name comparison |
| Engine.InOrderIff | src/lib/searchEngine.ts:27-35 | the comparator places `a` no later than `b` iff `a`'s effective rating is higher, or equal and its name sorts no later |
| Engine.CompareAntisymmetric | src/lib/searchEngine.ts:27-35 | the comparator is antisymmetric |
| Engine.CompareZeroIff | src/lib/searchEngine.ts:27-35 | the comparator reports a tie only for equal effective ratings and equal names |
| Engine.CompareTransitive | src/lib/searchEngine.ts:27-35 | the comparator's order is transitive, so it is consistent |
| Engine.InsertPermutes | src/lib/searchEngine.ts:27 | inserting one record adds exactly that record to the multiset |
| Engine.InsertKeepsSorted | src/lib/searchEngine.ts:27 | inserting into a sorted list keeps it sorted |
| Engine.InsertionSortCorrect | src/lib/searchEngine.ts:26-36 | the sort's output is sorted by the comparator and is a permutation of its input |
| Engine.InsertTies | src/lib/searchEngine.ts:27 | inserting `y` keeps the order of the elements that tie with any `x` and adds `y` after them when it ties too |
| Engine.InsertionSortStable | src/lib/searchEngine.ts:27 | the sort is stable: for every `x`, the elements tying with `x` appear in the output in their input order |
| Engine.InsertAt | src/lib/searchEngine.ts:27 | an insertion places the record after the last element that does not belong after it and before the run of elements that do |
| Engine.InsertLast | src/lib/searchEngine.ts:27 | shifting in place inserts `a[i]` into the sorted prefix `a[..i]` exactly as `Insert` does and leaves the rest of the array alone |
| Engine.SortInPlace | src/lib/searchEngine.ts:27-35 | the in-place sort leaves the array equal to the insertion sort of its old contents |
| Engine.SortedByRating | src/lib/searchEngine.ts:29-33 | a sorted list never rises in effective rating (`rating ?? 0`) |
| Engine.SortedTiesByName | src/lib/searchEngine.ts:31-34 | among records of equal effective rating, names ascend |
| Engine.UnratedAfterPositive | src/lib/searchEngine.ts:29-30 | in a sorted list, an unrated record comes after every record with a positive rating |
| Engine.UnratedRanksAsZero | src/lib/searchEngine.ts:29-30 | an unrated record sorts before a negatively rated one, and against a rating of exactly 0 the names decide |
| Engine.SortPairByName | src/lib/searchEngine.ts:31-34 | two records of equal effective rating come out in name order, whichever is given first |
| Engine.SortPairRatedFirst | src/lib/searchEngine.ts:29-33 | a positively rated record comes out before an unrated one, whichever is given first |
| Engine.SearchEngine.constructor | src/lib/searchEngine.ts:21-23 | the engine's index holds the given catalog |
| Engine.SearchEngine.Search | src/lib/searchEngine.ts:25-37 | returns the index's results sorted by the comparator, as a permutation of them, with the same length, so an empty selection gives an empty list; records that tie under the comparator keep the order the index gave them; the result is a function of the catalog and the query alone, so repeated calls agree |
| Engine.SearchEngine.Random | src/lib/searchEngine.ts:39-46 | returns nothing iff the index finds no record; otherwise it returns the result at the chosen position, which is one of the index's results |

## Left out

- `Math.random()` and `Math.floor(Math.random() * results.length)` (src/lib/searchEngine.ts:44) are not modelled. `Random` takes the chosen position as a parameter, required to be in range when there are results. No distribution is claimed.
- `toLowerCase` is modelled on the ASCII letters only; Unicode case mapping, including mappings that change a string's length, is not modelled.
- `localeCompare` is modelled as ordinal order on characters. Locale rules, accents and collation are not modelled.
- Strings are sequences of Unicode scalar values, whereas JavaScript uses UTF-16 code units; the two can disagree on the ordinal order of characters outside the Basic Multilingual Plane.
- The regular-expression engine behind `split(/\s+/)` is replaced by the tokenizer `Words` over the same whitespace class.
- Ratings are exact reals. Floating-point rounding, NaN and infinities in `rating` and in `bRating - aRating` are not modelled; only the comparator's sign is used.
- `Array.prototype.sort` is modelled by a stable insertion sort. Every stable sort by a consistent comparator gives the same result, but the engine's own algorithm and its running time are not modelled.
- The fields `file`, `calories` and ingredient `quantity` are carried in the records, and nothing reads them.
- The `./types` module is not part of this model; the record types are defined directly in `Types`.
- The non-null assertions `this.data.get(key)!` (src/lib/searchIndex.ts:63,80) always succeed here, because `Catalog` requires every listed key to have a record. A catalog without that property cannot be built from a JavaScript `Map`.
- `Engine.SearchEngine.Search`: determinism is not stated as a lemma over two calls, since lemmas cannot call methods; it follows from the ensures clause `results == RankedResults(index.data, query)`, because that clause is a function of the read-only catalog and the query.
- The catalog is a value. src/lib/searchIndex.ts:43 keeps the caller's `Map` by reference, and `readonly` (line 37) only stops the field from being reassigned. A caller that changes the `Map` between calls cannot be expressed here: the model assumes the catalog is left unchanged after construction, as the design requires, and the determinism of `search` rests on that.
- src/lib/search.test.ts (the user-interface component) and vite.config.ts (build configuration) are not part of this model.
