# Excuse generator: selector, favorites ledger and believability marker

This project is a Dafny 4.11 model of the sequential logic in a small excuse-generator app. It covers four pieces:

- **Local selector** (`data/excuses/index.ts`). The catalog maps a situation to its list of excuse records. `getRandomExcuse` filters the list by tone and then by length, but only when that argument is truthy. If nothing is left, it falls back to the whole unfiltered list. It then picks the entry at `floor(r * n)`.
- **Catalog helpers** (`utils/excuseLoader.ts`). `loadLocalExcuse` wraps the selector and adds a random usage count. `hasLocalExcuses` tests for a non-empty list. `getExcuseStats` counts situations and sums the list lengths.
- **Favorites ledger** (`utils/storage.ts`). This is a persisted list of at most ten favorites, newest first, and no excuse text appears twice in it.
  - A save of a text that is already present succeeds and changes nothing, even at the cap.
  - A save of a new text at the cap is refused with `limitReached`.
  - Removal is by id.
  - Clear empties the list.
- **Believability marker** (`backend/src/routes/excuses.ts`). The generate, adjust and ultimate routes share the same three lines.
  - They find the first case-insensitive `BELIEVABILITY:\s*(\d+)`.
  - They read its digits with `parseInt`. With no match they use a default: 50 for generate and adjust, 0 for ultimate.
  - They remove that one occurrence and trim what is left.
  - The model also covers the adjust route's direction phrase and the fixed fields of the ultimate row.

Modules:
- `Wrappers`: `Option`.
- `Seqs`: `Array.prototype.filter`.
- `Decimal`: digit strings, `parseInt` and `Number.prototype.toString`.
- `ExcuseCatalog`, `ExcuseLoader`, `FavoritesStorage` and `ExcuseRoutes`.

The ledger is a class, `FavoritesStorage.FavoritesStore`. Its `favorites` field is the persisted list. Each operation reads that list and then reassigns it, as `storage.setItem` / `removeItem` do. Everything else is pure functions and lemmas, following the source.

How the environment is modelled:
- **`Math.random()`.** A draw is a real `r` with `0 <= r < 1`. Indexing is exact: `RandomIndex(r, n) = floor(r * n)`.
- **`Date.now()`.** The two readings in `saveFavorite` become two parameters, `idClock` and `stampClock`.
- **Storage writes.** A write that throws is a `writeOk` parameter. The operation then takes its `catch` path: the result reports failure and the stored list is unchanged.
- **Regex and trim semantics.** `\s` and `trim` use the ECMAScript white-space set: the ASCII white space, U+00A0, U+FEFF, the Unicode space separators and U+2028/U+2029. The `i` flag compares letters by ASCII upper case. Without the `u` flag, JavaScript never folds a non-ASCII character onto an ASCII one, so for the ASCII label this comparison is exact. `\d` is `0`-`9`.

The prompts ask for a 0-100 rating at the end of the text (backend/src/routes/excuses.ts:75, 86, 183, 195, 263, 266), but the parsing code does not rely on either:
- The marker is not required to be a suffix. The first occurrence anywhere is the one read and removed, and the text after it is kept.
- The rating is not clamped to 0..100. Any digit run gives its value.

## Model

| member | source | states |
|---|---|---|
| ExcuseCatalog.ExcuseDatabase | data/excuses/index.ts:8-16 | the database has exactly the three situations, listed once each in declaration order, each mapped to its JSON file's records |
| ExcuseCatalog.GetAvailableSituations | data/excuses/index.ts:59-61 | the result lists exactly the catalog's keys, each once |
| ExcuseCatalog.RandomIndex | data/excuses/index.ts:49 | `floor(r * n)` for `0 <= r < 1` is a valid index below `n` |
| ExcuseCatalog.RandomIndexReachesAll | data/excuses/index.ts:49 | every index `i < n` is drawn by some `r` in `[0, 1)`, namely `i / n` |
| ExcuseCatalog.Candidates | data/excuses/index.ts:31-46 | the candidate list is non-empty when the situation's list is, and holds only records of that list |
| ExcuseCatalog.FilteredIsOneFilter | data/excuses/index.ts:31-40 | the tone filter followed by the length filter is one filter by "matches every given argument" |
| ExcuseCatalog.CandidatesCharacterized | data/excuses/index.ts:31-46 | if some record matches the given filters, the candidates are exactly the matching records in order; if none matches, they are the whole list |
| ExcuseCatalog.SelectRecord | data/excuses/index.ts:24-50 | no record exactly when the situation is missing or its list is empty; otherwise a record of that situation's list |
| ExcuseCatalog.GetRandomExcuse | data/excuses/index.ts:19-56 | null exactly when the situation is missing or its list is empty; otherwise the text and rating of one of its records, unchanged |
| ExcuseCatalog.ExactMatchSelected | data/excuses/index.ts:34-50 | when some record has exactly the given tone and length, the selected record has that tone and that length |
| ExcuseCatalog.FallbackUsesWholeList | data/excuses/index.ts:42-46 | when no record has the tone and length together, the candidates are the whole list, not the tone-only subset |
| ExcuseCatalog.NoFilterWithoutArguments | data/excuses/index.ts:32-40 | an absent or empty tone and length filter nothing: the candidates are the whole list |
| ExcuseCatalog.SelectionIsCandidateAt | data/excuses/index.ts:48-50 | the draw `k / n` selects candidate `k`, so every candidate can be selected |
| ExcuseLoader.LoadLocalExcuse | utils/excuseLoader.ts:8-27 | null exactly when the selector returns null; otherwise the selector's text and rating, and a usage count below 1000 |
| ExcuseLoader.LoadFailsIffNoLocalExcuses | utils/excuseLoader.ts:15-34 | loading and selecting return null exactly when `hasLocalExcuses` is false, for any tone, length and draws |
| ExcuseLoader.GetExcuseStats | utils/excuseLoader.ts:39-51 | the situations are the key list, and their count is the number of keys; the total is the `reduce` sum of the list lengths over the key list, every list length is at most the total, and the total is 0 exactly when every list is empty |
| ExcuseLoader.SumLengthsFrom | utils/excuseLoader.ts:41-44 | the `reduce` sum from a start value is that start value plus the sum from 0 |
| ExcuseLoader.SumLengthsAppend | utils/excuseLoader.ts:41-44 | appending a key to the key list adds exactly that key's list length to the sum |
| ExcuseLoader.DatabaseStats | utils/excuseLoader.ts:39-51 | for the shipped database, `getExcuseStats` reports 3 situations in declaration order, and its total is the sum of the three files' lengths |
| ExcuseLoader.SumBoundsEach | utils/excuseLoader.ts:41-44 | the `reduce` sum is at least its start value and at least each listed key's list length |
| ExcuseLoader.SumZeroIff | utils/excuseLoader.ts:41-44 | the `reduce` sum is zero exactly when its start value is zero and every listed list is empty |
| ExcuseLoader.DistinctKeysCount | utils/excuseLoader.ts:40-47 | a key list without repetitions has as many entries as the key set, so `totalSituations` counts the keys |
| ExcuseCatalog.Filtered | data/excuses/index.ts:32-40 | the staged filters keep exactly the records of the list that match every given argument, and no more records than the list has |
| Seqs.Filter | data/excuses/index.ts:35 | the result is no longer than the input, holds only input elements the predicate accepts, and holds every such element |
| Seqs.FilterConcat | utils/storage.ts:118 | filtering a concatenation is the concatenation of the filtered parts, so kept elements keep their order |
| Seqs.FilterKeepsAll | data/excuses/index.ts:32-40 | a filter that accepts every element returns the list itself |
| Seqs.FilterKeepsNone | data/excuses/index.ts:42-46 | a filter that accepts no element returns the empty list, which triggers the fallback |
| Seqs.FilterTwice | data/excuses/index.ts:34-40 | two filters in a row are one filter by both predicates |
| Decimal.FromNat | utils/storage.ts:93 | the decimal text of a clock reading, as `Date.now().toString()` gives it, is a non-empty digit string without a leading zero, and reading it back gives the number |
| Decimal.ValueLeadingZero | backend/src/routes/excuses.ts:96 | a leading zero does not change the value `parseInt(_, 10)` reads from a digit run |
| FavoritesStorage.HasExcuseIff | utils/storage.ts:79 | `favorites.some(fav => fav.excuse === excuse)` holds exactly when some entry has that text |
| FavoritesStorage.NewFavorite | utils/storage.ts:92-99 | the new entry carries the given text, situation, tone and length; its id is the decimal text of one clock reading and its timestamp the other |
| FavoritesStorage.PrependKeepsValid | utils/storage.ts:79-101 | prepending a text not yet present to a list below the cap keeps at most ten entries with distinct texts |
| FavoritesStorage.WithoutId | utils/storage.ts:118 | after the removal filter no entry has that id, every entry left was in the list, and every entry with another id is kept |
| FavoritesStorage.WithoutIdConcat | utils/storage.ts:118 | removal commutes with concatenation, so the kept entries stay in their old relative order |
| FavoritesStorage.WithoutUnknownId | utils/storage.ts:118 | removing an id that no entry has changes nothing |
| FavoritesStorage.WithoutIdKeepsValid | utils/storage.ts:118 | removal keeps at most ten entries with distinct texts |
| FavoritesStorage.FavoritesStore.constructor | utils/storage.ts:53-54 | nothing stored reads as the empty list, which satisfies the ledger invariant |
| FavoritesStorage.FavoritesStore.GetFavorites | utils/storage.ts:51-63 | returns the stored list |
| FavoritesStorage.FavoritesStore.GetFavoritesCount | utils/storage.ts:160-163 | equals the length of what `getFavorites` returns |
| FavoritesStorage.FavoritesStore.IsFavorited | utils/storage.ts:133-141 | true exactly when some stored entry's text equals the argument |
| FavoritesStorage.FavoritesStore.SaveFavorite | utils/storage.ts:69-110 | a present text gives `{success: true}` with the list unchanged, even at the cap; a new text at the cap gives `{success: false, limitReached: true}` with the list unchanged; otherwise the new entry goes first, followed by the old list, or the list is unchanged and `{success: false}` is reported if the write fails; the invariant (at most ten, distinct texts) is kept |
| FavoritesStorage.FavoritesStore.RemoveFavorite | utils/storage.ts:115-128 | on a successful write the list is the old one without the entries that have that id, in order, and the result is true; on a failed write it is unchanged and the result is false; the invariant is kept |
| FavoritesStorage.FavoritesStore.ClearAllFavorites | utils/storage.ts:146-155 | on success the list is empty and the result is true; on failure the list is unchanged and the result is false |
| FavoritesStorage.ClearThenRead | utils/storage.ts:146-163 | after a successful clear, `getFavorites` returns `[]` and `getFavoritesCount` returns 0 |
| ExcuseRoutes.SkipSpaces | backend/src/routes/excuses.ts:95 | the greedy `\s*` stops at the end of the longest white-space run |
| ExcuseRoutes.SkipDigits | backend/src/routes/excuses.ts:95 | the greedy `\d+` stops at the end of the longest digit run |
| ExcuseRoutes.MarkerAt | backend/src/routes/excuses.ts:95 | a match starts at the label; only white space lies between the label and the digits; the digits are a non-empty digit run inside the text, and the greedy `\d+` takes all of it, so the match ends at the end of the text or before a non-digit |
| ExcuseRoutes.FindMarker | backend/src/routes/excuses.ts:95 | the scan reports the leftmost match at or after its start, or none when there is no match |
| ExcuseRoutes.FindsLeftmost | backend/src/routes/excuses.ts:95 | a match with no match before it is the one `match` finds |
| ExcuseRoutes.Trim | backend/src/routes/excuses.ts:97 | the trimmed text has no white space at either end |
| ExcuseRoutes.TrimUnique | backend/src/routes/excuses.ts:97 | `trim` keeps exactly the one trimmed slice that has only white space before and after it |
| ExcuseRoutes.TrimFixedPoints | backend/src/routes/excuses.ts:97 | `trim` is idempotent and leaves a text unchanged exactly when it is already trimmed |
| ExcuseRoutes.TrimAllSpaces | backend/src/routes/excuses.ts:97 | white space alone trims to the empty text |
| ExcuseRoutes.TrimAppendedSpaces | backend/src/routes/excuses.ts:97 | a trimmed text followed by white space trims back to itself |
| ExcuseRoutes.ParseBelievability | backend/src/routes/excuses.ts:95-97 | the body is always trimmed; the parse is characterized by ParseAt for a text with a match and by NoMarkerDefault for one without |
| ExcuseRoutes.ParseAt | backend/src/routes/excuses.ts:95-97 | for a match at `p` with no match before `p`, the rating is the value of that match's digits and the body is `trim(text[..p] + text[end..])`: only the leftmost occurrence is removed |
| ExcuseRoutes.FirstMarkerParsed | backend/src/routes/excuses.ts:95-97 | for a marker-free prefix, white space, the label in any letter case, white space, the full digit run and any rest: the rating is the run's value and the body is the trimmed prefix, white space and rest, later markers in the rest included |
| ExcuseRoutes.BodyAndDigitsParsed | backend/src/routes/excuses.ts:95-97 | a trimmed marker-free body, then ` BELIEVABILITY: ` and a digit run, parses to the body and the run's value |
| ExcuseRoutes.RoundTrip | backend/src/routes/excuses.ts:95-97 | parsing `b + " BELIEVABILITY: " + str(n)` for a trimmed marker-free `b` gives back `(b, n)` for every natural `n`, with no clamping |
| ExcuseRoutes.LeadingZeroRating | backend/src/routes/excuses.ts:95-97 | a rating written with a leading zero, `0n`, is read as `n`, as `parseInt` does |
| ExcuseRoutes.NoColonNoMarker | backend/src/routes/excuses.ts:95 | a text without `:` contains no match |
| ExcuseRoutes.CarBrokeDownExample | backend/src/routes/excuses.ts:95-97 | "My car broke down. BELIEVABILITY: 72" parses to ("My car broke down.", 72) |
| ExcuseRoutes.LoneLabelKept | backend/src/routes/excuses.ts:95-97 | a lone `BELIEVABILITY:` with no digits is not a match: the default rating applies and the label stays in the body |
| ExcuseRoutes.NoMarkerDefault | backend/src/routes/excuses.ts:96-97 | a text without a match gets the route's default rating and the body `trim(text)` |
| ExcuseRoutes.GeneratedRow | backend/src/routes/excuses.ts:95-108 | the saved row keeps the request's situation, tone and length; its body is trimmed; with no marker the body is `trim(text)` and the rating 50 (the same code is at lines 204-217 of the adjust route) |
| ExcuseRoutes.UltimateRow | backend/src/routes/excuses.ts:275-289 | the saved row is always situation `ULTIMATE_EASTER_EGG`, tone `Absurd`, length `Elaborate story`; its body is trimmed; with no marker the body is `trim(text)` and the rating 0 |
| ExcuseRoutes.DirectionText | backend/src/routes/excuses.ts:177 | `better` gives "more believable and realistic", and every other direction gives "more absurd and over-the-top" |

## Left out

- The LLM call, the database inserts and queries, logging, Fastify route registration and the HTTP client. These are I/O around the modelled logic.
- The platform `Storage` wrapper and `JSON.parse`/`JSON.stringify`. The persisted list is the `favorites` field.
  - A read or parse failure in `getFavorites`, which returns `[]`, is not modelled.
  - An absent key and a stored empty list are the same state.
- `Math.random()` and `Date.now()`. They are parameters, and floating-point rounding of `r * n` is not modelled.
- `parseInt` rounding to a floating-point number for very long digit runs. Ratings are unbounded naturals.
- Full Unicode case folding for the `i` flag. For this ASCII label, JavaScript's non-`u` folding agrees with the ASCII comparison used here.
- Exponent notation: `Number.prototype.toString()` writes numbers of 1e21 and above as `1e+21`, and is exact only up to 2^53. `Decimal.FromNat` models plain digits for every natural; every `Date.now()` reading is at most 8.64e15, so the one modelled call is unaffected.
- Property lookups that reach `Object.prototype`: keys such as `constructor` given as a situation. The catalog is a plain map.
- Two favorites saved in the same millisecond get the same id, and a removal by that id drops both. The model allows this, since ids come from the clock parameter, but no lemma is stated about it.
- ExcuseRoutes.GeneratedRow: its own contract states only the no-marker case. The marked case is stated by ParseAt, FirstMarkerParsed and RoundTrip about the `ParseBelievability` it calls.
- ExcuseRoutes.UltimateRow: likewise, its contract states the fixed fields and the no-marker case. The marked case is stated by the parsing lemmas.
- FavoritesStorage.FavoritesStore.SaveFavorite: the methods require the ledger invariant. Every list the ledger produces satisfies it. A stored list edited outside the app, with more than ten entries or repeated texts, is not modelled.
- Tone and length normalisation, believability estimation, rating averages, top-rated ranking and server-side favorites. No shown source file implements them.
