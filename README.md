# Recipe application state container, modelled in Dafny

This project models `src/js/model.js` of a recipe-browsing web application. The file holds
one `state` record: the current recipe, the search (query, results, page, results per page)
and the bookmark list. Around it sit a few operations:

- loading a recipe and storing the result of a search, once the fetch has settled;
- paginating the search results;
- rescaling ingredient quantities to a new number of servings;
- adding and deleting bookmarks, each of which saves the list to local storage;
- uploading a new recipe, after parsing the form's `ingredient…` entries into
  `quantity,unit,description` triples.

Layout:

- `wrappers.dfy`: `Option`, `Result` and `Outcome` (resolved, or rejected with a message).
- `js_strings.dfy`: the string built-ins the parser uses (`startsWith`, `trim`, `split`), with `Join` as the inverse of `Split`.
- `js_arrays.dfy`: the array built-ins the state uses (`slice`, `splice(start, 1)`, `findIndex`), including their handling of negative indices, and `map` with a callback that may throw, which the ingredient parser uses.
- `model.dfy`: the records and the pure rules. These are `createRecipeObject`, the search-result projection, the page window, serving rescaling, the bookmark list after a delete, and the ingredient parser. The lemmas about them live here too.
- `state.dfy`: class `State` holds the fields of `state` and the saved copy of the bookmarks. Its methods change those fields as the source does, and each method's `ensures` ties the new state to the functions in `model.dfy`.

The model keeps the source's quirks:

- `deleteBookmark` with an id that is not bookmarked calls `splice(-1, 1)`. That removes the last bookmark, or nothing when the list is empty.
- `addBookmark` never checks for duplicates.
- `loadRecipe` sets the flag by comparing with the id that was *asked for*, not the id of the fetched recipe.
- `loadSearchResults` stores the query before the fetch, so a failed search still changes the query.
- `updateServings` turns a `null` quantity into `0`, because JavaScript evaluates `null * n` as `0`.
- A key of `""` on a fetched recipe is dropped, because it is falsy.

Two properties an app like this is expected to keep are not enforced by the source: bookmark ids are unique, and the current recipe is flagged exactly when its id is bookmarked. The model follows the source and proves sufficient conditions for each:

- Flag agreement holds after a load when the fetched id is the requested one (`LoadedFlagAgrees`), and every add keeps it (`AddKeepsFlagAgreement`).
- An add keeps the ids unique exactly when the id was not bookmarked yet (`AddKeepsUniqueIds`).
- Deleting an id that is bookmarked, from a list with unique ids, keeps both properties (`DeleteKeepsFlagAgreement`).
- Two lemmas exhibit deletes that break flag agreement. One deletes an absent id, which removes the current recipe's only bookmark (`DeleteAbsentBreaksFlagAgreement`). The other deletes the id of a recipe bookmarked twice (`DeleteDuplicateBreaksFlagAgreement`).

Adding a bookmark and then deleting its id gives back the original list when the id was not bookmarked before (`AddThenDelete`). When the id was already bookmarked at position `k`, the delete removes entry `k` and the new entry stays at the end (`AddThenDeleteDuplicate`). The result equals the original list only when that moves nothing, for example when the earlier entry was the last one and equal to the new one.

## Model

| member | source | states |
|---|---|---|
| `JsStrings.StartsWith` | src/js/model.js:131 | `startsWith(prefix)`: the prefix fits in the string and equals its leading characters (a definition; used by `Model.IngredientEntries`) |
| `JsStrings.TrimStart` | src/js/model.js:133 | drops exactly the leading whitespace: the result is a suffix, what it drops is all whitespace, and it starts with a non-blank character |
| `JsStrings.TrimEnd` | src/js/model.js:133 | drops exactly the trailing whitespace: the result is a prefix, what it drops is all whitespace, and it ends with a non-blank character |
| `JsStrings.IsWhitespace` | src/js/model.js:133 | the characters `trim` removes: ECMAScript's WhiteSpace and LineTerminator code points (a definition; used by the `Trim` contracts) |
| `JsStrings.Trim` | src/js/model.js:133 | `trim` leaves no whitespace at either end, never lengthens, and returns the empty string exactly when the input is all whitespace |
| `JsStrings.TrimPadded` | src/js/model.js:133 | trimming any whitespace padding around a core that has no whitespace at its ends gives back exactly that core |
| `JsStrings.Split` | src/js/model.js:133 | `split(',')` always gives at least one piece, and no piece contains a comma |
| `JsStrings.SplitCount` | src/js/model.js:133 | `split(',')` gives exactly one more piece than there are commas |
| `JsStrings.JoinSplit` | src/js/model.js:133 | joining the pieces of a split with the separator reproduces the original string |
| `JsStrings.SplitJoin` | src/js/model.js:133 | splitting a join of separator-free pieces gives back those pieces |
| `JsArrays.RelativeIndex` | src/js/model.js:79 | a relative index inside `[0, len]` is itself, a negative one counts back from the end and stops at 0, and one past the end becomes `len` |
| `JsArrays.Slice` | src/js/model.js:79 | for bounds `0 <= start <= end`, `slice` is the window `[start, end)` cut down to the array |
| `JsArrays.SpliceOne` | src/js/model.js:108 | `splice(i, 1)` removes element `i` for an index inside the array; with `-1` it removes the last element (nothing on an empty array); past the end it changes nothing |
| `JsArrays.FindIndex` | src/js/model.js:107 | `findIndex` returns `-1` exactly when no element matches, and otherwise the first matching index |
| `Model.Truthy` | src/js/model.js:28 | a key is truthy when it is present and not the empty string (a definition; its effect is stated by `Model.CreateRecipeObject`) |
| `Model.CreateRecipeObject` | src/js/model.js:17-30 | the recipe record is the API record with `source_url`, `image_url` and `cooking_time` renamed; `key` is present exactly when the API key is truthy; the new recipe is not bookmarked |
| `Model.CreateRecipeObjectInverse` | src/js/model.js:17-30 | renaming to API fields and back is the identity, except for an empty-string key and the bookmark flag |
| `Model.ToSearchResult` | src/js/model.js:58-63 | the `{id, title, publisher, image}` projection of one fetched recipe; characterized by `Model.SearchResultMatchesRecipe` |
| `Model.ToSearchResults` | src/js/model.js:58-63 | one `{id, title, publisher, image}` projection per fetched recipe, same length and same order |
| `Model.SearchResultMatchesRecipe` | src/js/model.js:58-63 | a recipe's search entry and its loaded record agree on id, title, publisher and image |
| `Model.PageStart` | src/js/model.js:76 | `start = (page - 1) * resultsPerPage`, which is non-negative for `page >= 1` |
| `Model.PageEnd` | src/js/model.js:77 | `end = page * resultsPerPage`, exactly one page of `resultsPerPage` past the start |
| `Model.Page` | src/js/model.js:76-79 | `results.slice((page-1)*rpp, page*rpp)`; characterized by `Model.PageWindow`, `Model.PagesPrefix` and `Model.PagesReassemble` |
| `Model.PageWindow` | src/js/model.js:73-80 | for `page >= 1` the page is `results[(page-1)*rpp .. min(page*rpp, n))` in order: at most `rpp` items, empty exactly when the start is at or past the end (or `rpp` is 0) |
| `Model.SecondPageOfTwentyFive` | src/js/model.js:76-79 | with 25 results and 10 per page, page 2 is results 10 to 19 |
| `Model.PagesPrefix` | src/js/model.js:76-79 | pages `1..k` laid end to end are exactly the first `min(k*rpp, n)` results |
| `Model.PagesReassemble` | src/js/model.js:76-79 | pages `1..ceil(n/rpp)` laid end to end reproduce the results; each of them is non-empty and the next page is empty |
| `Model.IndexOnOnePage` | src/js/model.js:76-77 | an index lies in the window of page `p >= 1` exactly when `p == i / rpp + 1`, so distinct pages never overlap |
| `Model.QuantityValue` | src/js/model.js:85 | the number a quantity counts as in `ing.quantity * newServings`: its value, or 0 for null as JavaScript evaluates `null * n` (a definition; used by `Model.Rescale` and `Model.ServingsRescaled`) |
| `Model.Rescale` | src/js/model.js:85 | one quantity rescaled, `q * new / servings` with null as 0; characterized by `Model.RescaleBack` |
| `Model.ScaleIngredient` | src/js/model.js:84-86 | one ingredient with its quantity rescaled and nothing else changed; characterized by `Model.ServingsRescaled` |
| `Model.ScaleIngredients` | src/js/model.js:84-86 | the `forEach` over the ingredients: every ingredient rescaled, in order; characterized by `Model.ServingsRescaled`, and `AppState.State.UpdateServings`'s loop is proved equal to it |
| `Model.WithServings` | src/js/model.js:83-89 | the recipe after `updateServings`; characterized by `Model.ServingsRescaled` and `Model.ServingsRoundTrip` |
| `Model.ServingsRescaled` | src/js/model.js:83-89 | rescaling turns each quantity `q` into `q * new / servings` (null counting as 0) and sets servings; ingredient count, order, units, descriptions and all other fields are unchanged |
| `Model.RescaleBack` | src/js/model.js:85 | scaling a quantity to `new` servings and back to the old servings returns it (null as 0) |
| `Model.ServingsRoundTrip` | src/js/model.js:83-89 | `updateServings(n)` then `updateServings(old)` with non-zero servings restores the recipe, except that null quantities become 0 |
| `Model.ServingsRoundTripRestores` | src/js/model.js:83-89 | with no null quantity, that round trip gives back exactly the original recipe |
| `Model.IsBookmarked` | src/js/model.js:39-41 | `bookmarks.some(b => b.id === id)` (a definition; used by `AppState.State.LoadRecipe` and the bookmark lemmas) |
| `Model.SetBookmarked` | src/js/model.js:100-110 | sets the current recipe's flag when its id matches, otherwise leaves it; characterized by `Model.AddThenDeleteFlag` |
| `Model.DeleteBookmarkFrom` | src/js/model.js:107-108 | `splice(findIndex(...), 1)` on the bookmarks; characterized by `Model.DeleteBookmarkPresent` and `Model.DeleteBookmarkAbsent` |
| `Model.DeleteBookmarkPresent` | src/js/model.js:106-108 | for a bookmarked id, exactly the first bookmark with that id is removed and the others keep their order |
| `Model.DeleteBookmarkAbsent` | src/js/model.js:106-108 | for an id that is not bookmarked, the last bookmark is removed (nothing when the list is empty) |
| `Model.AddThenDelete` | src/js/model.js:97-113 | adding a recipe whose id is not bookmarked and then deleting that id restores the list |
| `Model.AddThenDeleteDuplicate` | src/js/model.js:97-113 | if the id was already bookmarked at `k`, add-then-delete removes entry `k` and keeps the new entry at the end |
| `Model.AddThenDeleteFlag` | src/js/model.js:100-110 | after add-then-delete of an id, the current recipe is unflagged if it has that id and untouched otherwise |
| `Model.LoadedFlagAgrees` | src/js/model.js:36-41 | a freshly loaded recipe whose id is the one requested is flagged exactly when that id is bookmarked |
| `Model.AddKeepsFlagAgreement` | src/js/model.js:97-103 | `addBookmark` keeps the current recipe's flag in agreement with the list |
| `Model.AddKeepsUniqueIds` | src/js/model.js:98 | on a list with unique ids, appending keeps the ids unique exactly when the id was not yet bookmarked |
| `Model.DeleteKeepsFlagAgreement` | src/js/model.js:106-113 | deleting a bookmarked id from a list with unique ids keeps the ids unique and the flag in agreement |
| `Model.DeleteAbsentBreaksFlagAgreement` | src/js/model.js:106-110 | for a flagged recipe whose bookmark is the only one, deleting any other id removes that bookmark and leaves the recipe flagged |
| `Model.DeleteDuplicateBreaksFlagAgreement` | src/js/model.js:98-110 | for a flagged recipe bookmarked twice, deleting its id leaves one copy but unflags the recipe |
| `Model.IsIngredientEntry` | src/js/model.js:131 | the `filter` callback: the key starts with `ingredient` and the value is not the empty string (a definition; characterized by `Model.IngredientEntries`) |
| `Model.IngredientEntries` | src/js/model.js:130-131 | the kept entries are exactly the form entries whose key starts with `ingredient` and whose value is not empty |
| `Model.IngredientEntriesAppend` | src/js/model.js:131 | the filter works entry by entry, so the kept entries keep their form order |
| `Model.IngredientParts` | src/js/model.js:133 | a value splits into exactly one more trimmed part than it has commas, and no part has whitespace at either end |
| `Model.ParseIngredient` | src/js/model.js:133-140 | an entry fails with the source's format message exactly when its value does not have exactly two commas, that is, exactly three parts |
| `Model.ParseFormatted` | src/js/model.js:133-140 | parsing `quantity,unit,description` built from clean fields, each with any whitespace before and after it, gives back that ingredient; an empty quantity stands for null |
| `Model.PaddedFieldsParts` | src/js/model.js:133 | splitting comma-joined fields on `,` and trimming each part removes exactly the whitespace padding around each field |
| `JsArrays.MapOrThrow` | src/js/model.js:132-141 | a `map` whose callback may throw succeeds exactly when every call returns; it then gives the results one for one and in order, and otherwise the error of the first element that throws |
| `Model.ParseIngredients` | src/js/model.js:130-141 | the ingredient list fails exactly when some `ingredient…` entry with a non-empty value lacks exactly two commas; otherwise it has one item per kept entry, in order, each the parse of that entry's value |
| `Model.Field` | src/js/model.js:144-149 | a form field is undefined exactly when no entry has that key, and otherwise is the value of an entry with that key |
| `Model.UploadRequest` | src/js/model.js:130-151 | the posted record carries the renamed form fields and the parsed ingredients, or the format error when parsing fails |
| `AppState.State.constructor` | src/js/model.js:5-14 | the initial state: no recipe, empty search on page 1, and the bookmarks read back from storage when present (lines 116-120) |
| `AppState.State.LoadRecipe` | src/js/model.js:33-48 | on success the fetched recipe becomes current, flagged exactly when some bookmark has the requested id; on failure nothing changes and the error is passed on |
| `AppState.State.LoadSearchResults` | src/js/model.js:51-70 | the query is always stored; on success the results are the projections of the fetched recipes and the page is 1; on failure nothing else changes |
| `AppState.State.GetSearchResultsPage` | src/js/model.js:73-80 | records the page (the current page when none is given) and returns its slice, which for `page >= 1` is the clamped window of at most `resultsPerPage` items |
| `AppState.State.UpdateServings` | src/js/model.js:83-89 | the loop rescales every ingredient, then sets servings; the result is the rescaled recipe, and search and bookmarks are unchanged |
| `AppState.State.PersistBookmarks` | src/js/model.js:92-94 | storage holds the whole current bookmark list |
| `AppState.State.AddBookmark` | src/js/model.js:97-103 | appends the recipe, flags the current recipe when it has that id, saves the list, and keeps the flag in agreement |
| `AppState.State.DeleteBookmark` | src/js/model.js:106-113 | removes the bookmark at the `findIndex` of the id, unflags the current recipe when it has that id, and saves the list |
| `AppState.State.UploadRecipe` | src/js/model.js:128-159 | a malformed ingredient entry or a failed post changes nothing and passes the error on; otherwise the server's recipe becomes current, is appended to the bookmarks and is flagged |

## Left out

- Network calls (`AJAX`, `async`/`await`, the catch-log-rethrow wrappers): each operation receives the settled fetch as a parameter, and the upload receives the server as a function from the posted record to its reply. Overlapping calls racing on the shared state are not modelled.
- `console.log` and `console.error` output: they are not part of the state.
- Local storage and JSON: `saved` holds the list last written. The startup `init` is the constructor, which is given the already parsed stored list. `clearBookmarks` is not modelled: nothing calls it, and it only clears storage.
- Numeric conversion with unary `+` (`quantity`, `cookingTime`, `servings`): the quantity stays as its trimmed text; `cookingTime` and `servings` stay as the form's text.
- Floating point: quantities and servings are exact `real` values, so rounding and `NaN`/`Infinity` are not modelled.
- AppState.State.UpdateServings: requires a loaded recipe with non-zero servings. On the initial empty recipe the source throws a `TypeError`, and with zero servings it turns every quantity into `Infinity` or `NaN`. A recipe with zero servings and no ingredients would be harmless in the source, because the `forEach` does nothing and only `servings` is set, but the requires excludes that case too.
- Object aliasing: recipes are values. In the source the object pushed by `addBookmark(state.recipe)` is shared with `state.recipe`. A later flag change or rescaling therefore also shows in that bookmark, and in the bookmark saved by `uploadRecipe`. The model does not capture this.
- The `bookmarked` property is `undefined` until it is first set. The model uses `false` for that, which is equally falsy.
- Object key order: the upload form is the ordered list of its entries. `Object.entries` would list integer-like keys first, which ingredient keys never are.
- Strings are sequences of Unicode scalar values, not UTF-16 code units. Ids and form values are assumed to be strings, compared with `===`.
- Repeated form keys: `newRecipe` is an object, so its keys are unique. The model's list of entries does not enforce that, and with a repeated key `Field` would read the first entry.
- Malformed API payloads (a missing `data.data.recipe`, which would throw) are not modelled.
- Page numbers below 1: `slice` itself is modelled in full, negative indices included, but the page lemmas assume `page >= 1`.
