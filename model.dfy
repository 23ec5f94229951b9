/**
 * The records of the recipe application's state container and the pure rules it applies
 * to them: the recipe projection, the search-result projection, pagination, serving
 * rescaling, bookmark-list maintenance and the parsing of uploaded ingredient entries.
 */
module Model {
  import opened Wrappers
  import opened JsStrings
  import opened JsArrays

  // ---------------------------------------------------------------- records

  /** One ingredient line; the API sends `null` for a missing quantity. */
  datatype Ingredient = Ingredient(quantity: Option<real>, unit: string, description: string)

  /** `data.data.recipe` as the API sends it; `key` is absent on recipes not uploaded with an API key. */
  datatype ApiRecipe = ApiRecipe(
    id: string, title: string, publisher: string, source_url: string, image_url: string,
    servings: real, cooking_time: real, ingredients: seq<Ingredient>, key: Option<string>)

  /** The recipe the application holds; `bookmarked` is falsy until it is set. */
  datatype Recipe = Recipe(
    id: string, title: string, publisher: string, sourceUrl: string, image: string,
    servings: real, cookingTime: real, ingredients: seq<Ingredient>, key: Option<string>,
    bookmarked: bool)

  /** One entry of `data.data.recipes` in a search response. */
  datatype ApiSearchRecipe = ApiSearchRecipe(id: string, title: string, publisher: string, image_url: string)

  /** The reduced projection of a recipe kept in the search results. */
  datatype SearchResult = SearchResult(id: string, title: string, publisher: string, image: string)

  /** `state.search`. */
  datatype Search = Search(query: string, results: seq<SearchResult>, page: int, resultsPerPage: nat)

  // ---------------------------------------------------------------- createRecipeObject

  /** `recipe.key && {...}` adds the key only when it is truthy: present and not the empty string. */
  predicate Truthy(key: Option<string>) {
    key.Some? && key.value != ""
  }

  /** The API's field names for a recipe: the inverse renaming of `CreateRecipeObject`. */
  function ToApiRecipe(r: Recipe): ApiRecipe {
    ApiRecipe(r.id, r.title, r.publisher, r.sourceUrl, r.image, r.servings, r.cookingTime, r.ingredients, r.key)
  }

  /**
   * `createRecipeObject`: renames `source_url`, `image_url` and `cooking_time`, keeps every other
   * field, and carries `key` over only when it is truthy. The new recipe is not yet bookmarked.
   */
  function CreateRecipeObject(raw: ApiRecipe): (r: Recipe)
    ensures ToApiRecipe(r) == raw.(key := r.key)
    ensures r.key.Some? <==> Truthy(raw.key)
    ensures r.key.Some? ==> r.key == raw.key
    ensures !r.bookmarked
  {
    Recipe(raw.id, raw.title, raw.publisher, raw.source_url, raw.image_url, raw.servings,
           raw.cooking_time, raw.ingredients, if Truthy(raw.key) then raw.key else None, false)
  }

  /** Renaming back and forth loses nothing except an empty-string key and the bookmark flag. */
  lemma CreateRecipeObjectInverse(raw: ApiRecipe, r: Recipe)
    ensures raw.key != Some("") ==> ToApiRecipe(CreateRecipeObject(raw)) == raw
    ensures !r.bookmarked && r.key != Some("") ==> CreateRecipeObject(ToApiRecipe(r)) == r
  {
  }

  // ---------------------------------------------------------------- search results

  /** The projection `rec => ({id, title, publisher, image: rec.image_url})`. */
  function ToSearchResult(rec: ApiSearchRecipe): SearchResult {
    SearchResult(rec.id, rec.title, rec.publisher, rec.image_url)
  }

  /** `data.data.recipes.map(...)`: one projection per fetched recipe, in the same order. */
  function ToSearchResults(recs: seq<ApiSearchRecipe>): (r: seq<SearchResult>)
    ensures |r| == |recs|
    ensures forall i :: 0 <= i < |recs| ==> r[i] == ToSearchResult(recs[i])
  {
    if recs == [] then []
    else
      assert forall i :: 1 <= i < |recs| ==> recs[i] == recs[1..][i - 1];
      [ToSearchResult(recs[0])] + ToSearchResults(recs[1..])
  }

  /** The projections of a recipe and of its search entry agree on every field they share. */
  lemma SearchResultMatchesRecipe(raw: ApiRecipe)
    ensures var s := ToSearchResult(ApiSearchRecipe(raw.id, raw.title, raw.publisher, raw.image_url));
            var r := CreateRecipeObject(raw);
            s.id == r.id && s.title == r.title && s.publisher == r.publisher && s.image == r.image
  {
  }

  // ---------------------------------------------------------------- pagination

  /** `start = (page - 1) * resultsPerPage`. */
  function PageStart(page: int, rpp: nat): (r: int)
    ensures page >= 1 ==> r >= 0
  {
    if page >= 1 then MulNonNegative(page - 1, rpp); (page - 1) * rpp else (page - 1) * rpp
  }

  /** `end = page * resultsPerPage`, one page past the start. */
  function PageEnd(page: int, rpp: nat): (r: int)
    ensures r == PageStart(page, rpp) + rpp
  {
    page * rpp
  }

  /** `results.slice(start, end)`. */
  function Page<T>(results: seq<T>, page: int, rpp: nat): seq<T> {
    Slice(results, PageStart(page, rpp), PageEnd(page, rpp))
  }

  /**
   * For `page >= 1` the page is the window of `rpp` results starting at `(page - 1) * rpp`,
   * clamped to the list, in the original order: at most `rpp` items, and empty exactly when
   * the window starts at or beyond the end (or `rpp` is zero).
   */
  lemma PageWindow<T>(results: seq<T>, page: int, rpp: nat)
    requires page >= 1
    ensures var start, n, r := PageStart(page, rpp), |results|, Page(results, page, rpp);
            r == results[Min(start, n)..Min(start + rpp, n)] &&
            |r| <= rpp &&
            (r == [] <==> rpp == 0 || start >= n) &&
            forall k :: 0 <= k < |r| ==> r[k] == results[start + k]
  {
  }

  lemma MulNonNegative(a: int, b: int)
    requires 0 <= a && 0 <= b
    ensures 0 <= a * b
  {
  }

  /** With 25 results and 10 per page, page 2 holds results 10 to 19. */
  lemma SecondPageOfTwentyFive<T>(results: seq<T>)
    requires |results| == 25
    ensures Page(results, 2, 10) == results[10..20]
  {
  }

  /** Pages `1..k` laid end to end. */
  function Pages<T>(results: seq<T>, rpp: nat, k: nat): seq<T> {
    if k == 0 then [] else Pages(results, rpp, k - 1) + Page(results, k, rpp)
  }

  /** Pages `1..k` together are exactly the first `k * rpp` results (or all of them, if there are fewer). */
  lemma {:induction false} PagesPrefix<T>(results: seq<T>, rpp: nat, k: nat)
    ensures k >= 1 ==> Pages(results, rpp, k) == results[..Min(PageEnd(k, rpp), |results|)]
  {
    if k > 1 {
      PagesPrefix(results, rpp, k - 1);
      PageWindow(results, k, rpp);
      var a, b := Min(PageStart(k, rpp), |results|), Min(PageEnd(k, rpp), |results|);
      assert PageStart(k, rpp) == PageEnd(k - 1, rpp);
      assert results[..a] + results[a..b] == results[..b];
    } else if k == 1 {
      PageWindow(results, 1, rpp);
      assert PageStart(1, rpp) == 0;
    }
  }

  /** The number of pages, `Math.ceil(n / rpp)`. */
  function PageCount(n: nat, rpp: nat): nat
    requires rpp > 0
  {
    (n + rpp - 1) / rpp
  }

  /**
   * Laying pages `1..PageCount` end to end reproduces the results exactly; each of those
   * pages is non-empty and the page after them is empty.
   */
  lemma PagesReassemble<T>(results: seq<T>, rpp: nat)
    requires rpp > 0
    ensures Pages(results, rpp, PageCount(|results|, rpp)) == results
    ensures forall p :: 1 <= p <= PageCount(|results|, rpp) ==> Page(results, p, rpp) != []
    ensures Page(results, PageCount(|results|, rpp) + 1, rpp) == []
  {
    var n, c := |results|, PageCount(|results|, rpp);
    CeilingBounds(n, rpp);
    if c >= 1 {
      PagesPrefix(results, rpp, c);
      assert results[..n] == results;
    }
    forall p | 1 <= p <= c ensures Page(results, p, rpp) != [] {
      PageNotEmpty(results, rpp, p);
    }
    PageWindow(results, c + 1, rpp);
  }

  lemma PageNotEmpty<T>(results: seq<T>, rpp: nat, p: int)
    requires rpp > 0 && 1 <= p <= PageCount(|results|, rpp)
    ensures Page(results, p, rpp) != []
  {
    var c := PageCount(|results|, rpp);
    CeilingBounds(|results|, rpp);
    PageWindow(results, p, rpp);
    MulMonotone(p - 1, c - 1, rpp);
  }

  /** `PageCount` pages are enough for `n` results, and one fewer is not. */
  lemma CeilingBounds(n: nat, rpp: nat)
    requires rpp > 0
    ensures PageEnd(PageCount(n, rpp), rpp) >= n
    ensures PageCount(n, rpp) >= 1 ==> PageStart(PageCount(n, rpp), rpp) < n
  {
    var c, m := PageCount(n, rpp), (n + rpp - 1) % rpp;
    assert c * rpp + m == n + rpp - 1;
    assert (c - 1) * rpp == c * rpp - rpp;
  }

  lemma MulMonotone(a: int, b: int, m: nat)
    requires a <= b
    ensures a * m <= b * m
  {
  }

  /**
   * Distinct pages never overlap: for `page >= 1` an index lies in the window of that page
   * exactly when the page is `i / rpp + 1`.
   */
  lemma IndexOnOnePage(i: nat, page: int, rpp: nat)
    requires rpp > 0 && page >= 1
    ensures (page - 1) * rpp <= i < page * rpp <==> page == i / rpp + 1
  {
    var q, m := i / rpp, i % rpp;
    assert i == q * rpp + m;
    if page == q + 1 {
      assert (page - 1) * rpp == q * rpp;
      assert page * rpp == q * rpp + rpp;
    } else if page <= q {
      MulMonotone(page, q, rpp);
    } else {
      MulMonotone(q + 1, page - 1, rpp);
      assert (q + 1) * rpp == q * rpp + rpp;
    }
  }

  // ---------------------------------------------------------------- servings

  /** JavaScript evaluates `null * n` as `0`, so a missing quantity counts as zero. */
  function QuantityValue(q: Option<real>): real {
    q.GetOr(0.0)
  }

  /** `(quantity * newServings) / servings`, with a missing quantity counting as zero. */
  function Rescale(quantity: Option<real>, newServings: real, servings: real): real
    requires servings != 0.0
  {
    (QuantityValue(quantity) * newServings) / servings
  }

  /** `ing.quantity = (ing.quantity * newServings) / servings`. */
  function ScaleIngredient(ing: Ingredient, newServings: real, servings: real): Ingredient
    requires servings != 0.0
  {
    ing.(quantity := Some(Rescale(ing.quantity, newServings, servings)))
  }

  /** Every ingredient of the list rescaled, in place. */
  function ScaleIngredients(ings: seq<Ingredient>, newServings: real, servings: real): seq<Ingredient>
    requires servings != 0.0
  {
    seq(|ings|, i requires 0 <= i < |ings| => ScaleIngredient(ings[i], newServings, servings))
  }

  /** The recipe after `updateServings(newServings)`. */
  function WithServings(r: Recipe, newServings: real): Recipe
    requires r.servings != 0.0
  {
    r.(ingredients := ScaleIngredients(r.ingredients, newServings, r.servings), servings := newServings)
  }

  /**
   * Rescaling replaces every quantity `q` by `q * newServings / servings` (a missing quantity
   * counting as zero), sets the servings, and leaves the ingredient count, order, units,
   * descriptions and every other field unchanged.
   */
  lemma ServingsRescaled(r: Recipe, newServings: real)
    requires r.servings != 0.0
    ensures var s := WithServings(r, newServings);
            s.servings == newServings &&
            s.(ingredients := r.ingredients, servings := r.servings) == r &&
            |s.ingredients| == |r.ingredients| &&
            forall i :: 0 <= i < |r.ingredients| ==>
              s.ingredients[i].unit == r.ingredients[i].unit &&
              s.ingredients[i].description == r.ingredients[i].description &&
              s.ingredients[i].quantity == Some(Rescale(r.ingredients[i].quantity, newServings, r.servings))
  {
  }

  /** Scaling a quantity from `servings` to `newServings` and back gives it back (a missing one as zero). */
  lemma RescaleBack(q: Option<real>, newServings: real, servings: real)
    requires servings != 0.0 && newServings != 0.0
    ensures Rescale(Some(Rescale(q, newServings, servings)), servings, newServings) == QuantityValue(q)
  {
    var v := QuantityValue(q);
    var x := (v * newServings) / servings;
    assert x * servings == v * newServings;
  }

  /** The ingredients with every missing quantity replaced by zero. */
  function NullsAsZero(ings: seq<Ingredient>): seq<Ingredient> {
    seq(|ings|, i requires 0 <= i < |ings| => ings[i].(quantity := Some(QuantityValue(ings[i].quantity))))
  }

  /**
   * Rescaling to `newServings` and back to the original servings restores every quantity;
   * the only trace left is that missing quantities have become zero.
   */
  lemma ServingsRoundTrip(r: Recipe, newServings: real)
    requires r.servings != 0.0 && newServings != 0.0
    ensures WithServings(WithServings(r, newServings), r.servings) == r.(ingredients := NullsAsZero(r.ingredients))
  {
    var once := WithServings(r, newServings);
    var twice := WithServings(once, r.servings);
    var expected := NullsAsZero(r.ingredients);
    forall i | 0 <= i < |r.ingredients| ensures twice.ingredients[i] == expected[i] {
      assert once.ingredients[i] == ScaleIngredient(r.ingredients[i], newServings, r.servings);
      assert twice.ingredients[i] == ScaleIngredient(once.ingredients[i], r.servings, newServings);
      RescaleBack(r.ingredients[i].quantity, newServings, r.servings);
    }
    assert twice.ingredients == expected;
  }

  /** With no missing quantity the round trip gives back the recipe itself. */
  lemma ServingsRoundTripRestores(r: Recipe, newServings: real)
    requires r.servings != 0.0 && newServings != 0.0
    requires forall i :: 0 <= i < |r.ingredients| ==> r.ingredients[i].quantity.Some?
    ensures WithServings(WithServings(r, newServings), r.servings) == r
  {
    ServingsRoundTrip(r, newServings);
    assert NullsAsZero(r.ingredients) == r.ingredients;
  }

  // ---------------------------------------------------------------- bookmarks

  /** `bookmarks.some(bookmark => bookmark.id === id)`. */
  predicate IsBookmarked(bookmarks: seq<Recipe>, id: string) {
    exists i :: 0 <= i < |bookmarks| && bookmarks[i].id == id
  }

  /** `if (id === state.recipe.id) state.recipe.bookmarked = flag`; an empty current recipe has no id. */
  function SetBookmarked(current: Option<Recipe>, id: string, flag: bool): Option<Recipe> {
    if current.Some? && current.value.id == id then Some(current.value.(bookmarked := flag)) else current
  }

  /** What `bookmarks.splice(bookmarks.findIndex(el => el.id === id), 1)` leaves behind. */
  function DeleteBookmarkFrom(bookmarks: seq<Recipe>, id: string): seq<Recipe> {
    SpliceOne(bookmarks, FindIndex(bookmarks, (b: Recipe) => b.id == id))
  }

  /** A present id: exactly the first bookmark with that id goes, the others keep their order. */
  lemma DeleteBookmarkPresent(bookmarks: seq<Recipe>, id: string, k: nat)
    requires k < |bookmarks| && bookmarks[k].id == id
    requires forall j :: 0 <= j < k ==> bookmarks[j].id != id
    ensures DeleteBookmarkFrom(bookmarks, id) == bookmarks[..k] + bookmarks[k + 1..]
  {
  }

  /** An absent id hits `splice(-1, 1)`: the last bookmark goes (nothing when the list is empty). */
  lemma DeleteBookmarkAbsent(bookmarks: seq<Recipe>, id: string)
    requires !IsBookmarked(bookmarks, id)
    ensures DeleteBookmarkFrom(bookmarks, id) == if bookmarks == [] then [] else bookmarks[..|bookmarks| - 1]
  {
  }

  /** Adding a recipe whose id is not yet bookmarked and then deleting that id restores the list. */
  lemma AddThenDelete(bookmarks: seq<Recipe>, r: Recipe)
    requires !IsBookmarked(bookmarks, r.id)
    ensures DeleteBookmarkFrom(bookmarks + [r], r.id) == bookmarks
  {
    var s := bookmarks + [r];
    forall j | 0 <= j < |bookmarks| ensures s[j].id != r.id {
      assert s[j] == bookmarks[j];
    }
    DeleteBookmarkPresent(s, r.id, |bookmarks|);
    assert s[..|bookmarks|] == bookmarks;
  }

  /**
   * `addBookmark` does not check for duplicates: when the id is already bookmarked at `k`,
   * deleting it afterwards removes the older entry and keeps the new one at the end.
   */
  lemma AddThenDeleteDuplicate(bookmarks: seq<Recipe>, r: Recipe, k: nat)
    requires k < |bookmarks| && bookmarks[k].id == r.id
    requires forall j :: 0 <= j < k ==> bookmarks[j].id != r.id
    ensures DeleteBookmarkFrom(bookmarks + [r], r.id) == bookmarks[..k] + bookmarks[k + 1..] + [r]
  {
    var s := bookmarks + [r];
    forall j | 0 <= j < k ensures s[j].id != r.id {
      assert s[j] == bookmarks[j];
    }
    DeleteBookmarkPresent(s, r.id, k);
    assert s[..k] == bookmarks[..k];
    assert s[k + 1..] == bookmarks[k + 1..] + [r];
  }

  /** The flag of the current recipe after adding then deleting `id`: cleared if it is that recipe, untouched otherwise. */
  lemma AddThenDeleteFlag(current: Option<Recipe>, id: string)
    ensures SetBookmarked(SetBookmarked(current, id, true), id, false) ==
            if current.Some? && current.value.id == id then Some(current.value.(bookmarked := false)) else current
  {
  }

  /** The intended invariant: the current recipe is flagged exactly when its id is bookmarked. */
  predicate FlagAgrees(current: Option<Recipe>, bookmarks: seq<Recipe>) {
    current.Some? ==> (current.value.bookmarked <==> IsBookmarked(bookmarks, current.value.id))
  }

  /** No two bookmarks share an id. */
  predicate UniqueIds(bookmarks: seq<Recipe>) {
    forall i, j :: 0 <= i < j < |bookmarks| ==> bookmarks[i].id != bookmarks[j].id
  }

  /** The flag a freshly loaded recipe gets agrees with the list when the fetched id is the one asked for. */
  lemma LoadedFlagAgrees(raw: ApiRecipe, id: string, bookmarks: seq<Recipe>)
    requires raw.id == id
    ensures FlagAgrees(Some(CreateRecipeObject(raw).(bookmarked := IsBookmarked(bookmarks, id))), bookmarks)
  {
  }

  /** `addBookmark` keeps the flag in agreement with the list. */
  lemma AddKeepsFlagAgreement(current: Option<Recipe>, bookmarks: seq<Recipe>, r: Recipe)
    requires FlagAgrees(current, bookmarks)
    ensures FlagAgrees(SetBookmarked(current, r.id, true), bookmarks + [r])
  {
    var s := bookmarks + [r];
    assert s[|bookmarks|] == r;
    if current.Some? && IsBookmarked(s, current.value.id) && current.value.id != r.id {
      var i :| 0 <= i < |s| && s[i].id == current.value.id;
      assert s[i] == bookmarks[i];
    }
    if current.Some? && IsBookmarked(bookmarks, current.value.id) {
      var i :| 0 <= i < |bookmarks| && bookmarks[i].id == current.value.id;
      assert s[i] == bookmarks[i];
    }
  }

  /** With unique ids, adding keeps them unique exactly when the id was not yet bookmarked. */
  lemma AddKeepsUniqueIds(bookmarks: seq<Recipe>, r: Recipe)
    requires UniqueIds(bookmarks)
    ensures UniqueIds(bookmarks + [r]) <==> !IsBookmarked(bookmarks, r.id)
  {
    var s := bookmarks + [r];
    if IsBookmarked(bookmarks, r.id) {
      var i :| 0 <= i < |bookmarks| && bookmarks[i].id == r.id;
      assert s[i].id == s[|bookmarks|].id;
    } else {
      forall i, j | 0 <= i < j < |s| ensures s[i].id != s[j].id {
        assert s[i] == bookmarks[i];
        if j < |bookmarks| { assert s[j] == bookmarks[j]; }
      }
    }
  }

  /** Removing entry `k` from a list with unique ids keeps them unique and drops exactly that entry's id. */
  lemma RemoveAtKeepsOthers(bookmarks: seq<Recipe>, k: nat, x: string)
    requires k < |bookmarks| && UniqueIds(bookmarks)
    ensures UniqueIds(bookmarks[..k] + bookmarks[k + 1..])
    ensures IsBookmarked(bookmarks[..k] + bookmarks[k + 1..], x) <==> IsBookmarked(bookmarks, x) && bookmarks[k].id != x
  {
    var s := bookmarks[..k] + bookmarks[k + 1..];
    assert forall i :: 0 <= i < |s| ==> s[i] == bookmarks[if i < k then i else i + 1];
    if IsBookmarked(bookmarks, x) && bookmarks[k].id != x {
      var j :| 0 <= j < |bookmarks| && bookmarks[j].id == x;
      assert s[if j < k then j else j - 1] == bookmarks[j];
    }
  }

  /** Deleting a bookmarked id from a list with unique ids keeps the ids unique and the flag in agreement. */
  lemma DeleteKeepsFlagAgreement(current: Option<Recipe>, bookmarks: seq<Recipe>, id: string)
    requires FlagAgrees(current, bookmarks) && UniqueIds(bookmarks) && IsBookmarked(bookmarks, id)
    ensures UniqueIds(DeleteBookmarkFrom(bookmarks, id))
    ensures FlagAgrees(SetBookmarked(current, id, false), DeleteBookmarkFrom(bookmarks, id))
  {
    var k :| 0 <= k < |bookmarks| && bookmarks[k].id == id;
    assert forall j :: 0 <= j < k ==> bookmarks[j].id != id;
    DeleteBookmarkPresent(bookmarks, id, k);
    if current.Some? {
      RemoveAtKeepsOthers(bookmarks, k, current.value.id);
    } else {
      RemoveAtKeepsOthers(bookmarks, k, id);
    }
  }

  /**
   * Deleting an id that is not bookmarked removes the last bookmark, which may be the current
   * recipe's own, and leaves the recipe flagged.
   */
  lemma DeleteAbsentBreaksFlagAgreement(r: Recipe, id: string)
    requires r.bookmarked && id != r.id
    ensures FlagAgrees(Some(r), [r])
    ensures DeleteBookmarkFrom([r], id) == []
    ensures !FlagAgrees(SetBookmarked(Some(r), id, false), DeleteBookmarkFrom([r], id))
  {
    assert [r][0] == r;
    DeleteBookmarkAbsent([r], id);
  }

  /**
   * With a duplicate id (which `addBookmark` allows), deleting it unflags the current recipe
   * although its id is still bookmarked.
   */
  lemma DeleteDuplicateBreaksFlagAgreement(r: Recipe)
    requires r.bookmarked
    ensures FlagAgrees(Some(r), [r, r])
    ensures DeleteBookmarkFrom([r, r], r.id) == [r]
    ensures !FlagAgrees(SetBookmarked(Some(r), r.id, false), DeleteBookmarkFrom([r, r], r.id))
  {
    assert [r, r][0] == r;
    DeleteBookmarkPresent([r, r], r.id, 0);
    assert [r, r][1..] == [r];
    assert [r][0] == r;
  }

  // ---------------------------------------------------------------- uploadRecipe: ingredient entries

  const IngredientPrefix := "ingredient"
  const WrongFormatMessage := "Wrong ingredient format! Please use the correct format :)"

  /** An ingredient as it is posted: the quantity stays the trimmed text (its numeric conversion is not modelled). */
  datatype ParsedIngredient = ParsedIngredient(quantity: Option<string>, unit: string, description: string)

  /** The filter: a key starting with `ingredient` and a value that is not the empty string. */
  predicate IsIngredientEntry(entry: (string, string)) {
    StartsWith(entry.0, IngredientPrefix) && entry.1 != ""
  }

  /** `Object.entries(newRecipe).filter(...)`: the ingredient entries in their original order. */
  function IngredientEntries(form: seq<(string, string)>): (r: seq<(string, string)>)
    ensures |r| <= |form|
    ensures forall e :: e in r <==> e in form && IsIngredientEntry(e)
  {
    if form == [] then []
    else
      var rest := IngredientEntries(form[1..]);
      assert form == [form[0]] + form[1..];
      if IsIngredientEntry(form[0]) then [form[0]] + rest else rest
  }

  /** The filter works entry by entry: filtering a concatenation concatenates the filtered parts. */
  lemma {:induction false} IngredientEntriesAppend(a: seq<(string, string)>, b: seq<(string, string)>)
    ensures IngredientEntries(a + b) == IngredientEntries(a) + IngredientEntries(b)
  {
    if a != [] {
      assert (a + b)[0] == a[0];
      assert (a + b)[1..] == a[1..] + b;
      IngredientEntriesAppend(a[1..], b);
    } else {
      assert a + b == b;
    }
  }

  /** `value.split(',').map(el => el.trim())`: one part more than there are commas, none with a blank end. */
  function IngredientParts(value: string): (r: seq<string>)
    ensures |r| == multiset(value)[','] + 1
    ensures forall i :: 0 <= i < |r| && r[i] != [] ==> !IsWhitespace(r[i][0]) && !IsWhitespace(r[i][|r[i]| - 1])
  {
    SplitCount(value, ',');
    var parts := Split(value, ',');
    seq(|parts|, i requires 0 <= i < |parts| => Trim(parts[i]))
  }

  /**
   * One kept entry: exactly three parts are required (so exactly two commas), and an empty
   * quantity becomes `null`.
   */
  function ParseIngredient(value: string): (r: Result<ParsedIngredient>)
    ensures r.Err? <==> multiset(value)[','] != 2
    ensures r.Err? ==> r.message == WrongFormatMessage
  {
    var parts := IngredientParts(value);
    if |parts| != 3 then Err(WrongFormatMessage)
    else Ok(ParsedIngredient(if parts[0] == "" then None else Some(parts[0]), parts[1], parts[2]))
  }

  /** A field with no comma and no surrounding whitespace. */
  predicate IsCleanField(s: string) {
    ',' !in s && (s != [] ==> !IsWhitespace(s[0]) && !IsWhitespace(s[|s| - 1]))
  }

  /** Each field with its own whitespace padding before and after it. */
  function Pad(fields: seq<string>, lead: seq<string>, trail: seq<string>): seq<string>
    requires |lead| == |fields| == |trail|
  {
    seq(|fields|, i requires 0 <= i < |fields| => lead[i] + fields[i] + trail[i])
  }

  /**
   * How a user types an ingredient: `quantity,unit,description`, each field with any whitespace
   * around it, an empty quantity standing for none.
   */
  function FormatIngredient(p: ParsedIngredient, lead: seq<string>, trail: seq<string>): string
    requires |lead| == 3 && |trail| == 3
  {
    Join(Pad([p.quantity.GetOr(""), p.unit, p.description], lead, trail), ',')
  }

  /** Parsing the typed form of an ingredient with clean fields gives the ingredient back, whatever the padding. */
  lemma ParseFormatted(p: ParsedIngredient, lead: seq<string>, trail: seq<string>)
    requires IsCleanField(p.quantity.GetOr("")) && IsCleanField(p.unit) && IsCleanField(p.description)
    requires p.quantity != Some("")
    requires |lead| == 3 && |trail| == 3
    requires forall i :: 0 <= i < 3 ==> AllWhitespace(lead[i]) && AllWhitespace(trail[i])
    ensures ParseIngredient(FormatIngredient(p, lead, trail)) == Ok(p)
  {
    var fields := [p.quantity.GetOr(""), p.unit, p.description];
    PaddedFieldsParts(fields, lead, trail);
    assert IngredientParts(FormatIngredient(p, lead, trail)) == fields;
  }

  /** Whitespace is never a comma. */
  lemma BlankHasNoComma(s: string)
    requires AllWhitespace(s)
    ensures ',' !in s
  {
  }

  /** The trimmed parts of padded clean fields joined with commas are the fields themselves. */
  lemma PaddedFieldsParts(fields: seq<string>, lead: seq<string>, trail: seq<string>)
    requires |fields| >= 1 && |lead| == |fields| == |trail|
    requires forall i :: 0 <= i < |fields| ==> IsCleanField(fields[i])
    requires forall i :: 0 <= i < |fields| ==> AllWhitespace(lead[i]) && AllWhitespace(trail[i])
    ensures IngredientParts(Join(Pad(fields, lead, trail), ',')) == fields
  {
    var padded := Pad(fields, lead, trail);
    forall i | 0 <= i < |padded| ensures ',' !in padded[i] {
      BlankHasNoComma(lead[i]);
      BlankHasNoComma(trail[i]);
    }
    SplitJoin(padded, ',');
    var parts := IngredientParts(Join(padded, ','));
    assert |parts| == |fields|;
    forall i | 0 <= i < |fields| ensures parts[i] == fields[i] {
      TrimPadded(lead[i], fields[i], trail[i]);
    }
  }

  /**
   * The ingredient list of an upload, the `map` over the kept entries: it fails with the format
   * error exactly when some entry with an `ingredient` key and a non-empty value does not have
   * exactly two commas, and otherwise holds one parsed ingredient per kept entry, in order.
   */
  function ParseIngredients(form: seq<(string, string)>): (r: Result<seq<ParsedIngredient>>)
    ensures r.Err? <==> exists e :: e in form && IsIngredientEntry(e) && multiset(e.1)[','] != 2
    ensures r.Err? ==> r.message == WrongFormatMessage
    ensures r.Ok? ==> var kept := IngredientEntries(form);
                      |r.value| == |kept| &&
                      forall i :: 0 <= i < |kept| ==> ParseIngredient(kept[i].1) == Ok(r.value[i])
  {
    var kept := IngredientEntries(form);
    var parse := (e: (string, string)) => ParseIngredient(e.1);
    var r := MapOrThrow(kept, parse);
    assert r.Err? ==> exists i :: 0 <= i < |kept| && parse(kept[i]).Err?;
    assert r.Ok? ==> forall i :: 0 <= i < |kept| ==> parse(kept[i]) == Ok(r.value[i]);
    r
  }

  // ---------------------------------------------------------------- uploadRecipe: the posted record

  /** The body of the upload POST; numeric fields stay as the form's text. */
  datatype UploadPayload = UploadPayload(
    title: Option<string>, source_url: Option<string>, image_url: Option<string>,
    publisher: Option<string>, cooking_time: Option<string>, servings: Option<string>,
    ingredients: seq<ParsedIngredient>)

  /** `newRecipe[name]`: the value of the entry with that key, `undefined` when there is none. */
  function Field(form: seq<(string, string)>, name: string): (r: Option<string>)
    ensures r.None? <==> forall i :: 0 <= i < |form| ==> form[i].0 != name
    ensures r.Some? ==> exists i :: 0 <= i < |form| && form[i] == (name, r.value)
  {
    var k := FindIndex(form, (e: (string, string)) => e.0 == name);
    if k < 0 then None else Some(form[k].1)
  }

  /**
   * The record `uploadRecipe` posts: the renamed form fields and the parsed ingredients,
   * or the format error raised before anything is sent.
   */
  function UploadRequest(form: seq<(string, string)>): (r: Result<UploadPayload>)
    ensures r.Err? <==> ParseIngredients(form).Err?
    ensures r.Err? ==> r.message == WrongFormatMessage
    ensures r.Ok? ==> r.value.ingredients == ParseIngredients(form).value &&
                      r.value.title == Field(form, "title") && r.value.source_url == Field(form, "sourceUrl") &&
                      r.value.image_url == Field(form, "image") && r.value.publisher == Field(form, "publisher") &&
                      r.value.cooking_time == Field(form, "cookingTime") && r.value.servings == Field(form, "servings")
  {
    match ParseIngredients(form)
    case Err(m) => Err(m)
    case Ok(ingredients) =>
      Ok(UploadPayload(Field(form, "title"), Field(form, "sourceUrl"), Field(form, "image"),
                       Field(form, "publisher"), Field(form, "cookingTime"), Field(form, "servings"),
                       ingredients))
  }
}
