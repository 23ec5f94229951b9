/**
 * The process-wide `state` record of the recipe application and the operations that change it.
 * Network calls are not made here: each operation that awaits a fetch is given the settled
 * fetch (a payload or the error it rejected with), and the upload is given the server as a
 * function from the posted record to its reply.
 */
module AppState {
  import opened Wrappers
  import opened JsArrays
  import opened Model

  class State {
    /** `state.recipe`; `None` is the initial empty object `{}`. */
    var recipe: Option<Recipe>
    /** `state.search`. */
    var search: Search
    /** `state.bookmarks`. */
    var bookmarks: seq<Recipe>
    /** The `bookmarks` entry of local storage, as last written. */
    var saved: Option<seq<Recipe>>

    /** The module's load: the initial record, with the bookmarks read back from storage when there are any. */
    constructor (resultsPerPage: nat, stored: Option<seq<Recipe>>)
      ensures recipe == None && search == Search("", [], 1, resultsPerPage)
      ensures bookmarks == stored.GetOr([]) && saved == stored
    {
      recipe := None;
      search := Search("", [], 1, resultsPerPage);
      bookmarks := if stored.Some? then stored.value else [];
      saved := stored;
    }

    /**
     * `loadRecipe(id)` once its fetch has settled: on success the fetched recipe becomes current,
     * flagged exactly when some bookmark has the id that was asked for; on failure nothing changes
     * and the error is passed on.
     */
    method LoadRecipe(id: string, fetched: Result<ApiRecipe>) returns (outcome: Outcome)
      modifies this
      ensures fetched.Err? ==> outcome == Failed(fetched.message) && unchanged(this)
      ensures fetched.Ok? ==>
                outcome == Done &&
                recipe == Some(CreateRecipeObject(fetched.value).(bookmarked := IsBookmarked(bookmarks, id))) &&
                search == old(search) && bookmarks == old(bookmarks) && saved == old(saved)
      ensures fetched.Ok? && fetched.value.id == id ==> FlagAgrees(recipe, bookmarks)
    {
      if fetched.Err? {
        return Failed(fetched.message);
      }
      var loaded := CreateRecipeObject(fetched.value);
      recipe := Some(loaded.(bookmarked := IsBookmarked(bookmarks, id)));
      if fetched.value.id == id {
        LoadedFlagAgrees(fetched.value, id, bookmarks);
      }
      outcome := Done;
    }

    /**
     * `loadSearchResults(query)`: the query is stored before the fetch, so it is kept even when
     * the fetch fails; on success the results become one projection per fetched recipe, in order,
     * and the page goes back to 1.
     */
    method LoadSearchResults(query: string, fetched: Result<seq<ApiSearchRecipe>>) returns (outcome: Outcome)
      modifies this
      ensures recipe == old(recipe) && bookmarks == old(bookmarks) && saved == old(saved)
      ensures fetched.Err? ==> outcome == Failed(fetched.message) && search == old(search).(query := query)
      ensures fetched.Ok? ==>
                outcome == Done &&
                search == old(search).(query := query, results := ToSearchResults(fetched.value), page := 1)
    {
      search := search.(query := query);
      if fetched.Err? {
        return Failed(fetched.message);
      }
      search := search.(results := ToSearchResults(fetched.value));
      search := search.(page := 1);
      outcome := Done;
    }

    /**
     * `getSearchResultsPage(page = state.search.page)`: records the page, then returns its slice
     * of the results; for a page of 1 or more that is the window of `resultsPerPage` results
     * starting at `(page - 1) * resultsPerPage`, cut down to the list.
     */
    method GetSearchResultsPage(page: Option<int>) returns (r: seq<SearchResult>)
      modifies this
      ensures var p := page.GetOr(old(search.page));
              search == old(search).(page := p) && r == Page(search.results, p, search.resultsPerPage)
      ensures var p, rpp, n := search.page, search.resultsPerPage, |search.results|;
              p >= 1 ==> |r| <= rpp && r == search.results[Min(PageStart(p, rpp), n)..Min(PageStart(p, rpp) + rpp, n)]
      ensures recipe == old(recipe) && bookmarks == old(bookmarks) && saved == old(saved)
    {
      var p := if page.Some? then page.value else search.page;
      search := search.(page := p);
      r := Page(search.results, p, search.resultsPerPage);
      if p >= 1 {
        PageWindow(search.results, p, search.resultsPerPage);
      }
    }

    /**
     * `updateServings(newServings)`: every ingredient quantity is rescaled in place by
     * `newServings / servings`, then the servings are set. The current recipe must be loaded
     * and its servings non-zero.
     */
    method UpdateServings(newServings: real)
      requires recipe.Some? && recipe.value.servings != 0.0
      modifies this
      ensures recipe == Some(WithServings(old(recipe.value), newServings))
      ensures search == old(search) && bookmarks == old(bookmarks) && saved == old(saved)
    {
      var current := recipe.value;
      var ings := current.ingredients;
      var i := 0;
      while i < |ings|
        invariant 0 <= i <= |ings| == |current.ingredients|
        invariant forall k :: 0 <= k < i ==> ings[k] == ScaleIngredient(current.ingredients[k], newServings, current.servings)
        invariant forall k :: i <= k < |ings| ==> ings[k] == current.ingredients[k]
      {
        ings := ings[i := ScaleIngredient(ings[i], newServings, current.servings)];
        i := i + 1;
      }
      assert ings == ScaleIngredients(current.ingredients, newServings, current.servings);
      recipe := Some(current.(ingredients := ings, servings := newServings));
    }

    /** `persistBookmarks`: the whole list is written to storage. */
    method PersistBookmarks()
      modifies this
      ensures saved == Some(bookmarks)
      ensures recipe == old(recipe) && search == old(search) && bookmarks == old(bookmarks)
    {
      saved := Some(bookmarks);
    }

    /**
     * `addBookmark(r)`: appends `r` without checking for duplicates, flags the current recipe
     * when it has the same id, and saves the list. The flag stays in agreement with the list.
     */
    method AddBookmark(r: Recipe)
      modifies this
      ensures bookmarks == old(bookmarks) + [r]
      ensures recipe == SetBookmarked(old(recipe), r.id, true)
      ensures saved == Some(bookmarks) && search == old(search)
      ensures old(FlagAgrees(recipe, bookmarks)) ==> FlagAgrees(recipe, bookmarks)
    {
      if FlagAgrees(recipe, bookmarks) {
        AddKeepsFlagAgreement(recipe, bookmarks, r);
      }
      bookmarks := bookmarks + [r];
      if recipe.Some? && r.id == recipe.value.id {
        recipe := Some(recipe.value.(bookmarked := true));
      }
      PersistBookmarks();
    }

    /**
     * `deleteBookmark(id)`: splices out the element at `findIndex` of the id, which is the
     * first bookmark with that id, or (for an absent id, index `-1`) the last bookmark;
     * unflags the current recipe when it has that id, and saves the list.
     */
    method DeleteBookmark(id: string)
      modifies this
      ensures bookmarks == DeleteBookmarkFrom(old(bookmarks), id)
      ensures recipe == SetBookmarked(old(recipe), id, false)
      ensures saved == Some(bookmarks) && search == old(search)
      ensures old(FlagAgrees(recipe, bookmarks) && UniqueIds(bookmarks) && IsBookmarked(bookmarks, id)) ==>
                FlagAgrees(recipe, bookmarks) && UniqueIds(bookmarks)
    {
      if FlagAgrees(recipe, bookmarks) && UniqueIds(bookmarks) && IsBookmarked(bookmarks, id) {
        DeleteKeepsFlagAgreement(recipe, bookmarks, id);
      }
      var index := FindIndex(bookmarks, (b: Recipe) => b.id == id);
      bookmarks := SpliceOne(bookmarks, index);
      if recipe.Some? && id == recipe.value.id {
        recipe := Some(recipe.value.(bookmarked := false));
      }
      PersistBookmarks();
    }

    /**
     * `uploadRecipe(newRecipe)` for a form given as its entries: a malformed ingredient entry
     * fails before anything is posted and changes nothing; so does a failed post. Otherwise the
     * server's recipe becomes current and is bookmarked.
     */
    method UploadRecipe(form: seq<(string, string)>, post: UploadPayload -> Result<ApiRecipe>) returns (outcome: Outcome)
      modifies this
      ensures UploadRequest(form).Err? ==> outcome == Failed(WrongFormatMessage) && unchanged(this)
      ensures UploadRequest(form).Ok? && post(UploadRequest(form).value).Err? ==>
                outcome == Failed(post(UploadRequest(form).value).message) && unchanged(this)
      ensures UploadRequest(form).Ok? && post(UploadRequest(form).value).Ok? ==>
                var created := CreateRecipeObject(post(UploadRequest(form).value).value);
                outcome == Done &&
                recipe == Some(created.(bookmarked := true)) &&
                bookmarks == old(bookmarks) + [created] &&
                saved == Some(bookmarks) && search == old(search)
    {
      var request := UploadRequest(form);
      if request.Err? {
        return Failed(request.message);
      }
      var response := post(request.value);
      if response.Err? {
        return Failed(response.message);
      }
      recipe := Some(CreateRecipeObject(response.value));
      AddBookmark(recipe.value);
      outcome := Done;
    }
  }
}
