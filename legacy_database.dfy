/**
 * The older, synchronous recipe store (backend/database.py). Authorization,
 * the LIMIT/OFFSET parameters, the image-link synchronisation, the
 * replacement of a recipe's categories, ingredients and steps and
 * `delete_recipe` are the same code as in the newer store and are modelled
 * once, in `Database`. What differs is modelled here: the cover is compared
 * with 0 without a check for `None`, a listing without a truthy cover falls
 * back to the first gallery image (which the gallery query as written never
 * gives for a recipe stored without a cover), the creator is looked up only
 * for a truthy user id, and `delete_category` reports a category that was not
 * there.
 */
module LegacyDatabase {
  import opened Base
  import Database

  /**
   * The `CoverImage` stored by `create_recipe` and `update_recipe`: `None >
   * 0` raises, any other cover is stored as the newer store stores it.
   */
  function StoredCover(cover: Option<int>): (r: Result<Option<int>, Database.Error>)
    ensures r.Failure? <==> cover.None?
    ensures r.Failure? ==> r.error == Database.TypeError
    ensures r.Success? ==> r.value == Database.StoredCover(cover)
  {
    if cover.None? then Failure(Database.TypeError)
    else if cover.value > 0 then Success(cover)
    else Success(None)
  }

  // ---------------------------------------------------------------------
  // Listing
  // ---------------------------------------------------------------------

  /** The first id of a query result, if any (`images[0] if images else None`). */
  function First(ids: seq<int>): (r: Option<int>)
    ensures r.None? <==> ids == []
    ensures r.Some? ==> r.value == ids[0]
  {
    if ids == [] then None else Some(ids[0])
  }

  /**
   * The cover of a listing as written: a row without a (truthy) cover takes
   * the first image of the gallery query, which compares with the NULL cover.
   */
  function ListingCoverAsWritten(row: Database.ListingRow, images: seq<Database.ImageRow>): Option<int> {
    var cover := row.recipe.cover;
    if Database.Truthy(cover) then cover else First(Database.GalleryAsWritten(images, row.id, cover))
  }

  /** The cover of a listing with the intended gallery query. */
  function ListingCover(row: Database.ListingRow, images: seq<Database.ImageRow>): (c: Option<int>)
    ensures Database.Truthy(row.recipe.cover) ==> c == row.recipe.cover
    ensures !Database.Truthy(row.recipe.cover) ==> c == First(Database.Gallery(images, row.id, row.recipe.cover))
  {
    var cover := row.recipe.cover;
    if Database.Truthy(cover) then cover else First(Database.Gallery(images, row.id, cover))
  }

  /**
   * As written, the fallback never fires: a recipe stored without a cover is
   * listed without one even when its gallery holds images.
   */
  lemma FallbackNeverFires(row: Database.ListingRow, images: seq<Database.ImageRow>, x: int)
    requires row.recipe.cover.None?
    requires Database.ImageRow(x, Some(row.id), None) in images
    ensures ListingCoverAsWritten(row, images) == None
    ensures ListingCover(row, images).Some?
  {
    Database.GalleryLostWithoutCover(images, row.id, x);
  }

  /** With a cover both agree: the fallback is only about recipes without one. */
  lemma ListingCoverWithCover(row: Database.ListingRow, images: seq<Database.ImageRow>)
    requires row.recipe.cover.Some?
    ensures ListingCoverAsWritten(row, images) == ListingCover(row, images)
  {
    Database.GalleryWithCover(images, row.id, row.recipe.cover);
  }

  /** `get_user_by_id` is called only for a truthy user id, and raises for a missing user. */
  predicate CreatorsFound(rows: seq<Database.ListingRow>, users: map<int, Database.UserRow>) {
    forall row :: row in rows && Database.Truthy(row.recipe.userId) ==> row.recipe.userId.value in users
  }

  /**
   * One listing of the legacy loop, with the cover as written: a stored
   * cover, even a non-positive one, gives the intended cover, and a row
   * without a cover is listed without one, exactly as the newer store lists it.
   */
  function ListingOf(row: Database.ListingRow, users: map<int, Database.UserRow>, categories: seq<Database.Entry<string>>,
                     images: seq<Database.ImageRow>): (l: Database.Listing)
    requires Database.Listable(row)
    requires Database.Truthy(row.recipe.userId) ==> row.recipe.userId.value in users
    ensures row.recipe.cover.Some? ==> l.cover == ListingCover(row, images)
    ensures row.recipe.cover.None? ==> l.cover == None
    ensures l.creator.Some? <==> Database.Truthy(row.recipe.userId)
    ensures (Database.Truthy(row.recipe.cover) || row.recipe.cover.None?)
      && (row.recipe.userId.Some? ==> row.recipe.userId.value in users)
      ==> l == Database.ListingOf(row, users, categories)
  {
    var r := row.recipe;
    Database.GalleryAsWrittenCases(images, row.id, r.cover);
    Database.Listing(row.id, Database.OrEmpty(r.title),
      if Database.Truthy(r.userId) then Some(users[r.userId.value].username) else None,
      Database.OrEmpty(r.description), Database.ValuesOf(categories, row.id), ListingCoverAsWritten(row, images),
      r.clicks, r.cookingTime.value)
  }

  /** The legacy listings of `rows`, in order, without the rows that do not validate. */
  function Listings(rows: seq<Database.ListingRow>, users: map<int, Database.UserRow>, categories: seq<Database.Entry<string>>,
                    images: seq<Database.ImageRow>): (ls: seq<Database.Listing>)
    requires CreatorsFound(rows, users)
    ensures |ls| <= |rows|
    ensures forall l :: l in ls <==>
      exists row :: row in rows && Database.Listable(row) && l == ListingOf(row, users, categories, images)
  {
    if rows == [] then []
    else
      var row := rows[|rows| - 1];
      var init := rows[..|rows| - 1];
      assert rows == init + [row];
      Listings(init, users, categories, images) + if Database.Listable(row) then [ListingOf(row, users, categories, images)] else []
  }

  /**
   * The loop of the legacy `get_all_recipes`: the creator lookup of any row
   * may raise; otherwise each row that validates becomes a listing.
   */
  method BuildListings(rows: seq<Database.ListingRow>, users: map<int, Database.UserRow>,
                       categories: seq<Database.Entry<string>>, images: seq<Database.ImageRow>)
    returns (r: Result<seq<Database.Listing>, Database.Error>)
    ensures r.Failure? <==> !CreatorsFound(rows, users)
    ensures r.Failure? ==> r.error == Database.NotFound
    ensures r.Success? ==> r.value == Listings(rows, users, categories, images)
  {
    var listings := [];
    for i := 0 to |rows|
      invariant CreatorsFound(rows[..i], users)
      invariant listings == Listings(rows[..i], users, categories, images)
    {
      assert rows[..i + 1] == rows[..i] + [rows[i]];
      var u := rows[i].recipe.userId;
      if Database.Truthy(u) && u.value !in users {
        return Failure(Database.NotFound);
      }
      if Database.Listable(rows[i]) {
        listings := listings + [ListingOf(rows[i], users, categories, images)];
      }
    }
    assert rows[..|rows|] == rows;
    r := Success(listings);
  }

  // ---------------------------------------------------------------------
  // Reading a recipe and deleting a category
  // ---------------------------------------------------------------------

  /**
   * The legacy `get_recipe`: `NotFoundException` for a missing recipe, or for
   * a truthy user id whose user is gone; a falsy user id gives no creator.
   * The gallery comes from the query as written: the intended gallery with a
   * cover, none without.
   */
  function GetRecipe(recipes: map<int, Database.RecipeRow>, users: map<int, Database.UserRow>, images: seq<Database.ImageRow>,
                     categories: seq<Database.Entry<string>>, id: int): (r: Result<Database.RecipeDetails, Database.Error>)
    ensures r.Failure? <==> id !in recipes || (Database.Truthy(recipes[id].userId) && recipes[id].userId.value !in users)
    ensures r.Failure? ==> r.error == Database.NotFound
    ensures r.Success? ==> (r.value.creatorId.Some? <==> Database.Truthy(recipes[id].userId))
    ensures r.Success? ==> (r.value.creatorName.Some? <==> Database.Truthy(recipes[id].userId))
    ensures r.Success? ==> r.value.categories == Database.ValuesOf(categories, id)
    ensures r.Success? && recipes[id].cover.Some? ==> r.value.gallery == Database.Gallery(images, id, recipes[id].cover)
    ensures r.Success? && recipes[id].cover.None? ==> r.value.gallery == []
  {
    if id !in recipes then Failure(Database.NotFound)
    else
      var row := recipes[id];
      if Database.Truthy(row.userId) && row.userId.value !in users then Failure(Database.NotFound)
      else
        var creator := if Database.Truthy(row.userId) then Some(users[row.userId.value].username) else None;
        Database.GalleryAsWrittenCases(images, id, row.cover);
        Success(Database.RecipeDetails(id, row.title, creator, if Database.Truthy(row.userId) then row.userId else None,
          row.cover, Database.GalleryAsWritten(images, id, row.cover), Database.ValuesOf(categories, id)))
  }

  /**
   * Where the newer store finds a recipe whose creator has a truthy id, the
   * legacy store finds the same recipe with the same creator.
   */
  lemma GetRecipeAgrees(recipes: map<int, Database.RecipeRow>, users: map<int, Database.UserRow>,
                        images: seq<Database.ImageRow>, categories: seq<Database.Entry<string>>, id: int)
    requires Database.GetRecipe(recipes, users, images, categories, id).Success?
    requires Database.Truthy(recipes[id].userId)
    ensures GetRecipe(recipes, users, images, categories, id) == Database.GetRecipe(recipes, users, images, categories, id)
  {
  }

  /** The legacy `delete_category`: `NotFoundException` when the recipe had no such category. */
  method DeleteCategory(t: Database.Table<string>, category: string, recipeId: int) returns (r: Result<(), Database.Error>)
    modifies t
    ensures r.Failure? <==> category !in Database.ValuesOf(old(t.rows), recipeId)
    ensures r.Failure? ==> r.error == Database.NotFound
    ensures Database.ValuesOf(t.rows, recipeId) == Without(Database.ValuesOf(old(t.rows), recipeId), category)
    ensures forall other :: other != recipeId ==> Database.ValuesOf(t.rows, other) == Database.ValuesOf(old(t.rows), other)
  {
    Database.EntryInValuesOf(t.rows, recipeId, category);
    var rowcount := t.DeleteValue(recipeId, category);
    if rowcount == 0 {
      return Failure(Database.NotFound);
    }
    r := Success(());
  }
}
