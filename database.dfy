/**
 * The decision logic of the recipe store (backend/db/database.py): who may
 * change a recipe, the LIMIT/OFFSET parameters of the listing query, the
 * normalisation of the cover image, the all-categories filter, the listing
 * defaults, the image-link synchronisation and the delete-then-insert
 * replacement of a recipe's categories, ingredients and steps.
 *
 * Tables are in-memory values: `Users` and `Recipes` are maps keyed by their
 * primary key, `Images` is a sequence of rows in the order a scan returns
 * them, and each per-recipe child table is a sequence of `(RecipeID, value)`
 * rows in insertion order. Python's `None` and SQL's NULL are `None`.
 */
module Database {
  import opened Base
  import RecipeEditor
  import RecipeView
  import JsNumbers

  /**
   * What the store raises: `NotFoundException`, Python's `TypeError` where a
   * query's missing row (`None`) is unpacked or indexed, or the error MySQL
   * answers to a statement it rejects.
   */
  datatype Error = NotFound | TypeError | SqlError

  // ---------------------------------------------------------------------
  // Authorization
  // ---------------------------------------------------------------------

  datatype UserRow = UserRow(username: string, isAdmin: bool, disabled: bool)

  /**
   * `is_authorized(user_id, recipe_id)`: a disabled user never is, an admin
   * always is, anybody else only for a recipe whose `UserID` is theirs.
   * `owners` maps each recipe to its `UserID` column. A missing user row, or
   * a missing recipe row when it is consulted, is unpacked as `None`.
   */
  function IsAuthorized(users: map<int, UserRow>, owners: map<int, Option<int>>, userId: int, recipeId: int): (r: Result<bool, Error>)
    ensures r == Success(true) <==>
      userId in users && !users[userId].disabled
      && (users[userId].isAdmin || (recipeId in owners && owners[recipeId] == Some(userId)))
    ensures r.Failure? <==>
      userId !in users
      || (!users[userId].disabled && !users[userId].isAdmin && recipeId !in owners)
    ensures r.Failure? ==> r.error == TypeError
  {
    if userId !in users then Failure(TypeError)
    else if users[userId].disabled then Success(false)
    else if users[userId].isAdmin then Success(true)
    else if recipeId !in owners then Failure(TypeError)
    else Success(owners[recipeId] == Some(userId))
  }

  /**
   * For an enabled user and an existing recipe the store allows a change
   * exactly when the recipe page shows that user the edit and delete
   * controls, given the user's id as the page's cookie text.
   */
  lemma AuthorizedIffControlsShown(users: map<int, UserRow>, owners: map<int, Option<int>>, userId: int, recipeId: int)
    requires userId in users && !users[userId].disabled && recipeId in owners
    ensures IsAuthorized(users, owners, userId, recipeId)
      == Success(RecipeView.ShowsControls(users[userId].isAdmin, JsNumbers.DecimalString(userId), owners[recipeId]))
  {
    RecipeView.CreatorSeesControls(userId, owners[recipeId]);
  }

  // ---------------------------------------------------------------------
  // Pagination
  // ---------------------------------------------------------------------

  /** Python truthiness of an optional integer: present and non-zero. */
  predicate Truthy(x: Option<int>) {
    x.Some? && x.value != 0
  }

  /**
   * The parameters bound to `LIMIT %s` and `OFFSET %s` in `get_all_recipes`:
   * none without a limit, the limit alone without a page, and the limit with
   * the offset of the page, counted from 1, otherwise.
   */
  function LimitParameters(limit: Option<int>, page: Option<int>): (ps: seq<int>)
    ensures ps == [] <==> !Truthy(limit)
    ensures |ps| <= 2 && (|ps| == 2 <==> Truthy(limit) && Truthy(page))
    ensures ps != [] ==> ps[0] == limit.value
    ensures |ps| == 2 && page.value == 1 ==> ps[1] == 0
    ensures |ps| == 2 && page.value > 1 && limit.value > 0 ==> ps[1] >= limit.value
  {
    if Truthy(limit) then
      if Truthy(page) then [limit.value, (page.value - 1) * limit.value]
      else [limit.value]
    else []
  }

  function Min(a: int, b: int): int {
    if a <= b then a else b
  }

  /**
   * The rows MySQL returns for `LIMIT l` or `LIMIT l OFFSET o` bound to `ps`.
   * MySQL takes only non-negative values there and rejects the statement
   * when either is negative.
   */
  function Window<T>(rows: seq<T>, ps: seq<int>): (w: Result<seq<T>, Error>)
    requires |ps| <= 2
    ensures w.Failure? <==> exists i :: 0 <= i < |ps| && ps[i] < 0
    ensures w.Failure? ==> w.error == SqlError
    ensures w.Success? ==> |w.value| <= |rows|
  {
    if exists i :: 0 <= i < |ps| && ps[i] < 0 then Failure(SqlError)
    else if ps == [] then Success(rows)
    else if |ps| == 1 then Success(rows[..Min(ps[0], |rows|)])
    else Success(rows[Min(ps[1], |rows|)..Min(ps[1] + ps[0], |rows|)])
  }

  /**
   * A negative limit, or a positive limit with a page below 1, binds a
   * negative value and the listing query fails; a positive limit with a
   * page of 1 or more never does.
   */
  lemma PageRejectedIffNegative<T>(rows: seq<T>, limit: int, page: int)
    requires limit != 0 && page != 0
    ensures Window(rows, LimitParameters(Some(limit), Some(page))).Failure? <==> limit < 0 || page < 1
  {
    var ps := LimitParameters(Some(limit), Some(page));
    assert ps == [limit, (page - 1) * limit];
    if limit > 0 && page < 1 {
      assert (page - 1) * limit < 0 by { NegativeTimesPositive(page - 1, limit); }
    }
  }

  lemma NegativeTimesPositive(a: int, b: int)
    requires a < 0 < b
    ensures a * b < 0
  {
    assert a * b == -((-a) * b);
  }

  /** Pages `1..k` of size `limit`, one after the other. */
  function Pages<T>(rows: seq<T>, limit: nat, k: nat): seq<T>
    requires limit > 0
  {
    if k == 0 then []
    else Pages(rows, limit, k - 1) + Window(rows, LimitParameters(Some(limit), Some(k))).value
  }

  /**
   * Paging neither skips nor repeats a row: the first `k` pages together are
   * the first `k * limit` rows.
   */
  lemma {:induction false} PagesArePrefix<T>(rows: seq<T>, limit: nat, k: nat)
    requires limit > 0
    ensures Pages(rows, limit, k) == rows[..Min(k * limit, |rows|)]
  {
    if k == 0 {
      assert k * limit == 0;
    } else {
      PagesArePrefix(rows, limit, k - 1);
      PagesSnoc(rows, limit, k);
      PrefixThenSlice(rows, Min((k - 1) * limit, |rows|), Min(k * limit, |rows|));
    }
  }

  /** The first `k` pages are the first `k - 1` pages followed by the rows of page `k`. */
  lemma PagesSnoc<T>(rows: seq<T>, limit: nat, k: nat)
    requires limit > 0 && k > 0
    ensures Min((k - 1) * limit, |rows|) <= Min(k * limit, |rows|)
    ensures Pages(rows, limit, k) == Pages(rows, limit, k - 1) + rows[Min((k - 1) * limit, |rows|)..Min(k * limit, |rows|)]
  {
    WindowOfPage(rows, limit, k);
  }

  /** Page `k` is the rows from `(k - 1) * limit` up to `k * limit`, as far as there are rows. */
  lemma WindowOfPage<T>(rows: seq<T>, limit: nat, k: nat)
    requires limit > 0 && k > 0
    ensures Min((k - 1) * limit, |rows|) <= Min(k * limit, |rows|)
    ensures Window(rows, LimitParameters(Some(limit), Some(k))) == Success(rows[Min((k - 1) * limit, |rows|)..Min(k * limit, |rows|)])
  {
    NextPageEnd(k, limit);
    assert LimitParameters(Some(limit), Some(k)) == [limit, (k - 1) * limit];
  }

  lemma NextPageEnd(k: nat, limit: nat)
    requires k > 0
    ensures (k - 1) * limit + limit == k * limit
  {
  }

  lemma PrefixThenSlice<T>(rows: seq<T>, a: nat, b: nat)
    requires a <= b <= |rows|
    ensures rows[..a] + rows[a..b] == rows[..b]
  {
  }

  /** Page 1 is the same rows as no page at all. */
  lemma FirstPageIsUnpaged<T>(rows: seq<T>, limit: nat)
    requires limit > 0
    ensures Window(rows, LimitParameters(Some(limit), Some(1))) == Window(rows, LimitParameters(Some(limit), None))
  {
  }

  // ---------------------------------------------------------------------
  // Cover image
  // ---------------------------------------------------------------------

  /**
   * The `CoverImage` stored by `create_recipe` and `update_recipe`: the given
   * id when it is set and positive, NULL otherwise.
   */
  function StoredCover(cover: Option<int>): (c: Option<int>)
    ensures c.Some? <==> cover.Some? && cover.value > 0
    ensures c.Some? ==> c == cover
  {
    if cover.Some? && cover.value != 0 && cover.value > 0 then cover else None
  }

  /**
   * The cover survives the trip from the editor to the store and back: a
   * chosen image comes back as that image, and both "no cover" payloads
   * (`-1` and `0`) come back as no cover.
   */
  lemma CoverRoundTrip(f: RecipeEditor.CoverField)
    requires f.CoverId? ==> f.id > 0
    ensures RecipeEditor.LoadedCover(StoredCover(Some(RecipeEditor.CoverPayload(f))))
      == if f.CoverId? then f else RecipeEditor.NullCover
  {
  }

  // ---------------------------------------------------------------------
  // Category filter
  // ---------------------------------------------------------------------

  /** How many of a recipe's category rows are among `filters` (`COUNT(c.Category)` after `c.Category IN filters`). */
  function MatchingRows(categories: seq<string>, filters: seq<string>): (n: nat)
    ensures n <= |categories|
  {
    if categories == [] then 0
    else
      var last := if categories[|categories| - 1] in filters then 1 else 0;
      MatchingRows(categories[..|categories| - 1], filters) + last
  }

  /**
   * Whether the listing keeps a recipe: without filters every recipe, with
   * filters those whose matching category rows number exactly as many as the
   * filters (`HAVING COUNT(c.Category) = len(filter_categories)`).
   */
  predicate KeptByFilter(categories: seq<string>, filters: seq<string>) {
    filters == [] || MatchingRows(categories, filters) == |filters|
  }

  /** What the filter is for: the recipe carries every filter category. */
  predicate HasAllCategories(categories: seq<string>, filters: seq<string>) {
    forall f :: f in filters ==> f in categories
  }

  /**
   * The count equals "carries every filter category" whenever neither the
   * recipe's categories nor the filters repeat an entry.
   */
  lemma KeptByFilterIffHasAll(categories: seq<string>, filters: seq<string>)
    requires NoDuplicates(categories) && NoDuplicates(filters)
    ensures KeptByFilter(categories, filters) <==> HasAllCategories(categories, filters)
  {
    var c := Elements(categories);
    var f := Elements(filters);
    MatchingRowsCountsShared(categories, filters);
    SizeOfElements(filters);
    assert |c * f| == |f| - |f - c|;
    if HasAllCategories(categories, filters) {
      assert f - c == {};
    } else if filters != [] {
      var x :| x in filters && x !in categories;
      assert x in f - c;
    }
  }

  /** Over distinct categories, the count is the number of shared values. */
  lemma {:induction false} MatchingRowsCountsShared(categories: seq<string>, filters: seq<string>)
    requires NoDuplicates(categories)
    ensures MatchingRows(categories, filters) == |Elements(categories) * Elements(filters)|
  {
    if categories != [] {
      var init := categories[..|categories| - 1];
      var x := categories[|categories| - 1];
      DistinctSnoc(categories);
      MatchingRowsCountsShared(init, filters);
      SharedSnoc(Elements(init), Elements(filters), x);
    }
  }

  lemma DistinctSnoc<T>(xs: seq<T>)
    requires xs != [] && NoDuplicates(xs)
    ensures NoDuplicates(xs[..|xs| - 1]) && xs[|xs| - 1] !in xs[..|xs| - 1]
    ensures Elements(xs) == Elements(xs[..|xs| - 1]) + {xs[|xs| - 1]}
  {
    var init := xs[..|xs| - 1];
    assert xs == init + [xs[|xs| - 1]];
    assert forall k :: 0 <= k < |init| ==> init[k] == xs[k];
  }

  lemma SharedSnoc<T>(a: set<T>, f: set<T>, x: T)
    requires x !in a
    ensures |(a + {x}) * f| == |a * f| + if x in f then 1 else 0
  {
    if x in f {
      assert (a + {x}) * f == a * f + {x};
    } else {
      assert (a + {x}) * f == a * f;
    }
  }

  /** A repeated filter hides a recipe that carries it. */
  lemma RepeatedFilterHides()
    ensures HasAllCategories(["Vegan"], ["Vegan", "Vegan"])
    ensures !KeptByFilter(["Vegan"], ["Vegan", "Vegan"])
  {
    assert MatchingRows(["Vegan"], ["Vegan", "Vegan"]) == 1 by {
      assert ["Vegan"][..0] == [];
    }
  }

  /** A repeated category row lets through a recipe that lacks a filter. */
  lemma RepeatedCategoryAdmits()
    ensures !HasAllCategories(["Vegan", "Vegan"], ["Vegan", "Quick & Easy"])
    ensures KeptByFilter(["Vegan", "Vegan"], ["Vegan", "Quick & Easy"])
  {
    var cs := ["Vegan", "Vegan"];
    assert cs[..1] == ["Vegan"] && cs[..1][..0] == [];
    assert "Quick & Easy" !in cs;
  }

  // ---------------------------------------------------------------------
  // Images
  // ---------------------------------------------------------------------

  /** A row of `Images`: an uploaded image, possibly linked to a recipe and to one of its steps. */
  datatype ImageRow = ImageRow(id: int, recipeId: Option<int>, stepId: Option<int>)

  /** `ImageID` is the primary key. */
  predicate UniqueIds(images: seq<ImageRow>) {
    forall i, j :: 0 <= i < j < |images| ==> images[i].id != images[j].id
  }

  function Ids(images: seq<ImageRow>): set<int> {
    set row | row in images :: row.id
  }

  /** `SELECT ImageID FROM Images WHERE RecipeID = %s`, in scan order. */
  function LinkedIds(images: seq<ImageRow>, recipeId: int): (ids: seq<int>)
    ensures forall x :: x in ids <==> exists row :: row in images && row.recipeId == Some(recipeId) && row.id == x
  {
    if images == [] then []
    else
      var row := images[|images| - 1];
      var init := images[..|images| - 1];
      assert images == init + [row];
      LinkedIds(init, recipeId) + (if row.recipeId == Some(recipeId) then [row.id] else [])
  }

  /**
   * `i.ImageID != r.CoverImage` under SQL's three-valued logic: a comparison
   * with NULL is unknown, and the row is not returned.
   */
  predicate SqlDiffers(x: int, cover: Option<int>) {
    cover.Some? && x != cover.value
  }

  /**
   * `_get_gallery_images_by_recipe` as written: the recipe's images that
   * belong to no step and are not its cover. Because of the comparison with
   * NULL, a recipe without a cover has no gallery at all.
   */
  function GalleryAsWritten(images: seq<ImageRow>, recipeId: int, cover: Option<int>): (ids: seq<int>)
    ensures cover.None? ==> ids == []
  {
    if images == [] then []
    else
      var row := images[|images| - 1];
      var keep := row.recipeId == Some(recipeId) && row.stepId.None? && SqlDiffers(row.id, cover);
      GalleryAsWritten(images[..|images| - 1], recipeId, cover) + (if keep then [row.id] else [])
  }

  /**
   * The gallery the query is meant to return: every image of the recipe
   * that belongs to no step, except the cover when there is one.
   */
  function Gallery(images: seq<ImageRow>, recipeId: int, cover: Option<int>): (ids: seq<int>)
    ensures forall x :: x in ids <==>
      exists row :: row in images && row.recipeId == Some(recipeId) && row.stepId.None? && row.id == x && cover != Some(x)
  {
    if images == [] then []
    else
      var row := images[|images| - 1];
      var init := images[..|images| - 1];
      assert images == init + [row];
      var keep := row.recipeId == Some(recipeId) && row.stepId.None? && cover != Some(row.id);
      Gallery(init, recipeId, cover) + (if keep then [row.id] else [])
  }

  /** With a cover the query as written returns the intended gallery. */
  lemma {:induction false} GalleryWithCover(images: seq<ImageRow>, recipeId: int, cover: Option<int>)
    requires cover.Some?
    ensures GalleryAsWritten(images, recipeId, cover) == Gallery(images, recipeId, cover)
  {
    if images != [] {
      GalleryWithCover(images[..|images| - 1], recipeId, cover);
    }
  }

  /** The query as written returns the intended gallery with a cover, and nothing without one. */
  lemma GalleryAsWrittenCases(images: seq<ImageRow>, recipeId: int, cover: Option<int>)
    ensures cover.Some? ==> GalleryAsWritten(images, recipeId, cover) == Gallery(images, recipeId, cover)
    ensures cover.None? ==> GalleryAsWritten(images, recipeId, cover) == []
  {
    if cover.Some? {
      GalleryWithCover(images, recipeId, cover);
    }
  }

  /**
   * Without a cover the query as written loses the whole gallery: an image
   * of the recipe that belongs to no step is in the intended gallery but is
   * not returned.
   */
  lemma GalleryLostWithoutCover(images: seq<ImageRow>, recipeId: int, id: int)
    requires ImageRow(id, Some(recipeId), None) in images
    ensures id in Gallery(images, recipeId, None)
    ensures GalleryAsWritten(images, recipeId, None) == []
  {
  }

  /** `set(recipe.gallery_images) | {recipe.cover_image}`. */
  function Desired(gallery: seq<int>, cover: Option<int>): set<Option<int>> {
    (set g | g in gallery :: Some(g)) + {cover}
  }

  /** The ids among `xs`, without `None`. */
  function Values(xs: set<Option<int>>): (r: set<int>)
    ensures forall v :: v in r <==> Some(v) in xs
  {
    set x | x in xs && x.Some? :: x.value
  }

  /** `deleted_images`: the linked ids that are no longer wanted, in scan order. */
  function Stale(current: seq<int>, desired: set<Option<int>>): (r: seq<int>)
    ensures forall x :: x in r <==> x in current && Some(x) !in desired
  {
    if current == [] then []
    else
      var x := current[|current| - 1];
      var init := current[..|current| - 1];
      assert current == init + [x];
      Stale(init, desired) + (if Some(x) in desired then [] else [x])
  }

  /** `added_images`: the wanted ids that are not linked yet (`None` among them when there is no cover). */
  function Missing(desired: set<Option<int>>, current: seq<int>): (r: set<Option<int>>)
    ensures forall x :: x in r <==> x in desired && (x.None? || x.value !in current)
  {
    set x | x in desired && (x.None? || x.value !in current)
  }

  /**
   * The difference reaches what is wanted: an id ends up linked exactly when
   * it is wanted, the deleted ids are all linked ones and the added ids are
   * none of them.
   */
  lemma DiffReachesDesired(current: seq<int>, desired: set<Option<int>>, x: int)
    ensures x in Stale(current, desired) ==> x in current
    ensures Some(x) in Missing(desired, current) ==> x !in current
    ensures (x in current && x !in Stale(current, desired)) || Some(x) in Missing(desired, current)
      <==> Some(x) in desired
  {
  }

  /** The rows left by `DELETE FROM Images WHERE ImageID = %s` for each id of `ids`. */
  function Drop(images: seq<ImageRow>, ids: set<int>): (r: seq<ImageRow>)
    ensures forall row :: row in r <==> row in images && row.id !in ids
  {
    if images == [] then []
    else
      var row := images[|images| - 1];
      var init := images[..|images| - 1];
      assert images == init + [row];
      Drop(init, ids) + (if row.id in ids then [] else [row])
  }

  /** The rows after `UPDATE Images SET RecipeID = %s WHERE ImageID = %s` for each id of `ids`. */
  function Link(images: seq<ImageRow>, recipeId: int, ids: set<int>): (r: seq<ImageRow>)
    ensures |r| == |images|
    ensures forall i :: 0 <= i < |r| ==>
      r[i] == if images[i].id in ids then images[i].(recipeId := Some(recipeId)) else images[i]
  {
    if images == [] then []
    else
      var row := images[|images| - 1];
      Link(images[..|images| - 1], recipeId, ids) + [if row.id in ids then row.(recipeId := Some(recipeId)) else row]
  }

  /**
   * The images after synchronising a recipe with the `desired` ids: a linked
   * image that is no longer wanted is gone, a wanted image is linked to the
   * recipe, and every other image is as it was.
   */
  function Synced(images: seq<ImageRow>, recipeId: int, desired: set<Option<int>>): (r: seq<ImageRow>)
    ensures forall row :: row in r ==> (row.recipeId == Some(recipeId) <==> Some(row.id) in desired)
    ensures forall x :: Some(x) in desired ==> (x in Ids(images) <==> x in Ids(r))
    ensures forall row :: row in images && row.recipeId != Some(recipeId) && Some(row.id) !in desired ==> row in r
    ensures forall row :: row in r ==> exists o :: o in images && o.id == row.id && o.stepId == row.stepId
  {
    if images == [] then []
    else
      var row := images[|images| - 1];
      var init := images[..|images| - 1];
      assert images == init + [row];
      var rest := Synced(init, recipeId, desired);
      if row.recipeId == Some(recipeId) && Some(row.id) !in desired then
        assert Ids(images) == Ids(init) + {row.id};
        rest
      else
        var r := rest + [if Some(row.id) in desired then row.(recipeId := Some(recipeId)) else row];
        assert Ids(images) == Ids(init) + {row.id};
        assert Ids(r) == Ids(rest) + {row.id};
        r
  }

  /**
   * Deleting the stale ids and then linking the missing ones is the
   * synchronisation, given what each set holds row by row.
   */
  lemma {:induction false} SyncedByParts(images: seq<ImageRow>, recipeId: int, desired: set<Option<int>>, stale: set<int>, missing: set<int>)
    requires forall row :: row in images ==> (row.id in stale <==> row.recipeId == Some(recipeId) && Some(row.id) !in desired)
    requires forall row :: row in images && row.id in missing ==> Some(row.id) in desired
    requires forall row :: row in images && Some(row.id) in desired && row.recipeId != Some(recipeId) ==> row.id in missing
    ensures Link(Drop(images, stale), recipeId, missing) == Synced(images, recipeId, desired)
  {
    if images != [] {
      var init := images[..|images| - 1];
      var row := images[|images| - 1];
      LastSplit(images);
      assert forall r :: r in init ==> r in images;
      SyncedByParts(init, recipeId, desired, stale, missing);
      assert row in images;
      SyncedByPartsStep(init, row, recipeId, desired, stale, missing);
    }
  }

  lemma SyncedByPartsStep(init: seq<ImageRow>, row: ImageRow, recipeId: int, desired: set<Option<int>>, stale: set<int>, missing: set<int>)
    requires Link(Drop(init, stale), recipeId, missing) == Synced(init, recipeId, desired)
    requires row.id in stale <==> row.recipeId == Some(recipeId) && Some(row.id) !in desired
    requires row.id in missing ==> Some(row.id) in desired
    requires Some(row.id) in desired && row.recipeId != Some(recipeId) ==> row.id in missing
    ensures Link(Drop(init + [row], stale), recipeId, missing) == Synced(init + [row], recipeId, desired)
  {
    DropSnoc(init, row, stale);
    SyncedSnoc(init, row, recipeId, desired);
    if row.id !in stale {
      LinkSnoc(Drop(init, stale), row, recipeId, missing);
    }
  }

  lemma SyncedSnoc(images: seq<ImageRow>, row: ImageRow, recipeId: int, desired: set<Option<int>>)
    ensures Synced(images + [row], recipeId, desired)
      == if row.recipeId == Some(recipeId) && Some(row.id) !in desired then Synced(images, recipeId, desired)
         else Synced(images, recipeId, desired) + [if Some(row.id) in desired then row.(recipeId := Some(recipeId)) else row]
  {
    assert (images + [row])[..|images|] == images;
  }

  lemma LinkSnoc(images: seq<ImageRow>, row: ImageRow, recipeId: int, ids: set<int>)
    ensures Link(images + [row], recipeId, ids)
      == Link(images, recipeId, ids) + [if row.id in ids then row.(recipeId := Some(recipeId)) else row]
  {
    assert (images + [row])[..|images|] == images;
  }

  lemma {:induction false} DropTwice(images: seq<ImageRow>, ids: set<int>, x: int)
    ensures Drop(Drop(images, ids), {x}) == Drop(images, ids + {x})
  {
    if images != [] {
      var init := images[..|images| - 1];
      var row := images[|images| - 1];
      var d := Drop(init, ids);
      DropTwice(init, ids, x);
      if row.id in ids {
        assert Drop(images, ids) == d;
        assert Drop(images, ids + {x}) == Drop(init, ids + {x});
      } else {
        assert Drop(images, ids) == d + [row];
        DropSnoc(d, row, {x});
        if row.id == x {
          assert Drop(images, ids + {x}) == Drop(init, ids + {x});
        } else {
          assert Drop(images, ids + {x}) == Drop(init, ids + {x}) + [row];
        }
      }
    }
  }

  lemma DropSnoc(images: seq<ImageRow>, row: ImageRow, ids: set<int>)
    ensures row.id in ids ==> Drop(images + [row], ids) == Drop(images, ids)
    ensures row.id !in ids ==> Drop(images + [row], ids) == Drop(images, ids) + [row]
  {
    assert (images + [row])[..|images|] == images;
    assert Drop(images, ids) + [] == Drop(images, ids);
  }

  lemma {:induction false} DropNothing(images: seq<ImageRow>)
    ensures Drop(images, {}) == images
  {
    if images != [] {
      DropNothing(images[..|images| - 1]);
      assert images == images[..|images| - 1] + [images[|images| - 1]];
    }
  }

  lemma {:induction false} LinkTwice(images: seq<ImageRow>, recipeId: int, ids: set<int>, x: int)
    ensures Link(Link(images, recipeId, ids), recipeId, {x}) == Link(images, recipeId, ids + {x})
  {
  }

  /** Every id of the recipe's linked images is listed once. */
  lemma {:induction false} LinkedIdsDistinct(images: seq<ImageRow>, recipeId: int)
    requires UniqueIds(images)
    ensures NoDuplicates(LinkedIds(images, recipeId))
  {
    if images != [] {
      var init := images[..|images| - 1];
      var row := images[|images| - 1];
      assert images == init + [row];
      LinkedIdsDistinct(init, recipeId);
      if row.recipeId == Some(recipeId) {
        DistinctAppend(LinkedIds(init, recipeId), row.id);
      }
      assert forall other :: other in init ==> other.id != row.id by {
        forall other | other in init
          ensures other.id != row.id
        {
          var k :| 0 <= k < |init| && init[k] == other;
          assert images[k] == other;
        }
      }
    }
  }

  lemma DistinctAppend<T>(xs: seq<T>, x: T)
    requires NoDuplicates(xs) && x !in xs
    ensures NoDuplicates(xs + [x])
  {
  }

  lemma {:induction false} StaleDistinct(current: seq<int>, desired: set<Option<int>>)
    requires NoDuplicates(current)
    ensures NoDuplicates(Stale(current, desired))
  {
    if current != [] {
      DistinctSnoc(current);
      StaleDistinct(current[..|current| - 1], desired);
    }
  }

  /** The rows `Drop` keeps are a subsequence of the table, so their ids stay distinct. */
  lemma {:induction false} DropKeepsOrder(images: seq<ImageRow>, ids: set<int>)
    requires UniqueIds(images)
    ensures UniqueIds(Drop(images, ids))
  {
    if images != [] {
      var init := images[..|images| - 1];
      var row := images[|images| - 1];
      assert images == init + [row];
      assert UniqueIds(init);
      DropKeepsOrder(init, ids);
      var d := Drop(init, ids);
      assert forall i :: 0 <= i < |d| ==> d[i].id != row.id by {
        forall i | 0 <= i < |d|
          ensures d[i].id != row.id
        {
          assert d[i] in init;
          var k :| 0 <= k < |init| && init[k] == d[i];
          assert images[k].id != images[|images| - 1].id;
        }
      }
    }
  }

  /** The `Images` table. */
  class ImageTable {
    var rows: seq<ImageRow>

    predicate Valid()
      reads this
    {
      UniqueIds(rows)
    }

    constructor (rows: seq<ImageRow>)
      requires UniqueIds(rows)
      ensures this.rows == rows && Valid()
    {
      this.rows := rows;
    }

    /** `_delete_image`: removes the image; `NotFoundException` when there was none. */
    method DeleteImage(id: int) returns (r: Result<(), Error>)
      requires Valid()
      modifies this
      ensures Valid()
      ensures rows == Drop(old(rows), {id})
      ensures r.Failure? <==> id !in Ids(old(rows))
      ensures r.Failure? ==> r.error == NotFound
    {
      DropKeepsOrder(rows, {id});
      var present := id in Ids(rows);
      rows := Drop(rows, {id});
      if present {
        r := Success(());
      } else {
        r := Failure(NotFound);
      }
    }

    /** `_add_recipe_to_image`: links the image to the recipe; an id with no row (or `None`) changes nothing. */
    method LinkImage(recipeId: int, id: Option<int>)
      requires Valid()
      modifies this
      ensures Valid()
      ensures rows == if id.Some? then Link(old(rows), recipeId, {id.value}) else old(rows)
    {
      if id.Some? {
        rows := Link(rows, recipeId, {id.value});
      }
    }

    /** Deletes every image of `ids`, each present and listed once. */
    method DeleteEach(ids: seq<int>)
      requires Valid() && NoDuplicates(ids)
      requires forall k :: 0 <= k < |ids| ==> ids[k] in Ids(rows)
      modifies this
      ensures Valid()
      ensures rows == Drop(old(rows), Elements(ids))
    {
      DropNothing(rows);
      assert ids[..0] == [] && Elements<int>([]) == {};
      for i := 0 to |ids|
        invariant Valid()
        invariant rows == Drop(old(rows), Elements(ids[..i]))
        invariant forall k :: i <= k < |ids| ==> ids[k] in Ids(rows)
      {
        ghost var before := rows;
        var deleted := DeleteImage(ids[i]);
        DropTwice(old(rows), Elements(ids[..i]), ids[i]);
        ElementsSnoc(ids, i);
        forall k | i + 1 <= k < |ids|
          ensures ids[k] in Ids(rows)
        {
          DropKeepsOthers(before, ids[i], ids[k]);
        }
      }
      assert ids[..|ids|] == ids;
    }

    /** Links every image of `ids` to the recipe, in any order. */
    method LinkEach(recipeId: int, ids: set<Option<int>>)
      requires Valid()
      modifies this
      ensures Valid()
      ensures rows == Link(old(rows), recipeId, Values(ids))
    {
      ghost var linked: set<int> := {};
      assert Link(rows, recipeId, {}) == rows;
      ValuesOfNothing(ids);
      var todo := ids;
      while todo != {}
        invariant Valid()
        invariant todo <= ids
        invariant linked == Values(ids - todo)
        invariant rows == Link(old(rows), recipeId, linked)
        decreases |todo|
      {
        var x :| x in todo;
        LinkImage(recipeId, x);
        if x.Some? {
          LinkTwice(old(rows), recipeId, linked, x.value);
        }
        ValuesStep(ids, todo, x);
        todo := todo - {x};
        linked := if x.Some? then linked + {x.value} else linked;
      }
      assert ids - todo == ids;
    }

    /**
     * `_update_images_by_recipe`: every linked image that is neither in the
     * gallery nor the cover is deleted, and every gallery image and the cover
     * are linked to the recipe. A gallery that is `None` cannot be made into
     * a set and raises before anything changes.
     */
    method UpdateImages(recipeId: int, gallery: Option<seq<int>>, cover: Option<int>) returns (r: Result<(), Error>)
      requires Valid()
      modifies this
      ensures Valid()
      ensures gallery.None? ==> r == Failure(TypeError) && rows == old(rows)
      ensures gallery.Some? ==> r == Success(()) && rows == Synced(old(rows), recipeId, Desired(gallery.value, cover))
    {
      if gallery.None? {
        return Failure(TypeError);
      }
      var desired := Desired(gallery.value, cover);
      var current := LinkedIds(rows, recipeId);
      var deleted := Stale(current, desired);
      var added := Missing(desired, current);
      SyncByDiff(rows, recipeId, desired);
      LinkedIdsDistinct(rows, recipeId);
      StaleDistinct(current, desired);
      forall k | 0 <= k < |deleted|
        ensures deleted[k] in Ids(rows)
      {
        assert deleted[k] in current;
      }
      DeleteEach(deleted);
      LinkEach(recipeId, added);
      r := Success(());
    }
  }

  lemma ValuesOfNothing(ids: set<Option<int>>)
    ensures Values(ids - ids) == {}
  {
    assert ids - ids == {};
  }

  /** Taking one more id off the to-do set adds its value, if any, to the linked ids. */
  lemma ValuesStep(ids: set<Option<int>>, todo: set<Option<int>>, x: Option<int>)
    requires todo <= ids && x in todo
    ensures Values(ids - (todo - {x})) == Values(ids - todo) + if x.Some? then {x.value} else {}
  {
    assert ids - (todo - {x}) == (ids - todo) + {x};
  }

  lemma ElementsSnoc<T>(xs: seq<T>, i: nat)
    requires i < |xs|
    ensures Elements(xs[..i + 1]) == Elements(xs[..i]) + {xs[i]}
  {
    assert xs[..i + 1] == xs[..i] + [xs[i]];
  }

  lemma DropKeepsOthers(images: seq<ImageRow>, x: int, y: int)
    requires y in Ids(images) && y != x
    ensures y in Ids(Drop(images, {x}))
  {
    var row :| row in images && row.id == y;
    assert row in Drop(images, {x});
  }

  /**
   * After the editor saves a gallery with the cover payload `p`, the query
   * as written, comparing with the cover the store kept (`StoredCover(p)`),
   * reads back exactly the saved gallery images that exist and belong to no
   * step, less the cover, and only when a cover was stored: for the
   * editor's "no cover" payloads it reads back nothing.
   */
  lemma GalleryAfterSync(images: seq<ImageRow>, recipeId: int, gallery: seq<int>, p: Option<int>, x: int)
    requires UniqueIds(images)
    ensures x in GalleryAsWritten(Synced(images, recipeId, Desired(gallery, p)), recipeId, StoredCover(p))
      <==> StoredCover(p).Some? && x in gallery && StoredCover(p) != Some(x) && exists o :: o in images && o.id == x && o.stepId.None?
  {
    if StoredCover(p).Some? {
      GalleryWithCover(Synced(images, recipeId, Desired(gallery, p)), recipeId, StoredCover(p));
      GalleryAfterSyncCorrected(images, recipeId, gallery, p, x);
    }
  }

  /**
   * With the corrected gallery query, reading the recipe back after the
   * editor saves a gallery with the cover payload `p` gives exactly the
   * wanted images (the gallery, and the payload's id, which is the cover
   * when one was stored) that exist and belong to no step, less the stored
   * cover, whether or not there is one. When the payload is stored as it
   * is (no payload, or a positive id) that is the saved gallery less the
   * cover.
   */
  lemma GalleryAfterSyncCorrected(images: seq<ImageRow>, recipeId: int, gallery: seq<int>, p: Option<int>, x: int)
    requires UniqueIds(images)
    ensures x in Gallery(Synced(images, recipeId, Desired(gallery, p)), recipeId, StoredCover(p))
      <==> (x in gallery || p == Some(x)) && StoredCover(p) != Some(x) && exists o :: o in images && o.id == x && o.stepId.None?
    ensures StoredCover(p) == p ==> (
      x in Gallery(Synced(images, recipeId, Desired(gallery, p)), recipeId, StoredCover(p))
      <==> x in gallery && p != Some(x) && exists o :: o in images && o.id == x && o.stepId.None?)
  {
    var c := StoredCover(p);
    var r := Synced(images, recipeId, Desired(gallery, p));
    if x in Gallery(r, recipeId, c) {
      GalleryAfterSyncSaved(images, recipeId, gallery, p, c, x);
    }
    if (x in gallery || p == Some(x)) && c != Some(x) && exists o :: o in images && o.id == x && o.stepId.None? {
      var o :| o in images && o.id == x && o.stepId.None?;
      GalleryAfterSyncShown(images, recipeId, gallery, p, c, o);
    }
  }

  /** An image in the gallery read back was wanted, is not the cover read with, and belongs to no step. */
  lemma GalleryAfterSyncSaved(images: seq<ImageRow>, recipeId: int, gallery: seq<int>, p: Option<int>, c: Option<int>, x: int)
    requires x in Gallery(Synced(images, recipeId, Desired(gallery, p)), recipeId, c)
    ensures (x in gallery || p == Some(x)) && c != Some(x) && exists o :: o in images && o.id == x && o.stepId.None?
  {
    var r := Synced(images, recipeId, Desired(gallery, p));
    var row :| row in r && row.recipeId == Some(recipeId) && row.stepId.None? && row.id == x && c != Some(x);
    assert Some(x) in Desired(gallery, p);
    InDesired(gallery, p, x);
    var o :| o in images && o.id == row.id && o.stepId == row.stepId;
  }

  lemma InDesired(gallery: seq<int>, cover: Option<int>, x: int)
    ensures Some(x) in Desired(gallery, cover) <==> x in gallery || cover == Some(x)
  {
    if x in gallery {
      assert Some(x) in (set g | g in gallery :: Some(g));
    }
  }

  /** A saved gallery image that exists and belongs to no step is in the gallery read back. */
  lemma GalleryAfterSyncShown(images: seq<ImageRow>, recipeId: int, gallery: seq<int>, p: Option<int>, c: Option<int>, o: ImageRow)
    requires UniqueIds(images)
    requires (o.id in gallery || p == Some(o.id)) && c != Some(o.id) && o in images && o.stepId.None?
    ensures o.id in Gallery(Synced(images, recipeId, Desired(gallery, p)), recipeId, c)
  {
    var x := o.id;
    var r := Synced(images, recipeId, Desired(gallery, p));
    InDesired(gallery, p, x);
    assert Some(x) in Desired(gallery, p);
    assert x in Ids(images);
    var row :| row in r && row.id == x;
    var o' :| o' in images && o'.id == row.id && o'.stepId == row.stepId;
    SameIdSameRow(images, o, o');
  }

  /** Two rows of a table with a primary key that share the id are the same row. */
  lemma SameIdSameRow(images: seq<ImageRow>, a: ImageRow, b: ImageRow)
    requires UniqueIds(images) && a in images && b in images && a.id == b.id
    ensures a == b
  {
  }

  /** The two lists computed by `_update_images_by_recipe` carry out the synchronisation. */
  lemma SyncByDiff(images: seq<ImageRow>, recipeId: int, desired: set<Option<int>>)
    requires UniqueIds(images)
    ensures var current := LinkedIds(images, recipeId);
      Link(Drop(images, Elements(Stale(current, desired))), recipeId, Values(Missing(desired, current)))
        == Synced(images, recipeId, desired)
  {
    var current := LinkedIds(images, recipeId);
    var stale := Elements(Stale(current, desired));
    var missing := Values(Missing(desired, current));
    forall row | row in images
      ensures row.id in stale <==> row.recipeId == Some(recipeId) && Some(row.id) !in desired
      ensures row.id in missing ==> Some(row.id) in desired
      ensures Some(row.id) in desired && row.recipeId != Some(recipeId) ==> row.id in missing
    {
      if row.id in current {
        var other :| other in images && other.recipeId == Some(recipeId) && other.id == row.id;
        SameIdSameRow(images, row, other);
      }
    }
    SyncedByParts(images, recipeId, desired, stale, missing);
  }

  // ---------------------------------------------------------------------
  // Per-recipe tables: Categories, Ingredients, RecipeSteps
  // ---------------------------------------------------------------------

  /** A row of a per-recipe table: the recipe it belongs to and its other columns. */
  datatype Entry<T> = Entry(recipeId: int, value: T)

  /** `SELECT ... WHERE RecipeID = %s`: one recipe's values in table order. */
  function ValuesOf<T>(rows: seq<Entry<T>>, recipeId: int): (vs: seq<T>)
    ensures |vs| <= |rows|
  {
    if rows == [] then []
    else
      var last := rows[|rows| - 1];
      ValuesOf(rows[..|rows| - 1], recipeId) + (if last.recipeId == recipeId then [last.value] else [])
  }

  /** `DELETE FROM ... WHERE RecipeID = %s`: the rows of the other recipes, in order. */
  function OtherRecipes<T>(rows: seq<Entry<T>>, recipeId: int): (r: seq<Entry<T>>)
    ensures |r| <= |rows|
  {
    if rows == [] then []
    else
      var last := rows[|rows| - 1];
      OtherRecipes(rows[..|rows| - 1], recipeId) + (if last.recipeId == recipeId then [] else [last])
  }

  /** The rows inserted for `values`, one per value, in list order. */
  function Tagged<T>(recipeId: int, values: seq<T>): (r: seq<Entry<T>>)
    ensures |r| == |values|
    ensures forall i :: 0 <= i < |r| ==> r[i] == Entry(recipeId, values[i])
  {
    seq(|values|, i requires 0 <= i < |values| => Entry(recipeId, values[i]))
  }

  lemma {:induction false} ValuesOfConcat<T>(a: seq<Entry<T>>, b: seq<Entry<T>>, recipeId: int)
    ensures ValuesOf(a + b, recipeId) == ValuesOf(a, recipeId) + ValuesOf(b, recipeId)
  {
    if b == [] {
      assert a + b == a;
    } else {
      var init := b[..|b| - 1];
      ValuesOfConcat(a, init, recipeId);
      assert (a + b)[..|a + b| - 1] == a + init;
    }
  }

  /** Deleting a recipe's rows leaves none of its values and the other recipes' values as they were. */
  lemma {:induction false} ValuesOfOtherRecipes<T>(rows: seq<Entry<T>>, recipeId: int, other: int)
    ensures ValuesOf(OtherRecipes(rows, recipeId), other) == if other == recipeId then [] else ValuesOf(rows, other)
  {
    if rows != [] {
      var init := rows[..|rows| - 1];
      var last := rows[|rows| - 1];
      ValuesOfOtherRecipes(init, recipeId, other);
      var rest := OtherRecipes(init, recipeId);
      if last.recipeId != recipeId {
        assert OtherRecipes(rows, recipeId) == rest + [last];
        assert (rest + [last])[..|rest|] == rest;
      } else {
        assert OtherRecipes(rows, recipeId) == rest;
      }
    }
  }

  /** Reading back the inserted rows gives the inserted values to their recipe and nothing to any other. */
  lemma {:induction false} ValuesOfTagged<T>(recipeId: int, values: seq<T>, other: int)
    ensures ValuesOf(Tagged(recipeId, values), other) == if other == recipeId then values else []
  {
    if values != [] {
      var init := values[..|values| - 1];
      ValuesOfTagged(recipeId, init, other);
      assert Tagged(recipeId, values)[..|values| - 1] == Tagged(recipeId, init);
    }
  }

  /** A recipe has a value exactly when the table has that row. */
  lemma {:induction false} EntryInValuesOf<T>(rows: seq<Entry<T>>, recipeId: int, v: T)
    ensures Entry(recipeId, v) in rows <==> v in ValuesOf(rows, recipeId)
  {
    if rows != [] {
      var init := rows[..|rows| - 1];
      assert rows == init + [rows[|rows| - 1]];
      EntryInValuesOf(init, recipeId, v);
    }
  }

  /** Deleting the rows with one value removes that value from the recipe's values and from no other recipe's. */
  lemma {:induction false} WithoutValue<T>(rows: seq<Entry<T>>, recipeId: int, v: T, other: int)
    ensures ValuesOf(Without(rows, Entry(recipeId, v)), other)
      == if other == recipeId then Without(ValuesOf(rows, other), v) else ValuesOf(rows, other)
  {
    if rows != [] {
      var e := Entry(recipeId, v);
      var init := rows[..|rows| - 1];
      var last := rows[|rows| - 1];
      LastSplit(rows);
      WithoutValue(init, recipeId, v, other);
      var kept := if last == e then [] else [last];
      var tail := if last.recipeId == other then [last.value] else [];
      assert Without(rows, e) == Without(init, e) + kept by {
        WithoutSnoc(init, last, e);
      }
      assert ValuesOf(Without(rows, e), other) == ValuesOf(Without(init, e), other) + ValuesOf(kept, other) by {
        ValuesOfConcat(Without(init, e), kept, other);
      }
      ValuesOfSnoc(init, last, other);
      var rest := ValuesOf(Without(init, e), other);
      if other != recipeId {
        assert ValuesOf(kept, other) == tail;
        assert ValuesOf(Without(rows, e), other) == rest + tail;
      } else if last.recipeId != other {
        assert ValuesOf(kept, other) == [];
        assert ValuesOf(Without(rows, e), other) == Without(ValuesOf(rows, other), v);
      } else {
        WithoutSnoc(ValuesOf(init, other), last.value, v);
        assert ValuesOf(kept, other) == if last.value == v then [] else [last.value];
        assert ValuesOf(Without(rows, e), other) == Without(ValuesOf(rows, other), v);
      }
    }
  }

  /** The values of one more row. */
  lemma ValuesOfSnoc<T>(rows: seq<Entry<T>>, last: Entry<T>, recipeId: int)
    ensures ValuesOf(rows + [last], recipeId)
      == ValuesOf(rows, recipeId) + if last.recipeId == recipeId then [last.value] else []
    ensures ValuesOf([last], recipeId) == if last.recipeId == recipeId then [last.value] else []
    ensures last.recipeId != recipeId ==> ValuesOf(rows + [last], recipeId) == ValuesOf(rows, recipeId)
  {
    assert (rows + [last])[..|rows|] == rows;
    assert ValuesOf(rows, recipeId) + [] == ValuesOf(rows, recipeId);
    assert [last][..0] == [];
  }

  lemma WithoutSnoc<T>(xs: seq<T>, y: T, x: T)
    ensures Without(xs + [y], x) == Without(xs, x) + if y == x then [] else [y]
  {
    WithoutConcat(xs, [y], x);
    WithoutSingle([y], x);
  }

  lemma WithoutSingle<T>(xs: seq<T>, x: T)
    requires |xs| == 1
    ensures Without(xs, x) == if xs[0] == x then [] else xs
  {
    assert xs[1..] == [];
  }

  /** A per-recipe table (`Categories`, `Ingredients` or `RecipeSteps`). */
  class Table<T(==)> {
    var rows: seq<Entry<T>>

    constructor (rows: seq<Entry<T>>)
      ensures this.rows == rows
    {
      this.rows := rows;
    }

    /** `INSERT INTO ... (RecipeID, ...) VALUES (...)`: one row at the end. */
    method Insert(recipeId: int, v: T)
      modifies this
      ensures rows == old(rows) + [Entry(recipeId, v)]
      ensures ValuesOf(rows, recipeId) == ValuesOf(old(rows), recipeId) + [v]
    {
      rows := rows + [Entry(recipeId, v)];
      assert rows[..|rows| - 1] == old(rows);
    }

    /** `DELETE FROM ... WHERE RecipeID = %s AND ... = %s`: every row with that value; `rowcount` is how many. */
    method DeleteValue(recipeId: int, v: T) returns (rowcount: nat)
      modifies this
      ensures rows == Without(old(rows), Entry(recipeId, v))
      ensures rowcount == Count(old(rows), Entry(recipeId, v))
      ensures ValuesOf(rows, recipeId) == Without(ValuesOf(old(rows), recipeId), v)
      ensures forall other :: other != recipeId ==> ValuesOf(rows, other) == ValuesOf(old(rows), other)
    {
      forall other {
        WithoutValue(rows, recipeId, v, other);
      }
      rowcount := Count(rows, Entry(recipeId, v));
      rows := Without(rows, Entry(recipeId, v));
    }

    /**
     * `_update_categories_by_recipe` and its siblings: delete every row of
     * the recipe, then insert the new values one by one in list order.
     * Reading the recipe back gives exactly the new values; no other recipe
     * is touched.
     */
    method Replace(recipeId: int, values: seq<T>)
      modifies this
      ensures rows == OtherRecipes(old(rows), recipeId) + Tagged(recipeId, values)
      ensures ValuesOf(rows, recipeId) == values
      ensures forall other :: other != recipeId ==> ValuesOf(rows, other) == ValuesOf(old(rows), other)
    {
      rows := OtherRecipes(rows, recipeId);
      ghost var kept := rows;
      for i := 0 to |values|
        invariant rows == kept + Tagged(recipeId, values[..i])
      {
        TaggedSnoc(kept, recipeId, values, i);
        Insert(recipeId, values[i]);
      }
      assert values[..|values|] == values;
      assert rows == OtherRecipes(old(rows), recipeId) + Tagged(recipeId, values);
      forall other
        ensures ValuesOf(rows, other) == if other == recipeId then values else ValuesOf(old(rows), other)
      {
        ValuesAfterReplace(old(rows), recipeId, values, other);
      }
    }
  }

  lemma TaggedSnoc<T>(kept: seq<Entry<T>>, recipeId: int, values: seq<T>, i: nat)
    requires i < |values|
    ensures kept + Tagged(recipeId, values[..i + 1]) == kept + Tagged(recipeId, values[..i]) + [Entry(recipeId, values[i])]
  {
    assert Tagged(recipeId, values[..i + 1]) == Tagged(recipeId, values[..i]) + [Entry(recipeId, values[i])];
  }

  /** Reading back a table after `Replace`. */
  lemma ValuesAfterReplace<T>(rows: seq<Entry<T>>, recipeId: int, values: seq<T>, other: int)
    ensures ValuesOf(OtherRecipes(rows, recipeId) + Tagged(recipeId, values), other)
      == if other == recipeId then values else ValuesOf(rows, other)
  {
    ValuesOfConcat(OtherRecipes(rows, recipeId), Tagged(recipeId, values), other);
    ValuesOfOtherRecipes(rows, recipeId, other);
    ValuesOfTagged(recipeId, values, other);
  }

  /** The columns of an `Ingredients` row besides `RecipeID`. */
  datatype IngredientValue = IngredientValue(name: string, unit: string, amount: real, group: Option<string>)

  /** The columns of a `RecipeSteps` row besides `RecipeID` and the generated `StepID`. */
  datatype StepValue = StepValue(orderId: int, step: string)

  /** `_update_categories_by_recipe`. */
  method UpdateCategories(t: Table<string>, recipeId: int, categories: seq<string>)
    modifies t
    ensures ValuesOf(t.rows, recipeId) == categories
    ensures forall other :: other != recipeId ==> ValuesOf(t.rows, other) == ValuesOf(old(t.rows), other)
  {
    t.Replace(recipeId, categories);
  }

  /** `_update_ingredients_by_recipe`. */
  method UpdateIngredients(t: Table<IngredientValue>, recipeId: int, ingredients: seq<IngredientValue>)
    modifies t
    ensures ValuesOf(t.rows, recipeId) == ingredients
    ensures forall other :: other != recipeId ==> ValuesOf(t.rows, other) == ValuesOf(old(t.rows), other)
  {
    t.Replace(recipeId, ingredients);
  }

  /** `_update_recipe_steps_by_recipe`. */
  method UpdateSteps(t: Table<StepValue>, recipeId: int, steps: seq<StepValue>)
    modifies t
    ensures ValuesOf(t.rows, recipeId) == steps
    ensures forall other :: other != recipeId ==> ValuesOf(t.rows, other) == ValuesOf(old(t.rows), other)
  {
    t.Replace(recipeId, steps);
  }

  /** `delete_category`: removes the recipe's rows with that category, whether or not there were any. */
  method DeleteCategory(t: Table<string>, category: string, recipeId: int)
    modifies t
    ensures ValuesOf(t.rows, recipeId) == Without(ValuesOf(old(t.rows), recipeId), category)
    ensures category !in ValuesOf(t.rows, recipeId)
    ensures forall other :: other != recipeId ==> ValuesOf(t.rows, other) == ValuesOf(old(t.rows), other)
  {
    var _ := t.DeleteValue(recipeId, category);
  }

  // ---------------------------------------------------------------------
  // Recipes: listing, reading and deleting
  // ---------------------------------------------------------------------

  /** A row of `Recipes`. */
  datatype RecipeRow = RecipeRow(
    title: Option<string>, description: Option<string>, cookingTime: Option<int>,
    cover: Option<int>, portions: int, userId: Option<int>, clicks: Option<int>)

  /** A row of the listing query: a recipe's id with its columns. */
  datatype ListingRow = ListingRow(id: int, recipe: RecipeRow)

  /** A `RecipeListing`. */
  datatype Listing = Listing(
    id: int, title: string, creator: Option<string>, description: string,
    categories: seq<string>, cover: Option<int>, clicks: Option<int>, cookingTime: int)

  /** `x if x else ""`. */
  function OrEmpty(s: Option<string>): (r: string)
    ensures r == "" <==> s.None? || s == Some("")
    ensures r != "" ==> s == Some(r)
  {
    if s.Some? then s.value else ""
  }

  /** A `RecipeListing` validates only with a cooking time; any other row is skipped. */
  predicate Listable(row: ListingRow) {
    row.recipe.cookingTime.Some?
  }

  /** `get_user_by_id` succeeds for every row: a NULL user id gives `None`, a missing user raises. */
  predicate CreatorsFound(rows: seq<ListingRow>, users: map<int, UserRow>) {
    forall row :: row in rows && row.recipe.userId.Some? ==> row.recipe.userId.value in users
  }

  /** The listing of one row: empty text for a NULL title or description, and a creator only when the row has a (truthy) user id. */
  function ListingOf(row: ListingRow, users: map<int, UserRow>, categories: seq<Entry<string>>): (l: Listing)
    requires Listable(row) && (row.recipe.userId.Some? ==> row.recipe.userId.value in users)
    ensures l.id == row.id && l.cookingTime == row.recipe.cookingTime.value
    ensures l.title == OrEmpty(row.recipe.title) && l.description == OrEmpty(row.recipe.description)
    ensures l.creator.Some? <==> Truthy(row.recipe.userId)
    ensures l.categories == ValuesOf(categories, row.id)
  {
    var r := row.recipe;
    Listing(row.id, OrEmpty(r.title),
      if Truthy(r.userId) then Some(users[r.userId.value].username) else None,
      OrEmpty(r.description), ValuesOf(categories, row.id), r.cover, r.clicks, r.cookingTime.value)
  }

  /** The listings of `rows`, in order, without the rows that do not validate. */
  function Listings(rows: seq<ListingRow>, users: map<int, UserRow>, categories: seq<Entry<string>>): (ls: seq<Listing>)
    requires CreatorsFound(rows, users)
    ensures |ls| <= |rows|
    ensures forall l :: l in ls <==> exists row :: row in rows && Listable(row) && l == ListingOf(row, users, categories)
  {
    if rows == [] then []
    else
      var row := rows[|rows| - 1];
      var init := rows[..|rows| - 1];
      assert rows == init + [row];
      Listings(init, users, categories) + if Listable(row) then [ListingOf(row, users, categories)] else []
  }

  /**
   * The loop of `get_all_recipes` over the query's rows: with every creator
   * found, each row that validates becomes a listing, in query order.
   */
  method BuildListings(rows: seq<ListingRow>, users: map<int, UserRow>, categories: seq<Entry<string>>) returns (r: Result<seq<Listing>, Error>)
    ensures r.Failure? <==> !CreatorsFound(rows, users)
    ensures r.Failure? ==> r.error == NotFound
    ensures r.Success? ==> r.value == Listings(rows, users, categories)
  {
    if !CreatorsFound(rows, users) {
      return Failure(NotFound);
    }
    var listings := [];
    for i := 0 to |rows|
      invariant listings == Listings(rows[..i], users, categories)
    {
      assert rows[..i + 1][..i] == rows[..i];
      if Listable(rows[i]) {
        listings := listings + [ListingOf(rows[i], users, categories)];
      }
    }
    assert rows[..|rows|] == rows;
    r := Success(listings);
  }

  /** The part of a `Recipe` the store decides. */
  datatype RecipeDetails = RecipeDetails(
    id: int, title: Option<string>, creatorName: Option<string>, creatorId: Option<int>,
    cover: Option<int>, gallery: seq<int>, categories: seq<string>)

  /**
   * `get_recipe`: the recipe joined with its creator. A recipe that does not
   * exist, has no creator or whose creator is gone joins to no row and is
   * `NotFoundException`. The gallery comes from the query as written, so a
   * recipe with a cover reads back its intended gallery and one without a
   * cover reads back none.
   */
  function GetRecipe(recipes: map<int, RecipeRow>, users: map<int, UserRow>, images: seq<ImageRow>,
                     categories: seq<Entry<string>>, id: int): (r: Result<RecipeDetails, Error>)
    ensures r.Failure? <==> id !in recipes || recipes[id].userId.None? || recipes[id].userId.value !in users
    ensures r.Failure? ==> r.error == NotFound
    ensures r.Success? ==>
      r.value.creatorId == recipes[id].userId
      && r.value.creatorName == Some(users[recipes[id].userId.value].username)
      && r.value.categories == ValuesOf(categories, id)
    ensures r.Success? && recipes[id].cover.Some? ==> r.value.gallery == Gallery(images, id, recipes[id].cover)
    ensures r.Success? && recipes[id].cover.None? ==> r.value.gallery == []
  {
    if id !in recipes || recipes[id].userId.None? || recipes[id].userId.value !in users then Failure(NotFound)
    else
      var row := recipes[id];
      var u := row.userId.value;
      GalleryAsWrittenCases(images, id, row.cover);
      Success(RecipeDetails(id, row.title, Some(users[u].username), row.userId, row.cover,
        GalleryAsWritten(images, id, row.cover), ValuesOf(categories, id)))
  }

  /** The `Recipes` table. */
  class RecipeTable {
    var recipes: map<int, RecipeRow>

    constructor (recipes: map<int, RecipeRow>)
      ensures this.recipes == recipes
    {
      this.recipes := recipes;
    }

    /** `delete_recipe`: removes the recipe; `NotFoundException` when no row was deleted. */
    method DeleteRecipe(id: int) returns (r: Result<(), Error>)
      modifies this
      ensures recipes == old(recipes) - {id}
      ensures r.Failure? <==> id !in old(recipes)
      ensures r.Failure? ==> r.error == NotFound
    {
      var rowcount := if id in recipes then 1 else 0;
      recipes := recipes - {id};
      if rowcount == 0 {
        return Failure(NotFound);
      }
      r := Success(());
    }
  }

  /** A deleted recipe can no longer be read. */
  lemma ReadAfterDelete(recipes: map<int, RecipeRow>, users: map<int, UserRow>, images: seq<ImageRow>,
                        categories: seq<Entry<string>>, id: int)
    ensures GetRecipe(recipes - {id}, users, images, categories, id) == Failure(NotFound)
  {
  }
}
