# fast_kitchen — a verified model of the recipe editor, the recipe page and the recipe store

fast_kitchen is a recipe site: a React frontend for writing, browsing and
viewing recipes, and a Python backend that keeps recipes, their categories,
ingredients, steps and images in MySQL. This project models the parts of
both that make decisions, and proves what they promise:

- **Form lists that grow by themselves** (`AutoGrowth`, `CreateRecipe`,
  `RecipeEditor`, `RecipeEditorLegacy`). Each ingredient list and step list
  keeps one blank row at its end. When the last row is filled in, a blank row
  is appended. When the last two rows are blank, the last one is dropped. The
  rule is proved to terminate. Its fixpoint is proved to have exactly one
  trailing blank row, and no row before the trailing blanks is ever touched.
  The editors' row handlers (edit, delete, add or delete a group, images of a
  step) are methods on classes that hold the lists.
- **Ingredient groups** (`IngredientGroups`). A loaded recipe's flat
  ingredient list is bucketed by group, in first-seen order, by the same
  `findIndex`/`push` loop in three places. Submitting flattens the groups
  again. The loop is proved to compute the grouping. Flattening a grouping is
  proved to be a stable partition of the original list.
- **Submitting the editor form** (`RecipeEditor`). The ordered checks stop at
  the first failure. The payload holds trimmed, non-empty ingredients, steps
  numbered from 0 and the cover as a number.
- **The recipe page** (`RecipeView`). It shows the gallery with the cover
  first, group headings, amounts scaled to the wished portions, steps sorted
  by their order (an in-place insertion sort on an array), and the
  edit/delete controls.
- **Start page filters and the image carousel** (`Filters`, `Carousel`).
- **The recipe store** (`Database` for the asynchronous store, and
  `LegacyDatabase` for where the older synchronous store differs). The model
  covers:
  - authorization;
  - LIMIT/OFFSET parameters;
  - the category filter;
  - cover normalisation;
  - the gallery query;
  - the synchronisation of image links;
  - delete-then-insert replacement of a recipe's categories, ingredients and
    steps;
  - listings;
  - `NotFoundException` conditions.

  Tables are sequences of rows or maps. The tables the store updates row by
  row are classes.
- **Image resizing** (`ImageTools`). The longer side becomes 700 pixels and
  the other side is scaled and truncated.

JavaScript and Python built-ins that the decisions depend on are modelled in
`Text` (`trim`), `JsNumbers` (`parseInt`, `Number`, `String(n)`,
`Math.round`) and `Base` (Option and Result, removing an index, removing
every occurrence, deduplication).

## Model

| member | source | states |
|---|---|---|
| AutoGrowth.SettledIsOneTrailingBlank | frontend/src/CreateRecipe.js:26-35 | a list is at rest exactly when it ends in exactly one blank row |
| AutoGrowth.NextFixpoint | frontend/src/CreateRecipe.js:26-35 | the rule leaves a list alone exactly when it is at rest (or is the empty step list); any other step changes the length |
| AutoGrowth.NextKeepsPrefix | frontend/src/CreateRecipe.js:28-33 | one step never empties a non-empty list and keeps every row but the last in place |
| AutoGrowth.NextDecreases | frontend/src/CreateRecipe.js:26-35 | every step that changes the list strictly lowers the distance to rest, so re-running the effect terminates |
| AutoGrowth.SettleClosedForm | frontend/src/CreateRecipe.js:26-35 | the resting list is the list with its trailing blank rows cut to one, or with a blank row appended when it had none |
| AutoGrowth.SettleKeepsInterior | frontend/src/RecipeEditor.jsx:150-159 | at rest, every row before the old trailing blanks is still there, in place, followed by exactly one blank row |
| AutoGrowth.RemoveFilledKeepsTrailingBlank | frontend/src/RecipeEditor.jsx:178-185 | deleting a filled-in row (the only rows with a delete button) keeps a trailing blank row last |
| CreateRecipe.RowList.constructor | frontend/src/CreateRecipe.js:24 | a list starts as exactly one blank row, already at rest |
| CreateRecipe.RowList.GrowthEffect | frontend/src/CreateRecipe.js:26-35 | one run appends a blank row after a filled-in last row, drops the last of two trailing blanks, or changes nothing; it reports a change exactly when the list was not at rest, and the list stays non-empty; the step list at `frontend/src/CreateRecipe.js:70-79` follows the same rule with the blank step |
| CreateRecipe.RowList.RunEffects | frontend/src/CreateRecipe.js:26-35 | re-running the effect until it sets no new state ends at rest, with every row before the old trailing blanks kept in place |
| CreateRecipe.RowList.SetRow | frontend/src/CreateRecipe.js:37-41 | the edited row is replaced and no other row changes |
| CreateRecipe.SetIngredientField | frontend/src/CreateRecipe.js:39 | the named field takes the input's text and the other two fields keep theirs |
| CreateRecipe.NewIngredientList | frontend/src/CreateRecipe.js:24 | the ingredient list starts as one blank ingredient |
| CreateRecipe.NewStepList | frontend/src/CreateRecipe.js:68 | the step list starts as one blank step |
| CreateRecipe.EditIngredient | frontend/src/CreateRecipe.js:37-41 | only the edited field of the edited row changes; the length and all other rows stay |
| CreateRecipe.EditStep | frontend/src/CreateRecipe.js:81-85 | only the edited step's description changes; the length and all other steps stay |
| IngredientGroups.FindGroup | frontend/src/RecipeEditor.jsx:392 | -1 exactly when no group has the key, otherwise the first group that has it |
| IngredientGroups.GroupIngredients | frontend/src/RecipeEditor.jsx:389-405 | the grouping loop computes the grouping: one group per distinct key, each holding that key's rows in order; the same code is at `frontend/src/RecipeEditor.js:317-332` and `frontend/src/Recipe.js:36-49` |
| IngredientGroups.GroupingNames | frontend/src/RecipeEditor.jsx:389-405 | the groups are named by the distinct group keys in first-seen order, and every ingredient's key names a group |
| IngredientGroups.FlattenGrouping | frontend/src/RecipeEditor.jsx:389-405 | flattening the groups gives back every ingredient (same count, same multiset) with each group's rows in their original order |
| IngredientGroups.PartitionPermutes | frontend/src/RecipeEditor.jsx:468-470 | concatenating the groups of all present keys is a permutation of the list |
| IngredientGroups.PartitionKeepsGroups | frontend/src/RecipeEditor.jsx:468-470 | within each group, the concatenation keeps the original relative order |
| IngredientGroups.SubmitRows | frontend/src/RecipeEditor.jsx:468-470 | a group's submitted ingredients are exactly its rows whose name is not blank, in order, each with its name trimmed, its amount and unit, and the group's name |
| IngredientGroups.SubmitIngredients | frontend/src/RecipeEditor.jsx:468-470 | the submitted ingredients are, group after group in order, each group's non-blank rows with trimmed names and the group's name; every submitted name is trimmed and non-empty |
| IngredientGroups.SubmitRowsDropsBlank | frontend/src/RecipeEditor.jsx:470 | a row whose name is only white space is not submitted |
| IngredientGroups.SubmitLoadedIngredients | frontend/src/RecipeEditor.js:391-393 | submitting freshly loaded groups gives the stable partition of the loaded list by first-seen group |
| RecipeEditor.GrowOne | frontend/src/RecipeEditor.jsx:151-159 | one group's step follows the rule; it changes the rows exactly when the group was not at rest, and each change brings it closer |
| RecipeEditor.GrowGroups | frontend/src/RecipeEditor.jsx:150-160 | every group takes one step; `change` is set exactly when some group was not at rest, exactly when some group changed |
| RecipeEditor.GrowAllFixpoint | frontend/src/RecipeEditor.jsx:161-162 | the step leaves the groups alone exactly when every group is at rest |
| RecipeEditor.IngredientList.constructor | frontend/src/RecipeEditor.jsx:341 | the form starts with one unnamed group holding one blank ingredient, at rest |
| RecipeEditor.IngredientList.GrowthEffect | frontend/src/RecipeEditor.jsx:146-163 | one run grows every group and sets new state only when some group changed, bringing the groups closer to rest |
| RecipeEditor.IngredientList.RunEffects | frontend/src/RecipeEditor.jsx:150-159 | re-running the effect terminates with every group at rest; group names and count are kept |
| RecipeEditor.SettleAllOfGrowAll | frontend/src/RecipeEditor.jsx:150-159 | one run of the effect does not change where each group comes to rest |
| RecipeEditor.SettleAllOfSettled | frontend/src/RecipeEditor.jsx:150-159 | groups already at rest are left as they are |
| RecipeEditor.IngredientList.EditRow | frontend/src/RecipeEditor.jsx:165-176 | only the edited field of the edited row of the edited group changes |
| RecipeEditor.IngredientList.DeleteRow | frontend/src/RecipeEditor.jsx:178-185 | exactly the row at that index is removed, the rest keep their order, and a trailing blank row stays last; the same code is at `frontend/src/RecipeEditor.js:132-139` |
| RecipeEditor.IngredientList.RenameGroup | frontend/src/RecipeEditor.jsx:187-191 | only that group's name changes |
| RecipeEditor.IngredientList.AddGroup | frontend/src/RecipeEditor.jsx:193-195 | an unnamed group with one blank ingredient is appended |
| RecipeEditor.IngredientList.DeleteGroup | frontend/src/RecipeEditor.jsx:197-201 | exactly the group at that index is removed and at least one group remains |
| RecipeEditor.IngredientList.Load | frontend/src/RecipeEditor.jsx:389-405 | loaded ingredients replace the groups with their grouping; no ingredients keep the default group |
| RecipeEditor.StepsList.constructor | frontend/src/RecipeEditor.jsx:342 | the step list starts as one blank step |
| RecipeEditor.StepsList.GrowthEffect | frontend/src/RecipeEditor.jsx:273-282 | a blank step is appended after a filled-in last step, the last of two trailing blanks is dropped, an empty list stays empty; the same code is at `frontend/src/RecipeEditor.js:207-216` |
| RecipeEditor.StepsList.RunEffects | frontend/src/RecipeEditor.jsx:273-282 | re-running the effect ends at the resting list |
| RecipeEditor.StepsList.EditDescription | frontend/src/RecipeEditor.jsx:284-288 | only the edited step's description changes |
| RecipeEditor.StepsList.DeleteStep | frontend/src/RecipeEditor.jsx:290-294 | exactly the step at that index is removed and a trailing blank step stays last; the same code is at `frontend/src/RecipeEditor.js:224-228` |
| RecipeEditor.StepsList.UploadImage | frontend/src/RecipeEditor.jsx:296-306 | the returned id, -1 included, is appended to that step's images; the same code is at `frontend/src/RecipeEditor.js:230-240` |
| RecipeEditor.StepsList.DeleteImage | frontend/src/RecipeEditor.jsx:308-317 | every occurrence of the id leaves that step's images; nothing else changes |
| RecipeEditor.StepsList.Load | frontend/src/RecipeEditor.jsx:406-407 | loaded steps replace the list unless there are none |
| RecipeEditor.ImageFields.constructor | frontend/src/RecipeEditor.jsx:348-349 | no cover and an empty gallery |
| RecipeEditor.ImageFields.UploadGallery | frontend/src/RecipeEditor.jsx:598-601 | the id is appended unless it is -1; the same code is at `frontend/src/RecipeEditor.js:446-449` |
| RecipeEditor.ImageFields.DeleteGallery | frontend/src/RecipeEditor.jsx:603-605 | every occurrence of the id leaves the gallery |
| RecipeEditor.ImageFields.UploadCover | frontend/src/RecipeEditor.jsx:607-610 | the cover becomes the returned id |
| RecipeEditor.ImageFields.DeleteCover | frontend/src/RecipeEditor.jsx:612-614 | the cover is cleared |
| RecipeEditor.ImageFields.Load | frontend/src/RecipeEditor.jsx:408-409 | the stored gallery and cover are loaded, a missing cover as `null` |
| RecipeEditor.CategoryOptions | frontend/src/RecipeEditor.jsx:360-366 | the defaults come first, no option repeats, the options are exactly the defaults and the fetched categories, and they keep the order of first occurrence in the defaults followed by the fetched list |
| Base.DedupFirstOccurrence | frontend/src/RecipeEditor.jsx:364 | removing duplicates keeps each value once, ordered by where it first occurs |
| RecipeEditor.UnnamedGroups | frontend/src/RecipeEditor.jsx:451 | non-empty exactly when some group is named `""` |
| RecipeEditor.FilledSteps | frontend/src/RecipeEditor.jsx:456 | non-empty exactly when some step's description is not blank |
| RecipeEditor.ChecksWith | frontend/src/RecipeEditor.jsx:422-461 | the first failing check decides, in order: title, description (`null` throws), categories, cooking time, distinct group names, group names, a filled-in step; otherwise the form passes; the same code is at `frontend/src/RecipeEditor.js:345-384` |
| RecipeEditor.RecipeChecksCorrected | frontend/src/RecipeEditor.jsx:438-441 | a form passes only with a positive submitted cooking time, and only when it also passes as written |
| RecipeEditor.CheckedTimeIsPositive | frontend/src/RecipeEditor.jsx:438-441 | a time whose `parseInt` is positive is never rejected by the `<= 0` check |
| RecipeEditor.ZeroCookingTimeSubmitted | frontend/src/RecipeEditor.jsx:438-482 | a cooking time typed as `0.5` passes the check and is submitted as 0; the corrected checks reject it |
| RecipeEditor.ExponentTimeRejected | frontend/src/RecipeEditor.jsx:438-441 | a cooking time typed as `0e5` or `-1e1` is rejected with the cooking-time message |
| RecipeEditor.ExponentTimeTruncated | frontend/src/RecipeEditor.jsx:438-482 | a cooking time typed as `1e3` passes the check as 1000 minutes and is submitted as 1 |
| RecipeEditor.SubmitSteps | frontend/src/RecipeEditor.jsx:484 | the submitted steps are exactly the steps whose description is not blank, in order, the i-th numbered i with its description trimmed and its images kept; the same code is at `frontend/src/RecipeEditor.js:408` |
| RecipeEditor.SubmitStepsNonEmpty | frontend/src/RecipeEditor.jsx:484 | some step is submitted exactly when some step of the form is filled in |
| RecipeEditor.SubmitStepsIgnoresBlank | frontend/src/RecipeEditor.jsx:484 | the trailing blank step is never submitted |
| RecipeEditor.SubmitStepsOfClean | frontend/src/RecipeEditor.jsx:484 | steps that are all filled in and trimmed are submitted one for one, numbered by position |
| RecipeEditor.TrimAll | frontend/src/RecipeEditor.jsx:480 | each submitted category is the slice of the typed one in the same place, cut at blank ends and left without white space at either end, and is empty exactly when the typed one is blank |
| RecipeEditor.SubmitWith | frontend/src/RecipeEditor.jsx:463-487 | a failing check shows its message; a passing form is sent with its title, description, portions and gallery as they are, its categories trimmed, `parseInt` of its cooking time, the submitted ingredients and steps, and the cover's payload (-1 when no cover is chosen); the same code is at `frontend/src/RecipeEditor.js:386-411` |
| RecipeEditor.CoverPayload | frontend/src/RecipeEditor.jsx:485 | no chosen cover is sent as -1, a `null` cover as `Number(null)` = 0, and a chosen image as its id |
| RecipeEditor.Submit | frontend/src/RecipeEditor.jsx:463-487 | with the corrected checks, every sent form has a positive cooking time and at least one step, and is the form the code as written sends |
| RecipeEditorLegacy.IngredientList.constructor | frontend/src/RecipeEditor.js:273 | the older form starts with one unnamed group holding one blank ingredient |
| RecipeEditorLegacy.IngredientList.GrowthEffect | frontend/src/RecipeEditor.js:104-117 | the groups take the same step, which is the identity at rest, but new state is set on every run |
| RecipeEditorLegacy.InitialFormNeverQuiesces | frontend/src/RecipeEditor.js:104-117 | the initial form is at rest, so the step changes nothing, yet the effect re-renders it forever |
| RecipeView.GalleryOf | frontend/src/Recipe.js:30-34 | the cover, when there is one, comes first and is followed by the gallery unchanged |
| RecipeView.HeadingsOfGrouping | frontend/src/Recipe.js:93-109 | a loaded recipe shows group headings exactly when its ingredients have more than one distinct group key, and then the headings are those keys in first-seen order |
| RecipeView.ViewGroupsEveryIngredient | frontend/src/Recipe.js:36-49 | the page's groups show every ingredient exactly once, under the distinct group names in first-seen order |
| RecipeView.DisplayedAmount | frontend/src/Recipe.js:98 | the shown amount is within 1/20 of the amount times the wished-to-stored portions ratio (1 when no number is wished) |
| RecipeView.DisplayAtOwnPortions | frontend/src/Recipe.js:29 | at the recipe's own portions the amount is shown rounded to one decimal, and an amount with at most one decimal is shown as it is |
| RecipeView.DisplayWithoutWish | frontend/src/Recipe.js:98 | with an empty portions field the amount is shown unscaled, rounded to one decimal |
| RecipeView.DisplayMonotone | frontend/src/Recipe.js:98 | for a recipe with positive portions, wishing more portions never shows less of a non-negative amount |
| RecipeView.PortionInputRoundTrip | frontend/src/Recipe.js:112 | the input handler, given the text the field shows for a wish (none or a number), stores that wish again |
| RecipeView.SortByOrderSorted | frontend/src/Recipe.js:115-119 | the steps are shown in ascending order |
| RecipeView.SortByOrderPermutes | frontend/src/Recipe.js:115-119 | sorting neither loses nor adds a step |
| RecipeView.SortByOrderOfSorted | frontend/src/Recipe.js:115-119 | steps already in order stay as they are |
| RecipeView.InsertStep | frontend/src/Recipe.js:115-119 | one insertion pass places the next step among the sorted prefix and leaves the rest of the array alone |
| RecipeView.SortSteps | frontend/src/Recipe.js:115-119 | sorting in place leaves the array holding the sorted steps |
| RecipeView.NumberedAsSubmitted | frontend/src/Recipe.js:115-123 | steps saved with orders 0, 1, 2, … are shown in that order, numbered from 1 |
| RecipeView.ShowsControls | frontend/src/Recipe.js:70 | the controls show exactly for an admin or for a user whose id parses to the creator's id |
| RecipeView.CreatorSeesControls | frontend/src/Recipe.js:70 | a non-admin whose stored id is the decimal user id sees the controls exactly on their own recipes |
| JsNumbers.ParseInt | frontend/src/RecipeEditor.jsx:482 | `parseInt` gives NaN exactly when no digit follows the leading white space, sign and hex prefix |
| JsNumbers.ParseIntTruncates | frontend/src/RecipeEditor.jsx:482 | for a number-input text that starts with a digit, `parseInt` is the whole part of the mantissa; without an exponent that is the number the text converts to, with its fraction dropped |
| JsNumbers.ToNumberOfExponent | frontend/src/RecipeEditor.jsx:438 | `"1e3"` converts to 1000 |
| JsNumbers.ToNumberOfZeroExponent | frontend/src/RecipeEditor.jsx:438 | `"0e5"` converts to 0 |
| JsNumbers.ToNumberOfNegativeExponent | frontend/src/RecipeEditor.jsx:438 | `"-1e1"` converts to -10 |
| JsNumbers.NoHexInNumber | frontend/src/RecipeEditor.jsx:482 | a text that converts to a number has no `0x` prefix, so `parseInt` reads it in base 10 |
| JsNumbers.ParseIntOfDecimalString | frontend/src/Recipe.js:70 | `parseInt(String(n))` gives back `n` |
| JsNumbers.Round | frontend/src/Recipe.js:98 | `Math.round` is within one half of its argument, halves rounding up |
| Text.Trim | frontend/src/RecipeEditor.jsx:423 | `trim` gives the slice of its input that is left after cutting a blank prefix and a blank suffix, with no white space at either end; it is empty exactly for blank input |
| Text.TrimOfUnique | frontend/src/RecipeEditor.jsx:423 | any slice of the input with blank ends cut off and no white space at its own ends is the trimmed text |
| Text.TrimIdempotent | frontend/src/RecipeEditor.jsx:484 | trimming twice is trimming once |
| Filters.SetFilter | frontend/src/Main.jsx:11-17 | switching on appends the label; switching off removes every occurrence and no other label |
| Filters.SetFilterKeepsOthers | frontend/src/Main.jsx:11-17 | no other label's count changes |
| Filters.SetFilterOffKeepsOrder | frontend/src/Main.jsx:13 | removing a label keeps the other labels in their order |
| Filters.OnThenOff | frontend/src/Main.jsx:11-17 | switching a new label on and then off restores the list |
| Filters.FilterChip.constructor | frontend/src/Filter.jsx:6 | a chip starts switched off |
| Filters.FilterChip.Click | frontend/src/Filter.jsx:8-11 | a click flips the chip and switches its label in the list with the new state, keeping the label in the list exactly while the chip is on |
| Filters.TwoClicks | frontend/src/Filter.jsx:8-11 | after one click the label is listed; a second click restores both the chip and the list |
| Carousel.Prev | frontend/src/ImageCarousel.jsx:10-12 | the first slide goes to the last, any other to the one before, staying in range |
| Carousel.Next | frontend/src/ImageCarousel.jsx:14-16 | the last slide goes to the first, any other to the one after, staying in range |
| Carousel.PrevNextInverse | frontend/src/ImageCarousel.jsx:10-16 | previous and next undo each other |
| Carousel.NextTimesIsShift | frontend/src/ImageCarousel.jsx:14-16 | k steps forward move k places around the ring |
| Carousel.NextAroundTheRing | frontend/src/ImageCarousel.jsx:14-16 | n steps forward return to the start |
| Carousel.ViewOf | frontend/src/ImageCarousel.jsx:8-33 | no items show nothing; the buttons and dots show exactly when there is more than one |
| Carousel.ImageCarousel.constructor | frontend/src/ImageCarousel.jsx:5 | the carousel starts at the first slide |
| Carousel.ImageCarousel.GoToPrev | frontend/src/ImageCarousel.jsx:10-12 | the index moves back around the ring and stays in range |
| Carousel.ImageCarousel.GoToNext | frontend/src/ImageCarousel.jsx:14-16 | the index moves forward around the ring and stays in range |
| Carousel.ImageCarousel.SelectDot | frontend/src/ImageCarousel.jsx:54 | a dot selects its slide |
| Database.IsAuthorized | backend/db/database.py:471-489 | true exactly for an enabled user who is an admin or owns the recipe; a missing user, or a missing recipe for an enabled non-admin, raises a `TypeError`; the older store has the same code at `backend/database.py:450-473` |
| Database.AuthorizedIffControlsShown | backend/db/database.py:471-489 | for an enabled user and an existing recipe, the store authorizes exactly when the recipe page shows the controls |
| Database.LimitParameters | backend/db/database.py:344-352 | no limit gives no parameters; a limit alone gives one; a limit and a page give two, with offset 0 on page 1; the older store has the same code at `backend/database.py:321-329` |
| Database.PagesArePrefix | backend/db/database.py:344-352 | the first k pages of a listing together are its first k·limit rows |
| Database.Window | backend/db/database.py:344-352 | the query fails with an SQL error exactly when a bound LIMIT or OFFSET is negative, and otherwise returns no more rows than there are |
| Database.PageRejectedIffNegative | backend/db/database.py:344-352 | with a non-zero limit and page, the listing query fails exactly when the limit is negative or the page is below 1 |
| Database.FirstPageIsUnpaged | backend/db/database.py:344-352 | page 1 shows the same rows as no page |
| Database.StoredCover | backend/db/database.py:220-222 | the cover is stored exactly when it is a positive id, otherwise `NULL`; an update stores it the same way at `backend/db/database.py:440-442` |
| Database.CoverRoundTrip | backend/db/database.py:220-222 | an image id sent by the editor loads back as the same cover, and "no cover" loads back as `null` |
| Database.KeptByFilterIffHasAll | backend/db/database.py:354-364 | without repeated categories or filters, a recipe is kept exactly when it has every filter category; the older store has the same code at `backend/database.py:331-341` |
| Database.MatchingRowsCountsShared | backend/db/database.py:356 | the count the query compares is the number of the recipe's categories among the filters |
| Database.RepeatedFilterHides | backend/db/database.py:356 | a filter repeated in the request hides a recipe that has it |
| Database.RepeatedCategoryAdmits | backend/db/database.py:356 | a category stored twice can stand in for a missing filter category |
| Database.LinkedIds | backend/db/database.py:607-610 | the ids read are exactly the images linked to the recipe |
| Database.GalleryAsWritten | backend/db/database.py:597 | with a `NULL` cover the gallery query returns nothing |
| Database.Gallery | backend/db/database.py:590-599 | the gallery is exactly the recipe's images that belong to no step and are not the cover |
| Database.GalleryWithCover | backend/db/database.py:597 | with a cover, the query as written gives the gallery |
| Database.GalleryAsWrittenCases | backend/db/database.py:590-599 | the query as written gives the intended gallery when there is a cover and nothing when there is none |
| Database.GalleryLostWithoutCover | backend/db/database.py:597 | a recipe without a cover that has a gallery image gets an empty gallery from the query as written; the older store has the same code at `backend/database.py:618` |
| Database.Stale | backend/db/database.py:612-614 | the deleted ids are exactly the linked ids that are neither in the gallery nor the cover |
| Database.DiffReachesDesired | backend/db/database.py:611-617 | deleted ids are linked, added ids are not, and keeping the undeleted ones plus the added ones gives exactly the wanted ids |
| Database.StaleDistinct | backend/db/database.py:612-614 | no image is deleted twice |
| Database.Drop | backend/db/database.py:658-674 | deleting removes exactly the rows with those ids |
| Database.Link | backend/db/database.py:623-631 | linking sets the recipe of exactly the rows with those ids |
| Database.Synced | backend/db/database.py:601-621 | after the update, a row is linked to the recipe exactly when it is wanted; wanted images are kept, unrelated rows are kept, and no row is invented |
| Database.SyncByDiff | backend/db/database.py:601-621 | deleting the stale ids and linking the missing ones reaches the synchronised table |
| Database.GalleryAfterSync | backend/db/database.py:590-621 | after an update, comparing with the stored cover (the payload's cover id when above 0, else none), the gallery read back by the query as written is exactly the submitted gallery images that exist, belong to no step and are not the stored cover, when a cover is stored; with the "no cover" payloads (-1, 0) it is empty |
| Database.GalleryAfterSyncCorrected | backend/db/database.py:590-621 | with a `NULL`-safe gallery query and the stored cover, the gallery read back after an update is exactly the submitted images (gallery or payload cover) that exist, belong to no step and are not the stored cover; when the payload cover is stored as it is, exactly the submitted gallery images that exist, belong to no step and are not the cover |
| Database.ImageTable.DeleteImage | backend/db/database.py:658-674 | the image's row goes; `NotFoundException` exactly when there was none |
| Database.ImageTable.LinkImage | backend/db/database.py:623-631 | the image is linked to the recipe; a `None` id matches no row |
| Database.ImageTable.DeleteEach | backend/db/database.py:618-619 | deleting each stale image removes exactly those rows |
| Database.ImageTable.LinkEach | backend/db/database.py:620-621 | linking each added image links exactly those rows |
| Database.ImageTable.UpdateImages | backend/db/database.py:601-621 | the table ends synchronised with the gallery and the cover; a `None` gallery raises a `TypeError` and changes nothing; the older store has the same code at `backend/database.py:628-655` |
| Database.ValuesOfOtherRecipes | backend/db/database.py:713-715 | deleting a recipe's rows leaves it none and keeps every other recipe's rows |
| Database.ValuesOfTagged | backend/db/database.py:717-718 | the inserted rows belong to the recipe, in list order |
| Database.WithoutValue | backend/db/database.py:720-727 | deleting one category of a recipe removes its every occurrence there and touches no other recipe |
| Database.Table.Insert | backend/db/database.py:685-693 | an inserted value is appended to the recipe's values |
| Database.Table.DeleteValue | backend/db/database.py:720-727 | the matching rows go, the row count is how many there were, and other recipes keep their values |
| Database.Table.Replace | backend/db/database.py:707-718 | after delete-then-insert the recipe's values are the new list, in order, and other recipes keep theirs |
| Database.UpdateCategories | backend/db/database.py:707-718 | the recipe's categories become the submitted ones, in order; the older store has the same code at `backend/database.py:774-790` |
| Database.UpdateIngredients | backend/db/database.py:773-784 | the recipe's ingredients become the submitted ones, in order; the older store has the same code at `backend/database.py:878-894` |
| Database.UpdateSteps | backend/db/database.py:531-540 | the recipe's steps become the submitted ones, in order; the older store has the same code at `backend/database.py:525-536` |
| Database.DeleteCategory | backend/db/database.py:720-727 | the category leaves the recipe, with no error when it was not there |
| Database.OrEmpty | backend/db/database.py:396-397 | a missing or empty title or description is listed as `""`, any other as itself |
| Database.ListingOf | backend/db/database.py:392-403 | a listing keeps the id and cooking time, defaults title and description, has a creator exactly for a truthy user id, and lists the recipe's categories |
| Database.Listings | backend/db/database.py:376-409 | the listings are exactly those of the rows that validate |
| Database.BuildListings | backend/db/database.py:371-409 | a missing creator of any row raises `NotFoundException`; otherwise the loop builds the listings |
| Database.GetRecipe | backend/db/database.py:274-312 | `NotFoundException` exactly when the recipe is missing or has no existing creator; otherwise the creator and categories are the recipe's, and the gallery is the recipe's gallery when it has a cover and empty when it has none, as the query is written |
| Database.RecipeTable.DeleteRecipe | backend/db/database.py:453-469 | the recipe goes; `NotFoundException` exactly when there was none; the older store has the same code at `backend/database.py:426-446` |
| Database.ReadAfterDelete | backend/db/database.py:283-286 | a deleted recipe is not found |
| LegacyDatabase.StoredCover | backend/database.py:199 | a `None` cover raises a `TypeError`; any other is stored as the newer store stores it; an update stores it the same way at `backend/database.py:411` |
| LegacyDatabase.First | backend/database.py:356 | the first image, or none for an empty gallery |
| LegacyDatabase.ListingCover | backend/database.py:354-356 | a listing without a truthy cover shows the first gallery image |
| LegacyDatabase.FallbackNeverFires | backend/database.py:354-356 | as written, a recipe without a cover is listed without one even when its gallery has images |
| LegacyDatabase.ListingCoverWithCover | backend/database.py:354-356 | with a stored cover, the code as written and the corrected code agree |
| LegacyDatabase.ListingOf | backend/database.py:352-371 | as written, a listing with a stored cover (a falsy 0 included) has the fallback cover, one without a stored cover has none; it has a creator exactly for a truthy user id; with a truthy cover or none it equals the newer store's listing |
| LegacyDatabase.Listings | backend/database.py:352-376 | the listings, with covers as the code is written, are exactly those of the rows that validate |
| LegacyDatabase.BuildListings | backend/database.py:352-376 | a missing creator of a row with a truthy user id raises `NotFoundException`; otherwise the loop builds the listings with covers as the code is written |
| LegacyDatabase.GetRecipe | backend/database.py:244-274 | `NotFoundException` exactly when the recipe is missing or a truthy creator id has no user; the creator is given exactly for a truthy id; the categories are the recipe's, and the gallery is the recipe's gallery when it has a cover and empty when it has none, as the query is written |
| LegacyDatabase.GetRecipeAgrees | backend/database.py:267-274 | for a recipe with a truthy creator id, both stores read the same details |
| LegacyDatabase.DeleteCategory | backend/database.py:792-814 | the category leaves the recipe; `NotFoundException` exactly when it was not there |
| ImageTools.Scaled | backend/services/image_tools.py:11 | the scaled side is the largest one whose ratio to 700 does not exceed the image's ratio |
| ImageTools.Resize | backend/services/image_tools.py:7-15 | a wider image becomes 700 wide and any other 700 high, the other side scaled and truncated; a 0×0 image divides by zero |
| ImageTools.ResizeSquare | backend/services/image_tools.py:9-14 | a square image becomes 700×700 |
| ImageTools.ResizeBounds | backend/services/image_tools.py:5-15 | the longer side is exactly 700, small images included, and the other side is at most 700 |
| ImageTools.ResizeIdempotent | backend/services/image_tools.py:7-15 | resizing a resized image changes nothing |

## Left out

- Network and I/O are not modelled: fetch calls, image upload and delete requests, redirects and the timing of promises. A handler that waits for an upload takes the returned id as a parameter, and the model keeps only the state change its callback applies.
- React rendering, styling, routing and the authentication context are not modelled. An effect's re-runs are modelled by a method that repeats its step until it sets no new state.
- SQL execution, cursors and connection pools are not modelled. The concurrent `asyncio.gather` fan-out is not modelled either. Tables are sequences or maps updated one statement at a time.
- The `LIKE` search and `ORDER BY` of the listing queries are not modelled. Listings take the rows the query returned.
- The fire-and-forget click counter is not modelled.
- Floating point is modelled as exact real arithmetic. This covers `parseFloat`, the portion scaling and `Math.round`. In `resize_image`, the float quotient truncates to the same integer as exact division for image sizes below 2^26.
- JsNumbers.ToNumber: covers the text a `type="number"` input delivers (empty, or an optional minus, a mantissa and an optional exponent). It does not cover `Infinity`, surrounding white space, a leading `+`, a trailing point or hex, which such an input never delivers.
- RecipeEditor.ApplyEdit: the amount uses the whole-text conversion in place of `parseFloat`. On the text a `type="number"` input delivers the two agree, exponent notation included (`"1e3"` is 1000 for both).
- Pydantic validation of a listing is modelled only as "the cooking time is present" (`Listable`). Other field validation is not modelled.
- Image encoding by PIL and `process_image` are not modelled.
- Step images are not linked by `_create_recipe_step`. Cascading deletes of a recipe's rows are not modelled.
- A negative LIMIT or OFFSET makes MySQL reject the query. The model returns `SqlError` for it and does not model the message.
- RecipeView.DisplayedAmount: a number wished over zero stored portions shows `Infinity` or `NaN` in the source; the model requires non-zero stored portions when a number is wished, and with an empty portions field any stored portions are allowed.
- Database.Window: beyond the error case, only the length bound is stated. What a page holds is stated by PagesArePrefix.
- The search-text state of the start page is only an initial constant (`Filters.InitialSearch`). Filtering by it is server-side `LIKE` and is left out above.

## Findings

| source | as written | input that shows it | evidently intended | confidence | as-written member | corrected member |
|---|---|---|---|---|---|---|
| frontend/src/RecipeEditor.js:116 | the ingredient effect hands a fresh array to `setIngredients` on every run, so it re-runs even when nothing changed | the initial form: one unnamed group holding one blank ingredient | set state only when some group changed, as RecipeEditor.jsx:161-162 does | high, not executed | RecipeEditorLegacy.InitialFormNeverQuiesces | RecipeEditor.IngredientList.GrowthEffect |
| frontend/src/RecipeEditor.jsx:438 | the check `cookingTime <= 0` tests the number the text converts to, but line 482 submits `parseInt` of it | cooking time typed as `0.5`: it passes the check and is submitted as 0 (and `1e3` passes as 1000 and is submitted as 1) | reject every cooking time whose submitted value is not a positive integer | medium, not executed | RecipeEditor.ZeroCookingTimeSubmitted | RecipeEditor.Submit |
| backend/db/database.py:597 | `i.ImageID != r.CoverImage` is UNKNOWN when the cover is `NULL`, so the gallery query returns no row | a recipe saved without a cover (payload -1, stored `NULL`) with one gallery image | the gallery images are returned (a `NULL`-safe comparison) | high, not executed | Database.GalleryLostWithoutCover | Database.Gallery |
| backend/database.py:354-356 | the fallback to the first gallery image reads the gallery through the same query, which is empty for a `NULL` cover, so the fallback never fires | a recipe stored without a cover with one gallery image is listed without a cover | the listing shows the first gallery image | high, not executed | LegacyDatabase.FallbackNeverFires | LegacyDatabase.ListingCover |
