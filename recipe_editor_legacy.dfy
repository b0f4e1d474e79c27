/**
 * The older recipe editor (frontend/src/RecipeEditor.js). Its step list,
 * image fields, grouping, checks and payload are those of the newer editor
 * (module RecipeEditor); its ingredient effect differs: it hands a fresh
 * array to `setIngredients` on every run, changed or not.
 */
module RecipeEditorLegacy {
  import opened Base
  import opened IngredientGroups
  import RecipeEditor

  /** The ingredient groups of the older editor form. */
  class IngredientList {
    var groups: seq<Group>

    constructor ()
      ensures groups == [Group(Some(""), [RecipeEditor.BlankIngredient])]
    {
      groups := [Group(Some(""), [RecipeEditor.BlankIngredient])];
    }

    /**
     * The auto-growth effect: every group takes one step, and `rerender` is
     * whether the effect calls `setIngredients`, which it always does. A
     * fresh array is a new dependency value, so the effect runs again even
     * when it changed nothing.
     */
    method GrowthEffect() returns (rerender: bool)
      modifies this
      ensures groups == RecipeEditor.GrowAll(old(groups))
      ensures rerender
      ensures RecipeEditor.AllSettled(old(groups)) ==> groups == old(groups)
    {
      var grown, _ := RecipeEditor.GrowGroups(groups);
      RecipeEditor.GrowAllFixpoint(groups);
      groups := grown;
      rerender := true;
    }
  }

  /**
   * The form the older editor starts from is already settled: its effect
   * leaves it unchanged and still asks for another render, so the effect
   * never stops running.
   */
  lemma InitialFormNeverQuiesces()
    ensures var initial := [Group(Some(""), [RecipeEditor.BlankIngredient])];
      RecipeEditor.AllSettled(initial) && RecipeEditor.GrowAll(initial) == initial
  {
    var initial := [Group(Some(""), [RecipeEditor.BlankIngredient])];
    RecipeEditor.GrowAllFixpoint(initial);
  }
}
