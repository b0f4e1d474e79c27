/**
 * The first recipe form (frontend/src/CreateRecipe.js): a flat ingredient
 * list and a step list, each growing by the auto-growth rule, and the
 * handlers that edit one field of one row. Both lists start with one blank
 * row, and the rule reads the last row without checking that there is one,
 * so every list here is non-empty.
 */
module CreateRecipe {
  import AutoGrowth

  /** An editable list of rows kept by the auto-growth rule. */
  class RowList<T> {
    var rows: seq<T>
    const blank: T -> bool
    const blankRow: T

    predicate Valid()
      reads this
    {
      rows != [] && blank(blankRow)
    }

    /** The list starts as one blank row. */
    constructor (blank: T -> bool, blankRow: T)
      requires blank(blankRow)
      ensures this.blank == blank && this.blankRow == blankRow
      ensures rows == [blankRow]
      ensures Valid() && AutoGrowth.Settled(rows, blank)
    {
      this.blank := blank;
      this.blankRow := blankRow;
      rows := [blankRow];
    }

    /**
     * One run of the effect: append a blank row after a filled-in last row,
     * drop the last of two trailing blank rows, or leave the list alone;
     * `changed` is whether it set new state (and so runs again).
     */
    method GrowthEffect() returns (changed: bool)
      requires Valid()
      modifies this
      ensures Valid()
      ensures rows == AutoGrowth.Next(old(rows), blank, blankRow, true)
      ensures rows[..|old(rows)| - 1] == old(rows)[..|old(rows)| - 1]
      ensures changed <==> !AutoGrowth.Settled(old(rows), blank)
      ensures changed <==> rows != old(rows)
      ensures changed ==> AutoGrowth.Pending(rows, blank, true) < AutoGrowth.Pending(old(rows), blank, true)
    {
      AutoGrowth.NextFixpoint(rows, blank, blankRow, true);
      AutoGrowth.NextKeepsPrefix(rows, blank, blankRow, true);
      changed := false;
      if !blank(rows[|rows| - 1]) {
        AutoGrowth.NextDecreases(rows, blank, blankRow, true);
        rows := rows + [blankRow];
        changed := true;
      } else if |rows| > 1 && blank(rows[|rows| - 2]) {
        AutoGrowth.NextDecreases(rows, blank, blankRow, true);
        rows := rows[..|rows| - 1];
        changed := true;
      }
    }

    /**
     * The effect re-run until it sets no new state: the list ends in exactly
     * one blank row, and every row before the old trailing blank rows is
     * still there, in place.
     */
    method RunEffects()
      requires Valid()
      modifies this
      ensures Valid()
      ensures rows == AutoGrowth.Settle(old(rows), blank, blankRow, true)
      ensures AutoGrowth.Settled(rows, blank)
      ensures var n := |old(rows)| - AutoGrowth.TrailingBlanks(old(rows), blank);
        |rows| == n + 1 && rows[..n] == old(rows)[..n]
    {
      AutoGrowth.SettleKeepsInterior(rows, blank, blankRow, true);
      var changed := GrowthEffect();
      AutoGrowth.SettleOfNext(old(rows), blank, blankRow, true);
      while changed
        invariant Valid()
        invariant AutoGrowth.Settle(rows, blank, blankRow, true) == AutoGrowth.Settle(old(rows), blank, blankRow, true)
        invariant !changed ==> AutoGrowth.Settled(rows, blank)
        decreases AutoGrowth.Pending(rows, blank, true), changed
      {
        ghost var before := rows;
        changed := GrowthEffect();
        AutoGrowth.SettleOfNext(before, blank, blankRow, true);
      }
      AutoGrowth.SettleOfSettled(rows, blank, blankRow, true);
    }

    /** `handleIngredientChange` / `handleStepChange`: row `i` is replaced, nothing else changes. */
    method SetRow(i: nat, row: T)
      requires i < |rows|
      modifies this
      ensures rows == old(rows)[i := row]
    {
      rows := rows[i := row];
    }
  }

  /** A row of the flat ingredient list; every field holds the text of its input. */
  datatype IngredientRow = IngredientRow(name: string, amount: string, unit: string)

  /** A row of the step list; the duration is never edited by the form. */
  datatype StepRow = StepRow(description: string, duration: int)

  const BlankIngredientRow: IngredientRow := IngredientRow("", "", "")
  const BlankStepRow: StepRow := StepRow("", 0)

  function IngredientBlank(r: IngredientRow): bool {
    r.name == ""
  }

  function StepBlank(r: StepRow): bool {
    r.description == ""
  }

  datatype IngredientKey = NameKey | AmountKey | UnitKey

  /** `row[key] = value`. */
  function SetIngredientField(r: IngredientRow, key: IngredientKey, value: string): (s: IngredientRow)
    ensures (if key == NameKey then s.name == value else s.name == r.name)
    ensures (if key == AmountKey then s.amount == value else s.amount == r.amount)
    ensures (if key == UnitKey then s.unit == value else s.unit == r.unit)
  {
    match key
    case NameKey => r.(name := value)
    case AmountKey => r.(amount := value)
    case UnitKey => r.(unit := value)
  }

  /** The ingredient list of a new form. */
  method NewIngredientList() returns (list: RowList<IngredientRow>)
    ensures fresh(list) && list.Valid()
    ensures list.blank == IngredientBlank && list.rows == [BlankIngredientRow]
  {
    list := new RowList(IngredientBlank, BlankIngredientRow);
  }

  /** The step list of a new form. */
  method NewStepList() returns (list: RowList<StepRow>)
    ensures fresh(list) && list.Valid()
    ensures list.blank == StepBlank && list.rows == [BlankStepRow]
  {
    list := new RowList(StepBlank, BlankStepRow);
  }

  /** `handleIngredientChange(index, key)`: one field of one row takes the input's text. */
  method EditIngredient(list: RowList<IngredientRow>, i: nat, key: IngredientKey, value: string)
    requires i < |list.rows|
    modifies list
    ensures |list.rows| == |old(list.rows)|
    ensures forall j :: 0 <= j < |list.rows| && j != i ==> list.rows[j] == old(list.rows)[j]
    ensures list.rows[i] == SetIngredientField(old(list.rows)[i], key, value)
  {
    list.SetRow(i, SetIngredientField(list.rows[i], key, value));
  }

  /** `handleStepChange(index, "description")`: the description of one step takes the input's text. */
  method EditStep(list: RowList<StepRow>, i: nat, text: string)
    requires i < |list.rows|
    modifies list
    ensures |list.rows| == |old(list.rows)|
    ensures forall j :: 0 <= j < |list.rows| && j != i ==> list.rows[j] == old(list.rows)[j]
    ensures list.rows[i] == StepRow(text, old(list.rows)[i].duration)
  {
    list.SetRow(i, StepRow(text, list.rows[i].duration));
  }
}
