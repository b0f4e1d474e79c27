/**
 * The recipe editor (frontend/src/RecipeEditor.jsx): the ingredient groups
 * and the step list with their auto-growth effects and row handlers, the
 * image fields, the form checks run before submitting, and the payload sent
 * to the backend.
 */
module RecipeEditor {
  import opened Base
  import Text
  import JsNumbers
  import AutoGrowth
  import opened IngredientGroups

  // ---------------------------------------------------------------------
  // Ingredient rows and their auto-growth
  // ---------------------------------------------------------------------

  /** The row the ingredient effect appends and a new group starts with. */
  const BlankIngredient: Row := Row("", Some(0.0), "g")

  /** A row is blank when its name is exactly empty (white space counts as filled in). */
  function NameBlank(r: Row): bool {
    r.name == ""
  }

  function GrowRows(rows: seq<Row>): seq<Row> {
    AutoGrowth.Next(rows, NameBlank, BlankIngredient, true)
  }

  function SettleRows(rows: seq<Row>): seq<Row> {
    AutoGrowth.Settle(rows, NameBlank, BlankIngredient, true)
  }

  predicate RowsSettled(rows: seq<Row>) {
    AutoGrowth.Settled(rows, NameBlank)
  }

  function RowsPending(rows: seq<Row>): nat {
    AutoGrowth.Pending(rows, NameBlank, true)
  }

  /** The runs of the effect still needed, summed over all groups. */
  function PendingGroups(gs: seq<Group>): nat {
    if gs == [] then 0 else RowsPending(gs[0].rows) + PendingGroups(gs[1..])
  }

  lemma {:induction false} PendingGroupsUpdate(gs: seq<Group>, k: nat, g: Group)
    requires k < |gs|
    ensures PendingGroups(gs[k := g]) == PendingGroups(gs) - RowsPending(gs[k].rows) + RowsPending(g.rows)
  {
    if k == 0 {
      assert gs[k := g][1..] == gs[1..];
    } else {
      assert gs[k := g][1..] == gs[1..][k - 1 := g];
      PendingGroupsUpdate(gs[1..], k - 1, g);
    }
  }

  /** Every group after one auto-growth step. */
  function GrowAll(groups: seq<Group>): (r: seq<Group>)
    ensures |r| == |groups|
    ensures forall g :: 0 <= g < |groups| ==> r[g] == Group(groups[g].name, GrowRows(groups[g].rows))
  {
    seq(|groups|, g requires 0 <= g < |groups| => Group(groups[g].name, GrowRows(groups[g].rows)))
  }

  /** Every group ends in exactly one blank row. */
  predicate AllSettled(groups: seq<Group>) {
    forall g :: 0 <= g < |groups| ==> RowsSettled(groups[g].rows)
  }

  /** Every group where it comes to rest. */
  function SettleAll(groups: seq<Group>): (r: seq<Group>)
    ensures |r| == |groups|
    ensures forall g :: 0 <= g < |groups| ==> r[g] == Group(groups[g].name, SettleRows(groups[g].rows))
  {
    seq(|groups|, g requires 0 <= g < |groups| => Group(groups[g].name, SettleRows(groups[g].rows)))
  }

  /** One run of the effect does not change where the groups come to rest. */
  lemma SettleAllOfGrowAll(groups: seq<Group>)
    ensures SettleAll(GrowAll(groups)) == SettleAll(groups)
  {
    forall g | 0 <= g < |groups|
      ensures SettleAll(GrowAll(groups))[g] == SettleAll(groups)[g]
    {
      AutoGrowth.SettleOfNext(groups[g].rows, NameBlank, BlankIngredient, true);
    }
  }

  /** Groups at rest stay where they are. */
  lemma SettleAllOfSettled(groups: seq<Group>)
    requires AllSettled(groups)
    ensures SettleAll(groups) == groups
  {
    forall g | 0 <= g < |groups|
      ensures SettleAll(groups)[g] == groups[g]
    {
      AutoGrowth.SettleOfSettled(groups[g].rows, NameBlank, BlankIngredient, true);
    }
  }

  /** The ingredient step changes nothing exactly when every group is settled. */
  lemma GrowAllFixpoint(groups: seq<Group>)
    ensures GrowAll(groups) == groups <==> AllSettled(groups)
  {
    forall g | 0 <= g < |groups| {
      AutoGrowth.NextFixpoint(groups[g].rows, NameBlank, BlankIngredient, true);
    }
    if GrowAll(groups) == groups {
      forall g | 0 <= g < |groups| ensures RowsSettled(groups[g].rows) {
        assert GrowRows(groups[g].rows) == GrowAll(groups)[g].rows;
      }
    } else {
      var g :| 0 <= g < |groups| && GrowAll(groups)[g] != groups[g];
      assert GrowRows(groups[g].rows) != groups[g].rows;
    }
  }

  /**
   * One group's share of the ingredient effect: the branch it takes on the
   * group's rows, and whether it took one.
   */
  method GrowOne(rows: seq<Row>) returns (grown: seq<Row>, changed: bool)
    ensures grown == GrowRows(rows)
    ensures changed <==> !RowsSettled(rows)
    ensures changed <==> grown != rows
    ensures changed ==> RowsPending(grown) < RowsPending(rows)
    ensures !changed ==> RowsPending(grown) == RowsPending(rows)
  {
    AutoGrowth.NextFixpoint(rows, NameBlank, BlankIngredient, true);
    grown, changed := rows, false;
    if |rows| == 0 || rows[|rows| - 1].name != "" {
      AutoGrowth.NextDecreases(rows, NameBlank, BlankIngredient, true);
      grown, changed := rows + [BlankIngredient], true;
    } else if |rows| > 1 && rows[|rows| - 2].name == "" {
      AutoGrowth.NextDecreases(rows, NameBlank, BlankIngredient, true);
      grown, changed := rows[..|rows| - 1], true;
    }
  }

  /**
   * One run of the ingredient effect: every group takes one auto-growth
   * step, and `changed` records whether any group took a branch, which is
   * when the effect calls `setIngredients`.
   */
  method GrowGroups(groups: seq<Group>) returns (grown: seq<Group>, changed: bool)
    ensures grown == GrowAll(groups)
    ensures changed <==> !AllSettled(groups)
    ensures changed <==> grown != groups
    ensures changed ==> PendingGroups(grown) < PendingGroups(groups)
  {
    grown := groups;
    changed := false;
    for k := 0 to |groups|
      invariant GrowingUpTo(groups, grown, changed, k)
    {
      grown, changed := GrowGroupAt(groups, grown, changed, k);
    }
    GrowingDone(groups, grown, changed);
  }

  /** When the loop over the groups ends, every group has taken its step. */
  lemma GrowingDone(groups: seq<Group>, grown: seq<Group>, changed: bool)
    requires GrowingUpTo(groups, grown, changed, |groups|)
    ensures grown == GrowAll(groups)
    ensures changed <==> !AllSettled(groups)
    ensures changed <==> grown != groups
    ensures changed ==> PendingGroups(grown) < PendingGroups(groups)
  {
    assert groups[..|groups|] == groups;
    assert GrowAll(groups)[..|groups|] == GrowAll(groups) && groups[|groups|..] == [];
    GrowAllFixpoint(groups);
  }

  /**
   * The state of the loop over the groups after `k` of them: those have
   * taken their step, `changed` records whether any of them took a branch,
   * and the pending runs have dropped by at least one if so.
   */
  predicate GrowingUpTo(groups: seq<Group>, grown: seq<Group>, changed: bool, k: nat) {
    k <= |groups|
    && grown == GrowAll(groups)[..k] + groups[k..]
    && (changed <==> !AllSettled(groups[..k]))
    && PendingGroups(grown) + (if changed then 1 else 0) <= PendingGroups(groups)
    && (!changed ==> grown == groups)
  }

  /** The step of group `k` in the loop of `GrowGroups`. */
  method GrowGroupAt(groups: seq<Group>, grown: seq<Group>, changed: bool, k: nat)
    returns (grown': seq<Group>, changed': bool)
    requires k < |groups| && GrowingUpTo(groups, grown, changed, k)
    ensures GrowingUpTo(groups, grown', changed', k + 1)
  {
    GrownPrefixAt(groups, grown, k);
    SettledPrefixStep(groups, k);
    var rows, stepped := GrowOne(grown[k].rows);
    if stepped {
      var g := Group(grown[k].name, rows);
      PendingGroupsUpdate(grown, k, g);
      GrownPrefixStep(groups, grown, k);
      grown', changed' := grown[k := g], true;
    } else {
      GrownPrefixKeep(groups, grown, k);
      grown', changed' := grown, changed;
    }
  }

  lemma GrownPrefixAt(groups: seq<Group>, grown: seq<Group>, k: nat)
    requires k < |groups| && grown == GrowAll(groups)[..k] + groups[k..]
    ensures |grown| == |groups| && grown[k] == groups[k]
  {
    assert grown[k] == groups[k..][0];
  }

  /** Stepping group `k` extends the grown prefix by one. */
  lemma GrownPrefixStep(groups: seq<Group>, grown: seq<Group>, k: nat)
    requires k < |groups| && grown == GrowAll(groups)[..k] + groups[k..]
    ensures GrowAll(groups)[..k + 1] + groups[k + 1..]
      == grown[k := Group(groups[k].name, GrowRows(groups[k].rows))]
  {
    var next := GrowAll(groups)[..k + 1] + groups[k + 1..];
    var upd := grown[k := Group(groups[k].name, GrowRows(groups[k].rows))];
    assert |next| == |upd|;
    forall i | 0 <= i < |next| ensures next[i] == upd[i] {
      if i < k {
        assert next[i] == GrowAll(groups)[i] == grown[i];
      } else if i > k {
        assert next[i] == groups[i] == grown[i];
      }
    }
  }

  /** A group the step leaves alone extends the grown prefix without a change. */
  lemma GrownPrefixKeep(groups: seq<Group>, grown: seq<Group>, k: nat)
    requires k < |groups| && grown == GrowAll(groups)[..k] + groups[k..]
    requires GrowRows(groups[k].rows) == groups[k].rows
    ensures GrowAll(groups)[..k + 1] + groups[k + 1..] == grown
  {
    var next := GrowAll(groups)[..k + 1] + groups[k + 1..];
    assert |next| == |grown|;
    forall i | 0 <= i < |next| ensures next[i] == grown[i] {
      if i < k {
        assert next[i] == GrowAll(groups)[i] == grown[i];
      } else if i > k {
        assert next[i] == groups[i] == grown[i];
      }
    }
  }

  lemma SettledPrefixStep(groups: seq<Group>, k: nat)
    requires k < |groups|
    ensures AllSettled(groups[..k + 1]) <==> AllSettled(groups[..k]) && RowsSettled(groups[k].rows)
  {
    assert forall g :: 0 <= g < k ==> groups[..k + 1][g] == groups[..k][g];
    assert groups[..k + 1][k] == groups[k];
  }

  /** A change to one field of an ingredient row. */
  datatype RowEdit = SetName(name: string) | SetAmount(text: string) | SetUnit(unit: string)

  /**
   * The amount field: an empty field is kept as cleared, any other text goes
   * through `parseFloat`, which on the text a number input delivers (a valid
   * floating-point number) reads what `Number` reads.
   */
  function ApplyEdit(r: Row, e: RowEdit): Row {
    match e
    case SetName(name) => r.(name := name)
    case SetAmount(text) => r.(amount := if text == "" then None else JsNumbers.ToNumber(text))
    case SetUnit(unit) => r.(unit := unit)
  }

  /** The ingredient groups of the editor form. */
  class IngredientList {
    var groups: seq<Group>

    /** One unnamed group holding one blank row. */
    constructor ()
      ensures groups == [Group(Some(""), [BlankIngredient])]
      ensures AllSettled(groups)
    {
      groups := [Group(Some(""), [BlankIngredient])];
    }

    /** The auto-growth effect; `changed` is whether it calls `setIngredients` and so runs again. */
    method GrowthEffect() returns (changed: bool)
      modifies this
      ensures groups == GrowAll(old(groups))
      ensures changed <==> !AllSettled(old(groups))
      ensures changed <==> groups != old(groups)
      ensures changed ==> PendingGroups(groups) < PendingGroups(old(groups))
      ensures !changed ==> AllSettled(groups)
    {
      var grown;
      grown, changed := GrowGroups(groups);
      groups := grown;
    }

    /**
     * The effect re-run after each render until it stops calling
     * `setIngredients`: every group ends where it settles.
     */
    method RunEffects()
      modifies this
      ensures groups == SettleAll(old(groups))
      ensures AllSettled(groups)
    {
      var changed := GrowthEffect();
      SettleAllOfGrowAll(old(groups));
      while changed
        invariant SettleAll(groups) == SettleAll(old(groups))
        invariant !changed ==> AllSettled(groups)
        decreases PendingGroups(groups), changed
      {
        ghost var before := groups;
        changed := GrowthEffect();
        SettleAllOfGrowAll(before);
      }
      SettleAllOfSettled(groups);
    }

    /** `handleIngredientChange`: one field of one row changes, nothing else. */
    method EditRow(g: nat, i: nat, e: RowEdit)
      requires g < |groups| && i < |groups[g].rows|
      modifies this
      ensures groups == old(groups)[g := Group(old(groups)[g].name, old(groups)[g].rows[i := ApplyEdit(old(groups)[g].rows[i], e)])]
    {
      var rows := groups[g].rows;
      rows := rows[i := ApplyEdit(rows[i], e)];
      groups := groups[g := Group(groups[g].name, rows)];
    }

    /**
     * `handleDeleteIngredient`: the row at `i` is removed and the others keep
     * their order. Only filled-in rows have a delete button, so a group that
     * ends in a blank row still does.
     */
    method DeleteRow(g: nat, i: nat)
      requires g < |groups| && i < |groups[g].rows|
      requires !NameBlank(groups[g].rows[i])
      modifies this
      ensures groups == old(groups)[g := Group(old(groups)[g].name, RemoveAt(old(groups)[g].rows, i))]
      ensures NameBlank(old(groups)[g].rows[|old(groups)[g].rows| - 1]) ==>
        groups[g].rows != [] && NameBlank(groups[g].rows[|groups[g].rows| - 1])
    {
      var rows := groups[g].rows;
      if NameBlank(rows[|rows| - 1]) {
        AutoGrowth.RemoveFilledKeepsTrailingBlank(rows, NameBlank, i);
      }
      rows := RemoveAt(rows, i);
      groups := groups[g := Group(groups[g].name, rows)];
    }

    /** `handleGroupNameChange`. */
    method RenameGroup(g: nat, name: string)
      requires g < |groups|
      modifies this
      ensures groups == old(groups)[g := Group(Some(name), old(groups)[g].rows)]
    {
      groups := groups[g := Group(Some(name), groups[g].rows)];
    }

    /** `addIngredientGroup`: a new unnamed group with one blank row at the end. */
    method AddGroup()
      modifies this
      ensures groups == old(groups) + [Group(Some(""), [BlankIngredient])]
    {
      groups := groups + [Group(Some(""), [BlankIngredient])];
    }

    /**
     * `deleteIngredientGroup`: the delete button is shown only while there is
     * more than one group, so at least one group remains.
     */
    method DeleteGroup(g: nat)
      requires 1 < |groups| && g < |groups|
      modifies this
      ensures groups == RemoveAt(old(groups), g)
      ensures groups != []
    {
      groups := RemoveAt(groups, g);
    }

    /** Loading a stored recipe: its ingredients are grouped unless there are none. */
    method Load(flat: seq<Ingredient>)
      modifies this
      ensures flat != [] ==> groups == Grouping(flat)
      ensures flat == [] ==> groups == old(groups)
    {
      if |flat| > 0 {
        groups := GroupIngredients(flat);
      }
    }
  }

  // ---------------------------------------------------------------------
  // Steps
  // ---------------------------------------------------------------------

  /** A step of the form; the order id a loaded step carries is not used by the editor. */
  datatype Step = Step(description: string, images: seq<int>)

  const BlankStep: Step := Step("", [])

  function DescriptionBlank(s: Step): bool {
    s.description == ""
  }

  function GrowSteps(steps: seq<Step>): seq<Step> {
    AutoGrowth.Next(steps, DescriptionBlank, BlankStep, false)
  }

  function SettleSteps(steps: seq<Step>): seq<Step> {
    AutoGrowth.Settle(steps, DescriptionBlank, BlankStep, false)
  }

  /** The step list of the editor form. */
  class StepsList {
    var steps: seq<Step>

    /** One blank step. */
    constructor ()
      ensures steps == [BlankStep]
    {
      steps := [BlankStep];
    }

    /**
     * The auto-growth effect on the steps; an empty list is left empty.
     * `changed` is whether it calls `setSteps`.
     */
    method GrowthEffect() returns (changed: bool)
      modifies this
      ensures steps == GrowSteps(old(steps))
      ensures changed <==> steps != old(steps)
      ensures changed ==> AutoGrowth.Pending(steps, DescriptionBlank, false) < AutoGrowth.Pending(old(steps), DescriptionBlank, false)
      ensures !changed ==> AutoGrowth.Settled(steps, DescriptionBlank) || steps == []
    {
      AutoGrowth.NextFixpoint(steps, DescriptionBlank, BlankStep, false);
      changed := false;
      if |steps| > 0 && steps[|steps| - 1].description != "" {
        AutoGrowth.NextDecreases(steps, DescriptionBlank, BlankStep, false);
        steps := steps + [BlankStep];
        changed := true;
      } else if |steps| > 1 && steps[|steps| - 2].description == "" {
        AutoGrowth.NextDecreases(steps, DescriptionBlank, BlankStep, false);
        steps := steps[..|steps| - 1];
        changed := true;
      }
    }

    /** The effect re-run until it stops calling `setSteps`. */
    method RunEffects()
      modifies this
      ensures steps == SettleSteps(old(steps))
    {
      var changed := GrowthEffect();
      AutoGrowth.SettleOfNext(old(steps), DescriptionBlank, BlankStep, false);
      while changed
        invariant SettleSteps(steps) == SettleSteps(old(steps))
        invariant !changed ==> AutoGrowth.Settled(steps, DescriptionBlank) || steps == []
        decreases AutoGrowth.Pending(steps, DescriptionBlank, false), changed
      {
        ghost var before := steps;
        changed := GrowthEffect();
        AutoGrowth.SettleOfNext(before, DescriptionBlank, BlankStep, false);
      }
      AutoGrowth.NextFixpoint(steps, DescriptionBlank, BlankStep, false);
    }

    /** `handleStepChange` on the description. */
    method EditDescription(i: nat, text: string)
      requires i < |steps|
      modifies this
      ensures steps == old(steps)[i := Step(text, old(steps)[i].images)]
    {
      steps := steps[i := Step(text, steps[i].images)];
    }

    /** `handleDeleteStep`: only filled-in steps have a delete button. */
    method DeleteStep(i: nat)
      requires i < |steps| && !DescriptionBlank(steps[i])
      modifies this
      ensures steps == RemoveAt(old(steps), i)
      ensures DescriptionBlank(old(steps)[|old(steps)| - 1]) ==> steps != [] && DescriptionBlank(steps[|steps| - 1])
    {
      if DescriptionBlank(steps[|steps| - 1]) {
        AutoGrowth.RemoveFilledKeepsTrailingBlank(steps, DescriptionBlank, i);
      }
      steps := RemoveAt(steps, i);
    }

    /** A step image upload: the returned id is appended even when it is -1 (a failed upload). */
    method UploadImage(i: nat, id: int)
      requires i < |steps|
      modifies this
      ensures steps == old(steps)[i := Step(old(steps)[i].description, old(steps)[i].images + [id])]
    {
      var step := steps[i];
      steps := steps[i := Step(step.description, step.images + [id])];
    }

    /** A step image deletion: every occurrence of the id leaves that step. */
    method DeleteImage(i: nat, id: int)
      requires i < |steps|
      modifies this
      ensures steps == old(steps)[i := Step(old(steps)[i].description, Without(old(steps)[i].images, id))]
      ensures id !in steps[i].images
    {
      var step := steps[i];
      steps := steps[i := Step(step.description, Without(step.images, id))];
    }

    /** Loading a stored recipe: its steps replace the list unless there are none. */
    method Load(loaded: seq<Step>)
      modifies this
      ensures loaded != [] ==> steps == loaded
      ensures loaded == [] ==> steps == old(steps)
    {
      if |loaded| > 0 {
        steps := loaded;
      }
    }
  }

  // ---------------------------------------------------------------------
  // Images
  // ---------------------------------------------------------------------

  /**
   * The cover field: empty (`""`, the initial value and the value after a
   * deletion), `null` (loaded from a recipe stored without a cover) or an
   * image id.
   */
  datatype CoverField = NoCover | NullCover | CoverId(id: int)

  /**
   * `cover_image` in the payload: `Number(coverImage)` unless the field is
   * `""`, which sends -1; `Number(null)` is 0.
   */
  function CoverPayload(c: CoverField): (n: int)
    ensures c.NoCover? ==> n == -1
    ensures c.NullCover? ==> n == 0
    ensures c.CoverId? ==> n == c.id
  {
    match c
    case NoCover => -1
    case NullCover => 0
    case CoverId(id) => id
  }

  function LoadedCover(stored: Option<int>): CoverField {
    match stored
    case None => NullCover
    case Some(id) => CoverId(id)
  }

  /** The cover and gallery fields of the editor form. */
  class ImageFields {
    var cover: CoverField
    var gallery: seq<int>

    constructor ()
      ensures cover == NoCover && gallery == []
    {
      cover := NoCover;
      gallery := [];
    }

    /** A gallery upload: a failed upload (-1) adds nothing. */
    method UploadGallery(id: int)
      modifies this
      ensures gallery == if id != -1 then old(gallery) + [id] else old(gallery)
      ensures cover == old(cover)
    {
      if id != -1 {
        gallery := gallery + [id];
      }
    }

    /** A gallery deletion removes every occurrence of the id. */
    method DeleteGallery(id: int)
      modifies this
      ensures gallery == Without(old(gallery), id)
      ensures cover == old(cover)
    {
      gallery := Without(gallery, id);
    }

    /** A cover upload sets the cover, a failed upload (-1) included. */
    method UploadCover(id: int)
      modifies this
      ensures cover == CoverId(id) && gallery == old(gallery)
    {
      cover := CoverId(id);
    }

    /** A cover deletion empties the field. */
    method DeleteCover()
      modifies this
      ensures cover == NoCover && gallery == old(gallery)
    {
      cover := NoCover;
    }

    /** Loading a stored recipe. */
    method Load(storedCover: Option<int>, storedGallery: seq<int>)
      modifies this
      ensures cover == LoadedCover(storedCover) && gallery == storedGallery
    {
      cover := LoadedCover(storedCover);
      gallery := storedGallery;
    }
  }

  // ---------------------------------------------------------------------
  // Categories
  // ---------------------------------------------------------------------

  const DefaultCategories: seq<string> := ["Vegan", "Vegetarian", "Quick & Easy"]

  /**
   * The category options: the defaults followed by the fetched categories,
   * each value kept at its first occurrence.
   */
  function CategoryOptions(fetched: seq<string>): (options: seq<string>)
    ensures |options| >= |DefaultCategories| && options[..|DefaultCategories|] == DefaultCategories
    ensures NoDuplicates(options)
    ensures Elements(options) == Elements(DefaultCategories) + Elements(fetched)
    ensures forall i, j :: 0 <= i < j < |options| ==>
      options[i] in DefaultCategories + fetched && options[j] in DefaultCategories + fetched
      && FirstIndex(DefaultCategories + fetched, options[i]) < FirstIndex(DefaultCategories + fetched, options[j])
  {
    DedupFirstOccurrence(DefaultCategories + fetched);
    assert NoDuplicates(DefaultCategories);
    DedupKeepsDistinctPrefix(DefaultCategories, fetched);
    assert Elements(DefaultCategories + fetched) == Elements(DefaultCategories) + Elements(fetched);
    Dedup(DefaultCategories + fetched)
  }

  // ---------------------------------------------------------------------
  // Form checks
  // ---------------------------------------------------------------------

  /** A number field: a number (initial or loaded value) or the text the user typed. */
  datatype NumberField = Num(n: int) | Typed(text: string)

  /** `field <= 0`: typed text is converted with `Number`, and NaN compares false. */
  predicate NotPositive(f: NumberField) {
    match f
    case Num(n) => n <= 0
    case Typed(t) => JsNumbers.ToNumber(t).Some? && JsNumbers.ToNumber(t).value <= 0.0
  }

  /** `parseInt(field)`: a number is first written out in decimal. */
  function ParseField(f: NumberField): (r: Option<int>)
    ensures f.Num? ==> r == Some(f.n)
  {
    match f
    case Num(n) =>
      JsNumbers.ParseIntOfDecimalString(n);
      JsNumbers.ParseInt(JsNumbers.DecimalString(n))
    case Typed(t) => JsNumbers.ParseInt(t)
  }

  /** The whole form as it stands when it is submitted. */
  datatype Form = Form(
    title: string,
    description: Option<string>,
    categories: seq<string>,
    cookingTime: NumberField,
    portions: NumberField,
    groups: seq<Group>,
    steps: seq<Step>,
    cover: CoverField,
    gallery: seq<int>)

  /** What the checks decide; `description.trim()` on a `null` description throws. */
  datatype Verdict = Pass | Fail(message: string) | Throws

  const TitleMessage := "Please enter a title"
  const DescriptionMessage := "Please enter a description"
  const CategoryMessage := "Please enter at least one category"
  const CookingTimeMessage := "Please enter a valid cooking time"
  const DistinctGroupsMessage := "Ingredient groups must have different names"
  const GroupNameMessage := "Ingredient groups must have a name"
  const StepMessage := "Please enter at least one step"

  /** `groups.filter(g => g.group === "")`. */
  function UnnamedGroups(gs: seq<Group>): (r: seq<Group>)
    ensures |r| > 0 <==> exists g :: 0 <= g < |gs| && gs[g].name == Some("")
  {
    if gs == [] then []
    else
      assert forall g :: 0 < g < |gs| ==> gs[g] == gs[1..][g - 1];
      (if gs[0].name == Some("") then [gs[0]] else []) + UnnamedGroups(gs[1..])
  }

  /** `steps.filter(s => s.description.trim() !== "")`. */
  function FilledSteps(steps: seq<Step>): (r: seq<Step>)
    ensures |r| > 0 <==> exists s :: 0 <= s < |steps| && !Text.IsBlank(steps[s].description)
  {
    if steps == [] then []
    else
      assert forall s :: 0 < s < |steps| ==> steps[s] == steps[1..][s - 1];
      (if !Text.IsBlank(steps[0].description) then [steps[0]] else []) + FilledSteps(steps[1..])
  }

  /** Some group has the unnamed-group problem: more than one group, one of them named `""`. */
  predicate UnnamedAmongMany(f: Form) {
    |f.groups| > 1 && exists g :: 0 <= g < |f.groups| && f.groups[g].name == Some("")
  }

  predicate HasFilledStep(f: Form) {
    exists s :: 0 <= s < |f.steps| && !Text.IsBlank(f.steps[s].description)
  }

  /** The checks passed up to and including the category check. */
  predicate BasicsGiven(f: Form) {
    !Text.IsBlank(f.title) && f.description.Some? && !Text.IsBlank(f.description.value) && f.categories != []
  }

  /**
   * The checks in their order, the first failing one deciding the message;
   * `timeRejected` is the cooking-time test, which the form as written and
   * its corrected version make differently.
   */
  function ChecksWith(f: Form, timeRejected: bool): (v: Verdict)
    ensures v == Fail(TitleMessage) <==> Text.IsBlank(f.title)
    ensures v == Throws <==> !Text.IsBlank(f.title) && f.description.None?
    ensures v == Fail(DescriptionMessage) <==>
      !Text.IsBlank(f.title) && f.description.Some? && Text.IsBlank(f.description.value)
    ensures v == Fail(CategoryMessage) <==>
      !Text.IsBlank(f.title) && f.description.Some? && !Text.IsBlank(f.description.value) && f.categories == []
    ensures v == Fail(CookingTimeMessage) <==> BasicsGiven(f) && timeRejected
    ensures v == Fail(DistinctGroupsMessage) <==> BasicsGiven(f) && !timeRejected && !NoDuplicates(Names(f.groups))
    ensures v == Fail(GroupNameMessage) <==>
      BasicsGiven(f) && !timeRejected && NoDuplicates(Names(f.groups)) && UnnamedAmongMany(f)
    ensures v == Fail(StepMessage) <==>
      BasicsGiven(f) && !timeRejected && NoDuplicates(Names(f.groups)) && !UnnamedAmongMany(f) && !HasFilledStep(f)
    ensures v == Pass <==>
      BasicsGiven(f) && !timeRejected && NoDuplicates(Names(f.groups)) && !UnnamedAmongMany(f) && HasFilledStep(f)
  {
    var names := Names(f.groups);
    SizeOfElements(names);
    if Text.Trim(f.title) == "" then Fail(TitleMessage)
    else if f.description.None? then Throws
    else if Text.Trim(f.description.value) == "" then Fail(DescriptionMessage)
    else if |f.categories| == 0 then Fail(CategoryMessage)
    else if timeRejected then Fail(CookingTimeMessage)
    else if |names| != |Elements(names)| then Fail(DistinctGroupsMessage)
    else if |f.groups| > 1 && |UnnamedGroups(f.groups)| > 0 then Fail(GroupNameMessage)
    else if |FilledSteps(f.steps)| == 0 then Fail(StepMessage)
    else Pass
  }

  /** `recipeChecks` as written: the cooking time is rejected when `cookingTime <= 0`. */
  function RecipeChecks(f: Form): Verdict {
    ChecksWith(f, NotPositive(f.cookingTime))
  }

  /**
   * `recipeChecks` with the cooking-time test made on the value that is
   * submitted: rejected unless `parseInt(cookingTime)` is a positive number.
   */
  function RecipeChecksCorrected(f: Form): (v: Verdict)
    ensures v == Pass ==> ParseField(f.cookingTime).Some? && ParseField(f.cookingTime).value > 0
    ensures v == Pass ==> RecipeChecks(f) == Pass
  {
    var ok := ParseField(f.cookingTime).Some? && ParseField(f.cookingTime).value > 0;
    assert ok ==> !NotPositive(f.cookingTime) by {
      if ok && f.cookingTime.Typed? {
        var t := f.cookingTime.text;
        if JsNumbers.ToNumber(t).Some? && JsNumbers.ToNumber(t).value <= 0.0 {
          CheckedTimeIsPositive(t);
        }
      }
    }
    ChecksWith(f, !ok)
  }

  /** Text whose `parseInt` is positive is not a number at or below zero. */
  lemma CheckedTimeIsPositive(t: string)
    requires JsNumbers.ParseInt(t).Some? && JsNumbers.ParseInt(t).value > 0
    ensures !(JsNumbers.ToNumber(t).Some? && JsNumbers.ToNumber(t).value <= 0.0)
  {
    var v := JsNumbers.ToNumber(t);
    if v.Some? && v.value <= 0.0 {
      JsNumbers.ParseIntOfNonPositive(t);
    }
  }

  /** `Number("0.5")` is one half. */
  lemma ToNumberOfHalf()
    ensures JsNumbers.ToNumber("0.5") == Some(0.5)
  {
    JsNumbers.DigitPointDigit("0.5");
  }

  /** `parseInt("0.5")` is 0. */
  lemma ParseIntOfHalf()
    ensures JsNumbers.ParseInt("0.5") == Some(0)
  {
    JsNumbers.ParseIntOfSingleDigit("0.5");
  }

  /**
   * A form that is complete but for its cooking time, the text "0.5", passes
   * the checks as written and is submitted with a cooking time of 0 minutes;
   * the corrected checks reject it.
   */
  lemma ZeroCookingTimeSubmitted(f: Form)
    requires f.cookingTime == Typed("0.5")
    requires BasicsGiven(f) && NoDuplicates(Names(f.groups)) && !UnnamedAmongMany(f) && HasFilledStep(f)
    ensures RecipeChecks(f) == Pass
    ensures SubmitAsWritten(f).Submitted? && SubmitAsWritten(f).payload.cookingTime == Some(0)
    ensures RecipeChecksCorrected(f) == Fail(CookingTimeMessage)
    ensures Submit(f) == Rejected(CookingTimeMessage)
  {
    ToNumberOfHalf();
    ParseIntOfHalf();
  }

  /**
   * A cooking time in exponent notation is checked as `Number` reads it:
   * "0e5" (zero) and "-1e1" (minus ten) are rejected by the checks as
   * written.
   */
  lemma ExponentTimeRejected(f: Form)
    requires BasicsGiven(f)
    requires f.cookingTime == Typed("0e5") || f.cookingTime == Typed("-1e1")
    ensures RecipeChecks(f) == Fail(CookingTimeMessage)
  {
    JsNumbers.ToNumberOfZeroExponent();
    JsNumbers.ToNumberOfNegativeExponent();
  }

  /**
   * "1e3" passes the checks as written as a thousand minutes, and is
   * submitted as 1 minute, since `parseInt` stops at the `e`.
   */
  lemma ExponentTimeTruncated(f: Form)
    requires f.cookingTime == Typed("1e3")
    requires BasicsGiven(f) && NoDuplicates(Names(f.groups)) && !UnnamedAmongMany(f) && HasFilledStep(f)
    ensures RecipeChecks(f) == Pass
    ensures SubmitAsWritten(f).Submitted? && SubmitAsWritten(f).payload.cookingTime == Some(1)
  {
    JsNumbers.ToNumberOfExponent();
    JsNumbers.ParseIntOfSingleDigit("1e3");
  }

  // ---------------------------------------------------------------------
  // Submitting
  // ---------------------------------------------------------------------

  /** A step as submitted: its position among the filled-in steps, its trimmed text and its images. */
  datatype SubmittedStep = SubmittedStep(orderId: int, step: string, images: seq<int>)

  /**
   * `steps.filter(s => s.description.trim() !== "").map((s, i) => ...)`: the
   * filled-in steps, trimmed, numbered from 0 in list order.
   */
  function SubmitSteps(steps: seq<Step>): (r: seq<SubmittedStep>)
    ensures |r| <= |steps|
    ensures forall i :: 0 <= i < |r| ==> r[i].orderId == i
    ensures forall i :: 0 <= i < |r| ==> r[i].step != [] && Text.IsTrimmed(r[i].step)
    ensures r == NumberSteps(FilledSteps(steps))
  {
    if steps == [] then []
    else
      var init := SubmitSteps(steps[..|steps| - 1]);
      var last := steps[|steps| - 1];
      var text := Text.Trim(last.description);
      SubmitStepsClosedSnoc(steps, init);
      if text == "" then init
      else
        NumberedSnoc(init, SubmittedStep(|init|, text, last.images));
        init + [SubmittedStep(|init|, text, last.images)]
  }

  /** `map((s, i) => ({ order_id: i, step: s.description.trim(), images: s.images }))`. */
  function NumberSteps(fs: seq<Step>): (r: seq<SubmittedStep>)
    ensures |r| == |fs|
    ensures forall i :: 0 <= i < |fs| ==> r[i] == SubmittedStep(i, Text.Trim(fs[i].description), fs[i].images)
  {
    MapIndexed(fs, AsSubmitted)
  }

  /** The step at position `i` of the filled-in steps, as submitted. */
  function AsSubmitted(i: int, s: Step): SubmittedStep {
    SubmittedStep(i, Text.Trim(s.description), s.images)
  }

  lemma {:induction false} FilledStepsSnoc(p: seq<Step>, last: Step)
    ensures FilledSteps(p + [last]) == FilledSteps(p) + (if !Text.IsBlank(last.description) then [last] else [])
  {
    if p != [] {
      assert (p + [last])[0] == p[0];
      assert (p + [last])[1..] == p[1..] + [last];
      FilledStepsSnoc(p[1..], last);
    }
  }

  lemma SubmitStepsClosedSnoc(steps: seq<Step>, init: seq<SubmittedStep>)
    requires steps != [] && init == NumberSteps(FilledSteps(steps[..|steps| - 1]))
    ensures var last := steps[|steps| - 1];
      if Text.IsBlank(last.description) then init == NumberSteps(FilledSteps(steps))
      else init + [SubmittedStep(|init|, Text.Trim(last.description), last.images)] == NumberSteps(FilledSteps(steps))
  {
    var p, last := steps[..|steps| - 1], steps[|steps| - 1];
    LastSplit(steps);
    FilledStepsSnoc(p, last);
    if !Text.IsBlank(last.description) {
      NumberStepsSnoc(FilledSteps(p), last);
    }
  }

  lemma NumberStepsSnoc(fs: seq<Step>, last: Step)
    ensures NumberSteps(fs + [last]) == NumberSteps(fs) + [SubmittedStep(|fs|, Text.Trim(last.description), last.images)]
  {
    MapIndexedSnoc(fs, last, AsSubmitted);
  }

  lemma NumberedSnoc(r: seq<SubmittedStep>, x: SubmittedStep)
    requires forall i :: 0 <= i < |r| ==> r[i].orderId == i && r[i].step != [] && Text.IsTrimmed(r[i].step)
    requires x.orderId == |r| && x.step != [] && Text.IsTrimmed(x.step)
    ensures forall i :: 0 <= i < |r| + 1 ==>
      (r + [x])[i].orderId == i && (r + [x])[i].step != [] && Text.IsTrimmed((r + [x])[i].step)
  {
    forall i | 0 <= i < |r| + 1
      ensures (r + [x])[i].orderId == i && (r + [x])[i].step != [] && Text.IsTrimmed((r + [x])[i].step)
    {
      if i < |r| {
        assert (r + [x])[i] == r[i];
      }
    }
  }

  /** Some step is submitted exactly when some step is filled in. */
  lemma SubmitStepsNonEmpty(steps: seq<Step>)
    ensures |SubmitSteps(steps)| > 0 <==> exists s :: 0 <= s < |steps| && !Text.IsBlank(steps[s].description)
  {
    if |SubmitSteps(steps)| > 0 {
      var s := FilledWitness(steps);
    }
    forall s | 0 <= s < |steps| && !Text.IsBlank(steps[s].description)
      ensures |SubmitSteps(steps)| > 0
    {
      SubmittedFromFilled(steps, s);
    }
  }

  /** A submitted step comes from a step that is filled in. */
  lemma {:induction false} FilledWitness(steps: seq<Step>) returns (s: nat)
    requires |SubmitSteps(steps)| > 0
    ensures s < |steps| && !Text.IsBlank(steps[s].description)
  {
    var n := |steps| - 1;
    var p := steps[..n];
    LastSplit(steps);
    SubmitsSomeSnoc(p, steps[n]);
    if |SubmitSteps(p)| > 0 {
      s := FilledWitness(p);
      assert steps[s] == p[s];
    } else {
      s := n;
    }
  }

  /** A step that is filled in makes the submission non-empty. */
  lemma {:induction false} SubmittedFromFilled(steps: seq<Step>, s: nat)
    requires s < |steps| && !Text.IsBlank(steps[s].description)
    ensures |SubmitSteps(steps)| > 0
  {
    var n := |steps| - 1;
    var p := steps[..n];
    LastSplit(steps);
    SubmitsSomeSnoc(p, steps[n]);
    if s < n {
      assert steps[s] == p[s];
      SubmittedFromFilled(p, s);
    }
  }

  lemma SubmitsSomeSnoc(p: seq<Step>, last: Step)
    ensures |SubmitSteps(p + [last])| > 0 <==> |SubmitSteps(p)| > 0 || !Text.IsBlank(last.description)
  {
    SubmitStepsSnoc(p, last);
  }

  /** The trailing blank step is never submitted. */
  lemma SubmitStepsIgnoresBlank(steps: seq<Step>, blank: Step)
    requires Text.IsBlank(blank.description)
    ensures SubmitSteps(steps + [blank]) == SubmitSteps(steps)
  {
    assert (steps + [blank])[..|steps|] == steps;
  }

  lemma SubmitStepsSnoc(init: seq<Step>, last: Step)
    ensures var text := Text.Trim(last.description);
      SubmitSteps(init + [last]) == SubmitSteps(init)
        + (if text != "" then [SubmittedStep(|SubmitSteps(init)|, text, last.images)] else [])
  {
    assert (init + [last])[..|init|] == init;
  }

  lemma SubmitStepsSnocClean(init: seq<Step>, last: Step)
    requires last.description != [] && Text.IsTrimmed(last.description)
    ensures SubmitSteps(init + [last]) == SubmitSteps(init) + [SubmittedStep(|SubmitSteps(init)|, last.description, last.images)]
  {
    Text.TrimOfTrimmed(last.description);
    SubmitStepsSnoc(init, last);
  }

  /** Filled-in steps whose texts are already trimmed are submitted in order with their texts. */
  lemma {:induction false} SubmitStepsOfClean(steps: seq<Step>)
    requires forall s :: 0 <= s < |steps| ==> steps[s].description != [] && Text.IsTrimmed(steps[s].description)
    ensures NumberedAsIs(SubmitSteps(steps), steps)
  {
    if steps != [] {
      var n := |steps| - 1;
      var init := steps[..n];
      var last := steps[n];
      assert forall s :: 0 <= s < n ==> init[s] == steps[s];
      SubmitStepsOfClean(init);
      LastSplit(steps);
      SubmitStepsSnocClean(init, last);
      NumberedAsIsSnoc(SubmitSteps(init), init, last);
    }
  }

  /** `r` holds the steps of `steps`, one for one, numbered by position. */
  predicate NumberedAsIs(r: seq<SubmittedStep>, steps: seq<Step>) {
    |r| == |steps|
    && forall i :: 0 <= i < |steps| ==> r[i] == SubmittedStep(i, steps[i].description, steps[i].images)
  }

  lemma NumberedAsIsSnoc(r: seq<SubmittedStep>, steps: seq<Step>, last: Step)
    requires NumberedAsIs(r, steps)
    ensures NumberedAsIs(r + [SubmittedStep(|r|, last.description, last.images)], steps + [last])
  {
  }

  /** The payload posted to the backend. */
  datatype Payload = Payload(
    title: string,
    description: string,
    categories: seq<string>,
    portions: NumberField,
    cookingTime: Option<int>,
    ingredients: seq<Ingredient>,
    steps: seq<SubmittedStep>,
    coverImage: int,
    galleryImages: seq<int>)

  datatype Outcome = Submitted(payload: Payload) | Rejected(message: string) | Crashed

  /** `categories.map(c => c.trim())`: each category with the white space at its ends cut away, in order. */
  function TrimAll(xs: seq<string>): (r: seq<string>)
    ensures |r| == |xs| && forall i :: 0 <= i < |xs| ==> Text.IsTrimOf(r[i], xs[i])
    ensures forall i :: 0 <= i < |xs| ==> (r[i] == [] <==> Text.IsBlank(xs[i]))
  {
    seq(|xs|, i requires 0 <= i < |xs| => Text.Trim(xs[i]))
  }

  /** The outcome of `handleSubmit` once the checks have given `v`. */
  function SubmitWith(f: Form, v: Verdict): (o: Outcome)
    requires v == Pass ==> f.description.Some?
    ensures o.Submitted? <==> v == Pass
    ensures o.Rejected? <==> v.Fail?
    ensures o.Rejected? ==> o.message == v.message
    ensures o.Submitted? ==> o.payload.cookingTime == ParseField(f.cookingTime)
    ensures o.Submitted? ==> (o.payload.steps != [] <==> HasFilledStep(f))
    ensures o.Submitted? ==> forall i :: 0 <= i < |o.payload.steps| ==> o.payload.steps[i].orderId == i
    ensures o.Submitted? ==> forall x :: x in o.payload.ingredients ==> x.name != [] && Text.IsTrimmed(x.name)
    ensures o.Submitted? ==> o.payload.title == f.title && o.payload.description == f.description.value
    ensures o.Submitted? ==> o.payload.portions == f.portions && o.payload.galleryImages == f.gallery
    ensures o.Submitted? ==> o.payload.categories == TrimAll(f.categories)
    ensures o.Submitted? ==> o.payload.ingredients == SubmitIngredients(f.groups)
    ensures o.Submitted? ==> o.payload.steps == SubmitSteps(f.steps)
    ensures o.Submitted? ==> o.payload.coverImage == CoverPayload(f.cover) && (f.cover.NoCover? ==> o.payload.coverImage == -1)
  {
    SubmitStepsNonEmpty(f.steps);
    match v
    case Fail(m) => Rejected(m)
    case Throws => Crashed
    case Pass =>
      Submitted(Payload(f.title, f.description.value, TrimAll(f.categories), f.portions,
        ParseField(f.cookingTime), SubmitIngredients(f.groups), SubmitSteps(f.steps),
        CoverPayload(f.cover), f.gallery))
  }

  /** `handleSubmit` as written, with `recipeChecks` testing `cookingTime <= 0`. */
  function SubmitAsWritten(f: Form): Outcome {
    SubmitWith(f, RecipeChecks(f))
  }

  /**
   * `handleSubmit`: the checks decide; a form that passes is sent with its
   * ingredients flattened, its filled-in steps numbered, its categories
   * trimmed, its cooking time through `parseInt` and its cover as a number.
   */
  function Submit(f: Form): (o: Outcome)
    ensures o.Submitted? <==> RecipeChecksCorrected(f) == Pass
    ensures o.Rejected? <==> RecipeChecksCorrected(f).Fail?
    ensures o.Crashed? <==> !Text.IsBlank(f.title) && f.description.None?
    ensures o.Submitted? ==> o.payload.cookingTime.Some? && o.payload.cookingTime.value > 0
    ensures o.Submitted? ==> o.payload.steps != [] && forall i :: 0 <= i < |o.payload.steps| ==> o.payload.steps[i].orderId == i
    ensures o.Submitted? ==> forall x :: x in o.payload.ingredients ==> x.name != [] && Text.IsTrimmed(x.name)
    ensures o.Submitted? ==> SubmitAsWritten(f) == o
  {
    SubmitWith(f, RecipeChecksCorrected(f))
  }
}
