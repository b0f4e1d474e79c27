/**
 * The recipe page (frontend/src/Recipe.js): the gallery shown on top, the
 * ingredient list scaled to the wished number of portions, the portion
 * input, the steps in `order_id` order, and who sees the edit controls.
 */
module RecipeView {
  import opened Base
  import JsNumbers
  import opened IngredientGroups

  // ---------------------------------------------------------------------
  // Gallery and ingredient groups
  // ---------------------------------------------------------------------

  /** The images of the carousel: the cover (when there is one) in front of the gallery. */
  function GalleryOf(cover: Option<int>, gallery: seq<int>): (images: seq<int>)
    ensures |images| == |gallery| + (if cover.Some? then 1 else 0)
    ensures cover.Some? ==> images[0] == cover.value && images[1..] == gallery
    ensures cover.None? ==> images == gallery
  {
    match cover
    case None => gallery
    case Some(c) => [c] + gallery
  }

  /** The group headings shown: the group names, but only when there is more than one group. */
  function Headings(groups: seq<Group>): (hs: seq<Option<string>>)
    ensures |groups| > 1 ==> hs == Names(groups)
    ensures |groups| <= 1 ==> hs == []
  {
    if |groups| > 1 then Names(groups) else []
  }

  /**
   * Headings appear exactly when the stored ingredients carry two or more
   * distinct group names, and they are then those names in first-seen order.
   */
  lemma HeadingsOfGrouping(flat: seq<Ingredient>)
    ensures Headings(Grouping(flat)) != [] <==> |Dedup(KeysOf(flat))| > 1
    ensures Headings(Grouping(flat)) != [] ==> Headings(Grouping(flat)) == Dedup(KeysOf(flat))
  {
    GroupingNames(flat);
  }

  /**
   * The recipe page groups the stored ingredients with the editor's loop:
   * every ingredient is shown once, in its group, and the groups come in
   * first-seen order.
   */
  lemma ViewGroupsEveryIngredient(flat: seq<Ingredient>)
    ensures |Flatten(Grouping(flat))| == |flat|
    ensures multiset(Flatten(Grouping(flat))) == multiset(flat)
    ensures Names(Grouping(flat)) == Dedup(KeysOf(flat))
  {
    FlattenGrouping(flat);
    GroupingNames(flat);
  }

  // ---------------------------------------------------------------------
  // Portions
  // ---------------------------------------------------------------------

  /**
   * The wished number of portions: `parseInt` of the portion input, so
   * `None` stands for NaN.
   */
  type Wished = Option<int>

  /**
   * The scale factor: `wished / portions`, or 1 while the input holds no
   * number. Stored portions may be negative (the real quotient is then
   * negative too); a wish over zero portions is left out.
   */
  function Factor(wished: Wished, portions: int): real
    requires wished.Some? ==> portions != 0
  {
    match wished
    case None => 1.0
    case Some(w) => w as real / portions as real
  }

  /**
   * The amount shown for an ingredient: the scaled amount rounded to one
   * decimal with `Math.round(x * 10) / 10`; it is never more than a
   * twentieth away from the exact scaled amount.
   */
  function DisplayedAmount(amount: real, wished: Wished, portions: int): (d: real)
    requires wished.Some? ==> portions != 0
    ensures amount * Factor(wished, portions) - 1.0 / 20.0 < d <= amount * Factor(wished, portions) + 1.0 / 20.0
  {
    var x := amount * Factor(wished, portions) * 10.0;
    var r := JsNumbers.Round(x);
    WithinOneTwentieth(amount * Factor(wished, portions), r);
    r as real / 10.0
  }

  lemma WithinOneTwentieth(y: real, r: int)
    requires y * 10.0 - 1.0 / 2.0 < r as real <= y * 10.0 + 1.0 / 2.0
    ensures y - 1.0 / 20.0 < r as real / 10.0 <= y + 1.0 / 20.0
  {
  }

  /** What the page starts with: the recipe's own number of portions. */
  function InitialWished(portions: int): Wished {
    Some(portions)
  }

  /**
   * At the recipe's own number of portions (the initial display) an amount
   * is shown as stored, rounded to one decimal; an amount that already has
   * at most one decimal is shown exactly.
   */
  lemma DisplayAtOwnPortions(amount: real, portions: int)
    requires portions != 0
    ensures DisplayedAmount(amount, InitialWished(portions), portions) == JsNumbers.Round(amount * 10.0) as real / 10.0
    ensures (amount * 10.0).Floor as real == amount * 10.0 ==> DisplayedAmount(amount, InitialWished(portions), portions) == amount
  {
    assert Factor(InitialWished(portions), portions) == 1.0;
    if (amount * 10.0).Floor as real == amount * 10.0 {
      JsNumbers.RoundOfInteger((amount * 10.0).Floor);
    }
  }

  /** While the input holds no number, amounts are shown unscaled. */
  lemma DisplayWithoutWish(amount: real, portions: int)
    ensures DisplayedAmount(amount, None, portions) == JsNumbers.Round(amount * 10.0) as real / 10.0
  {
  }

  /** More portions never show less of a non-negative amount. */
  lemma DisplayMonotone(amount: real, w1: int, w2: int, portions: int)
    requires portions > 0 && 0.0 <= amount && w1 <= w2
    ensures DisplayedAmount(amount, Some(w1), portions) <= DisplayedAmount(amount, Some(w2), portions)
  {
    FactorMonotone(w1, w2, portions);
    ScaledMonotone(amount, Factor(Some(w1), portions), Factor(Some(w2), portions));
    JsNumbers.RoundMonotone(amount * Factor(Some(w1), portions) * 10.0, amount * Factor(Some(w2), portions) * 10.0);
    DisplayedAmountIs(amount, Some(w1), portions);
    DisplayedAmountIs(amount, Some(w2), portions);
    TenthsMonotone(JsNumbers.Round(amount * Factor(Some(w1), portions) * 10.0), JsNumbers.Round(amount * Factor(Some(w2), portions) * 10.0));
  }

  lemma FactorMonotone(w1: int, w2: int, portions: int)
    requires portions > 0 && w1 <= w2
    ensures Factor(Some(w1), portions) <= Factor(Some(w2), portions)
  {
    QuotientMonotone(w1 as real, w2 as real, portions as real);
  }

  lemma DisplayedAmountIs(amount: real, wished: Wished, portions: int)
    requires wished.Some? ==> portions != 0
    ensures DisplayedAmount(amount, wished, portions) == JsNumbers.Round(amount * Factor(wished, portions) * 10.0) as real / 10.0
  {
  }

  lemma TenthsMonotone(r1: int, r2: int)
    requires r1 <= r2
    ensures r1 as real / 10.0 <= r2 as real / 10.0
  {
  }

  lemma ScaledMonotone(amount: real, f1: real, f2: real)
    requires 0.0 <= amount && f1 <= f2
    ensures amount * f1 * 10.0 <= amount * f2 * 10.0
  {
    ProductMonotone(amount, f1, f2);
  }

  lemma QuotientMonotone(a: real, b: real, d: real)
    requires d > 0.0 && a <= b
    ensures a / d <= b / d
  {
  }

  lemma ProductMonotone(c: real, a: real, b: real)
    requires 0.0 <= c && a <= b
    ensures c * a <= c * b
  {
  }

  /** The text of the portion input: the wished number, or empty while it is NaN. */
  function PortionInputText(wished: Wished): string {
    match wished
    case None => ""
    case Some(w) => JsNumbers.DecimalString(w)
  }

  /**
   * Reading the portion input back gives the wished number it shows, NaN
   * included: the input and the state never disagree.
   */
  lemma PortionInputRoundTrip(wished: Wished)
    ensures OnPortionInput(PortionInputText(wished)) == wished
  {
    match wished
    case None => JsNumbers.ParseIntOfEmpty();
    case Some(w) => JsNumbers.ParseIntOfDecimalString(w);
  }

  /** The portion input's change handler: `setWishedPortions(parseInt(text))`. */
  function OnPortionInput(text: string): (wished: Wished)
    ensures text == "" ==> wished.None?
    ensures wished == JsNumbers.ParseInt(text)
  {
    JsNumbers.ParseInt(text)
  }

  // ---------------------------------------------------------------------
  // Steps
  // ---------------------------------------------------------------------

  /** A stored step as the page receives it. */
  datatype ViewStep = ViewStep(orderId: int, text: string, images: seq<int>)

  predicate SortedByOrder(s: seq<ViewStep>) {
    forall i, j :: 0 <= i < j < |s| ==> s[i].orderId <= s[j].orderId
  }

  /**
   * `x` placed into `s` after every element whose `order_id` is not greater
   * (the place a stable insertion sort gives it).
   */
  function InsertLast(s: seq<ViewStep>, x: ViewStep): (r: seq<ViewStep>)
    ensures |r| == |s| + 1
  {
    if s == [] || s[|s| - 1].orderId <= x.orderId then s + [x]
    else InsertLast(s[..|s| - 1], x) + [s[|s| - 1]]
  }

  /** The steps ordered by `order_id`, equal ids kept in list order. */
  function SortByOrder(s: seq<ViewStep>): (r: seq<ViewStep>)
    ensures |r| == |s|
  {
    if s == [] then [] else InsertLast(SortByOrder(s[..|s| - 1]), s[|s| - 1])
  }

  lemma {:induction false} InsertLastCounts(s: seq<ViewStep>, x: ViewStep)
    ensures multiset(InsertLast(s, x)) == multiset(s) + multiset{x}
  {
    if s != [] && s[|s| - 1].orderId > x.orderId {
      InsertLastCounts(s[..|s| - 1], x);
      LastSplit(s);
    }
  }

  lemma {:induction false} InsertLastSorted(s: seq<ViewStep>, x: ViewStep)
    requires SortedByOrder(s)
    ensures SortedByOrder(InsertLast(s, x))
  {
    if s != [] && s[|s| - 1].orderId > x.orderId {
      var init := s[..|s| - 1];
      var last := s[|s| - 1];
      InsertLastSorted(init, x);
      assert forall k :: 0 <= k < |init| ==> init[k].orderId <= last.orderId;
      InsertLastBounded(init, x, last.orderId);
      SortedSnoc(InsertLast(init, x), last);
    }
  }

  /** Inserting keeps every `order_id` under a bound that all of them were under. */
  lemma InsertLastBounded(s: seq<ViewStep>, x: ViewStep, b: int)
    requires forall k :: 0 <= k < |s| ==> s[k].orderId <= b
    requires x.orderId <= b
    ensures forall y :: y in InsertLast(s, x) ==> y.orderId <= b
  {
    InsertLastCounts(s, x);
    forall y | y in InsertLast(s, x) ensures y.orderId <= b {
      assert y in multiset(InsertLast(s, x));
      if y != x {
        assert y in multiset(s);
        var k :| 0 <= k < |s| && s[k] == y;
      }
    }
  }

  lemma SortedSnoc(r: seq<ViewStep>, z: ViewStep)
    requires SortedByOrder(r)
    requires forall y :: y in r ==> y.orderId <= z.orderId
    ensures SortedByOrder(r + [z])
  {
    var t := r + [z];
    forall i, j | 0 <= i < j < |t| ensures t[i].orderId <= t[j].orderId {
      if j == |r| {
        assert t[i] == r[i] && r[i] in r;
      } else {
        assert t[i] == r[i] && t[j] == r[j];
      }
    }
  }

  /** Sorting by `order_id` gives steps in ascending `order_id`. */
  lemma {:induction false} SortByOrderSorted(s: seq<ViewStep>)
    ensures SortedByOrder(SortByOrder(s))
  {
    if s != [] {
      SortByOrderSorted(s[..|s| - 1]);
      InsertLastSorted(SortByOrder(s[..|s| - 1]), s[|s| - 1]);
    }
  }

  /** Sorting by `order_id` neither loses nor adds a step. */
  lemma {:induction false} SortByOrderPermutes(s: seq<ViewStep>)
    ensures multiset(SortByOrder(s)) == multiset(s)
  {
    if s != [] {
      SortByOrderPermutes(s[..|s| - 1]);
      InsertLastCounts(SortByOrder(s[..|s| - 1]), s[|s| - 1]);
      LastSplit(s);
    }
  }

  /** Steps already in `order_id` order are left as they are. */
  lemma {:induction false} SortByOrderOfSorted(s: seq<ViewStep>)
    requires SortedByOrder(s)
    ensures SortByOrder(s) == s
  {
    if s != [] {
      var init := s[..|s| - 1];
      assert SortedByOrder(init);
      SortByOrderOfSorted(init);
      LastSplit(s);
    }
  }

  /**
   * The steps the editor submits carry `order_id` 0, 1, 2, ... in list
   * order, so the page shows them in that order and numbers each one
   * `order_id + 1`.
   */
  lemma NumberedAsSubmitted(s: seq<ViewStep>)
    requires forall i :: 0 <= i < |s| ==> s[i].orderId == i
    ensures SortByOrder(s) == s
    ensures forall i :: 0 <= i < |s| ==> StepNumber(i) == SortByOrder(s)[i].orderId + 1
  {
    SortByOrderOfSorted(s);
  }

  /** The number shown next to the step at position `i`. */
  function StepNumber(i: nat): (n: int)
    ensures n >= 1
  {
    i + 1
  }

  lemma InsertLastShift(p: seq<ViewStep>, j: nat, x: ViewStep)
    requires 0 < j <= |p| && p[j - 1].orderId > x.orderId
    ensures InsertLast(p[..j], x) == InsertLast(p[..j - 1], x) + [p[j - 1]]
  {
    assert p[..j][..j - 1] == p[..j - 1];
  }

  /** Moving the insertion point one place left keeps the split of the result. */
  lemma InsertLastShiftStep(p: seq<ViewStep>, j: nat, x: ViewStep)
    requires 0 < j <= |p| && p[j - 1].orderId > x.orderId
    requires InsertLast(p, x) == InsertLast(p[..j], x) + p[j..]
    ensures InsertLast(p, x) == InsertLast(p[..j - 1], x) + p[j - 1..]
  {
    InsertLastShift(p, j, x);
    assert p[j - 1..] == [p[j - 1]] + p[j..];
  }

  lemma InsertLastStop(p: seq<ViewStep>, x: ViewStep)
    requires p == [] || p[|p| - 1].orderId <= x.orderId
    ensures InsertLast(p, x) == p + [x]
  {
  }

  /**
   * One pass of the insertion sort: the step at `i` moves left past every
   * step before it with a greater `order_id`.
   */
  method InsertStep(a: array<ViewStep>, i: nat)
    requires i < a.Length
    modifies a
    ensures a[..i + 1] == InsertLast(old(a[..i]), old(a[i]))
    ensures a[i + 1..] == old(a[i + 1..])
  {
    ghost var p := a[..i];
    ghost var rest := a[i + 1..];
    var x := a[i];
    var j := i;
    assert p[..j] == p && p[j..] == [];
    GapStart(a[..], i);
    while j > 0 && a[j - 1].orderId > x.orderId
      invariant 0 <= j <= i
      invariant Gap(a[..], p, rest, j)
      invariant InsertLast(p, x) == InsertLast(p[..j], x) + p[j..]
    {
      ShiftRight(a, p, rest, j, x);
      j := j - 1;
    }
    InsertLastStop(p[..j], x);
    ghost var q := a[..];
    a[j] := x;
    assert a[..] == q[j := x];
    GapFilled(q, p, rest, j, x);
  }

  /** Moves the element before the gap into it, so the gap moves one place left. */
  method ShiftRight(a: array<ViewStep>, ghost p: seq<ViewStep>, ghost rest: seq<ViewStep>, j: nat, ghost x: ViewStep)
    requires 0 < j && Gap(a[..], p, rest, j) && a[j - 1].orderId > x.orderId
    requires InsertLast(p, x) == InsertLast(p[..j], x) + p[j..]
    modifies a
    ensures Gap(a[..], p, rest, j - 1)
    ensures InsertLast(p, x) == InsertLast(p[..j - 1], x) + p[j - 1..]
  {
    assert a[j - 1] == p[j - 1];
    InsertLastShiftStep(p, j, x);
    GapShift(a[..], p, rest, j);
    a[j] := a[j - 1];
  }

  /**
   * The array during one pass: `p` with a gap at `j` (the elements from
   * `j` on moved one place right) and the rest of the array untouched.
   */
  predicate Gap(q: seq<ViewStep>, p: seq<ViewStep>, rest: seq<ViewStep>, j: nat) {
    j <= |p| && |q| == |p| + 1 + |rest|
    && (forall k :: 0 <= k < j ==> q[k] == p[k])
    && (forall k :: j < k <= |p| ==> q[k] == p[k - 1])
    && q[|p| + 1..] == rest
  }

  lemma GapShift(q: seq<ViewStep>, p: seq<ViewStep>, rest: seq<ViewStep>, j: nat)
    requires 0 < j && Gap(q, p, rest, j)
    ensures Gap(q[j := q[j - 1]], p, rest, j - 1)
  {
    assert q[j := q[j - 1]][|p| + 1..] == q[|p| + 1..];
  }

  /** Before the pass, the gap is at `i`: the prefix before it and the rest after it. */
  lemma GapStart(q: seq<ViewStep>, i: nat)
    requires i < |q|
    ensures Gap(q, q[..i], q[i + 1..], i)
  {
  }

  lemma GapFilled(q: seq<ViewStep>, p: seq<ViewStep>, rest: seq<ViewStep>, j: nat, x: ViewStep)
    requires Gap(q, p, rest, j)
    ensures q[j := x][..|p| + 1] == p[..j] + [x] + p[j..]
    ensures q[j := x][|p| + 1..] == rest
  {
    var q' := q[j := x];
    assert q'[|p| + 1..] == q[|p| + 1..];
    OpenedGap(q'[..|p| + 1], p, j, x);
  }

  /** A sequence that holds `p` with `x` in the gap at `j` is `p` with `x` inserted there. */
  lemma OpenedGap(q: seq<ViewStep>, p: seq<ViewStep>, j: nat, x: ViewStep)
    requires j <= |p| && |q| == |p| + 1 && q[j] == x
    requires forall k :: 0 <= k < j ==> q[k] == p[k]
    requires forall k :: j < k < |q| ==> q[k] == p[k - 1]
    ensures q == p[..j] + [x] + p[j..]
  {
  }

  /**
   * `recipe.steps.sort(...)`: the steps are ordered in place by `order_id`;
   * the comparator keeps equal ids in list order, as the stable sort does.
   */
  method SortSteps(a: array<ViewStep>)
    modifies a
    ensures a[..] == SortByOrder(old(a[..]))
  {
    ghost var s := a[..];
    for i := 0 to a.Length
      invariant a[..i] == SortByOrder(s[..i])
      invariant a[i..] == s[i..]
    {
      InsertStep(a, i);
      assert s[..i + 1][..i] == s[..i];
    }
    assert s[..a.Length] == s;
  }

  // ---------------------------------------------------------------------
  // Edit controls
  // ---------------------------------------------------------------------

  /**
   * The edit and delete controls are shown to an admin, and to the user
   * whose id, read from the cookie with `parseInt`, is the recipe's creator
   * id (a recipe without a creator matches nobody).
   */
  function ShowsControls(isAdmin: bool, user: string, creatorId: Option<int>): (shown: bool)
    ensures shown <==> isAdmin || (JsNumbers.ParseInt(user).Some? && creatorId == JsNumbers.ParseInt(user))
  {
    isAdmin || (JsNumbers.ParseInt(user).Some? && creatorId.Some? && JsNumbers.ParseInt(user).value == creatorId.value)
  }

  /** The creator sees the controls on their recipe when the cookie holds their id. */
  lemma CreatorSeesControls(userId: int, creatorId: Option<int>)
    ensures ShowsControls(false, JsNumbers.DecimalString(userId), creatorId) <==> creatorId == Some(userId)
  {
    JsNumbers.ParseIntOfDecimalString(userId);
  }
}
