/**
 * Ingredient groups. The backend stores a recipe's ingredients as one flat
 * list in which every ingredient names its group; the editors and the recipe
 * page bucket that list by the exact group value, groups in the order in
 * which they are first seen, and the editors flatten the groups back when the
 * form is submitted, tagging every row with the name of its group.
 */
module IngredientGroups {
  import opened Base
  import Text

  /** An ingredient as the backend sends it and as the editors submit it. A `None` amount is NaN. */
  datatype Ingredient = Ingredient(name: string, amount: Option<real>, unit: string, group: Option<string>)

  /** One row of a group; a `None` amount is an amount field the user cleared. */
  datatype Row = Row(name: string, amount: Option<real>, unit: string)

  /** A group of rows; the backend may send a `null` group, which is a group of its own. */
  datatype Group = Group(name: Option<string>, rows: seq<Row>)

  function RowOf(x: Ingredient): Row {
    Row(x.name, x.amount, x.unit)
  }

  /** The group of every ingredient, in list order. */
  function KeysOf(flat: seq<Ingredient>): (ks: seq<Option<string>>)
    ensures |ks| == |flat|
  {
    seq(|flat|, i requires 0 <= i < |flat| => flat[i].group)
  }

  /** `flat.filter(x => x.group === k)`. */
  function InGroup(flat: seq<Ingredient>, k: Option<string>): (r: seq<Ingredient>)
    ensures forall i :: 0 <= i < |r| ==> r[i].group == k
    ensures |r| <= |flat|
  {
    if flat == [] then []
    else
      var x := flat[|flat| - 1];
      InGroup(flat[..|flat| - 1], k) + (if x.group == k then [x] else [])
  }

  /** Filtering keeps every ingredient of the group as often as it occurs, and no other. */
  lemma {:induction false} InGroupCounts(flat: seq<Ingredient>, k: Option<string>)
    ensures forall y :: multiset(InGroup(flat, k))[y] == if y.group == k then multiset(flat)[y] else 0
  {
    if flat != [] {
      var p := flat[..|flat| - 1];
      var x := flat[|flat| - 1];
      InGroupCounts(p, k);
      assert flat == p + [x];
      assert multiset(flat) == multiset(p) + multiset{x};
    }
  }

  /** Filtering keeps only ingredients of the list. */
  lemma InGroupSubset(flat: seq<Ingredient>, k: Option<string>)
    ensures forall y :: y in InGroup(flat, k) ==> y in flat
  {
    InGroupCounts(flat, k);
    forall y | y in InGroup(flat, k) ensures y in flat {
      assert multiset(InGroup(flat, k))[y] > 0;
    }
  }

  /** No ingredient of group `k`, nothing kept. */
  lemma {:induction false} InGroupOfAbsent(flat: seq<Ingredient>, k: Option<string>)
    requires forall i :: 0 <= i < |flat| ==> flat[i].group != k
    ensures InGroup(flat, k) == []
  {
    if flat != [] {
      InGroupOfAbsent(flat[..|flat| - 1], k);
    }
  }

  /** The rows of the ingredients of group `k`, in list order. */
  function RowsIn(flat: seq<Ingredient>, k: Option<string>): (rows: seq<Row>)
    ensures |rows| == |InGroup(flat, k)|
  {
    var xs := InGroup(flat, k);
    seq(|xs|, i requires 0 <= i < |xs| => RowOf(xs[i]))
  }

  /** The group of every key of `ks`, holding the rows of that key. */
  function GroupsFor(flat: seq<Ingredient>, ks: seq<Option<string>>): (gs: seq<Group>)
    ensures |gs| == |ks|
    ensures forall i :: 0 <= i < |ks| ==> gs[i] == Group(ks[i], RowsIn(flat, ks[i]))
  {
    seq(|ks|, i requires 0 <= i < |ks| => Group(ks[i], RowsIn(flat, ks[i])))
  }

  /** The grouping the editors and the recipe page build from a flat list. */
  function Grouping(flat: seq<Ingredient>): (gs: seq<Group>) {
    GroupsFor(flat, Dedup(KeysOf(flat)))
  }

  /** The names of some groups, in order. */
  function Names(gs: seq<Group>): (ns: seq<Option<string>>)
    ensures |ns| == |gs|
  {
    seq(|gs|, i requires 0 <= i < |gs| => gs[i].name)
  }

  /** The rows of a group tagged with the group's name. */
  function Tag(rows: seq<Row>, k: Option<string>): (r: seq<Ingredient>)
    ensures |r| == |rows|
  {
    seq(|rows|, i requires 0 <= i < |rows| => Ingredient(rows[i].name, rows[i].amount, rows[i].unit, k))
  }

  /** All groups concatenated back into one flat list. */
  function Flatten(gs: seq<Group>): (r: seq<Ingredient>) {
    if gs == [] then [] else Tag(gs[0].rows, gs[0].name) + Flatten(gs[1..])
  }

  /** The ingredients of each key of `ks` in turn: a partition of `flat` by group. */
  function Partition(flat: seq<Ingredient>, ks: seq<Option<string>>): (r: seq<Ingredient>) {
    if ks == [] then [] else InGroup(flat, ks[0]) + Partition(flat, ks[1..])
  }

  /**
   * `flat.findIndex(g => g.group === key)`, or -1: the first group carrying
   * `key`.
   */
  method FindGroup(groups: seq<Group>, key: Option<string>) returns (j: int)
    ensures -1 <= j < |groups|
    ensures j == -1 ==> forall i :: 0 <= i < |groups| ==> groups[i].name != key
    ensures j >= 0 ==> groups[j].name == key && forall i :: 0 <= i < j ==> groups[i].name != key
  {
    j := 0;
    while j < |groups|
      invariant 0 <= j <= |groups|
      invariant forall i :: 0 <= i < j ==> groups[i].name != key
    {
      if groups[j].name == key {
        return;
      }
      j := j + 1;
    }
    j := -1;
  }

  /**
   * The grouping loop: for every ingredient, find its group (appending an
   * empty one the first time the group is seen) and push the ingredient's row.
   */
  method GroupIngredients(flat: seq<Ingredient>) returns (groups: seq<Group>)
    ensures groups == Grouping(flat)
  {
    groups := [];
    var i := 0;
    assert flat[..0] == [];
    while i < |flat|
      invariant 0 <= i <= |flat|
      invariant groups == Grouping(flat[..i])
    {
      var x := flat[i];
      var j := FindGroup(groups, x.group);
      assert flat[..i + 1] == flat[..i] + [x];
      if j == -1 {
        GroupingStepNew(flat[..i], x);
        var before := groups;
        groups := groups + [Group(x.group, [])];
        j := |groups| - 1;
        groups := groups[j := Group(groups[j].name, groups[j].rows + [RowOf(x)])];
        assert groups[j] == Group(x.group, [RowOf(x)]);
        assert groups == groups[..j] + [groups[j]] && groups[..j] == before;
      } else {
        GroupingStepExisting(flat[..i], x, j);
        groups := groups[j := Group(groups[j].name, groups[j].rows + [RowOf(x)])];
      }
      i := i + 1;
    }
    assert flat[..|flat|] == flat;
  }

  lemma KeysOfSnoc(p: seq<Ingredient>, x: Ingredient)
    ensures KeysOf(p + [x]) == KeysOf(p) + [x.group]
  {
  }

  lemma RowsInSnoc(p: seq<Ingredient>, x: Ingredient, k: Option<string>)
    ensures RowsIn(p + [x], k) == RowsIn(p, k) + (if x.group == k then [RowOf(x)] else [])
  {
    assert (p + [x])[..|p + [x]| - 1] == p;
  }

  /** Seeing an ingredient of an already known group extends that group only. */
  lemma GroupingStepExisting(p: seq<Ingredient>, x: Ingredient, j: int)
    requires 0 <= j < |Grouping(p)| && Grouping(p)[j].name == x.group
    ensures Grouping(p + [x]) == Grouping(p)[j := Group(x.group, Grouping(p)[j].rows + [RowOf(x)])]
  {
    var ks := Dedup(KeysOf(p));
    KeysOfSnoc(p, x);
    assert KeysOf(p + [x])[..|KeysOf(p + [x])| - 1] == KeysOf(p);
    assert x.group in ks;
    assert Dedup(KeysOf(p + [x])) == ks;
    var a := Grouping(p + [x]);
    var b := Grouping(p)[j := Group(x.group, Grouping(p)[j].rows + [RowOf(x)])];
    forall i | 0 <= i < |ks| ensures a[i] == b[i] {
      RowsInSnoc(p, x, ks[i]);
      if i != j {
        assert ks[i] != ks[j];
      }
    }
  }

  /** Seeing an ingredient of a new group appends that group with the one row. */
  lemma GroupingStepNew(p: seq<Ingredient>, x: Ingredient)
    requires forall i :: 0 <= i < |Grouping(p)| ==> Grouping(p)[i].name != x.group
    ensures Grouping(p + [x]) == Grouping(p) + [Group(x.group, [RowOf(x)])]
  {
    var ks := Dedup(KeysOf(p));
    KeysOfSnoc(p, x);
    assert KeysOf(p + [x])[..|KeysOf(p + [x])| - 1] == KeysOf(p);
    assert x.group !in ks by {
      forall i | 0 <= i < |ks| ensures ks[i] != x.group {
        assert Grouping(p)[i].name == ks[i];
      }
    }
    assert Dedup(KeysOf(p + [x])) == ks + [x.group];
    var a := Grouping(p + [x]);
    var b := Grouping(p) + [Group(x.group, [RowOf(x)])];
    forall i | 0 <= i < |ks| + 1 ensures a[i] == b[i] {
      if i < |ks| {
        RowsInSnoc(p, x, ks[i]);
      } else {
        RowsInSnoc(p, x, x.group);
        assert RowsIn(p, x.group) == [] by {
          forall m | 0 <= m < |p| ensures p[m].group != x.group {
            assert KeysOf(p)[m] in Elements(KeysOf(p));
          }
          InGroupOfAbsent(p, x.group);
        }
      }
    }
  }

  /** The groups appear in the order in which their names are first seen, each once. */
  lemma GroupingNames(flat: seq<Ingredient>)
    ensures Names(Grouping(flat)) == Dedup(KeysOf(flat))
    ensures NoDuplicates(Names(Grouping(flat)))
    ensures forall x :: x in flat ==> x.group in Names(Grouping(flat))
  {
    var ns := Names(Grouping(flat));
    assert ns == Dedup(KeysOf(flat));
    forall x | x in flat ensures x.group in ns {
      var m :| 0 <= m < |flat| && flat[m] == x;
      assert KeysOf(flat)[m] == x.group;
      assert x.group in Elements(KeysOf(flat));
    }
  }

  /** Tagging the rows of a group with its name gives back the group's ingredients. */
  lemma TagRowsIn(flat: seq<Ingredient>, k: Option<string>)
    ensures Tag(RowsIn(flat, k), k) == InGroup(flat, k)
  {
  }

  /** Flattening the grouping is the partition of the list by group, in first-seen order. */
  lemma {:induction false} FlattenGroupsFor(flat: seq<Ingredient>, ks: seq<Option<string>>)
    ensures Flatten(GroupsFor(flat, ks)) == Partition(flat, ks)
  {
    if ks != [] {
      assert GroupsFor(flat, ks)[1..] == GroupsFor(flat, ks[1..]);
      FlattenGroupsFor(flat, ks[1..]);
      TagRowsIn(flat, ks[0]);
    }
  }

  lemma NoDuplicatesTail<T>(ks: seq<T>)
    requires ks != [] && NoDuplicates(ks)
    ensures NoDuplicates(ks[1..]) && ks[0] !in ks[1..]
  {
    forall i, j | 0 <= i < j < |ks[1..]| ensures ks[1..][i] != ks[1..][j] {
      assert ks[1..][i] == ks[i + 1] && ks[1..][j] == ks[j + 1];
    }
  }

  /** Each ingredient whose group is listed in `ks` occurs in the partition as often as in the list. */
  lemma {:induction false} PartitionCounts(flat: seq<Ingredient>, ks: seq<Option<string>>)
    requires NoDuplicates(ks)
    ensures forall y :: multiset(Partition(flat, ks))[y] == if y.group in ks then multiset(flat)[y] else 0
  {
    if ks != [] {
      NoDuplicatesTail(ks);
      PartitionCounts(flat, ks[1..]);
      InGroupCounts(flat, ks[0]);
    }
  }

  lemma {:induction false} InGroupConcat(a: seq<Ingredient>, b: seq<Ingredient>, k: Option<string>)
    ensures InGroup(a + b, k) == InGroup(a, k) + InGroup(b, k)
    decreases |b|
  {
    if b != [] {
      var b' := b[..|b| - 1];
      assert (a + b)[..|a + b| - 1] == a + b';
      InGroupConcat(a, b', k);
    } else {
      assert a + b == a;
    }
  }

  lemma {:induction false} InGroupOfInGroup(flat: seq<Ingredient>, k: Option<string>, k': Option<string>)
    ensures InGroup(InGroup(flat, k), k') == if k == k' then InGroup(flat, k) else []
  {
    if flat != [] {
      var p := flat[..|flat| - 1];
      var x := flat[|flat| - 1];
      InGroupOfInGroup(p, k, k');
      if x.group == k {
        assert InGroup(flat, k) == InGroup(p, k) + [x];
        assert InGroup(flat, k)[..|InGroup(flat, k)| - 1] == InGroup(p, k);
      } else {
        assert InGroup(flat, k) == InGroup(p, k) + [];
        assert InGroup(flat, k) == InGroup(p, k);
      }
    }
  }

  /** Within each listed group the partition keeps the list's order. */
  lemma {:induction false} PartitionStable(flat: seq<Ingredient>, ks: seq<Option<string>>, k: Option<string>)
    requires NoDuplicates(ks)
    ensures InGroup(Partition(flat, ks), k) == if k in ks then InGroup(flat, k) else []
  {
    if ks != [] {
      NoDuplicatesTail(ks);
      PartitionStable(flat, ks[1..], k);
      InGroupConcat(InGroup(flat, ks[0]), Partition(flat, ks[1..]), k);
      InGroupOfInGroup(flat, ks[0], k);
    }
  }

  /** Partitioning by a list of distinct keys that covers every group permutes the list. */
  lemma PartitionPermutes(flat: seq<Ingredient>, ks: seq<Option<string>>)
    requires NoDuplicates(ks)
    requires forall i :: 0 <= i < |flat| ==> flat[i].group in ks
    ensures multiset(Partition(flat, ks)) == multiset(flat)
  {
    PartitionCounts(flat, ks);
    forall y ensures multiset(Partition(flat, ks))[y] == multiset(flat)[y] {
      assert y.group !in ks ==> y !in flat;
    }
    assert multiset(Partition(flat, ks)) == multiset(flat);
  }

  /** Partitioning by a list of distinct keys that covers every group keeps each group's order. */
  lemma PartitionKeepsGroups(flat: seq<Ingredient>, ks: seq<Option<string>>)
    requires NoDuplicates(ks)
    requires forall i :: 0 <= i < |flat| ==> flat[i].group in ks
    ensures forall k :: InGroup(Partition(flat, ks), k) == InGroup(flat, k)
  {
    forall k ensures InGroup(Partition(flat, ks), k) == InGroup(flat, k) {
      PartitionStable(flat, ks, k);
      if k !in ks {
        InGroupOfAbsent(flat, k);
      }
    }
  }

  /**
   * Grouping and flattening back gives a permutation of the list in which
   * every group's ingredients keep their relative order; the number of
   * ingredients is unchanged.
   */
  lemma FlattenGrouping(flat: seq<Ingredient>)
    ensures multiset(Flatten(Grouping(flat))) == multiset(flat)
    ensures |Flatten(Grouping(flat))| == |flat|
    ensures forall k :: InGroup(Flatten(Grouping(flat)), k) == InGroup(flat, k)
  {
    var ks := Dedup(KeysOf(flat));
    FlattenGroupsFor(flat, ks);
    GroupingNames(flat);
    forall i | 0 <= i < |flat| ensures flat[i].group in ks {
      assert flat[i] in flat;
    }
    PartitionPermutes(flat, ks);
    PartitionKeepsGroups(flat, ks);
    assert |multiset(Flatten(Grouping(flat)))| == |multiset(flat)|;
  }

  /** `filter(r => r.name.trim() !== "")`: the rows whose names are not blank, in order. */
  function NamedRows(rows: seq<Row>): (r: seq<Row>)
    ensures |r| <= |rows|
  {
    if rows == [] then []
    else (if !Text.IsBlank(rows[0].name) then [rows[0]] else []) + NamedRows(rows[1..])
  }

  lemma {:induction false} NamedRowsSnoc(p: seq<Row>, row: Row)
    ensures NamedRows(p + [row]) == NamedRows(p) + (if !Text.IsBlank(row.name) then [row] else [])
  {
    if p != [] {
      assert (p + [row])[0] == p[0];
      assert (p + [row])[1..] == p[1..] + [row];
      NamedRowsSnoc(p[1..], row);
    }
  }

  /** Each row with its name trimmed. */
  function TrimNames(rows: seq<Row>): (r: seq<Row>)
    ensures |r| == |rows|
  {
    seq(|rows|, i requires 0 <= i < |rows| => Row(Text.Trim(rows[i].name), rows[i].amount, rows[i].unit))
  }

  lemma TrimTagSnoc(ns: seq<Row>, row: Row, k: Option<string>)
    ensures Tag(TrimNames(ns + [row]), k) == Tag(TrimNames(ns), k) + [Ingredient(Text.Trim(row.name), row.amount, row.unit, k)]
  {
    assert TrimNames(ns + [row]) == TrimNames(ns) + [Row(Text.Trim(row.name), row.amount, row.unit)];
    TagSnoc(TrimNames(ns), Row(Text.Trim(row.name), row.amount, row.unit), k);
  }

  /**
   * The rows the editors submit: every row of every group with its name
   * trimmed and `amount` passed through `parseFloat` (the identity on a
   * number, NaN on a cleared field), tagged with the group's name; rows whose
   * trimmed name is empty are dropped. This is the group's named rows, in
   * order, with their names trimmed and tagged with `k`.
   */
  function SubmitRows(rows: seq<Row>, k: Option<string>): (r: seq<Ingredient>)
    ensures forall i :: 0 <= i < |r| ==> r[i].name != [] && Text.IsTrimmed(r[i].name) && r[i].group == k
    ensures |r| <= |rows|
    ensures r == Tag(TrimNames(NamedRows(rows)), k)
  {
    if rows == [] then []
    else
      var row := rows[|rows| - 1];
      var name := Text.Trim(row.name);
      var init := SubmitRows(rows[..|rows| - 1], k);
      SubmitRowsClosedSnoc(rows, k, init);
      if name == [] then init
      else
        CleanSnoc(init, Ingredient(name, row.amount, row.unit, k), k);
        init + [Ingredient(name, row.amount, row.unit, k)]
  }

  lemma SubmitRowsClosedSnoc(rows: seq<Row>, k: Option<string>, init: seq<Ingredient>)
    requires rows != [] && init == Tag(TrimNames(NamedRows(rows[..|rows| - 1])), k)
    ensures var row := rows[|rows| - 1];
      if Text.IsBlank(row.name) then init == Tag(TrimNames(NamedRows(rows)), k)
      else init + [Ingredient(Text.Trim(row.name), row.amount, row.unit, k)] == Tag(TrimNames(NamedRows(rows)), k)
  {
    var p, row := rows[..|rows| - 1], rows[|rows| - 1];
    LastSplit(rows);
    NamedRowsSnoc(p, row);
    if !Text.IsBlank(row.name) {
      TrimTagSnoc(NamedRows(p), row, k);
    }
  }

  lemma CleanSnoc(r: seq<Ingredient>, x: Ingredient, k: Option<string>)
    requires forall i :: 0 <= i < |r| ==> r[i].name != [] && Text.IsTrimmed(r[i].name) && r[i].group == k
    requires x.name != [] && Text.IsTrimmed(x.name) && x.group == k
    ensures forall i :: 0 <= i < |r| + 1 ==> (r + [x])[i].name != [] && Text.IsTrimmed((r + [x])[i].name) && (r + [x])[i].group == k
  {
    forall i | 0 <= i < |r| + 1
      ensures (r + [x])[i].name != [] && Text.IsTrimmed((r + [x])[i].name) && (r + [x])[i].group == k
    {
      if i < |r| {
        assert (r + [x])[i] == r[i];
      }
    }
  }

  /** Each group with only its named rows, their names trimmed. */
  function Cleaned(gs: seq<Group>): (r: seq<Group>)
    ensures |r| == |gs|
  {
    seq(|gs|, i requires 0 <= i < |gs| => Group(gs[i].name, TrimNames(NamedRows(gs[i].rows))))
  }

  /**
   * `groups.map(...).filter(...).flat()` in the submit handlers: the
   * flattening of the groups with each group's named rows kept, in order,
   * their names trimmed, each tagged with its group's name.
   */
  function SubmitIngredients(gs: seq<Group>): (r: seq<Ingredient>)
    ensures forall i :: 0 <= i < |r| ==> r[i].name != [] && Text.IsTrimmed(r[i].name)
    ensures r == Flatten(Cleaned(gs))
  {
    if gs == [] then []
    else
      assert Cleaned(gs)[1..] == Cleaned(gs[1..]);
      SubmitRows(gs[0].rows, gs[0].name) + SubmitIngredients(gs[1..])
  }

  /** A blank row is dropped, whatever its amount and unit. */
  lemma SubmitRowsDropsBlank(rows: seq<Row>, k: Option<string>, row: Row)
    requires Text.IsBlank(row.name)
    ensures SubmitRows(rows + [row], k) == SubmitRows(rows, k)
  {
    assert (rows + [row])[..|rows|] == rows;
  }

  lemma SubmitRowsSnoc(p: seq<Row>, row: Row, k: Option<string>)
    ensures var name := Text.Trim(row.name);
      SubmitRows(p + [row], k) == SubmitRows(p, k) + (if name != [] then [Ingredient(name, row.amount, row.unit, k)] else [])
  {
    assert (p + [row])[..|p|] == p;
  }

  lemma TagSnoc(p: seq<Row>, row: Row, k: Option<string>)
    ensures Tag(p + [row], k) == Tag(p, k) + [Ingredient(row.name, row.amount, row.unit, k)]
  {
  }

  /** Rows whose names are already trimmed and non-empty are submitted as they are, tagged. */
  lemma {:induction false} SubmitRowsOfClean(rows: seq<Row>, k: Option<string>)
    requires forall i :: 0 <= i < |rows| ==> rows[i].name != [] && Text.IsTrimmed(rows[i].name)
    ensures SubmitRows(rows, k) == Tag(rows, k)
  {
    if rows != [] {
      var p := rows[..|rows| - 1];
      var row := rows[|rows| - 1];
      var x := Ingredient(row.name, row.amount, row.unit, k);
      SubmitRowsOfClean(p, k);
      Text.TrimOfTrimmed(row.name);
      LastSplit(rows);
      SubmitRowsSnoc(p, row, k);
      TagSnoc(p, row, k);
    }
  }

  /** Groups of clean rows are submitted as their flattening. */
  lemma {:induction false} SubmitIngredientsOfClean(gs: seq<Group>)
    requires forall g, i :: g in gs && 0 <= i < |g.rows| ==> g.rows[i].name != [] && Text.IsTrimmed(g.rows[i].name)
    ensures SubmitIngredients(gs) == Flatten(gs)
  {
    if gs != [] {
      SubmitRowsOfClean(gs[0].rows, gs[0].name);
      SubmitIngredientsOfClean(gs[1..]);
    }
  }

  /**
   * Loading a recipe into the editor and submitting it unchanged sends back
   * the same ingredients, stably partitioned by group in first-seen order,
   * when every stored name is trimmed and non-empty.
   */
  lemma SubmitLoadedIngredients(flat: seq<Ingredient>)
    requires forall x :: x in flat ==> x.name != [] && Text.IsTrimmed(x.name)
    ensures SubmitIngredients(Grouping(flat)) == Flatten(Grouping(flat))
    ensures multiset(SubmitIngredients(Grouping(flat))) == multiset(flat)
    ensures forall k :: InGroup(SubmitIngredients(Grouping(flat)), k) == InGroup(flat, k)
  {
    var gs := Grouping(flat);
    forall g, i | g in gs && 0 <= i < |g.rows| ensures g.rows[i].name != [] && Text.IsTrimmed(g.rows[i].name) {
      var m :| 0 <= m < |gs| && gs[m] == g;
      var xs := InGroup(flat, g.name);
      InGroupSubset(flat, g.name);
      assert g.rows[i] == RowOf(xs[i]);
      assert xs[i] in flat;
    }
    SubmitIngredientsOfClean(gs);
    FlattenGrouping(flat);
  }
}
