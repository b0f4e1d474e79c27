/**
 * The category filters of the start page: the list of active filters kept
 * by the page (frontend/src/Main.jsx) and the filter chips that switch one
 * label on and off (frontend/src/Filter.jsx).
 */
module Filters {
  import opened Base

  /** The filter list the start page begins with. */
  const InitialFilters: seq<string> := []

  /** The search text the start page begins with. */
  const InitialSearch: string := ""

  /**
   * `setFilter(label, on)`: switching a label on appends it (a label already
   * present is appended again); switching it off removes every occurrence
   * and keeps the other labels in order.
   */
  function SetFilter(filters: seq<string>, name: string, on: bool): (r: seq<string>)
    ensures on ==> |r| == |filters| + 1 && r[..|filters|] == filters && r[|filters|] == name
    ensures !on ==> name !in r && multiset(r) == multiset(filters)[name := 0]
  {
    if on then filters + [name]
    else
      WithoutMultiset(filters, name);
      Without(filters, name)
  }

  /** Switching a label never changes how often another label occurs. */
  lemma SetFilterKeepsOthers(filters: seq<string>, name: string, on: bool, other: string)
    requires other != name
    ensures Count(SetFilter(filters, name, on), other) == Count(filters, other)
  {
  }

  /** Switching a label off keeps the other labels in their order. */
  lemma SetFilterOffKeepsOrder(before: seq<string>, after: seq<string>, name: string)
    requires name !in before && name !in after
    ensures SetFilter(before + [name] + after, name, false) == before + after
  {
    var front := before + [name];
    WithoutConcat(front, after, name);
    WithoutConcat(before, [name], name);
    WithoutOfAbsent(before, name);
    WithoutOfAbsent(after, name);
    WithoutOfItself(name);
    assert before + [] == before;
    assert Without(front, name) == before;
  }

  lemma WithoutOfItself(name: string)
    ensures Without([name], name) == []
  {
    assert [name][1..] == [];
  }

  /** On, then off again: the list is back where it was, for a label that was not in it. */
  lemma OnThenOff(filters: seq<string>, name: string)
    requires name !in filters
    ensures SetFilter(SetFilter(filters, name, true), name, false) == filters
  {
    WithoutConcat(filters, [name], name);
    WithoutOfAbsent(filters, name);
  }

  /** A filter chip: its label and whether it is switched on. */
  class FilterChip {
    const name: string
    var active: bool

    /** A chip starts switched off. */
    constructor (name: string)
      ensures this.name == name && !active
    {
      this.name := name;
      active := false;
    }

    /**
     * `handleClick`: the chip flips and reports its new state to the page,
     * which switches the label in its filter list. While the list holds the
     * label once when the chip is on and not at all when it is off, a click
     * keeps it that way.
     */
    method Click(filters: seq<string>) returns (newFilters: seq<string>)
      modifies this
      ensures active == !old(active)
      ensures newFilters == SetFilter(filters, name, active)
      ensures Count(filters, name) == (if old(active) then 1 else 0) ==>
        Count(newFilters, name) == (if active then 1 else 0)
    {
      active := !active;
      newFilters := SetFilter(filters, name, active);
    }
  }

  /**
   * Two clicks on a chip starting from the page's filter list restore both
   * the chip and the list; after the first, the list holds the label exactly
   * when the chip is on.
   */
  method TwoClicks(chip: FilterChip, filters: seq<string>) returns (afterOne: seq<string>, afterTwo: seq<string>)
    requires !chip.active && chip.name !in filters
    modifies chip
    ensures chip.active == old(chip.active)
    ensures chip.name in afterOne
    ensures afterTwo == filters
  {
    afterOne := chip.Click(filters);
    afterTwo := chip.Click(afterOne);
    OnThenOff(filters, chip.name);
  }
}
