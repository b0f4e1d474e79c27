/**
 * The auto-growth rule shared by every editable list of the editors: after
 * each render an effect looks at the end of the list and
 *   - appends one blank row when the last row is filled in,
 *   - drops the last row when the last two rows are both blank,
 *   - and otherwise leaves the list alone.
 * The effect runs again after every change it makes, so the list is driven
 * to a fixpoint that ends in exactly one blank row.
 *
 * The rule is stated once, generically: `blank` says whether a row's
 * primary field is empty and `blankRow` is the blank row the effect appends.
 * `growEmpty` says what happens to an empty list: an ingredient group with
 * no rows receives a blank row, an empty step list stays empty.
 */
module AutoGrowth {

  datatype Action = Append | DropLast | Keep

  /** The branch the effect takes on `rows`. */
  function Decide<T>(rows: seq<T>, blank: T -> bool, growEmpty: bool): Action {
    if rows == [] then (if growEmpty then Append else Keep)
    else if !blank(rows[|rows| - 1]) then Append
    else if |rows| > 1 && blank(rows[|rows| - 2]) then DropLast
    else Keep
  }

  /** The list after one branch of the effect. */
  function Apply<T>(rows: seq<T>, a: Action, blankRow: T): (r: seq<T>)
    requires a == DropLast ==> rows != []
  {
    match a
    case Append => rows + [blankRow]
    case DropLast => rows[..|rows| - 1]
    case Keep => rows
  }

  /** One run of the effect. */
  function Next<T>(rows: seq<T>, blank: T -> bool, blankRow: T, growEmpty: bool): (r: seq<T>) {
    Apply(rows, Decide(rows, blank, growEmpty), blankRow)
  }

  /** The number of blank rows at the end of `rows`. */
  function TrailingBlanks<T>(rows: seq<T>, blank: T -> bool): (k: nat)
    ensures k <= |rows|
    ensures forall i :: |rows| - k <= i < |rows| ==> blank(rows[i])
    ensures k < |rows| ==> !blank(rows[|rows| - k - 1])
  {
    if rows == [] || !blank(rows[|rows| - 1]) then 0
    else TrailingBlanks(rows[..|rows| - 1], blank) + 1
  }

  /** The list ends in exactly one blank row. */
  predicate Settled<T>(rows: seq<T>, blank: T -> bool) {
    rows != [] && blank(rows[|rows| - 1]) && (|rows| == 1 || !blank(rows[|rows| - 2]))
  }

  /** How many more runs of the effect change the list. */
  function Pending<T>(rows: seq<T>, blank: T -> bool, growEmpty: bool): nat {
    var k := TrailingBlanks(rows, blank);
    if rows == [] && !growEmpty then 0
    else if k == 0 then 1
    else k - 1
  }

  /** "Exactly one trailing blank" counted. */
  lemma SettledIsOneTrailingBlank<T>(rows: seq<T>, blank: T -> bool)
    ensures Settled(rows, blank) <==> TrailingBlanks(rows, blank) == 1
  {
    if rows != [] && blank(rows[|rows| - 1]) {
      assert TrailingBlanks(rows, blank) == TrailingBlanks(rows[..|rows| - 1], blank) + 1;
    }
  }

  /**
   * The effect leaves the list alone exactly on settled lists (and on an
   * empty list that is not grown).
   */
  lemma NextFixpoint<T>(rows: seq<T>, blank: T -> bool, blankRow: T, growEmpty: bool)
    ensures Decide(rows, blank, growEmpty) == Keep <==> Settled(rows, blank) || (rows == [] && !growEmpty)
    ensures Decide(rows, blank, growEmpty) == Keep ==> Next(rows, blank, blankRow, growEmpty) == rows
    ensures Decide(rows, blank, growEmpty) != Keep ==> |Next(rows, blank, blankRow, growEmpty)| != |rows|
  {
  }

  /**
   * One run never touches a row other than the last one, and never empties a
   * non-empty list.
   */
  lemma NextKeepsPrefix<T>(rows: seq<T>, blank: T -> bool, blankRow: T, growEmpty: bool)
    requires rows != []
    ensures var r := Next(rows, blank, blankRow, growEmpty);
      r != [] && |r| >= |rows| - 1 && r[..|rows| - 1] == rows[..|rows| - 1]
  {
  }

  /** Every run that changes the list brings it one step closer to settled. */
  lemma {:induction false} NextDecreases<T>(rows: seq<T>, blank: T -> bool, blankRow: T, growEmpty: bool)
    requires blank(blankRow)
    requires Decide(rows, blank, growEmpty) != Keep
    ensures Pending(Next(rows, blank, blankRow, growEmpty), blank, growEmpty) < Pending(rows, blank, growEmpty)
  {
    var r := Next(rows, blank, blankRow, growEmpty);
    var k := TrailingBlanks(rows, blank);
    if Decide(rows, blank, growEmpty) == Append {
      assert r[..|r| - 1] == rows;
      assert k == 0;
      assert TrailingBlanks(r, blank) == 1;
    } else {
      assert TrailingBlanks(rows, blank) == TrailingBlanks(r, blank) + 1;
      assert k >= 2 by {
        assert TrailingBlanks(r, blank) >= 1;
      }
    }
  }

  /** The list the effect drives `rows` to, by running until it stops changing it. */
  function Settle<T>(rows: seq<T>, blank: T -> bool, blankRow: T, growEmpty: bool): (r: seq<T>)
    requires blank(blankRow)
    ensures Settled(r, blank) || (r == [] && rows == [] && !growEmpty)
    decreases Pending(rows, blank, growEmpty)
  {
    if Decide(rows, blank, growEmpty) == Keep then
      NextFixpoint(rows, blank, blankRow, growEmpty);
      rows
    else
      NextDecreases(rows, blank, blankRow, growEmpty);
      Settle(Next(rows, blank, blankRow, growEmpty), blank, blankRow, growEmpty)
  }

  /** Running the effect once does not change where the list settles. */
  lemma SettleOfNext<T>(rows: seq<T>, blank: T -> bool, blankRow: T, growEmpty: bool)
    requires blank(blankRow)
    ensures Settle(Next(rows, blank, blankRow, growEmpty), blank, blankRow, growEmpty) == Settle(rows, blank, blankRow, growEmpty)
  {
    NextFixpoint(rows, blank, blankRow, growEmpty);
  }

  /** A settled list is where it settles. */
  lemma SettleOfSettled<T>(rows: seq<T>, blank: T -> bool, blankRow: T, growEmpty: bool)
    requires blank(blankRow)
    requires Settled(rows, blank)
    ensures Settle(rows, blank, blankRow, growEmpty) == rows
  {
    NextFixpoint(rows, blank, blankRow, growEmpty);
  }

  /**
   * Where the effect settles: a list with no trailing blank gains one blank
   * row, a list with `k >= 1` trailing blanks loses `k - 1` of them, and
   * nothing before the trailing blanks is ever removed or changed.
   */
  lemma {:induction false} SettleClosedForm<T>(rows: seq<T>, blank: T -> bool, blankRow: T, growEmpty: bool)
    requires blank(blankRow)
    requires rows != [] || growEmpty
    ensures var k := TrailingBlanks(rows, blank);
      Settle(rows, blank, blankRow, growEmpty) == if k == 0 then rows + [blankRow] else rows[..|rows| - k + 1]
    decreases Pending(rows, blank, growEmpty)
  {
    var k := TrailingBlanks(rows, blank);
    var a := Decide(rows, blank, growEmpty);
    var r := Next(rows, blank, blankRow, growEmpty);
    if a == Keep {
      NextFixpoint(rows, blank, blankRow, growEmpty);
      SettledIsOneTrailingBlank(rows, blank);
      assert rows[..|rows|] == rows;
    } else if a == Append {
      assert r[..|r| - 1] == rows;
      assert Decide(r, blank, growEmpty) == Keep;
    } else {
      NextDecreases(rows, blank, blankRow, growEmpty);
      assert TrailingBlanks(rows, blank) == TrailingBlanks(r, blank) + 1;
      SettleClosedForm(r, blank, blankRow, growEmpty);
      assert r[..|r| - (k - 1) + 1] == rows[..|rows| - k + 1];
    }
  }

  /** The rows before the trailing blanks survive settling, in order. */
  lemma SettleKeepsInterior<T>(rows: seq<T>, blank: T -> bool, blankRow: T, growEmpty: bool)
    requires blank(blankRow)
    requires rows != [] || growEmpty
    ensures var n := |rows| - TrailingBlanks(rows, blank);
      |Settle(rows, blank, blankRow, growEmpty)| == n + 1
      && Settle(rows, blank, blankRow, growEmpty)[..n] == rows[..n]
  {
    SettleClosedForm(rows, blank, blankRow, growEmpty);
  }

  /**
   * Removing a filled-in row from a list that ends in a blank row keeps that
   * blank row at the end: the trailing blank row has no delete button and
   * cannot be removed by removing others.
   */
  lemma RemoveFilledKeepsTrailingBlank<T>(rows: seq<T>, blank: T -> bool, i: nat)
    requires i < |rows| && !blank(rows[i])
    requires rows != [] && blank(rows[|rows| - 1])
    ensures var r := rows[..i] + rows[i + 1..];
      r != [] && r[|r| - 1] == rows[|rows| - 1]
  {
  }
}
