/** What the row-by-row reports share: the row layout constants, the
    reasons a row is dropped, and the accept loop that keeps the records
    of the rows that pass and silently skips the others. */
module Extraction {
  import opened Wrappers

  /** Rows need a name, an unused field, a quantity and a revenue. */
  const MinFields: nat := 4

  /** Amounts above this many euros are taken to be totals, not sales. */
  const Ceiling: real := 15000.0

  /** Why a row does not yield a record. */
  datatype Reject =
    | TooFewFields      // fewer than MinFields fields
    | EmptyName         // the name field is blank after stripping
    | ExcludedName      // the name contains an exclusion keyword
    | BadQuantity       // the quantity field is not an integer
    | BadRevenue        // the revenue field is not a number
    | OverCeiling       // the revenue is above Ceiling
    | NonPositive       // the revenue is zero or negative (table report, corrected product report)

  /** The records of the accepted rows, in row order: `for row in rows:`
      with `continue` on every rejection. */
  function Accepted<A, B, E>(rows: seq<A>, extract: A -> Result<B, E>): seq<B>
  {
    if |rows| == 0 then []
    else
      Accepted(rows[..|rows| - 1], extract)
        + (match extract(rows[|rows| - 1]) case Ok(b) => [b] case Err(_) => [])
  }

  lemma {:induction false} AcceptedAppend<A, B, E>(a: seq<A>, b: seq<A>, extract: A -> Result<B, E>)
    ensures Accepted(a + b, extract) == Accepted(a, extract) + Accepted(b, extract)
    decreases |b|
  {
    if |b| == 0 {
      assert a + b == a;
    } else {
      var b' := b[..|b| - 1];
      assert (a + b)[..|a + b| - 1] == a + b';
      assert (a + b)[|a + b| - 1] == b[|b| - 1];
      AcceptedAppend(a, b', extract);
    }
  }

  /** A rejected row changes nothing: the loop goes on with the next row as
      if the rejected one were not there. */
  lemma RejectedRowSkipped<A, B, E>(before: seq<A>, row: A, after: seq<A>, extract: A -> Result<B, E>)
    requires extract(row).Err?
    ensures Accepted(before + [row] + after, extract) == Accepted(before + after, extract)
  {
    AcceptedAppend(before + [row], after, extract);
    AcceptedAppend(before, [row], extract);
    AcceptedAppend(before, after, extract);
    assert [row][..0] == [];
  }

  /** Every record comes from an accepted row, and every accepted row
      contributes its record. */
  lemma {:induction false} AcceptedMembers<A, B, E>(rows: seq<A>, extract: A -> Result<B, E>, x: B)
    ensures |Accepted(rows, extract)| <= |rows|
    ensures x in Accepted(rows, extract) <==> exists i :: 0 <= i < |rows| && extract(rows[i]) == Ok(x)
    decreases |rows|
  {
    if |rows| > 0 {
      var init := rows[..|rows| - 1];
      AcceptedMembers(init, extract, x);
      assert forall i :: 0 <= i < |init| ==> init[i] == rows[i];
      if exists i :: 0 <= i < |rows| && extract(rows[i]) == Ok(x) {
        var i :| 0 <= i < |rows| && extract(rows[i]) == Ok(x);
        if i < |init| { assert extract(init[i]) == Ok(x); }
      }
    }
  }
}
