/** The product report (src/analyzer2.py): reads the export row by row,
    keeps genuine menu items, accumulates quantity and revenue, and ranks
    the five best sellers with their share of the revenue. */
module ProductReport {
  import opened Wrappers
  import opened Text
  import opened Numbers
  import opened Exclusion
  import opened Extraction
  import opened Ranking

  /** One accepted sale line. */
  datatype Item = Item(name: string, revenue: real, quantity: int)

  /** How many best sellers the report prints. */
  const TopCount: nat := 5

  function Revenue(it: Item): real { it.revenue }

  function NameOf(it: Item): string { it.name }

  /** The per-row accept/reject pipeline, checked in the script's order:
      field count, blank name, exclusion keyword, `int(quantity)`,
      `float(revenue)`, ceiling. Fields 0, 2 and 3 are stripped first. */
  function Extract(row: seq<string>): (r: Result<Item, Reject>)
    ensures r.Ok? ==> |row| >= MinFields && r.value.name != "" && r.value.revenue <= Ceiling
    ensures r.Ok? ==> ParseInt(Strip(row[2])) == Some(r.value.quantity)
  {
    if |row| < MinFields then Err(TooFewFields)
    else
      var name := Strip(row[0]);
      var qty := Strip(row[2]);
      var rev := Strip(row[3]);
      if |name| == 0 then Err(EmptyName)
      else if AnyKeyEqualsOrOccurs(Lower(name), ProductKeywords) then Err(ExcludedName)
      else
        match ParseInt(qty)
        case None => Err(BadQuantity)
        case Some(q) =>
          match ParseDecimal(rev)
          case None => Err(BadRevenue)
          case Some(v) => if v > Ceiling then Err(OverCeiling) else Ok(Item(name, v, q))
  }

  /** A row is kept exactly when it has at least four fields, a non-blank
      name free of every keyword, an integer quantity and a number of at
      most 15000 as revenue (exactly 15000 is kept, anything above is
      rejected as a total); the item then carries the stripped name and the
      parsed values. */
  lemma ExtractSpec(row: seq<string>)
    ensures Extract(row).Ok? <==>
              && |row| >= MinFields
              && Strip(row[0]) != ""
              && !IsExcluded(Strip(row[0]), ProductKeywords)
              && ParseInt(Strip(row[2])).Some?
              && ParseDecimal(Strip(row[3])).Some?
              && ParseDecimal(Strip(row[3])).value <= Ceiling
    ensures Extract(row).Ok? ==>
              Extract(row).value == Item(Strip(row[0]), ParseDecimal(Strip(row[3])).value, ParseInt(Strip(row[2])).value)
    ensures |row| < MinFields ==> Extract(row) == Err(TooFewFields)
    ensures |row| >= MinFields && Strip(row[0]) == "" ==> Extract(row) == Err(EmptyName)
    ensures && |row| >= MinFields
            && Strip(row[0]) != ""
            && !IsExcluded(Strip(row[0]), ProductKeywords)
            && ParseInt(Strip(row[2])).Some?
            && ParseDecimal(Strip(row[3])).Some?
            && ParseDecimal(Strip(row[3])).value > Ceiling
            ==> Extract(row) == Err(OverCeiling)
  {
    if |row| >= MinFields {
      EqualityDisjunctSubsumed(Lower(Strip(row[0])), ProductKeywords);
    }
  }

  /** The revenue field goes through plain `float()`, not the German
      normaliser: any revenue written with a decimal comma ("4,50") makes
      the row fail. */
  lemma GermanRevenueRejected(row: seq<string>)
    requires |row| >= MinFields && ',' in Strip(row[3])
    ensures Extract(row).Err?
  {
    CommaNeverParses(Strip(row[3]));
    ExtractSpec(row);
  }

  function QuantityTotal(s: seq<Item>): int
  {
    if |s| == 0 then 0 else s[0].quantity + QuantityTotal(s[1..])
  }

  lemma {:induction false} QuantityTotalAppend(a: seq<Item>, b: seq<Item>)
    ensures QuantityTotal(a + b) == QuantityTotal(a) + QuantityTotal(b)
    decreases |a|
  {
    if |a| == 0 {
      assert a + b == b;
    } else {
      assert (a + b)[1..] == a[1..] + b;
      QuantityTotalAppend(a[1..], b);
    }
  }

  /** The reading loop: after each row, `total_revenue` and
      `total_quantity` are the sums over the items kept so far. */
  method Collect(rows: seq<seq<string>>) returns (sales: seq<Item>, totalRevenue: real, totalQuantity: int)
    ensures sales == Accepted(rows, Extract)
    ensures totalRevenue == Sum(sales, Revenue)
    ensures totalQuantity == QuantityTotal(sales)
  {
    sales, totalRevenue, totalQuantity := [], 0.0, 0;
    var i := 0;
    while i < |rows|
      invariant 0 <= i <= |rows|
      invariant sales == Accepted(rows[..i], Extract)
      invariant totalRevenue == Sum(sales, Revenue)
      invariant totalQuantity == QuantityTotal(sales)
    {
      assert rows[..i + 1][..i] == rows[..i];
      match Extract(rows[i]) {
        case Ok(item) =>
          SumAppend(sales, [item], Revenue);
          QuantityTotalAppend(sales, [item]);
          totalRevenue := totalRevenue + item.revenue;
          totalQuantity := totalQuantity + item.quantity;
          sales := sales + [item];
        case Err(_) =>
      }
      i := i + 1;
    }
    assert rows[..|rows|] == rows;
  }

  /** How a run ends. */
  datatype Report =
    | NoValidItems
      /** The items' revenues add up to zero, so the first share divides by
          zero and the script ends in its top-level error handler after
          printing the totals. */
    | ShareDivisionByZero(totalQuantity: int)
    | Summary(totalQuantity: int, totalRevenue: real, top: seq<Ranked>)

  /** Everything after the reading loop: the empty guard, the descending
      sort, the top five and their shares of `total_revenue`. */
  function Summarize(sales: seq<Item>): (r: Report)
    ensures r == NoValidItems <==> |sales| == 0
    ensures r.ShareDivisionByZero? <==> |sales| > 0 && Sum(sales, Revenue) == 0.0
    ensures r.Summary? <==> |sales| > 0 && Sum(sales, Revenue) != 0.0
    ensures r.Summary? ==> |r.top| == Min(TopCount, |sales|) && r.totalRevenue != 0.0
  {
    if |sales| == 0 then NoValidItems
    else
      var total := Sum(sales, Revenue);
      if total == 0.0 then ShareDivisionByZero(QuantityTotal(sales))
      else Summary(QuantityTotal(sales), total, Rank(TopN(sales, Revenue, TopCount), NameOf, Revenue, total))
  }

  /** The whole script on the rows of one file. */
  function Run(rows: seq<seq<string>>): (r: Report)
    ensures r.Summary? <==> |Accepted(rows, Extract)| > 0 && Sum(Accepted(rows, Extract), Revenue) != 0.0
    ensures r.ShareDivisionByZero? <==> |Accepted(rows, Extract)| > 0 && Sum(Accepted(rows, Extract), Revenue) == 0.0
    ensures r.Summary? ==> |r.top| <= TopCount && |r.top| <= |rows|
  {
    AcceptedMembers(rows, Extract, Item("", 0.0, 0));
    Summarize(Accepted(rows, Extract))
  }

  /** The empty guard: with no item kept the run reports that nothing was
      found and computes no share; otherwise it reaches the ranking. */
  lemma NoItemsGuard(rows: seq<seq<string>>)
    ensures Run(rows) == NoValidItems <==> forall i :: 0 <= i < |rows| ==> Extract(rows[i]).Err?
  {
    var sales := Accepted(rows, Extract);
    if |sales| > 0 {
      AcceptedMembers(rows, Extract, sales[0]);
    } else {
      forall i | 0 <= i < |rows| ensures Extract(rows[i]).Err? {
        if Extract(rows[i]).Ok? {
          AcceptedMembers(rows, Extract, Extract(rows[i]).value);
        }
      }
    }
  }

  /** A summary lists min(5, n) of the n kept items, best first, as the
      head of the stable descending ranking of the kept items (equal
      revenues in file order), each with revenue / total * 100 as share. */
  lemma SummaryRanksTopFive(sales: seq<Item>)
    requires Summarize(sales).Summary?
    ensures var report := Summarize(sales);
            && report.totalRevenue == Sum(sales, Revenue) != 0.0
            && report.totalQuantity == QuantityTotal(sales)
            && |report.top| == Min(TopCount, |sales|)
            && (forall k :: 0 <= k < |report.top| ==>
                  && report.top[k].name == SortDesc(sales, Revenue)[k].name
                  && report.top[k].revenue == SortDesc(sales, Revenue)[k].revenue
                  && report.top[k].share == Share(report.top[k].revenue, report.totalRevenue))
            && (forall k :: 0 < k < |report.top| ==> report.top[k - 1].revenue >= report.top[k].revenue)
  {
    var total := Sum(sales, Revenue);
    var items := TopN(sales, Revenue, TopCount);
    assert Summarize(sales).top == Rank(items, NameOf, Revenue, total);
  }

  /** As written, a file whose only kept row has revenue 0 makes the total
      zero, and the run aborts at the first share instead of printing a
      ranking. */
  lemma ZeroRevenueAborts(row: seq<string>)
    requires Extract(row).Ok? && Extract(row).value.revenue == 0.0
    ensures Run([row]) == ShareDivisionByZero(Extract(row).value.quantity)
  {
    var sales := [Extract(row).value];
    assert [row][..0] == [];
    assert Accepted([row], Extract) == sales;
    assert sales[1..] == [];
    assert Sum(sales, Revenue) == 0.0;
    assert QuantityTotal(sales) == Extract(row).value.quantity;
  }

  /** Such a row exists: `Tee;X;1;0` passes every test of the row filter.
      The literal arrives through a parameter because, written into the
      ensures, it makes the verifier unfold the parsers on it and run out of
      resources. */
  lemma ZeroRevenueRowKept(row: seq<string>)
    requires row == ["Tee", "X", "1", "0"]
    ensures Extract(row) == Ok(Item("Tee", 0.0, 1))
  {
    TeeFields();
    TeeNotExcluded();
    ExtractSpec(row);
  }

  lemma TeeFields()
    ensures Strip("Tee") == "Tee" && Strip("1") == "1" && Strip("0") == "0"
    ensures ParseInt("1") == Some(1) && ParseDecimal("0") == Some(0.0)
  {
  }

  lemma TeeNotExcluded()
    ensures !IsExcluded("Tee", ProductKeywords)
  {
    assert Lower("Tee") == "tee";
    assert !Contains("tee", "bar") by {
      assert !Contains("ee", "bar");
    }
    forall k | k in ProductKeywords ensures !Contains("tee", k) {
      if k != "bar" {
        assert |k| > 3;
      }
    }
  }

  /** The corrected row test: additionally require a positive revenue, as
      the table report does with its `Total > 0` filter. */
  function ExtractPositive(row: seq<string>): Result<Item, Reject>
  {
    match Extract(row)
    case Ok(item) => if item.revenue <= 0.0 then Err(NonPositive) else Ok(item)
    case Err(e) => Err(e)
  }

  function RunPositive(rows: seq<seq<string>>): Report
  {
    Summarize(Accepted(rows, ExtractPositive))
  }

  lemma {:induction false} AcceptedPositive(rows: seq<seq<string>>)
    ensures AllPositive(Accepted(rows, ExtractPositive), Revenue)
    decreases |rows|
  {
    if |rows| > 0 {
      AcceptedPositive(rows[..|rows| - 1]);
    }
  }

  /** With only positive revenues kept, the run never divides by zero,
      every share lies in (0, 100] and the five shares add up to at most
      100. */
  lemma RunPositiveSharesBounded(rows: seq<seq<string>>)
    ensures !RunPositive(rows).ShareDivisionByZero?
    ensures RunPositive(rows).Summary? ==>
              && (forall k :: 0 <= k < |RunPositive(rows).top| ==> 0.0 < RunPositive(rows).top[k].share <= 100.0)
              && SumShares(RunPositive(rows).top) <= 100.0
  {
    var sales := Accepted(rows, ExtractPositive);
    AcceptedPositive(rows);
    if |sales| > 0 {
      TopSharesBounded(sales, Revenue, NameOf, TopCount);
    }
  }
}
