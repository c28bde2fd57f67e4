/** The monthly table report (src/analyzer.py): locates the table header
    under the export's metadata lines, reads the `Anzahl` (quantity) and
    `Total` (revenue) columns in German number format, drops rows without
    both numbers or without a positive total, and ranks the five best
    sellers with their share of the revenue. */
module TableReport {
  import opened Wrappers
  import opened Text
  import opened Numbers
  import opened Extraction
  import opened Ranking
  import opened Header

  /** The column names the report reads. */
  const QuantityColumn: string := "Anzahl"
  const TotalColumn: string := "Total"
  const GroupColumn: string := "Warengruppe"

  /** How many best sellers the report prints. */
  const TopCount: nat := 5

  /** One surviving table row: its label and its two numbers. */
  datatype Sale = Sale(name: string, quantity: real, total: real)

  function TotalOf(s: Sale): real { s.total }

  function QuantityOf(s: Sale): real { s.quantity }

  function NameOf(s: Sale): string { s.name }

  /** The header row's column names, each stripped of surrounding blanks. */
  function Columns(header: string): (cols: seq<string>)
    ensures |cols| == |Split(header, ';')| >= 1
  {
    var fields := Split(header, ';');
    seq(|fields|, k requires 0 <= k < |fields| => Strip(fields[k]))
  }

  /** The position of the first column called exactly `name`, if any. */
  function ColumnIndex(cols: seq<string>, name: string): (r: Option<nat>)
    ensures r.None? <==> name !in cols
    ensures r.Some? ==> r.value < |cols| && cols[r.value] == name
                        && forall j :: 0 <= j < r.value ==> cols[j] != name
  {
    if |cols| == 0 then None
    else if cols[0] == name then Some(0)
    else match ColumnIndex(cols[1..], name)
      case None => None
      case Some(i) => Some(i + 1)
  }

  /** Where the three columns sit in a data row. */
  datatype Layout = Layout(quantity: nat, total: nat, name: nat)

  /** `Anzahl` and `Total` must both exist (otherwise the missing-data filter
      fails on an unknown column); the label column is `Warengruppe` when
      present and the first column otherwise. */
  function FindLayout(cols: seq<string>): (r: Option<Layout>)
    ensures r.Some? <==> QuantityColumn in cols && TotalColumn in cols
    ensures r.Some? ==> && r.value.quantity < |cols| && cols[r.value.quantity] == QuantityColumn
                        && r.value.total < |cols| && cols[r.value.total] == TotalColumn
                        && (GroupColumn in cols ==> r.value.name < |cols| && cols[r.value.name] == GroupColumn)
                        && (GroupColumn !in cols ==> r.value.name == 0)
  {
    match ColumnIndex(cols, QuantityColumn)
    case None => None
    case Some(q) =>
      match ColumnIndex(cols, TotalColumn)
      case None => None
      case Some(t) =>
        var n := match ColumnIndex(cols, GroupColumn) case Some(g) => g case None => 0;
        Some(Layout(q, t, n))
  }

  /** A cell's number: German format normalised, then parsed as
      `pd.to_numeric` does, ignoring surrounding blanks; text that is not a
      number is missing, never zero. */
  function Number(cell: string): (r: Option<real>)
    ensures cell == "" ==> r.None?
    ensures r.Some? ==> !AllSpace(cell)
  {
    NumberNeedsText(cell);
    ParseDecimal(Strip(NormalizeGerman(cell)))
  }

  lemma NumberNeedsText(cell: string)
    ensures AllSpace(cell) ==> Strip(NormalizeGerman(cell)) == ""
  {
    if AllSpace(cell) {
      NoSeparatorInSpace(cell);
      NormalizeGermanPlain(cell);
      StripSpec(cell);
    }
  }

  /** Blanks around a cell do not matter: a padded cell reads as the bare
      one, so " 4,50 " is 4.5 like "4,50". */
  lemma PaddedCellRead(pre: string, cell: string, post: string)
    requires AllSpace(pre) && AllSpace(post)
    ensures Number(pre + cell + post) == Number(cell)
  {
    NoSeparatorInSpace(pre);
    NoSeparatorInSpace(post);
    NormalizeGermanPlain(pre);
    NormalizeGermanPlain(post);
    NormalizeGermanByChar(pre + cell, post);
    NormalizeGermanByChar(pre, cell);
    StripPadded(pre, NormalizeGerman(cell), post);
  }

  /** A German amount "d1.d2,d3" in a cell reads as the integer d1d2 plus
      d3 / 10^|d3|: the normaliser turns it into "d1d2.d3", which has no
      blanks to strip. */
  lemma {:induction false} CellGermanAmount(d1: string, d2: string, d3: string)
    requires AllDigits(d1) && AllDigits(d2) && AllDigits(d3)
    requires |d1| + |d2| + |d3| > 0
    ensures AllDigits(d1 + d2)
    ensures Number(d1 + "." + d2 + "," + d3) == Some(DecimalValue(DigitsValue(d1 + d2), DigitsValue(d3), |d3|))
  {
    GermanAmount(d1, d2, d3);
    NumeralUnpadded(d1 + d2 + "." + d3);
  }

  /** A cell "d1,d3" reads as d1 plus d3 / 10^|d3|. */
  lemma {:induction false} CellGermanComma(d1: string, d3: string)
    requires AllDigits(d1) && AllDigits(d3) && |d1| + |d3| > 0
    ensures Number(d1 + "," + d3) == Some(DecimalValue(DigitsValue(d1), DigitsValue(d3), |d3|))
  {
    GermanComma(d1, d3);
    NumeralUnpadded(d1 + "." + d3);
  }

  /** A cell "d1.d2" reads as the integer d1d2: the dot is taken for a
      thousands separator. */
  lemma {:induction false} CellGermanGrouped(d1: string, d2: string)
    requires AllDigits(d1) && AllDigits(d2) && |d1| + |d2| > 0
    ensures Number(d1 + "." + d2) == Some(DigitsValue(d1 + d2) as real)
  {
    GermanGrouped(d1, d2);
    NumeralUnpadded(d1 + d2);
  }

  /** The cell "1.234,56" reads as 1234.56. The literal arrives through a
      parameter because, written into the ensures, it makes the verifier
      unfold the parsers on it and run out of resources. */
  lemma CellThousands(cell: string)
    requires cell == "1.234,56"
    ensures Number(cell) == Some(1234.56)
  {
    GermanThousands(cell);
    ThousandsGroups(cell, "1", "234", "56");
    NormalizeGermanGroups("1", "234", "56");
    NumeralUnpadded("1234" + "." + "56");
  }

  /** Text made of digits and points has no blanks to strip. */
  lemma NumeralUnpadded(s: string)
    requires forall i :: 0 <= i < |s| ==> IsDigit(s[i]) || s[i] == '.'
    ensures Strip(s) == s
  {
    StripUnpadded(s);
  }

  lemma NoSeparatorInSpace(s: string)
    requires AllSpace(s)
    ensures '.' !in s && ',' !in s
  {
    assert !IsSpace('.') && !IsSpace(',');
  }

  /** The cell in column `i`, or missing when the row is shorter. */
  function CellNumber(fields: seq<string>, i: nat): Option<real>
  {
    if i < |fields| then Number(fields[i]) else None
  }

  /** The printed label: an empty or absent cell is NaN, shown as "nan". */
  function CellLabel(fields: seq<string>, i: nat): string
  {
    if i < |fields| && fields[i] != "" then fields[i] else "nan"
  }

  /** One data line through the missing-data filter and the `Total > 0`
      filter. */
  function ExtractRow(layout: Layout, line: string): (r: Result<Sale, Reject>)
    ensures r.Ok? ==> r.value.total > 0.0 && r.value.name != ""
    ensures r.Ok? ==> layout.total < |Split(line, ';')| && Number(Split(line, ';')[layout.total]) == Some(r.value.total)
  {
    var fields := Split(line, ';');
    match CellNumber(fields, layout.quantity)
    case None => Err(BadQuantity)
    case Some(q) =>
      match CellNumber(fields, layout.total)
      case None => Err(BadRevenue)
      case Some(t) =>
        if t <= 0.0 then Err(NonPositive)
        else Ok(Sale(CellLabel(fields, layout.name), q, t))
  }

  /** The rows that survive the cleaning, in table order. */
  function Sales(layout: Layout, data: seq<string>): seq<Sale>
  {
    Accepted(data, line => ExtractRow(layout, line))
  }

  /** How a run ends. */
  datatype Outcome =
    | HeaderNotFound
      /** `Anzahl` or `Total` is not a column; the script ends in its
          top-level error handler. */
    | MissingColumn
    | Table(itemCount: nat, totalQuantity: real, totalRevenue: real, top: seq<Ranked>)

  /** The whole script on the lines of one file. */
  function Analyze(lines: seq<string>): (r: Outcome)
    ensures r.Table? ==> |r.top| == Min(TopCount, r.itemCount) && r.itemCount < |lines|
    ensures r.Table? ==> r.totalRevenue >= 0.0 && (r.itemCount > 0 <==> r.totalRevenue > 0.0)
  {
    var h := FindHeader(lines);
    if h < 0 then HeaderNotFound
    else
      match FindLayout(Columns(lines[h]))
      case None => MissingColumn
      case Some(layout) =>
        var data := lines[h + 1..];
        SalesPositive(layout, data);
        SumPositive(Sales(layout, data), TotalOf);
        AcceptedMembers(data, line => ExtractRow(layout, line), Sale("", 0.0, 0.0));
        Summarize(Sales(layout, data))
  }

  /** The printout after cleaning: row count, both column sums, and the top
      five with their shares. Every total is positive, so the sum is zero
      only for an empty table, which lists no rows and divides by nothing. */
  function Summarize(sales: seq<Sale>): Outcome
    requires AllPositive(sales, TotalOf)
  {
    SumPositive(sales, TotalOf);
    Table(|sales|, Sum(sales, QuantityOf), Sum(sales, TotalOf),
          Rank(TopN(sales, TotalOf, TopCount), NameOf, TotalOf, Sum(sales, TotalOf)))
  }

  /** A row is kept exactly when both numbers are present and the total is
      positive; the sale carries the two numbers and the row's label. */
  lemma ExtractRowSpec(layout: Layout, line: string)
    ensures var fields := Split(line, ';');
            ExtractRow(layout, line).Ok? <==>
              && CellNumber(fields, layout.quantity).Some?
              && CellNumber(fields, layout.total).Some?
              && CellNumber(fields, layout.total).value > 0.0
    ensures var fields := Split(line, ';');
            ExtractRow(layout, line).Ok? ==>
              ExtractRow(layout, line).value
                == Sale(CellLabel(fields, layout.name),
                        CellNumber(fields, layout.quantity).value,
                        CellNumber(fields, layout.total).value)
  {
  }

  /** Every surviving row has a positive total. */
  lemma {:induction false} SalesPositive(layout: Layout, data: seq<string>)
    ensures AllPositive(Sales(layout, data), TotalOf)
    decreases |data|
  {
    if |data| > 0 {
      SalesPositive(layout, data[..|data| - 1]);
    }
  }

  /** A cell that does not read as a number removes its row, and only that
      row: the rest of the table is cleaned as if it were not there. */
  lemma MissingDropsRow(layout: Layout, before: seq<string>, line: string, after: seq<string>)
    requires CellNumber(Split(line, ';'), layout.quantity).None? || CellNumber(Split(line, ';'), layout.total).None?
    ensures ExtractRow(layout, line).Err?
    ensures Sales(layout, before + [line] + after) == Sales(layout, before + after)
  {
    RejectedRowSkipped(before, line, after, l => ExtractRow(layout, l));
  }

  /** There is no table exactly when no line carries all three markers. */
  lemma NoHeaderNoTable(lines: seq<string>)
    ensures Analyze(lines) == HeaderNotFound <==> forall j :: 0 <= j < |lines| ==> !IsHeader(lines[j])
  {
  }

  /** The missing-column outcome happens exactly when the header has no
      `Anzahl` or no `Total` column. */
  lemma MissingColumnSpec(lines: seq<string>)
    requires FindHeader(lines) >= 0
    ensures var cols := Columns(lines[FindHeader(lines)]);
            Analyze(lines) == MissingColumn <==> QuantityColumn !in cols || TotalColumn !in cols
  {
  }

  /** The printed table: the item count and both totals are taken over the
      surviving rows, the top list has min(5, n) lines, each share is
      total / sum * 100, lies in (0, 100], and the listed shares add up to
      at most 100. */
  lemma SummaryShares(sales: seq<Sale>)
    requires AllPositive(sales, TotalOf)
    ensures var out := Summarize(sales);
            && out.itemCount == |sales|
            && out.totalQuantity == Sum(sales, QuantityOf)
            && out.totalRevenue == Sum(sales, TotalOf)
            && |out.top| == Min(TopCount, |sales|)
            && (forall k :: 0 <= k < |out.top| ==>
                  && 0.0 < out.top[k].share <= 100.0
                  && out.top[k].share == Share(out.top[k].revenue, out.totalRevenue))
            && SumShares(out.top) <= 100.0
  {
    SumPositive(sales, TotalOf);
    var out := Summarize(sales);
    assert out.top == Rank(TopN(sales, TotalOf, TopCount), NameOf, TotalOf, Sum(sales, TotalOf));
    if |sales| > 0 {
      TopSharesBounded(sales, TotalOf, NameOf, TopCount);
    }
  }

  /** `top` prints the rows of `chosen`, one line each, in order. */
  ghost predicate Shows(top: seq<Ranked>, chosen: seq<Sale>)
  {
    && |chosen| == |top|
    && forall k :: 0 <= k < |chosen| ==> top[k].name == chosen[k].name && top[k].revenue == chosen[k].total
  }

  /** `chosen` is drawn (with multiplicity) from `sales`, non-increasing by
      total, and no row left out beats a chosen one. */
  ghost predicate BestOf(sales: seq<Sale>, chosen: seq<Sale>)
  {
    && multiset(chosen) <= multiset(sales)
    && (forall i, j :: 0 <= i < j < |chosen| ==> chosen[i].total >= chosen[j].total)
    && (forall k, y :: 0 <= k < |chosen| && y in multiset(sales) - multiset(chosen) ==> y.total <= chosen[k].total)
  }

  /** The top list shows best rows of the table. No order is claimed among
      equal totals. */
  lemma SummarySelects(sales: seq<Sale>)
    requires AllPositive(sales, TotalOf)
    ensures exists chosen :: Shows(Summarize(sales).top, chosen) && BestOf(sales, chosen)
  {
    SumPositive(sales, TotalOf);
    var chosen := TopN(sales, TotalOf, TopCount);
    var top := Summarize(sales).top;
    assert top == Rank(chosen, NameOf, TotalOf, Sum(sales, TotalOf));
    assert Shows(top, chosen);
    TopFiveBest(sales);
  }

  lemma TopFiveBest(sales: seq<Sale>)
    ensures BestOf(sales, TopN(sales, TotalOf, TopCount))
  {
    var chosen := TopN(sales, TotalOf, TopCount);
    TopNSelects(sales, TotalOf, TopCount);
    assert PairwiseDescending(chosen, TotalOf);
  }

  /** With a header and both columns, the run prints the table of the rows
      below the header that survive cleaning. */
  lemma TableFromRowsBelowHeader(lines: seq<string>, layout: Layout)
    requires FindHeader(lines) >= 0
    requires FindLayout(Columns(lines[FindHeader(lines)])) == Some(layout)
    ensures AllPositive(Sales(layout, lines[FindHeader(lines) + 1..]), TotalOf)
    ensures Analyze(lines) == Summarize(Sales(layout, lines[FindHeader(lines) + 1..]))
  {
    SalesPositive(layout, lines[FindHeader(lines) + 1..]);
  }

  /** As written, a column that pandas reads as floats (every cell a plain
      number or empty) reaches the normaliser as `str()` of a float, so a
      count n arrives as "n.0". */
  function FloatCellText(n: nat): string
  {
    ShowNat(n) + ".0"
  }

  /** Deleting the "thousands" dot of "n.0" leaves "n0": every such count is
      read ten times too large ("5.0" becomes 50). */
  lemma FloatCountReadTenfold(n: nat)
    ensures Number(FloatCellText(n)) == Some((10 * n) as real)
    ensures n > 0 ==> Number(FloatCellText(n)) != Some(n as real)
  {
    var d := ShowNat(n);
    assert FloatCellText(n) == d + "." + "0";
    GermanGrouped(d, "0");
    DigitsValueConcat(d, "0");
    DigitsUnpadded(d + "0");
    ShowNatValue(n);
  }

  lemma DigitsUnpadded(d: string)
    requires AllDigits(d)
    ensures Strip(d) == d
  {
    assert |d| > 0 ==> IsDigit(d[0]) && IsDigit(d[|d| - 1]);
    StripUnpadded(d);
  }

  /** The cell text as exported: a count written as plain digits reads back
      as that count. */
  lemma IntegerCellReadBack(n: nat)
    ensures Number(ShowNat(n)) == Some(n as real)
  {
    var d := ShowNat(n);
    NoDotInDigits(d);
    DeleteNoDot(d);
    ReplaceNoComma(d);
    DigitsUnpadded(d);
    ParseDecimalShowInt(n);
  }
}
