/** The chart report (src/analyzer3.py): reads the export row by row, keeps
    named items with a plausible revenue, and plots the ten best sellers as
    horizontal bars, one list of labels and one list of bar lengths. */
module ChartReport {
  import opened Wrappers
  import opened Text
  import opened Numbers
  import opened Exclusion
  import opened Extraction
  import opened Ranking
  import ProductReport

  /** One accepted sale line: the chart needs no quantity. */
  datatype Entry = Entry(name: string, revenue: real)

  /** How many bars the chart shows. */
  const ChartCount: nat := 10

  function Revenue(e: Entry): real { e.revenue }

  function NameOf(e: Entry): string { e.name }

  /** The per-row test, in the script's order: field count, blank name or
      exclusion keyword, `float(revenue)`, ceiling. The quantity column is
      never read. */
  function Extract(row: seq<string>): (r: Result<Entry, Reject>)
    ensures r.Ok? ==> |row| >= MinFields && r.value.name != "" && r.value.revenue <= Ceiling
    ensures r.Ok? ==> ParseDecimal(Strip(row[3])) == Some(r.value.revenue)
  {
    if |row| < MinFields then Err(TooFewFields)
    else
      var name := Strip(row[0]);
      if |name| == 0 then Err(EmptyName)
      else if IsExcluded(name, ChartKeywords) then Err(ExcludedName)
      else
        match ParseDecimal(Strip(row[3]))
        case None => Err(BadRevenue)
        case Some(v) => if v > Ceiling then Err(OverCeiling) else Ok(Entry(name, v))
  }

  /** A row is kept exactly when it has at least four fields, a non-blank
      name free of every chart keyword and a number of at most 15000 as
      revenue; the entry carries the stripped name and the parsed revenue. */
  lemma ExtractSpec(row: seq<string>)
    ensures Extract(row).Ok? <==>
              && |row| >= MinFields
              && Strip(row[0]) != ""
              && !IsExcluded(Strip(row[0]), ChartKeywords)
              && ParseDecimal(Strip(row[3])).Some?
              && ParseDecimal(Strip(row[3])).value <= Ceiling
    ensures Extract(row).Ok? ==>
              Extract(row).value == Entry(Strip(row[0]), ParseDecimal(Strip(row[3])).value)
    ensures |row| < MinFields ==> Extract(row) == Err(TooFewFields)
    ensures |row| >= MinFields && Strip(row[0]) == "" ==> Extract(row) == Err(EmptyName)
    ensures (|row| >= MinFields && Strip(row[0]) != "" && IsExcluded(Strip(row[0]), ChartKeywords))
              ==> Extract(row) == Err(ExcludedName)
  {
  }

  /** Only the name and revenue fields decide: two rows of at least four
      fields that agree on fields 0 and 3 get the same verdict, whatever
      their quantity or other columns hold. */
  lemma OnlyNameAndRevenueMatter(a: seq<string>, b: seq<string>)
    requires |a| >= MinFields && |b| >= MinFields
    requires a[0] == b[0] && a[3] == b[3]
    ensures Extract(a) == Extract(b)
  {
  }

  /** The chart's filter is looser than the product report's: every row the
      product report keeps is charted, with the same name and revenue. */
  lemma ProductRowCharted(row: seq<string>)
    requires ProductReport.Extract(row).Ok?
    ensures Extract(row) == Ok(Entry(ProductReport.Extract(row).value.name, ProductReport.Extract(row).value.revenue))
  {
    ProductReport.ExtractSpec(row);
    ChartAcceptsProductLabels(Strip(row[0]));
    ExtractSpec(row);
  }

  /** The converse fails: a row without an integer quantity is charted but
      not counted by the product report. */
  lemma ChartIgnoresQuantity(row: seq<string>)
    requires |row| >= MinFields && ParseInt(Strip(row[2])).None?
    ensures ProductReport.Extract(row).Err?
    ensures Extract(row).Ok? <==>
              && Strip(row[0]) != ""
              && !IsExcluded(Strip(row[0]), ChartKeywords)
              && ParseDecimal(Strip(row[3])).Some?
              && ParseDecimal(Strip(row[3])).value <= Ceiling
  {
    ProductReport.ExtractSpec(row);
    ExtractSpec(row);
  }

  /** The two lists handed to the plotting call. */
  datatype ChartData = ChartData(names: seq<string>, revenues: seq<real>)

  /** `names` and `revenues`, read off the top entries one by one. */
  function Series(top: seq<Entry>): (c: ChartData)
    ensures |c.names| == |c.revenues| == |top|
  {
    ChartData(seq(|top|, k requires 0 <= k < |top| => top[k].name),
              seq(|top|, k requires 0 <= k < |top| => top[k].revenue))
  }

  /** The bars the plot draws: the k-th label paired with the k-th length. */
  function Bars(c: ChartData): seq<Entry>
    requires |c.names| == |c.revenues|
  {
    seq(|c.names|, k requires 0 <= k < |c.names| => Entry(c.names[k], c.revenues[k]))
  }

  /** Splitting the entries into two lists loses nothing: pairing them up
      again gives back the entries, and splitting bars gives back the lists. */
  lemma SeriesBars(top: seq<Entry>, c: ChartData)
    requires |c.names| == |c.revenues|
    ensures Bars(Series(top)) == top
    ensures Series(Bars(c)) == c
  {
    assert forall k :: 0 <= k < |top| ==> Bars(Series(top))[k] == top[k];
    assert Series(Bars(c)).names == c.names;
    assert Series(Bars(c)).revenues == c.revenues;
  }

  /** `sorted(sales_data, ..., reverse=True)[:10]`. */
  function Top10(rows: seq<seq<string>>): (r: seq<Entry>)
    ensures |r| == Min(ChartCount, |Accepted(rows, Extract)|)
    ensures multiset(r) <= multiset(Accepted(rows, Extract))
    ensures forall k :: 0 <= k < |r| ==> r[k].name != "" && r[k].revenue <= Ceiling
  {
    var entries := Accepted(rows, Extract);
    TopNSelects(entries, Revenue, ChartCount);
    EntriesBounded(rows);
    var top := TopN(entries, Revenue, ChartCount);
    assert forall k :: 0 <= k < |top| ==> top[k] in multiset(top) && top[k] in entries;
    top
  }

  /** Every kept entry has a non-blank name and a revenue of at most 15000. */
  lemma {:induction false} EntriesBounded(rows: seq<seq<string>>)
    ensures forall e :: e in Accepted(rows, Extract) ==> e.name != "" && e.revenue <= Ceiling
    decreases |rows|
  {
    if |rows| > 0 {
      EntriesBounded(rows[..|rows| - 1]);
    }
  }

  /** The whole script on the rows of one file, up to the plotting call. */
  function Chart(rows: seq<seq<string>>): (c: ChartData)
    ensures |c.names| == |c.revenues| <= ChartCount
    ensures forall k :: 0 <= k < |c.names| ==> c.names[k] != "" && c.revenues[k] <= Ceiling
  {
    Series(Top10(rows))
  }

  /** The chart has min(10, n) bars for the n kept entries, longest first;
      every bar is a kept entry (counted with multiplicity), and no kept
      entry left off the chart has more revenue than a bar on it. */
  lemma ChartShowsTopTen(rows: seq<seq<string>>)
    ensures var c := Chart(rows);
            && |c.names| == |c.revenues| == Min(ChartCount, |Accepted(rows, Extract)|)
            && (forall i, j :: 0 <= i < j < |c.revenues| ==> c.revenues[i] >= c.revenues[j])
            && multiset(Bars(c)) <= multiset(Accepted(rows, Extract))
            && (forall k, y :: 0 <= k < |c.revenues| && y in multiset(Accepted(rows, Extract)) - multiset(Bars(c))
                  ==> y.revenue <= c.revenues[k])
  {
    var top := Top10(rows);
    var c := Chart(rows);
    SeriesBars(top, c);
    TopNSelects(Accepted(rows, Extract), Revenue, ChartCount);
    forall i, j | 0 <= i < j < |c.revenues| ensures c.revenues[i] >= c.revenues[j] {
      assert c.revenues[i] == Revenue(top[i]) && c.revenues[j] == Revenue(top[j]);
    }
  }

  /** Bars of equal length appear in file order: among the kept entries
      with revenue v, the charted ones are the first few. */
  lemma ChartTiesInFileOrder(rows: seq<seq<string>>, v: real)
    ensures var w := WithKey(Bars(Chart(rows)), Revenue, v);
            var all := WithKey(Accepted(rows, Extract), Revenue, v);
            |w| <= |all| && w == all[..|w|]
  {
    SeriesBars(Top10(rows), Chart(rows));
    TopNTiesInFileOrder(Accepted(rows, Extract), Revenue, ChartCount, v);
  }

  /** Every bar comes from some row of the file that passes the filter, so
      its label is non-blank and its length at most 15000. */
  lemma BarFromRow(rows: seq<seq<string>>, k: nat)
    requires k < |Chart(rows).names|
    ensures exists i :: 0 <= i < |rows| && Extract(rows[i]) == Ok(Bars(Chart(rows))[k])
    ensures Chart(rows).names[k] != "" && Chart(rows).revenues[k] <= Ceiling
  {
    var c := Chart(rows);
    var entries := Accepted(rows, Extract);
    ChartShowsTopTen(rows);
    var b := Bars(c)[k];
    assert b in multiset(Bars(c));
    assert b in entries;
    AcceptedMembers(rows, Extract, b);
    var i :| 0 <= i < |rows| && Extract(rows[i]) == Ok(b);
    ExtractSpec(rows[i]);
  }
}
