/** The header locator of the table report: the data table starts at the
    first raw line that names the PLU, quantity and total columns, however
    many metadata lines come before it. */
module Header {
  import opened Text

  /** A line is the header when its lower-cased text contains each of the
      markers "plu", "anzahl" (quantity) and "total". */
  predicate IsHeader(line: string)
  {
    var lowered := Lower(line);
    Contains(lowered, "plu") && Contains(lowered, "anzahl") && Contains(lowered, "total")
  }

  function FindHeaderFrom(lines: seq<string>, i: nat): (r: int)
    requires i <= |lines|
    ensures r == -1 || i <= r < |lines|
    ensures r == -1 <==> forall j :: i <= j < |lines| ==> !IsHeader(lines[j])
    ensures r >= 0 ==> IsHeader(lines[r]) && forall j :: i <= j < r ==> !IsHeader(lines[j])
    decreases |lines| - i
  {
    if i == |lines| then -1
    else if IsHeader(lines[i]) then i
    else FindHeaderFrom(lines, i + 1)
  }

  /** The index of the first header line, or -1 when no line qualifies. */
  function FindHeader(lines: seq<string>): (r: int)
    ensures -1 <= r < |lines|
    ensures r == -1 <==> forall j :: 0 <= j < |lines| ==> !IsHeader(lines[j])
    ensures r >= 0 ==> IsHeader(lines[r]) && forall j :: 0 <= j < r ==> !IsHeader(lines[j])
  {
    FindHeaderFrom(lines, 0)
  }

  /** The scanning loop itself: walk the lines from the top and stop at the
      first header; `header_idx` stays -1 when the loop runs out. */
  method LocateHeader(lines: seq<string>) returns (headerIdx: int)
    ensures -1 <= headerIdx < |lines|
    ensures headerIdx == -1 <==> forall j :: 0 <= j < |lines| ==> !IsHeader(lines[j])
    ensures headerIdx >= 0 ==> IsHeader(lines[headerIdx]) && forall j :: 0 <= j < headerIdx ==> !IsHeader(lines[j])
  {
    headerIdx := -1;
    var i := 0;
    while i < |lines|
      invariant 0 <= i <= |lines|
      invariant forall j :: 0 <= j < i ==> !IsHeader(lines[j])
    {
      if IsHeader(lines[i]) {
        headerIdx := i;
        return;
      }
      i := i + 1;
    }
  }

  /** Any number of metadata lines in front of the table are skipped: the
      header index just moves with them. */
  lemma {:induction false} PreambleShiftsHeader(preamble: seq<string>, rest: seq<string>)
    requires forall j :: 0 <= j < |preamble| ==> !IsHeader(preamble[j])
    requires FindHeader(rest) >= 0
    ensures FindHeader(preamble + rest) == |preamble| + FindHeader(rest)
  {
    var lines := preamble + rest;
    var h := FindHeader(rest);
    assert lines[|preamble| + h] == rest[h];
    forall j | 0 <= j < |preamble| + h ensures !IsHeader(lines[j]) {
      if j >= |preamble| { assert lines[j] == rest[j - |preamble|]; }
    }
  }
}
