/** Parsing of numeric fields: Python's `int()` and `float()` on ASCII
    decimal text (exact rationals, not IEEE doubles), and the German
    number normaliser of the table-based report. */
module Numbers {
  import opened Wrappers
  import Text

  predicate IsDigit(c: char) { '0' <= c <= '9' }

  predicate AllDigits(s: string)
  {
    forall i :: 0 <= i < |s| ==> IsDigit(s[i])
  }

  function DigitValue(c: char): nat
    requires IsDigit(c)
  {
    c as int - '0' as int
  }

  function Pow10(n: nat): (r: nat)
    ensures r >= 1
  {
    if n == 0 then 1 else 10 * Pow10(n - 1)
  }

  /** The natural number written by the digit string `s`, most significant
      digit first (the empty string denotes 0). */
  function DigitsValue(s: string): nat
    requires AllDigits(s)
  {
    if |s| == 0 then 0 else 10 * DigitsValue(s[..|s| - 1]) + DigitValue(s[|s| - 1])
  }

  /** Reading the concatenation of two digit strings shifts the first by the
      length of the second: "1" ++ "234" is 1 * 10^3 + 234. */
  lemma {:induction false} DigitsValueConcat(a: string, b: string)
    requires AllDigits(a) && AllDigits(b)
    ensures AllDigits(a + b)
    ensures DigitsValue(a + b) == DigitsValue(a) * Pow10(|b|) + DigitsValue(b)
    decreases |b|
  {
    assert AllDigits(a + b);
    if |b| == 0 {
      assert a + b == a;
    } else {
      var b' := b[..|b| - 1];
      var ab := a + b;
      assert ab[..|ab| - 1] == a + b';
      assert ab[|ab| - 1] == b[|b| - 1];
      DigitsValueConcat(a, b');
      var x, p, y, d := DigitsValue(a), Pow10(|b'|), DigitsValue(b'), DigitValue(b[|b| - 1]);
      assert DigitsValue(ab) == 10 * DigitsValue(a + b') + d;
      assert DigitsValue(b) == 10 * y + d;
      ShiftDigit(x, p, y, d);
    }
  }

  lemma ShiftDigit(x: int, p: int, y: int, d: int)
    ensures 10 * (x * p + y) + d == x * (10 * p) + (10 * y + d)
  {
  }

  /** A non-empty run of ASCII digits read as a natural number. */
  function ParseNat(s: string): (r: Option<nat>)
    ensures r.Some? <==> |s| > 0 && AllDigits(s)
  {
    if |s| > 0 && AllDigits(s) then Some(DigitsValue(s)) else None
  }

  /** Python's `int()` on already-stripped text: an optional sign followed
      by at least one digit. */
  function ParseInt(s: string): (r: Option<int>)
    ensures r.Some? <==> |s| > 0 && ParseNat(if s[0] == '-' || s[0] == '+' then s[1..] else s).Some?
  {
    if |s| > 0 && s[0] == '-' then
      match ParseNat(s[1..])
      case Some(n) => Some(-(n as int))
      case None => None
    else if |s| > 0 && s[0] == '+' then
      match ParseNat(s[1..])
      case Some(n) => Some(n)
      case None => None
    else
      match ParseNat(s)
      case Some(n) => Some(n)
      case None => None
  }

  /** Position of the first occurrence of `c` in `s`, or |s| when there is none. */
  function IndexOf(s: string, c: char): (k: nat)
    ensures k <= |s|
    ensures k < |s| ==> s[k] == c
    ensures c !in s[..k]
    ensures k == |s| <==> c !in s
  {
    if |s| == 0 then 0
    else if s[0] == c then 0
    else
      var k := IndexOf(s[1..], c);
      assert s[..k + 1] == [s[0]] + s[1..][..k];
      k + 1
  }

  /** The value of a decimal with integer part `whole` and a fractional part
      of `digits` digits reading `frac`. */
  function DecimalValue(whole: nat, frac: nat, digits: nat): real
  {
    whole as real + frac as real / Pow10(digits) as real
  }

  /** An unsigned decimal: digits, optionally followed by '.' and more
      digits, with at least one digit in total ("5", "5.", ".5", "4.50"). */
  function ParseUnsignedDecimal(s: string): (r: Option<real>)
    ensures r.Some? ==> r.value >= 0.0
  {
    var k := IndexOf(s, '.');
    var whole := s[..k];
    var frac := if k < |s| then s[k + 1..] else "";
    if AllDigits(whole) && AllDigits(frac) && |whole| + |frac| > 0 then
      Some(DecimalValue(DigitsValue(whole), DigitsValue(frac), |frac|))
    else
      None
  }

  /** Python's `float()` (and `pd.to_numeric`) on already-stripped text,
      restricted to plain decimal notation with an optional sign. A reading
      needs some text, and a negative one a leading minus. */
  function ParseDecimal(s: string): (r: Option<real>)
    ensures r.Some? ==> |s| > 0
    ensures r.Some? && r.value < 0.0 ==> s[0] == '-'
  {
    var signed := |s| > 0 && (s[0] == '-' || s[0] == '+');
    var body := if signed then s[1..] else s;
    match ParseUnsignedDecimal(body)
    case Some(v) => Some(if signed && s[0] == '-' then -v else v)
    case None => None
  }

  /** The German-format normaliser: delete every thousands dot, then turn
      every decimal comma into a dot. The result has no comma left and
      exactly one dot per comma of the input. */
  function NormalizeGerman(s: string): (r: string)
    ensures ',' !in r
    ensures Text.Count(r, '.') == Text.Count(s, ',')
    ensures |r| == |s| - Text.Count(s, '.')
  {
    Text.DeleteSpec(s, '.');
    Text.ReplaceSpec(Text.Delete(s, '.'), ',', '.');
    Text.Replace(Text.Delete(s, '.'), ',', '.')
  }

  /** The normaliser works character by character: it maps a concatenation
      to the concatenation of the normalised pieces, drops a `.`, turns a
      `,` into `.` and keeps every other character. Together these fix its
      result on every text. */
  lemma NormalizeGermanByChar(x: string, y: string)
    ensures NormalizeGerman(x + y) == NormalizeGerman(x) + NormalizeGerman(y)
    ensures forall c :: NormalizeGerman([c]) == if c == '.' then "" else if c == ',' then "." else [c]
  {
    Text.DeleteAppend(x, y, '.');
    Text.ReplaceAppend(Text.Delete(x, '.'), Text.Delete(y, '.'), ',', '.');
    forall c ensures NormalizeGerman([c]) == if c == '.' then "" else if c == ',' then "." else [c] {
      Text.DeleteAppend([c], "", '.');
      assert [c][1..] == "";
    }
  }

  /** Text without dots and commas passes the normaliser unchanged. */
  lemma NormalizeGermanPlain(s: string)
    requires '.' !in s && ',' !in s
    ensures NormalizeGerman(s) == s
  {
    Text.DeleteSpec(s, '.');
    Text.ReplaceSpec(s, ',', '.');
  }

  /** Decimal rendering of a natural number, most significant digit first. */
  function ShowNat(n: nat): (r: string)
    ensures |r| > 0 && AllDigits(r)
  {
    var d := [('0' as int + n % 10) as char];
    if n < 10 then d else ShowNat(n / 10) + d
  }

  function ShowInt(i: int): string
  {
    if i < 0 then "-" + ShowNat(-i) else ShowNat(i)
  }

  /** Reading back a rendered natural number gives the number. */
  lemma {:induction false} ShowNatValue(n: nat)
    ensures DigitsValue(ShowNat(n)) == n
  {
    var s := ShowNat(n);
    if n >= 10 {
      ShowNatValue(n / 10);
      assert s[..|s| - 1] == ShowNat(n / 10);
    }
  }

  /** `int()` inverts the decimal rendering of every integer. */
  lemma ParseIntShowInt(i: int)
    ensures ParseInt(ShowInt(i)) == Some(i)
  {
    if i < 0 {
      ShowNatValue(-i);
      assert ShowInt(i)[1..] == ShowNat(-i);
    } else {
      ShowNatValue(i);
    }
  }

  /** `float()` reads a rendered integer as that integer. */
  lemma ParseDecimalShowInt(i: int)
    ensures ParseDecimal(ShowInt(i)) == Some(i as real)
  {
    var n: nat := if i < 0 then -i else i;
    var s := ShowNat(n);
    ShowNatValue(n);
    assert IndexOf(s, '.') == |s| by { assert !IsDigit('.'); }
    assert s[..|s|] == s;
    assert ParseUnsignedDecimal(s) == Some(n as real);
    if i < 0 {
      assert ShowInt(i)[1..] == s;
    } else {
      assert IsDigit(s[0]);
    }
  }

  /** The first occurrence of `c` in `a + [c] + b` is right after `a` when
      `a` has none. */
  lemma {:induction false} IndexOfAfter(a: string, c: char, b: string)
    requires c !in a
    ensures IndexOf(a + [c] + b, c) == |a|
    decreases |a|
  {
    if |a| > 0 {
      assert (a + [c] + b)[1..] == a[1..] + [c] + b;
      IndexOfAfter(a[1..], c, b);
    }
  }

  lemma NoDotInDigits(s: string)
    requires AllDigits(s)
    ensures '.' !in s
  {
    assert !IsDigit('.');
  }

  lemma UnsignedDecimalPoint(whole: string, frac: string)
    requires AllDigits(whole) && AllDigits(frac) && |whole| + |frac| > 0
    ensures ParseUnsignedDecimal(whole + "." + frac)
         == Some(DecimalValue(DigitsValue(whole), DigitsValue(frac), |frac|))
  {
    var s := whole + "." + frac;
    NoDotInDigits(whole);
    IndexOfAfter(whole, '.', frac);
    var k := IndexOf(s, '.');
    assert k == |whole|;
    assert s[..k] == whole;
    assert s[k + 1..] == frac;
  }

  lemma ParseDecimalUnsigned(s: string)
    requires |s| == 0 || (s[0] != '-' && s[0] != '+')
    ensures ParseDecimal(s) == ParseUnsignedDecimal(s)
  {
  }

  /** `float()` on "<whole>.<frac>" yields whole + frac / 10^|frac|. */
  lemma ParseDecimalPoint(whole: string, frac: string)
    requires AllDigits(whole) && AllDigits(frac) && |whole| + |frac| > 0
    ensures ParseDecimal(whole + "." + frac)
         == Some(DecimalValue(DigitsValue(whole), DigitsValue(frac), |frac|))
  {
    var s := whole + "." + frac;
    UnsignedDecimalPoint(whole, frac);
    assert s[0] != '-' && s[0] != '+' by {
      if |whole| > 0 { assert s[0] == whole[0]; } else { assert s[0] == '.'; }
    }
    ParseDecimalUnsigned(s);
  }

  /** Plain decimal text without its sign: a non-empty digit string, or
      digit strings around a single point with at least one digit in all. */
  ghost predicate UnsignedDecimalText(t: string)
  {
    || (|t| > 0 && AllDigits(t))
    || exists k :: 0 <= k < |t| && t[k] == '.' && AllDigits(t[..k]) && AllDigits(t[k + 1..]) && |t| > 1
  }

  /** The text after an optional leading sign. */
  function Unsigned(s: string): string
  {
    if |s| > 0 && (s[0] == '-' || s[0] == '+') then s[1..] else s
  }

  /** `float()` accepts exactly an optional sign followed by plain decimal
      text, so "1.2.3", "abc", "-" and "." are all rejected. */
  lemma ParseDecimalAccepts(s: string)
    ensures ParseDecimal(s).Some? <==> UnsignedDecimalText(Unsigned(s))
  {
    var t := Unsigned(s);
    assert ParseDecimal(s).Some? <==> ParseUnsignedDecimal(t).Some?;
    UnsignedDecimalAccepts(t);
  }

  lemma UnsignedDecimalAccepts(t: string)
    ensures ParseUnsignedDecimal(t).Some? <==> UnsignedDecimalText(t)
  {
    if ParseUnsignedDecimal(t).Some? {
      UnsignedDecimalIsText(t);
    }
    if UnsignedDecimalText(t) {
      if |t| > 0 && AllDigits(t) {
        DigitsParse(t);
      } else {
        var j :| 0 <= j < |t| && t[j] == '.' && AllDigits(t[..j]) && AllDigits(t[j + 1..]) && |t| > 1;
        PointParse(t, j);
      }
    }
  }

  lemma UnsignedDecimalIsText(t: string)
    requires ParseUnsignedDecimal(t).Some?
    ensures UnsignedDecimalText(t)
  {
    var k := IndexOf(t, '.');
    if k < |t| {
      assert t[k] == '.' && AllDigits(t[..k]) && AllDigits(t[k + 1..]) && |t| > 1;
    } else {
      assert t[..k] == t;
    }
  }

  lemma DigitsParse(t: string)
    requires |t| > 0 && AllDigits(t)
    ensures ParseUnsignedDecimal(t).Some?
  {
    NoDotInDigits(t);
    assert IndexOf(t, '.') == |t|;
    assert t[..|t|] == t;
  }

  lemma PointParse(t: string, j: nat)
    requires j < |t| && t[j] == '.' && AllDigits(t[..j]) && AllDigits(t[j + 1..]) && |t| > 1
    ensures ParseUnsignedDecimal(t).Some?
  {
    NoDotInDigits(t[..j]);
    assert t == t[..j] + "." + t[j + 1..];
    UnsignedDecimalPoint(t[..j], t[j + 1..]);
  }

  /** A leading sign in front of unsigned text negates its reading after
      `-` and keeps it after `+`; a second sign is rejected. With
      ParseDecimalPoint this makes "-4.50" read as -4.5 and "+3.5" as 3.5. */
  lemma {:induction false} ParseDecimalSigned(sign: char, t: string)
    requires sign == '-' || sign == '+'
    ensures |t| > 0 && (t[0] == '-' || t[0] == '+') ==> ParseDecimal([sign] + t) == None
    ensures (|t| == 0 || (t[0] != '-' && t[0] != '+')) ==>
              ParseDecimal([sign] + t) == match ParseDecimal(t)
                                          case Some(v) => Some(if sign == '-' then -v else v)
                                          case None => None
  {
    var s := [sign] + t;
    assert s[0] == sign && s[1..] == t;
    if |t| > 0 && (t[0] == '-' || t[0] == '+') {
      SecondSignRejected(t);
    }
  }

  lemma SecondSignRejected(t: string)
    requires |t| > 0 && (t[0] == '-' || t[0] == '+')
    ensures ParseUnsignedDecimal(t) == None
  {
    var k := IndexOf(t, '.');
    assert !IsDigit(t[0]);
    if k > 0 {
      assert t[..k][0] == t[0];
    }
  }

  /** `float()` rejects any text containing a comma, so a German-format
      field such as "4,50" never parses without normalisation. */
  lemma CommaNeverParses(s: string)
    requires ',' in s
    ensures ParseDecimal(s) == None
  {
    var t := if |s| > 0 && (s[0] == '-' || s[0] == '+') then s[1..] else s;
    var j :| 0 <= j < |s| && s[j] == ',';
    assert ',' in t by {
      if t != s { assert j > 0 && t[j - 1] == ','; }
    }
    var k := IndexOf(t, '.');
    var j' :| 0 <= j' < |t| && t[j'] == ',';
    if j' < k {
      assert t[..k][j'] == ',';
    } else {
      assert t[k + 1..][j' - k - 1] == ',';
    }
  }

  /** A German amount "<d1>.<d2>,<d3>" (thousands dot, decimal comma) is
      normalised to "<d1><d2>.<d3>" and so reads as the integer d1d2 plus
      d3 / 10^|d3| (DigitsValueConcat splits d1d2 into d1 * 10^|d2| + d2). */
  lemma GermanAmount(d1: string, d2: string, d3: string)
    requires AllDigits(d1) && AllDigits(d2) && AllDigits(d3)
    requires |d1| + |d2| + |d3| > 0
    ensures AllDigits(d1 + d2)
    ensures NormalizeGerman(d1 + "." + d2 + "," + d3) == d1 + d2 + "." + d3
    ensures ParseDecimal(NormalizeGerman(d1 + "." + d2 + "," + d3))
         == Some(DecimalValue(DigitsValue(d1 + d2), DigitsValue(d3), |d3|))
  {
    NormalizeGermanGroups(d1, d2, d3);
    ParseDecimalPoint(d1 + d2, d3);
  }

  lemma {:induction false} NormalizeGermanGroups(d1: string, d2: string, d3: string)
    requires AllDigits(d1) && AllDigits(d2) && AllDigits(d3)
    ensures AllDigits(d1 + d2)
    ensures NormalizeGerman(d1 + "." + d2 + "," + d3) == d1 + d2 + "." + d3
  {
    var s := d1 + "." + d2 + "," + d3;
    var tail := d2 + "," + d3;
    assert s == d1 + "." + tail;
    DeleteDigitsDots(d1, tail);
    assert '.' !in tail by {
      assert !IsDigit('.');
      forall i | 0 <= i < |tail| ensures tail[i] != '.' {
        if i < |d2| { assert tail[i] == d2[i]; }
        else if i > |d2| { assert tail[i] == d3[i - |d2| - 1]; }
      }
    }
    DeleteNoDot(tail);
    assert Text.Delete(s, '.') == d1 + d2 + "," + d3 by {
      assert d1 + d2 + "," + d3 == d1 + tail;
    }
    assert AllDigits(d1 + d2);
    ReplaceDigitsComma(d1 + d2, d3);
  }

  lemma {:induction false} DeleteDigitsDots(a: string, b: string)
    requires AllDigits(a)
    ensures Text.Delete(a + "." + b, '.') == a + Text.Delete(b, '.')
    decreases |a|
  {
    if |a| == 0 {
      assert a + "." + b == "." + b;
      assert ("." + b)[1..] == b;
    } else {
      var s := a + "." + b;
      DeleteDigitsDots(a[1..], b);
      assert s[0] == a[0] && IsDigit(a[0]);
      assert s[1..] == a[1..] + "." + b;
      assert Text.Delete(s, '.') == [a[0]] + Text.Delete(s[1..], '.');
      assert a == [a[0]] + a[1..];
    }
  }

  lemma {:induction false} DeleteNoDot(s: string)
    requires '.' !in s
    ensures Text.Delete(s, '.') == s
    decreases |s|
  {
    if |s| > 0 {
      DeleteNoDot(s[1..]);
      assert s == [s[0]] + s[1..];
    }
  }

  lemma {:induction false} ReplaceDigitsComma(a: string, b: string)
    requires AllDigits(a) && AllDigits(b)
    ensures Text.Replace(a + "," + b, ',', '.') == a + "." + b
    decreases |a|
  {
    if |a| == 0 {
      assert a + "," + b == "," + b;
      assert ("," + b)[1..] == b;
      ReplaceNoComma(b);
    } else {
      ReplaceDigitsComma(a[1..], b);
      assert (a + "," + b)[1..] == a[1..] + "," + b;
      assert a + "." + b == [a[0]] + (a[1..] + "." + b);
    }
  }

  lemma {:induction false} ReplaceNoComma(s: string)
    requires AllDigits(s)
    ensures Text.Replace(s, ',', '.') == s
    decreases |s|
  {
    if |s| > 0 {
      ReplaceNoComma(s[1..]);
      assert s == [s[0]] + s[1..];
    }
  }

  /** "1.234,56" becomes 1234.56.
      The literal arrives through a parameter because, written into the
      ensures, it makes the verifier unfold the parsers on it and run out of
      resources. */
  lemma GermanThousands(cell: string)
    requires cell == "1.234,56"
    ensures ParseDecimal(NormalizeGerman(cell)) == Some(1234.56)
  {
    var d1, d2, d3 := "1", "234", "56";
    ThousandsGroups(cell, d1, d2, d3);
    GermanAmount(d1, d2, d3);
    ThousandsValue(d1 + d2, d3);
  }

  lemma ThousandsGroups(cell: string, d1: string, d2: string, d3: string)
    requires cell == "1.234,56" && d1 == "1" && d2 == "234" && d3 == "56"
    ensures cell == d1 + "." + d2 + "," + d3
    ensures AllDigits(d1) && AllDigits(d2) && AllDigits(d3) && d1 + d2 == "1234"
  {
  }

  lemma ThousandsValue(whole: string, frac: string)
    requires whole == "1234" && frac == "56"
    ensures DecimalValue(DigitsValue(whole), DigitsValue(frac), |frac|) == 1234.56
  {
    DigitsExample();
    assert Pow10(2) == 100;
  }

  lemma DigitsExample()
    ensures DigitsValue("1234") == 1234 && DigitsValue("56") == 56
  {
    assert DigitsValue("1") == 1;
    assert "12"[..1] == "1";
    assert DigitsValue("12") == 12;
    assert "123"[..2] == "12";
    assert DigitsValue("123") == 123;
    assert "1234"[..3] == "123";
    assert "56"[..1] == "5";
  }

  /** A plain decimal comma: "d1,d3" reads as d1 plus d3 / 10^|d3|. */
  lemma GermanComma(d1: string, d3: string)
    requires AllDigits(d1) && AllDigits(d3) && |d1| + |d3| > 0
    ensures NormalizeGerman(d1 + "," + d3) == d1 + "." + d3
    ensures ParseDecimal(NormalizeGerman(d1 + "," + d3))
         == Some(DecimalValue(DigitsValue(d1), DigitsValue(d3), |d3|))
  {
    var s := d1 + "," + d3;
    assert '.' !in s by {
      NoDotInDigits(d1);
      NoDotInDigits(d3);
    }
    DeleteNoDot(s);
    ReplaceDigitsComma(d1, d3);
    ParseDecimalPoint(d1, d3);
  }

  /** "0,50" becomes 0.5.
      The literal arrives through a parameter because, written into the
      ensures, it makes the verifier unfold the parsers on it and run out of
      resources. */
  lemma GermanCents(cell: string)
    requires cell == "0,50"
    ensures ParseDecimal(NormalizeGerman(cell)) == Some(0.5)
  {
    var d1, d3 := "0", "50";
    GermanComma(d1, d3);
    assert d1 + "," + d3 == cell;
    CentsValue();
  }

  lemma CentsValue()
    ensures DecimalValue(DigitsValue("0"), DigitsValue("50"), 2) == 0.5
  {
    assert DigitsValue("0") == 0;
    assert DigitsValue("50") == 50 by { assert "50"[..1] == "5"; }
    assert Pow10(2) == 100;
  }

  /** A digit string reads as its value. */
  lemma ParseDecimalDigits(t: string)
    requires AllDigits(t) && |t| > 0
    ensures ParseDecimal(t) == Some(DigitsValue(t) as real)
  {
    assert IsDigit(t[0]);
    ParseDecimalUnsigned(t);
    NoDotInDigits(t);
    assert IndexOf(t, '.') == |t|;
    assert t[..|t|] == t;
    WholeDecimal(DigitsValue(t));
    assert ParseUnsignedDecimal(t) == Some(DecimalValue(DigitsValue(t), DigitsValue(""), 0));
  }

  lemma WholeDecimal(w: nat)
    ensures DecimalValue(w, 0, 0) == w as real
  {
    assert Pow10(0) == 1;
  }

  /** A dot between digit groups is taken for a thousands separator and
      deleted: "d1.d2" reads as the integer d1d2. */
  lemma GermanGrouped(d1: string, d2: string)
    requires AllDigits(d1) && AllDigits(d2) && |d1| + |d2| > 0
    ensures NormalizeGerman(d1 + "." + d2) == d1 + d2
    ensures ParseDecimal(NormalizeGerman(d1 + "." + d2)) == Some(DigitsValue(d1 + d2) as real)
  {
    NoDotInDigits(d2);
    DeleteDigitsDots(d1, d2);
    DeleteNoDot(d2);
    DigitsValueConcat(d1, d2);
    ReplaceNoComma(d1 + d2);
    ParseDecimalDigits(d1 + d2);
  }

  /** The normaliser assumes German notation: an English amount "4.50"
      loses its decimal point and reads as 450.
      The literal arrives through a parameter because, written into the
      ensures, it makes the verifier unfold the parsers on it and run out of
      resources. */
  lemma DotDecimalReadAsHundreds(cell: string)
    requires cell == "4.50"
    ensures ParseDecimal(NormalizeGerman(cell)) == Some(450.0)
  {
    var d1, d2 := "4", "50";
    GermanGrouped(d1, d2);
    assert d1 + "." + d2 == cell;
    DigitsValueConcat(d1, d2);
    assert DigitsValue(d1) == 4;
    assert DigitsValue(d2) == 50 by { assert d2[..1] == "5"; }
    assert Pow10(|d2|) == 100;
  }
}
