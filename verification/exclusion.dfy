/** The exclusion classifier: a row name is noise (a payment tender, a
    menu category, a subtotal or grand-total marker) when one of a list of
    lower-case keyword fragments occurs in its lower-cased text. */
module Exclusion {
  import opened Text

  /** The product report's list (src/analyzer2.py): payment tenders first,
      then categories and subtotal markers. */
  const ProductKeywords: seq<string> := [
    "visa", "mastercard", "maestro", "bar", "barzahlung", "karte", "amex", "summe",
    "speisen", "sonstiges", "total", "theke", "getränke", "kaffee & chai",
    "hafer heiss", "milch heiß", "kuchen", "snacks", "abfrage", "gesamt", "umsatz"
  ]

  /** The chart report's shorter list (src/analyzer3.py). */
  const ChartKeywords: seq<string> := [
    "visa", "mastercard", "maestro", "bar", "speisen", "sonstiges", "total", "theke", "getränke"
  ]

  /** `any(key in lower for key in keys)`, evaluated left to right. */
  function AnyKeyOccurs(lower: string, keys: seq<string>): (r: bool)
    ensures r <==> exists k :: k in keys && Contains(lower, k)
  {
    if |keys| == 0 then false
    else if Contains(lower, keys[0]) then
      assert keys[0] in keys;
      true
    else
      var r := AnyKeyOccurs(lower, keys[1..]);
      assert forall k :: k in keys <==> k == keys[0] || k in keys[1..];
      r
  }

  /** A name is excluded exactly when some rule fragment occurs in its
      lower-cased form; which rule matches, and in what order the rules are
      listed, does not matter. */
  function IsExcluded(name: string, keys: seq<string>): (r: bool)
    ensures r <==> exists k :: k in keys && Contains(Lower(name), k)
  {
    AnyKeyOccurs(Lower(name), keys)
  }

  /** The product report's test, as written: `key == lower or key in lower`
      for some key, tried left to right. */
  function AnyKeyEqualsOrOccurs(lower: string, keys: seq<string>): (r: bool)
    ensures r <==> exists k :: k in keys && (k == lower || Contains(lower, k))
  {
    if |keys| == 0 then false
    else if keys[0] == lower || Contains(lower, keys[0]) then
      assert keys[0] in keys;
      true
    else
      var r := AnyKeyEqualsOrOccurs(lower, keys[1..]);
      assert forall k :: k in keys <==> k == keys[0] || k in keys[1..];
      r
  }

  /** The equality disjunct adds nothing: a key equal to the name also
      occurs in it, so the test is plain substring membership. */
  lemma {:induction false} EqualityDisjunctSubsumed(lower: string, keys: seq<string>)
    ensures AnyKeyEqualsOrOccurs(lower, keys) == AnyKeyOccurs(lower, keys)
  {
    if |keys| > 0 {
      if keys[0] == lower {
        assert OccursAt(lower, keys[0], 0);
        ContainsSpec(lower, keys[0]);
      }
      EqualityDisjunctSubsumed(lower, keys[1..]);
    }
  }

  /** Rule order is irrelevant: two lists holding the same fragments
      classify every name alike. */
  lemma ExclusionOrderIrrelevant(name: string, keys: seq<string>, keys': seq<string>)
    requires forall k :: k in keys <==> k in keys'
    ensures IsExcluded(name, keys) == IsExcluded(name, keys')
  {
  }

  /** Dropping rules can only let more labels through. */
  lemma FewerKeysExcludeLess(name: string, small: seq<string>, big: seq<string>)
    requires forall k :: k in small ==> k in big
    ensures IsExcluded(name, small) ==> IsExcluded(name, big)
  {
  }

  /** Every chart keyword is also a product keyword, so every name the
      product report accepts is also accepted by the chart report. */
  lemma ChartAcceptsProductLabels(name: string)
    ensures forall k :: k in ChartKeywords ==> k in ProductKeywords
    ensures !IsExcluded(name, ProductKeywords) ==> !IsExcluded(name, ChartKeywords)
  {
    assert ChartKeywords[..4] == ProductKeywords[..4];
    assert ChartKeywords[4] == ProductKeywords[8];
    assert ChartKeywords[5] == ProductKeywords[9];
    assert ChartKeywords[6] == ProductKeywords[10];
    assert ChartKeywords[7] == ProductKeywords[11];
    assert ChartKeywords[8] == ProductKeywords[12];
    FewerKeysExcludeLess(name, ChartKeywords, ProductKeywords);
  }

  /** "BARZAHLUNG" (cash payment) is excluded through the fragment "bar". */
  lemma CashPaymentExcluded()
    ensures IsExcluded("BARZAHLUNG", ProductKeywords)
    ensures IsExcluded("BARZAHLUNG", ChartKeywords)
  {
    var lower := Lower("BARZAHLUNG");
    assert lower[0] == LowerChar('B') == 'b';
    assert lower[1] == LowerChar('A') == 'a';
    assert lower[2] == LowerChar('R') == 'r';
    assert lower[..3] == "bar";
    assert OccursAt(lower, "bar", 0);
    ContainsSpec(lower, "bar");
    assert "bar" == ProductKeywords[3] && "bar" == ChartKeywords[3];
  }
}
