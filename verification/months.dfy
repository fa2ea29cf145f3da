/**
 * The fixed table from the Spanish month abbreviations the listing pages print
 * to two-digit month numbers, and the lookup the date rewrite goes through.
 */
module SpanishMonths {
  import opened Wrappers
  import PyStr

  /** The table's keys in calendar order. */
  const MonthKeys: seq<string> :=
    ["ene", "feb", "mar", "abr", "may", "jun", "jul", "ago", "sep", "oct", "nov", "dic"]

  /** The month table of `spanish_month_to_number`. */
  const MonthTable: map<string, string> := map[
    "ene" := "01", "feb" := "02", "mar" := "03", "abr" := "04",
    "may" := "05", "jun" := "06", "jul" := "07", "ago" := "08",
    "sep" := "09", "oct" := "10", "nov" := "11", "dic" := "12"
  ]

  /**
   * Exact-match lookup of a month abbreviation; `None` stands for the
   * `KeyError` the dictionary raises for any other string.
   */
  function SpanishMonthToNumber(month: string): (r: Option<string>)
    ensures r.Some? <==> month in MonthKeys
    ensures r.Some? ==> |r.value| == 2
  {
    if month in MonthTable then Some(MonthTable[month]) else None
  }

  /** The i-th key in calendar order maps to `i` written with two digits. */
  lemma TableInCalendarOrder(i: nat)
    requires 1 <= i <= 12
    ensures SpanishMonthToNumber(MonthKeys[i - 1]) == Some(PyStr.Digits(i, 2))
  {
    assert PyStr.Digits(i, 2) == [PyStr.DigitChar(i / 10), PyStr.DigitChar(i % 10)];
  }

  /** Different keys give different numbers, so the table is a bijection onto "01".."12". */
  lemma TableInjective(a: string, b: string)
    requires SpanishMonthToNumber(a).Some? && SpanishMonthToNumber(b).Some?
    requires SpanishMonthToNumber(a) == SpanishMonthToNumber(b)
    ensures a == b
  {
    KeyOfNumber(a);
    KeyOfNumber(b);
  }

  /** The number a key maps to gives back the key's place in calendar order. */
  lemma KeyOfNumber(month: string)
    requires month in MonthTable
    ensures var v := MonthTable[month];
      |v| == 2 && '0' <= v[0] <= '9' && '0' <= v[1] <= '9'
      && 1 <= PyStr.DecimalValue(v) <= 12 && MonthKeys[PyStr.DecimalValue(v) - 1] == month
  {
  }

  /** Every number "01".."12" is the image of some key. */
  lemma TableOnto(i: nat)
    requires 1 <= i <= 12
    ensures exists k :: SpanishMonthToNumber(k) == Some(PyStr.Digits(i, 2))
  {
    TableInCalendarOrder(i);
  }

  /** Every result is two digits denoting a month from 1 to 12. */
  lemma LookupIsMonthNumber(month: string)
    requires SpanishMonthToNumber(month).Some?
    ensures var v := SpanishMonthToNumber(month).value;
      |v| == 2 && (forall k :: 0 <= k < 2 ==> '0' <= v[k] <= '9')
      && 1 <= PyStr.DecimalValue(v) <= 12
  {
    var v := SpanishMonthToNumber(month).value;
    assert v[..1][..0] == [];
    assert v[..|v| - 1] == v[..1];
  }

  /**
   * The lookup is exact: only three lowercase ASCII letters can succeed, so
   * no case folding, truncation or trimming takes place.
   */
  lemma LookupIsExactMatch(month: string)
    requires SpanishMonthToNumber(month).Some?
    ensures |month| == 3 && forall k :: 0 <= k < 3 ==> 'a' <= month[k] <= 'z'
  {
  }

  /** Capitalised, spelt-out and padded forms of a key all miss. */
  lemma NearMissesFail()
    ensures SpanishMonthToNumber("Dic").None?
    ensures SpanishMonthToNumber("diciembre").None?
    ensures SpanishMonthToNumber(" dic").None?
  {
  }
}
