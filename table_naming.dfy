/** `getTableNameForToday` of src/index.ts: the name of the day's table,
    built from the local calendar date. The date is a parameter here; the
    source reads it from the process clock with `new Date()`. */
module TableNaming {
  import opened Numerals

  /** `Date.prototype.getMonth()`: 0 for January to 11 for December. */
  type Month0 = m: int | 0 <= m < 12

  /** `Date.prototype.getDate()`: the day of the month. */
  type DayOfMonth = d: int | 1 <= d <= 31 witness 1

  /** A local calendar date as the `Date` getters report it. */
  datatype LocalDate = LocalDate(year: int, month0: Month0, day: DayOfMonth)

  const TablePrefix: string := "exchange_"

  /** `exchange_${year}_${month}_${day}` with the one-based month and the day
      each padded to two digits. */
  function TableName(date: LocalDate): string
  {
    TablePrefix + IntToString(date.year) + "_" + Pad2(date.month0 + 1) + "_" + Pad2(date.day)
  }

  /** Where each field sits in the name: the prefix, the year's text, and a
      month and a day of exactly two digits each, each after an underscore,
      that read back as the one-based month and the day. */
  lemma TableNameLayout(date: LocalDate)
    ensures var r := TableName(date);
      |r| == |TablePrefix| + |IntToString(date.year)| + 6
      && r[..|TablePrefix|] == TablePrefix
      && r[|TablePrefix|..|r| - 6] == IntToString(date.year)
      && r[|r| - 6] == '_' && r[|r| - 3] == '_'
      && AllDigits(r[|r| - 5..|r| - 3], 10) && DigitsValue(r[|r| - 5..|r| - 3], 10) == date.month0 + 1
      && AllDigits(r[|r| - 2..], 10) && DigitsValue(r[|r| - 2..], 10) == date.day
  {
    Pad2Digits(date.month0 + 1);
    Pad2Digits(date.day);
    Slices(TablePrefix, IntToString(date.year), Pad2(date.month0 + 1), Pad2(date.day));
  }

  /** Slicing a name back into its parts. */
  lemma Slices(prefix: string, year: string, month: string, day: string)
    requires |month| == 2 && |day| == 2
    ensures var r := prefix + year + "_" + month + "_" + day;
      |r| == |prefix| + |year| + 6
      && r[..|prefix|] == prefix && r[|prefix|..|r| - 6] == year
      && r[|r| - 6] == '_' && r[|r| - 3] == '_'
      && r[|r| - 5..|r| - 3] == month && r[|r| - 2..] == day
  {
    var r := prefix + year + "_" + month + "_" + day;
    var n := |r|;
    assert r[..|prefix|] == prefix;
    assert r[|prefix|..n - 6] == year;
    assert r[n - 5..n - 3] == month;
    assert r[n - 2..] == day;
  }

  /** Distinct dates get distinct table names, so one day's rows never land
      in another day's table. */
  lemma TableNameInjective(d1: LocalDate, d2: LocalDate)
    requires TableName(d1) == TableName(d2)
    ensures d1 == d2
  {
    TableNameLayout(d1);
    TableNameLayout(d2);
    var r := TableName(d1);
    assert |IntToString(d1.year)| == |IntToString(d2.year)|;
    assert IntToString(d1.year) == r[|TablePrefix|..|r| - 6] == IntToString(d2.year);
    IntToStringInjective(d1.year, d2.year);
  }

  /** The name of 5 January 2024. */
  lemma TableNameExample()
    ensures TableName(LocalDate(2024, 0, 5)) == "exchange_2024_01_05"
  {
    assert IntToString(2024) == "2024" by {
      assert NatToString(2) == "2";
      assert NatToString(20) == "20";
      assert NatToString(202) == "202";
    }
    assert Pad2(1) == "01";
    assert Pad2(5) == "05";
  }
}
