/**
 * The helpers of the dashboard charts (src/components/DashboardCharts.tsx):
 * the height of the author bar chart, the colour of each bar, and the label
 * under each month of the daily line chart.
 */
module DashboardCharts {
  import opened Wrappers
  import opened Seqs
  import opened Text

  // ---------------------------------------------------------------------
  // The author chart (lines 9-12 and 45)

  /** `Math.max(150, data.length * 24)`: 24 pixels per author, never under 150. */
  function DynamicHeight(authors: nat): (h: nat)
    ensures h >= 150 && h >= 24 * authors
    ensures h == 150 || h == 24 * authors
  {
    if authors * 24 > 150 then authors * 24 else 150
  }

  /** Up to six authors the chart keeps its least height. */
  lemma DynamicHeightFloor(authors: nat)
    requires authors <= 6
    ensures DynamicHeight(authors) == 150
  {
  }

  /** From the seventh author on, each author adds 24 pixels. */
  lemma DynamicHeightGrows(authors: nat)
    requires authors >= 7
    ensures DynamicHeight(authors) == 24 * authors
    ensures DynamicHeight(authors + 1) == DynamicHeight(authors) + 24
  {
  }

  /** More authors never make the chart lower. */
  lemma DynamicHeightMonotone(m: nat, n: nat)
    requires m <= n
    ensures DynamicHeight(m) <= DynamicHeight(n)
  {
  }

  /** `COLORS` */
  const Colors: seq<string> := ["#60a5fa", "#34d399", "#a78bfa", "#f472b6", "#fbbf24"]

  /** `index % COLORS.length`: the colour of the bar at `index`. */
  function ColorIndex(index: nat): (k: nat)
    ensures k < |Colors|
    ensures index < |Colors| ==> k == index
  {
    index % |Colors|
  }

  /** The colours repeat every five bars. */
  lemma ColorPeriod(index: nat)
    ensures ColorIndex(index + |Colors|) == ColorIndex(index)
  {
  }

  /** Any five bars in a row have five different colours. */
  lemma ColorsDiffer(i: nat, j: nat)
    requires i < j < i + |Colors|
    ensures Colors[ColorIndex(i)] != Colors[ColorIndex(j)]
  {
    assert Distinct(Colors);
    var q := i / 5;
    assert i == 5 * q + i % 5;
    if j < 5 * q + 5 {
      assert j % 5 == j - 5 * q;
    } else {
      assert j % 5 == j - 5 * q - 5;
    }
  }

  // ---------------------------------------------------------------------
  // The month axis (lines 65-75)

  /** `s.split('-')[0]`: the year of a "YYYY-MM" value. */
  function YearOf(s: string): string {
    Split(s, '-')[0]
  }

  /**
   * The `tickFormatter` of the month axis for the tick at `index` showing
   * `value`, where `months[k]` is the `month` of the `k`-th entry ("" when it
   * has none). `None` stands for `undefined`, given when the value has no
   * month part after a '-'.
   */
  function TickLabel(months: seq<string>, value: string, index: nat): (r: Option<string>)
    ensures value == "" ==> r == Some("")
    ensures value != "" && index == 0 ==> r == Some(value)
  {
    if value == "" then Some("")
    else
      var parts := Split(value, '-');
      if index == 0 then Some(value)
      else
        var prev := if index - 1 < |months| then months[index - 1] else "";
        if prev != "" && YearOf(prev) != parts[0] then Some(value)
        else if |parts| >= 2 then Some(parts[1])
        else None
  }

  /** A value as the months of the daily chart have it: four digits, '-', two digits. */
  predicate YearMonth(s: string) {
    |s| == 7 && s[4] == '-'
    && IsDigit(s[0]) && IsDigit(s[1]) && IsDigit(s[2]) && IsDigit(s[3])
    && IsDigit(s[5]) && IsDigit(s[6])
  }

  /** A "YYYY-MM" value splits into its year and its month. */
  lemma SplitYearMonth(s: string)
    requires YearMonth(s)
    ensures Split(s, '-') == [s[..4], s[5..]]
    ensures YearOf(s) == s[..4]
  {
    var y, m := s[..4], s[5..];
    assert '-' !in y && '-' !in m;
    assert Join([y, m], "-") == y + "-" + Join([m], "-");
    assert s == y + "-" + m;
    SplitJoin([y, m], '-');
  }

  /**
   * On a chart whose months are "YYYY-MM", a tick shows the whole value at
   * the first entry and wherever the year differs from the entry before, and
   * only the month everywhere else.
   */
  lemma TickLabelYearMonth(months: seq<string>, index: nat)
    requires index < |months| && YearMonth(months[index])
    requires 0 < index ==> YearMonth(months[index - 1])
    ensures TickLabel(months, months[index], index) ==
      if index == 0 || months[index - 1][..4] != months[index][..4]
      then Some(months[index]) else Some(months[index][5..])
  {
    SplitYearMonth(months[index]);
    if index > 0 {
      SplitYearMonth(months[index - 1]);
    }
  }

  /** A value without '-' after an entry without a month has no month part to show. */
  lemma TickLabelUndefined(months: seq<string>, value: string, index: nat)
    requires value != "" && '-' !in value && 0 < index
    requires index - 1 >= |months| || months[index - 1] == ""
    ensures TickLabel(months, value, index) == None
  {
    SplitFree(value, '-');
  }
}
