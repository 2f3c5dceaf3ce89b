/** The integer arithmetic of the analytics screen
    (components/AnalyticsDashboard.tsx): time saved per search and its
    minutes-and-seconds display, the daily search figure, the annual
    projection and the colour of a breakdown row. JavaScript's `Math.floor`,
    `Math.ceil` and truncating `%` are written out over integers. */
module Analytics {
  import opened Fleet

  // ---------------------------------------------------------------------------
  // JavaScript integer arithmetic

  /** `Math.floor(a / b)` for a positive divisor. */
  function FloorDiv(a: int, b: int): (q: int)
    requires b > 0
    ensures q * b <= a < (q + 1) * b
  {
    a / b
  }

  /** `Math.ceil(a / b)` for a positive divisor. */
  function CeilDiv(a: int, b: int): (q: int)
    requires b > 0
    ensures (q - 1) * b < a <= q * b
  {
    -((-a) / b)
  }

  /** The quotient JavaScript's `%` pairs with: rounded toward zero. */
  function TruncDiv(a: int, b: int): int
    requires b > 0
  {
    if a >= 0 then a / b else -((-a) / b)
  }

  /** `a % b` in JavaScript: the remainder takes the sign of `a`. */
  function JsRem(a: int, b: int): (r: int)
    requires b > 0
    ensures -b < r < b
    ensures a >= 0 ==> r >= 0
    ensures a <= 0 ==> r <= 0
    ensures a == TruncDiv(a, b) * b + r
  {
    if a >= 0 then a % b
    else
      var q := (-a) / b;
      assert -a == q * b + (-a) % b;
      -((-a) % b)
  }

  // ---------------------------------------------------------------------------
  // Time saved per search

  /** Before the system a search took fifteen minutes. */
  const OldSearchMinutes: int := 15

  /** `timeSavedPerSearch`, in seconds. */
  function TimeSavedPerSearch(data: AnalyticsData): (saved: int)
    ensures saved + data.avgSearchTimeSeconds == OldSearchMinutes * 60
    ensures saved > 0 <==> data.avgSearchTimeSeconds < 900
  {
    OldSearchMinutes * 60 - data.avgSearchTimeSeconds
  }

  datatype MinSec = MinSec(minutes: int, seconds: int)

  /** The "N min M sec" figure: `Math.floor(t / 60)` and `Math.floor(t % 60)`. */
  function SplitSeconds(t: int): MinSec {
    MinSec(FloorDiv(t, 60), JsRem(t, 60))
  }

  /** For a non-negative time the display reads back exactly, with the
      seconds under a minute. */
  lemma SplitReadsBack(t: int)
    requires t >= 0
    ensures var d := SplitSeconds(t);
      d.minutes * 60 + d.seconds == t && 0 <= d.seconds < 60 && d.minutes >= 0
  {
  }

  /** When searches got slower than before, a time that is not whole
      minutes shows a minute too few: floored minutes and a truncated,
      negative remainder. */
  lemma NegativeSplitOffByAMinute(t: int)
    requires t < 0 && t % 60 != 0
    ensures var d := SplitSeconds(t);
      d.minutes * 60 + d.seconds == t - 60 && -60 < d.seconds < 0
  {
  }

  /** The saved time for a given average search, as shown. */
  lemma SavedTimeShown(data: AnalyticsData)
    requires 0 <= data.avgSearchTimeSeconds <= 900
    ensures var d := SplitSeconds(TimeSavedPerSearch(data));
      d.minutes * 60 + d.seconds + data.avgSearchTimeSeconds == 900
      && 0 <= d.seconds < 60 && 0 <= d.minutes <= 15
  {
    SplitReadsBack(TimeSavedPerSearch(data));
  }

  // ---------------------------------------------------------------------------
  // Daily searches

  /** `Math.ceil(totalSearches / 7)`: the per-day figure of a week's searches. */
  function DailySearches(data: AnalyticsData): (perDay: int)
    ensures 7 * (perDay - 1) < data.totalSearches <= 7 * perDay
  {
    CeilDiv(data.totalSearches, 7)
  }

  /** The daily figure is the least per-day count that covers the week's
      searches. */
  lemma DailySearchesLeast(data: AnalyticsData, n: int)
    requires data.totalSearches <= 7 * n
    ensures DailySearches(data) <= n
  {
  }

  // ---------------------------------------------------------------------------
  // Annual projection

  function AnnualSavings(data: AnalyticsData): int {
    data.costSavingsMonthly * 12
  }

  /** `toFixed(0)` of a non-negative number of thousands: the nearest whole
      thousand, a half rounding up. */
  function RoundThousands(x: nat): (n: nat)
    ensures 1000 * n <= x + 500 < 1000 * (n + 1)
  {
    (x + 500) / 1000
  }

  /** The projection as shown: a minus sign when negative (kept even on a
      zero, as `toFixed` does), then the rounded thousands. */
  datatype Thousands = Thousands(negative: bool, amount: nat)

  function AnnualDisplay(data: AnalyticsData): (shown: Thousands)
    ensures shown.negative <==> AnnualSavings(data) < 0
  {
    var v := AnnualSavings(data);
    if v < 0 then Thousands(true, RoundThousands(-v)) else Thousands(false, RoundThousands(v))
  }

  /** The signed value shown is the annual savings to the nearest thousand,
      halves rounding away from zero. */
  lemma AnnualDisplayNearest(data: AnalyticsData)
    ensures var shown := AnnualDisplay(data);
      var value := if shown.negative then -1000 * shown.amount else 1000 * shown.amount;
      var v := 12 * data.costSavingsMonthly;
      && (v >= 0 ==> value - 500 <= v < value + 500)
      && (v < 0 ==> value - 500 < v <= value + 500)
  {
  }

  // ---------------------------------------------------------------------------
  // Breakdown row colours

  const RowColors: map<string, string> :=
    map["blue" := "bg-blue-50", "purple" := "bg-purple-50", "orange" := "bg-orange-50", "green" := "bg-green-50"]

  const FallbackColor: string := "bg-gray-50"

  /** `colors[color] || 'bg-gray-50'`. */
  function RowColor(key: string): string {
    if key in RowColors then RowColors[key] else FallbackColor
  }

  /** The grey fallback shows exactly for the keys the table does not name,
      and the named keys each keep a colour of their own. */
  lemma RowColorFallback(key: string, other: string)
    ensures RowColor(key) == FallbackColor <==> key !in RowColors
    ensures key in RowColors && other in RowColors && key != other ==> RowColor(key) != RowColor(other)
  {
  }
}
