/** The two history views. The single-fuel view (`precios_promedio`) keeps the history rows of
    one fuel dated within the last 14 days; the comparative view (`evolucion_precios` and
    `comparativa_evolucion_precios`, which are the same code) keeps every row dated within the
    last `days` days and summarises them as one mean price per fuel, fuels in ascending order.
    `pd.to_datetime(..., errors='coerce')` is a parameter from the date text to a timestamp in
    seconds (`None` for NaT), and `datetime.now()` is the parameter `now`. */
module Trend {
  import opened Wrappers
  import opened Seqs
  import opened Text
  import opened Stats
  import opened Ledger

  /** `timedelta(days=1)` in seconds. */
  const Day: int := 86400

  /** The fixed window of the single-fuel view. */
  const SingleFuelDays: nat := 14

  /** `hist["Fecha"] >= datetime.now() - timedelta(days=days)`: the full timestamps are
      compared, and NaT compares false. */
  predicate InWindow(e: Entry, parse: string -> Option<int>, now: int, days: nat)
    ensures InWindow(e, parse, now, days) ==> parse(e.fecha).Some?
    ensures parse(e.fecha).Some? && parse(e.fecha).value < now - days * Day ==> !InWindow(e, parse, now, days)
    ensures parse(e.fecha).Some? && parse(e.fecha).value >= now - days * Day ==> InWindow(e, parse, now, days)
  {
    var t := parse(e.fecha);
    t.Some? && t.value >= now - days * Day
  }

  datatype SingleView = NotEnoughData | Series(points: seq<Entry>)

  /** One row of `groupby("Combustible")["Precio Medio"].mean()`. */
  datatype FuelMean = FuelMean(combustible: string, precioMedio: Option<real>)

  datatype ComparativeView = NoDataYet | Comparison(points: seq<Entry>, summary: seq<FuelMean>)

  /** `precios_promedio`: the chosen fuel's rows of the last 14 days, in history order, or the
      "not enough data" message when there is none. */
  function SingleFuelTrend(hist: seq<Entry>, fuel: string, parse: string -> Option<int>, now: int): (v: SingleView)
    ensures v.NotEnoughData? <==>
      forall i :: 0 <= i < |hist| ==> hist[i].combustible != fuel || !InWindow(hist[i], parse, now, SingleFuelDays)
    ensures v.Series? ==> forall e :: e in v.points <==>
      e in hist && e.combustible == fuel && InWindow(e, parse, now, SingleFuelDays)
    ensures v.Series? ==> forall e ::
      multiset(v.points)[e] == (if e.combustible == fuel && InWindow(e, parse, now, SingleFuelDays) then multiset(hist)[e] else 0)
    ensures v.Series? ==> forall i, j :: 0 <= i < j < |v.points| ==> Before(hist, v.points[i], v.points[j])
  {
    var selected := (e: Entry) => e.combustible == fuel && InWindow(e, parse, now, SingleFuelDays);
    var points := Filter(hist, selected);
    FilterEmpty(hist, selected);
    FilterCounts(hist, selected);
    FilterOrdered(hist, selected);
    if points == [] then
      NotEnoughData
    else
      Series(points)
  }

  /** Python's ascending string order, without repetitions. */
  predicate StrictlyAscending(s: seq<string>) {
    forall i, j :: 0 <= i < j < |s| ==> LexLess(s[i], s[j])
  }

  /** A strictly ascending sequence names each string once. */
  lemma AscendingDistinct(s: seq<string>)
    requires StrictlyAscending(s)
    ensures Distinct(s)
  {
    forall i, j | 0 <= i < j < |s| ensures s[i] != s[j] {
      LexIrreflexive(s[i]);
    }
  }

  /** Some row of `points` is for `fuel`. */
  ghost predicate HasFuel(points: seq<Entry>, fuel: string) {
    exists e :: e in points && e.combustible == fuel
  }

  function InsertFuel(f: string, s: seq<string>): seq<string> {
    if s == [] then [f]
    else if f == s[0] then s
    else if LexLess(f, s[0]) then [f] + s
    else [s[0]] + InsertFuel(f, s[1..])
  }

  lemma {:induction false} InsertFuelFacts(f: string, s: seq<string>)
    requires StrictlyAscending(s)
    ensures StrictlyAscending(InsertFuel(f, s))
    ensures forall g :: g in InsertFuel(f, s) <==> g == f || g in s
  {
    var r := InsertFuel(f, s);
    if s == [] {
    } else if f == s[0] {
    } else if LexLess(f, s[0]) {
      forall i, j | 0 <= i < j < |r| ensures LexLess(r[i], r[j]) {
        if i == 0 && j > 1 {
          LexTransitive(f, s[0], s[j - 1]);
        }
      }
    } else {
      LexTotal(f, s[0]);
      assert StrictlyAscending(s[1..]);
      InsertFuelFacts(f, s[1..]);
      var tail := InsertFuel(f, s[1..]);
      forall i, j | 0 <= i < j < |r| ensures LexLess(r[i], r[j]) {
        if i == 0 {
          assert r[j] == tail[j - 1];
          assert r[j] == f || r[j] in s[1..];
        }
      }
    }
  }

  /** The group keys: every fuel with a row, once each, ascending. */
  function FuelsIn(points: seq<Entry>): (r: seq<string>)
    ensures StrictlyAscending(r)
    ensures Distinct(r)
    ensures forall g :: g in r <==> HasFuel(points, g)
  {
    if points == [] then []
    else
      var rest := FuelsIn(points[1..]);
      InsertFuelFacts(points[0].combustible, rest);
      AscendingDistinct(InsertFuel(points[0].combustible, rest));
      assert forall e :: e in points <==> e == points[0] || e in points[1..];
      InsertFuel(points[0].combustible, rest)
  }

  /** The `Precio Medio` values of one fuel's rows. */
  function FuelPrices(points: seq<Entry>, fuel: string): seq<Option<real>> {
    MapSeq(Filter(points, (e: Entry) => e.combustible == fuel), (e: Entry) => e.precioMedio)
  }

  /** `groupby("Combustible")["Precio Medio"].mean()`: one row per fuel present, fuels
      ascending, each holding the NaN-skipping mean of that fuel's prices. */
  function GroupMeans(points: seq<Entry>): (summary: seq<FuelMean>)
    ensures forall i, j :: 0 <= i < j < |summary| ==> LexLess(summary[i].combustible, summary[j].combustible)
    ensures forall i, j :: 0 <= i < j < |summary| ==> summary[i].combustible != summary[j].combustible
    ensures forall g :: HasFuel(points, g) <==> exists k :: 0 <= k < |summary| && summary[k].combustible == g
    ensures forall k :: 0 <= k < |summary| ==>
      summary[k].precioMedio == MeanKnown(FuelPrices(points, summary[k].combustible))
  {
    var fuels := FuelsIn(points);
    var summary := MapSeq(fuels, (f: string) => FuelMean(f, MeanKnown(FuelPrices(points, f))));
    assert forall g :: g in fuels ==> exists k :: 0 <= k < |summary| && summary[k].combustible == g;
    summary
  }

  /** `evolucion_precios` / `comparativa_evolucion_precios`: the rows of the window, in history
      order, and one summary row per fuel present in them, fuels ascending, holding the NaN-
      skipping mean of that fuel's prices in the window; or the "no data yet" message when the
      window is empty. */
  function ComparativeTrend(hist: seq<Entry>, parse: string -> Option<int>, now: int, days: nat): (v: ComparativeView)
    ensures v.NoDataYet? <==> forall i :: 0 <= i < |hist| ==> !InWindow(hist[i], parse, now, days)
    ensures v.Comparison? ==> forall e :: e in v.points <==> e in hist && InWindow(e, parse, now, days)
    ensures v.Comparison? ==> forall e ::
      multiset(v.points)[e] == (if InWindow(e, parse, now, days) then multiset(hist)[e] else 0)
    ensures v.Comparison? ==> forall i, j :: 0 <= i < j < |v.points| ==> Before(hist, v.points[i], v.points[j])
    ensures v.Comparison? ==> forall i, j :: 0 <= i < j < |v.summary| ==>
      LexLess(v.summary[i].combustible, v.summary[j].combustible)
    ensures v.Comparison? ==> forall g :: HasFuel(v.points, g) <==>
      exists k :: 0 <= k < |v.summary| && v.summary[k].combustible == g
    ensures v.Comparison? ==> forall k :: 0 <= k < |v.summary| ==>
      v.summary[k].precioMedio == MeanKnown(FuelPrices(v.points, v.summary[k].combustible))
  {
    var inWindow := (e: Entry) => InWindow(e, parse, now, days);
    var points := Filter(hist, inWindow);
    FilterEmpty(hist, inWindow);
    FilterCounts(hist, inWindow);
    FilterOrdered(hist, inWindow);
    if points == [] then NoDataYet else Comparison(points, GroupMeans(points))
  }

  /** The single-fuel view is the comparative view over 14 days restricted to that fuel. */
  lemma SingleFuelIsSlice(hist: seq<Entry>, fuel: string, parse: string -> Option<int>, now: int)
    requires SingleFuelTrend(hist, fuel, parse, now).Series?
    ensures ComparativeTrend(hist, parse, now, SingleFuelDays).Comparison?
    ensures SingleFuelTrend(hist, fuel, parse, now).points ==
      Filter(ComparativeTrend(hist, parse, now, SingleFuelDays).points, (e: Entry) => e.combustible == fuel)
  {
    var inWindow := (e: Entry) => InWindow(e, parse, now, SingleFuelDays);
    var isFuel := (e: Entry) => e.combustible == fuel;
    var both := (e: Entry) => e.combustible == fuel && InWindow(e, parse, now, SingleFuelDays);
    FilterFilter(hist, inWindow, isFuel, both);
    var e :| e in SingleFuelTrend(hist, fuel, parse, now).points;
    assert e in Filter(hist, inWindow);
  }

  /** A fuel's mean over the window lies between its lowest and highest known price there. */
  lemma GroupMeanWithin(points: seq<Entry>, fuel: string, lo: real, hi: real)
    requires forall e :: e in points && e.combustible == fuel && e.precioMedio.Some? ==>
      lo <= e.precioMedio.value <= hi
    ensures MeanKnown(FuelPrices(points, fuel)).Some? ==> lo <= MeanKnown(FuelPrices(points, fuel)).value <= hi
  {
    var selected := Filter(points, (e: Entry) => e.combustible == fuel);
    var prices := FuelPrices(points, fuel);
    forall i | 0 <= i < |prices| && prices[i].Some? ensures lo <= prices[i].value <= hi {
      assert selected[i] in selected;
    }
    MeanWithin(prices, lo, hi);
  }

  /** Two days of one fuel inside a 30-day window: both rows are charted, in history order, and
      the summary holds one mean, 1.51. */
  lemma TwoDaysOneFuel(parse: string -> Option<int>, now: int)
    requires parse("2024-01-01").Some? && parse("2024-01-01").value >= now - 30 * Day
    requires parse("2024-01-02").Some? && parse("2024-01-02").value >= now - 30 * Day
    ensures var hist := [Entry("2024-01-01", "A", Some(1.5)), Entry("2024-01-02", "A", Some(1.52))];
      ComparativeTrend(hist, parse, now, 30) == Comparison(hist, [FuelMean("A", Some(1.51))])
  {
    var hist := [Entry("2024-01-01", "A", Some(1.5)), Entry("2024-01-02", "A", Some(1.52))];
    var inWindow := (e: Entry) => InWindow(e, parse, now, 30);
    assert hist[1..][1..] == [];
    assert Filter(hist, inWindow) == hist;
    TwoDaysSummary(hist);
  }

  lemma TwoDaysSummary(hist: seq<Entry>)
    requires hist == [Entry("2024-01-01", "A", Some(1.5)), Entry("2024-01-02", "A", Some(1.52))]
    ensures GroupMeans(hist) == [FuelMean("A", Some(1.51))]
  {
    assert hist[1..][1..] == [];
    assert FuelsIn(hist[1..]) == ["A"];
    assert FuelsIn(hist) == ["A"];
    var isA := (e: Entry) => e.combustible == "A";
    assert Filter(hist, isA) == hist;
    var prices := FuelPrices(hist, "A");
    assert prices == [Some(1.5), Some(1.52)];
    assert prices[1..] == [Some(1.52)] && prices[1..][1..] == [];
    assert KnownSum(prices[1..][1..]) == 0.0 && KnownCount(prices[1..][1..]) == 0;
    assert KnownCount(prices[1..]) == 1 && KnownSum(prices[1..]) == 1.52;
    assert KnownCount(prices) == 2 && KnownSum(prices) == 3.02;
  }

  /** As written, the window compares whole timestamps: a row dated exactly on the window's
      first day is left out once the current time of day is later than the row's midnight. */
  lemma WindowByTimestamp(e: Entry, parse: string -> Option<int>, now: int, days: nat)
    requires parse(e.fecha) == Some(now - days * Day - 1)
    ensures !InWindow(e, parse, now, days)
  {
  }
}
