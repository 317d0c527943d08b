/**
 * One location's weather history: the DailyWeather value, the per-location store
 * HistoricalWeather with its insertion and lookup, and its four queries (record high,
 * monthly average of the lows, longest run of precipitating days, share of snow).
 *
 * The store is a date-keyed map together with the sequence of its keys in insertion
 * order, which is the order in which the source's dict is iterated. The queries are
 * proved against the specification functions of this module, and the lemmas at the
 * end state what those functions mean.
 */
module Weather {
  import opened Wrappers
  import opened Dates
  import opened Lists

  /** The amount recorded for a "trace" of precipitation: non-zero but unmeasurable. */
  const Trace: real := -1.0

  /**
   * One day's weather: the average, minimum and maximum temperature (Celsius), the
   * total precipitation and rainfall (mm) and the snowfall (cm); an amount may be Trace.
   */
  datatype DailyWeather = DailyWeather(avgTemp: real, lowTemp: real, highTemp: real,
                                       precipitation: real, rainfall: real, snowfall: real)

  // ---------------------------------------------------------------------------
  // Insertion: first write wins

  /** The records after adding w on date d: a date that already has a record keeps it. */
  function Insert(m: map<Date, DailyWeather>, d: Date, w: DailyWeather): (r: map<Date, DailyWeather>)
    ensures r.Keys == m.Keys + {d}
    ensures r[d] == if d in m then m[d] else w
    ensures forall e :: e in m && e != d ==> r[e] == m[e]
  {
    if d in m then m else m[d := w]
  }

  // ---------------------------------------------------------------------------
  // Runs of precipitating days

  /** A day had precipitation if a positive amount or a trace was recorded. */
  predicate HadPrecipitation(w: DailyWeather) {
    w.precipitation > 0.0 || w.precipitation == Trace
  }

  predicate WetOn(m: map<Date, DailyWeather>, d: Date) {
    d in m && HadPrecipitation(m[d])
  }

  /**
   * The days walked forward one at a time from d while each is recorded and had
   * precipitation. The walk would overflow after LastDate, so LastDate must not be
   * a recorded day with precipitation.
   */
  function WetRun(m: map<Date, DailyWeather>, d: Date): seq<Date>
    requires !WetOn(m, LastDate)
    decreases MaxYear - d.year, 12 - d.month, 31 - d.day
  {
    if WetOn(m, d) then [d] + WetRun(m, NextDay(d)) else []
  }

  // ---------------------------------------------------------------------------
  // Totals of snow and rain

  datatype Quantity = Snow | Rain

  function Amount(w: DailyWeather, q: Quantity): real {
    match q
    case Snow => w.snowfall
    case Rain => w.rainfall
  }

  /** What one day adds to a total: a trace adds nothing. */
  function Counted(x: real): real {
    if x == Trace then 0.0 else x
  }

  predicate Covers(ks: seq<Date>, m: map<Date, DailyWeather>) {
    forall k :: k in ks ==> k in m
  }

  /** The total of quantity q over the records of the dates ks, traces excluded. */
  function Total(ks: seq<Date>, m: map<Date, DailyWeather>, q: Quantity): real
    requires Covers(ks, m)
  {
    if ks == [] then 0.0
    else
      assert forall k :: k in ks[..|ks| - 1] ==> k in ks;
      Total(ks[..|ks| - 1], m, q) + Counted(Amount(m[ks[|ks| - 1]], q))
  }

  /** total snowfall / (total snowfall + total rainfall). */
  ghost function SnowFraction(ks: seq<Date>, m: map<Date, DailyWeather>): real
    requires Covers(ks, m)
    requires Total(ks, m, Snow) + Total(ks, m, Rain) != 0.0
  {
    Total(ks, m, Snow) / (Total(ks, m, Snow) + Total(ks, m, Rain))
  }

  // ---------------------------------------------------------------------------
  // Monthly averages of the minimum temperature

  const MonthNames: seq<string> :=
    ["Jan", "Feb", "Mar", "Apr", "May", "Jun", "Jul", "Aug", "Sep", "Oct", "Nov", "Dec"]

  /** The dates ks that fall in month mo, in the order of ks, each as often as in ks. */
  function MonthKeys(ks: seq<Date>, mo: int): (mk: seq<Date>)
    ensures forall k :: k in mk <==> k in ks && k.month == mo
  {
    if ks == [] then []
    else
      var init, last := ks[..|ks| - 1], ks[|ks| - 1];
      assert ks == init + [last];
      MonthKeys(init, mo) + if last.month == mo then [last] else []
  }

  /** Each date of the month occurs in MonthKeys exactly as often as in ks. */
  lemma {:induction false} MonthKeysMultiplicity(ks: seq<Date>, mo: int)
    ensures forall k :: multiset(MonthKeys(ks, mo))[k] == if k.month == mo then multiset(ks)[k] else 0
  {
    if ks != [] {
      var init, last := ks[..|ks| - 1], ks[|ks| - 1];
      assert ks == init + [last];
      MonthKeysMultiplicity(init, mo);
    }
  }

  /**
   * The minimum temperatures of the dates ks that fall in month mo, in the order of ks
   * (one entry per such date: MonthLowsPerDate).
   */
  function MonthLows(ks: seq<Date>, m: map<Date, DailyWeather>, mo: int): (lows: seq<real>)
    requires Covers(ks, m)
    ensures |lows| == 0 <==> forall k :: k in ks ==> k.month != mo
    ensures forall x :: x in lows ==> exists k :: k in ks && k.month == mo && m[k].lowTemp == x
    ensures forall k :: k in ks && k.month == mo ==> m[k].lowTemp in lows
  {
    if ks == [] then []
    else
      var init, last := ks[..|ks| - 1], ks[|ks| - 1];
      assert ks == init + [last];
      assert forall k :: k in ks ==> k in init || k == last;
      MonthLows(init, m, mo) + if last.month == mo then [m[last].lowTemp] else []
  }

  /** The mean of a month's minimum temperatures, or None when no date falls in it. */
  function MonthMean(ks: seq<Date>, m: map<Date, DailyWeather>, mo: int): (r: Option<real>)
    requires Covers(ks, m)
    ensures r.None? <==> forall k :: k in ks ==> k.month != mo
  {
    var lows := MonthLows(ks, m, mo);
    if |lows| == 0 then None else Some(Sum(lows) / (|lows| as real))
  }

  // ---------------------------------------------------------------------------
  // The store

  class HistoricalWeather {
    const name: string
    /** (latitude, longitude) */
    const coordinates: (real, real)
    var records: map<Date, DailyWeather>
    /** The keys of records in insertion order. */
    var order: seq<Date>

    ghost predicate Valid()
      reads this
    {
      Distinct(order) && (forall k :: k in records <==> k in order)
    }

    /** percentage_snowfall's precondition: the counted snow and rain do not sum to zero. */
    ghost predicate HasMeasuredFall()
      reads this
      requires Valid()
    {
      Total(order, records, Snow) + Total(order, records, Rain) != 0.0
    }

    constructor (name: string, coordinates: (real, real))
      ensures this.name == name && this.coordinates == coordinates
      ensures records == map[] && order == []
      ensures Valid()
    {
      this.name := name;
      this.coordinates := coordinates;
      records := map[];
      order := [];
    }

    /** add_weather: record w on date d unless d already has a record. */
    method AddWeather(d: Date, w: DailyWeather)
      requires Valid()
      modifies this
      ensures Valid()
      ensures records == Insert(old(records), d, w)
      ensures order == if d in old(records) then old(order) else old(order) + [d]
    {
      for i := 0 to |order|
        invariant d !in order[..i]
      {
        if order[i] == d {
          return;
        }
      }
      assert order[..|order|] == order;
      records := records[d := w];
      order := order + [d];
    }

    /** retrieve_weather: the record of date d, or None if d was never recorded. */
    function RetrieveWeather(d: Date): (r: Option<DailyWeather>)
      reads this
      requires Valid()
      ensures r.Some? <==> d in order
      ensures r.Some? ==> r.value == records[d]
    {
      if d in records then Some(records[d]) else None
    }

    /** record_high: the highest maximum temperature recorded on this month and day in any year. */
    method RecordHigh(month: int, day: int) returns (high: real)
      requires Valid()
      requires exists k :: k in records && k.month == month && k.day == day
      ensures exists k :: k in records && k.month == month && k.day == day && records[k].highTemp == high
      ensures forall k :: k in records && k.month == month && k.day == day ==> records[k].highTemp <= high
    {
      var temps: seq<real> := [];
      for i := 0 to |order|
        invariant forall x :: x in temps ==>
          exists k :: k in records && k.month == month && k.day == day && records[k].highTemp == x
        invariant forall j :: 0 <= j < i && order[j].month == month && order[j].day == day ==>
          records[order[j]].highTemp in temps
      {
        var key := order[i];
        if key.month == month && key.day == day {
          temps := temps + [records[key].highTemp];
        }
      }
      var k0 :| k0 in records && k0.month == month && k0.day == day;
      assert k0 in order;
      high := Max(temps);
    }

    /**
     * monthly_average: for each month name Jan..Dec, the mean minimum temperature over
     * the recorded dates in that month in any year, or None if there are none.
     */
    method MonthlyAverage() returns (averages: map<string, Option<real>>)
      requires Valid()
      ensures forall k :: k in averages <==> k in MonthNames
      ensures forall mo :: 1 <= mo <= 12 ==> averages[MonthNames[mo - 1]] == MonthMean(order, records, mo)
    {
      MonthNamesDistinct();
      averages := map[];
      for mo := 1 to 13
        invariant forall k :: k in averages <==> k in MonthNames[..mo - 1]
        invariant forall j :: 1 <= j < mo ==> averages[MonthNames[j - 1]] == MonthMean(order, records, j)
      {
        var monthName := MonthNames[mo - 1];
        assert MonthNames[..mo] == MonthNames[..mo - 1] + [monthName];
        var lows := MinimaIn(mo);
        if |lows| > 0 {
          averages := averages[monthName := Some(Sum(lows) / (|lows| as real))];
        } else {
          averages := averages[monthName := None];
        }
      }
      assert MonthNames[..12] == MonthNames;
    }

    /** monthly_average's inner loop: the minimum temperatures recorded in month mo, in insertion order. */
    method MinimaIn(mo: int) returns (lows: seq<real>)
      requires Valid()
      ensures lows == MonthLows(order, records, mo)
    {
      lows := [];
      for i := 0 to |order|
        invariant lows == MonthLows(order[..i], records, mo)
      {
        assert order[..i + 1][..i] == order[..i];
        var key := order[i];
        if key.month == mo {
          lows := lows + [records[key].lowTemp];
        }
      }
      assert order[..|order|] == order;
    }

    /**
     * contiguous_precipitation: a recorded start date and the length of the longest run of
     * consecutive recorded days with precipitation walked from any recorded date; on a tie,
     * the first start in insertion order.
     */
    method ContiguousPrecipitation() returns (start: Date, count: nat)
      requires Valid()
      requires records != map[]
      requires !WetOn(records, LastDate)
      ensures start in records
      ensures count == |WetRun(records, start)|
      ensures forall k :: k in records ==> |WetRun(records, k)| <= count
      ensures exists i :: 0 <= i < |order| && order[i] == start &&
                          forall j :: 0 <= j < i ==> |WetRun(records, order[j])| < count
    {
      var starts, counts := RunsFromEachKey();
      assert |counts| > 0 by {
        var k0 :| k0 in records;
        assert k0 in order;
      }
      count := MaxNat(counts);
      var at := IndexOf(counts, count);
      start := starts[at];
      LongestRunBound(order, records, counts);
      assert order[at] == start;
    }

    /**
     * contiguous_precipitation's outer loop: every recorded date, in insertion order,
     * with the length of the run walked from it.
     */
    method RunsFromEachKey() returns (starts: seq<Date>, counts: seq<nat>)
      requires !WetOn(records, LastDate)
      ensures starts == order && |counts| == |order|
      ensures forall j :: 0 <= j < |order| ==> counts[j] == |WetRun(records, order[j])|
    {
      starts := [];
      counts := [];
      for i := 0 to |order|
        invariant starts == order[..i]
        invariant |counts| == i
        invariant forall j :: 0 <= j < i ==> counts[j] == |WetRun(records, order[j])|
      {
        var key := order[i];
        var n := RunLength(key);
        starts := starts + [key];
        counts := counts + [n];
      }
    }

    /**
     * contiguous_precipitation's inner loop: walks forward one day at a time from key
     * while the day is recorded and had precipitation, counting the days.
     */
    method RunLength(key: Date) returns (n: nat)
      requires !WetOn(records, LastDate)
      ensures n == |WetRun(records, key)|
    {
      var day := key;
      n := 0;
      while day in records && HadPrecipitation(records[day])
        invariant |WetRun(records, key)| == n + |WetRun(records, day)|
        decreases MaxYear - day.year, 12 - day.month, 31 - day.day
      {
        n := n + 1;
        day := NextDay(day);
      }
    }

    /**
     * percentage_snowfall: total snowfall / (total snowfall + total rainfall) over all
     * records, trace amounts not counted.
     */
    method PercentageSnowfall() returns (fraction: real)
      requires Valid()
      requires HasMeasuredFall()
      ensures fraction == Total(order, records, Snow) / (Total(order, records, Snow) + Total(order, records, Rain))
    {
      var snow, rain := 0.0, 0.0;
      for i := 0 to |order|
        invariant snow == Total(order[..i], records, Snow)
        invariant rain == Total(order[..i], records, Rain)
      {
        assert order[..i + 1][..i] == order[..i];
        var w := records[order[i]];
        if w.rainfall != Trace {
          rain := rain + w.rainfall;
        }
        if w.snowfall != Trace {
          snow := snow + w.snowfall;
        }
      }
      assert order[..|order|] == order;
      fraction := snow / (snow + rain);
    }
  }

  // ---------------------------------------------------------------------------
  // Lemmas

  /**
   * The walk from d: its days are consecutive, each is recorded with precipitation,
   * and the day after it is not.
   */
  lemma {:induction false} WetRunMeaning(m: map<Date, DailyWeather>, d: Date)
    requires !WetOn(m, LastDate)
    ensures var run := WetRun(m, d);
      && (|run| > 0 ==> run[0] == d)
      && (forall i :: 0 <= i < |run| ==> WetOn(m, run[i]))
      && (forall i :: 0 <= i < |run| - 1 ==> run[i] != LastDate && run[i + 1] == NextDay(run[i]))
      && (|run| == 0 ==> !WetOn(m, d))
      && (|run| > 0 ==> run[|run| - 1] != LastDate && !WetOn(m, NextDay(run[|run| - 1])))
    decreases MaxYear - d.year, 12 - d.month, 31 - d.day
  {
    if WetOn(m, d) {
      WetRunMeaning(m, NextDay(d));
    }
  }

  /**
   * The largest of the run lengths walked from the keys ks bounds every run from a
   * key, and the first position holding it is preceded only by shorter runs.
   */
  lemma LongestRunBound(ks: seq<Date>, m: map<Date, DailyWeather>, counts: seq<nat>)
    requires !WetOn(m, LastDate)
    requires |counts| == |ks| > 0
    requires forall j :: 0 <= j < |ks| ==> counts[j] == |WetRun(m, ks[j])|
    ensures forall k :: k in ks ==> |WetRun(m, k)| <= MaxNat(counts)
    ensures forall j :: 0 <= j < IndexOf(counts, MaxNat(counts)) ==> |WetRun(m, ks[j])| < MaxNat(counts)
  {
    var count := MaxNat(counts);
    forall k | k in ks
      ensures |WetRun(m, k)| <= count
    {
      var j :| 0 <= j < |ks| && ks[j] == k;
      assert counts[j] in counts;
    }
    forall j | 0 <= j < IndexOf(counts, count)
      ensures |WetRun(m, ks[j])| < count
    {
      assert counts[j] in counts && counts[j] != count;
    }
  }

  lemma MonthNamesDistinct()
    ensures |MonthNames| == 12 && Distinct(MonthNames)
  {
  }

  /** Totals are additive over concatenation of key lists. */
  lemma {:induction false} TotalAppend(a: seq<Date>, b: seq<Date>, m: map<Date, DailyWeather>, q: Quantity)
    requires Covers(a, m) && Covers(b, m)
    ensures Covers(a + b, m)
    ensures Total(a + b, m, q) == Total(a, m, q) + Total(b, m, q)
  {
    if b == [] {
      assert a + b == a;
    } else {
      var init := b[..|b| - 1];
      assert forall k :: k in init ==> k in b;
      TotalAppend(a, init, m, q);
      assert (a + b)[..|a + b| - 1] == a + init;
    }
  }

  /** Summing the same keys in another order gives the same total. */
  lemma {:induction false} TotalPermutation(a: seq<Date>, b: seq<Date>, m: map<Date, DailyWeather>, q: Quantity)
    requires Covers(a, m) && multiset(a) == multiset(b)
    ensures Covers(b, m)
    ensures Total(a, m, q) == Total(b, m, q)
    decreases |a|
  {
    assert Covers(b, m) by {
      forall k | k in b
        ensures k in m
      {
        assert k in multiset(b);
      }
    }
    if a == [] {
      assert |b| == |multiset(b)| == 0;
    } else {
      var init, x := a[..|a| - 1], a[|a| - 1];
      assert a == init + [x];
      assert x in multiset(b);
      var j := IndexOf(b, x);
      var before, after := b[..j], b[j + 1..];
      assert b == before + [x] + after;
      PermutationWithoutLast(a, b, j);
      assert Covers(init, m) by {
        assert forall k :: k in init ==> k in a;
      }
      TotalPermutation(init, before + after, m, q);
      TotalRemove(before, x, after, m, q);
      calc {
        Total(a, m, q);
        Total(init, m, q) + Counted(Amount(m[x], q));
        Total(before + after, m, q) + Counted(Amount(m[x], q));
        Total(before + [x] + after, m, q);
        Total(b, m, q);
      }
    }
  }

  /** Taking one key out of the middle of a key list takes its amount out of the total. */
  lemma TotalRemove(before: seq<Date>, x: Date, after: seq<Date>, m: map<Date, DailyWeather>, q: Quantity)
    requires Covers(before + [x] + after, m)
    ensures Covers(before + after, m)
    ensures Total(before + [x] + after, m, q) == Total(before + after, m, q) + Counted(Amount(m[x], q))
  {
    assert forall k :: k in before ==> k in before + [x] + after;
    assert forall k :: k in after ==> k in before + [x] + after;
    TotalAppend(before, after, m, q);
    TotalAppend(before, [x], m, q);
    TotalAppend(before + [x], after, m, q);
    assert [x][..0] == [];
  }

  /**
   * The totals depend only on which dates are recorded, not on the order in which
   * they were added: two duplicate-free key lists with the same elements agree.
   */
  lemma SameKeysSameTotal(a: seq<Date>, b: seq<Date>, m: map<Date, DailyWeather>, q: Quantity)
    requires Distinct(a) && Distinct(b) && (forall k :: k in a <==> k in b)
    requires Covers(a, m)
    ensures Covers(b, m)
    ensures Total(a, m, q) == Total(b, m, q)
  {
    forall x
      ensures multiset(a)[x] == multiset(b)[x]
    {
      DistinctMultiplicity(a, x);
      DistinctMultiplicity(b, x);
    }
    assert multiset(a) == multiset(b);
    TotalPermutation(a, b, m, q);
  }

  /** The record w with its amount of quantity q replaced by x. */
  function WithAmount(w: DailyWeather, q: Quantity, x: real): DailyWeather {
    match q
    case Snow => w.(snowfall := x)
    case Rain => w.(rainfall := x)
  }

  /** A trace amount adds exactly what an amount of zero adds: nothing. */
  lemma {:induction false} TraceCountsAsZero(ks: seq<Date>, m: map<Date, DailyWeather>, d: Date, w: DailyWeather, q: Quantity)
    requires Covers(ks, m)
    ensures Covers(ks, m[d := WithAmount(w, q, Trace)]) && Covers(ks, m[d := WithAmount(w, q, 0.0)])
    ensures Total(ks, m[d := WithAmount(w, q, Trace)], q) == Total(ks, m[d := WithAmount(w, q, 0.0)], q)
  {
    if ks != [] {
      assert forall k :: k in ks[..|ks| - 1] ==> k in ks;
      TraceCountsAsZero(ks[..|ks| - 1], m, d, w, q);
    }
  }

  /** Every recorded amount of q among the dates ks is a trace or a measurement of at least zero. */
  predicate MeasuredAtLeastZero(ks: seq<Date>, m: map<Date, DailyWeather>, q: Quantity)
    requires Covers(ks, m)
  {
    forall k :: k in ks ==> Amount(m[k], q) == Trace || Amount(m[k], q) >= 0.0
  }

  lemma {:induction false} TotalNonNegative(ks: seq<Date>, m: map<Date, DailyWeather>, q: Quantity)
    requires Covers(ks, m) && MeasuredAtLeastZero(ks, m, q)
    ensures Total(ks, m, q) >= 0.0
  {
    if ks != [] {
      assert forall k :: k in ks[..|ks| - 1] ==> k in ks;
      TotalNonNegative(ks[..|ks| - 1], m, q);
      assert ks[|ks| - 1] in ks;
    }
  }

  /** With no negative measurements, the share of snow is a fraction between 0 and 1. */
  lemma SnowFractionInUnitInterval(ks: seq<Date>, m: map<Date, DailyWeather>)
    requires Covers(ks, m)
    requires MeasuredAtLeastZero(ks, m, Snow) && MeasuredAtLeastZero(ks, m, Rain)
    requires Total(ks, m, Snow) + Total(ks, m, Rain) != 0.0
    ensures 0.0 <= SnowFraction(ks, m) <= 1.0
  {
    TotalNonNegative(ks, m, Snow);
    TotalNonNegative(ks, m, Rain);
    var s, r := Total(ks, m, Snow), Total(ks, m, Rain);
    DivideWithin(s, s + r, 0.0, 1.0);
  }

  /** The minimum temperatures of the dates ks, one per date, in the order of ks. */
  function LowsOf(ks: seq<Date>, m: map<Date, DailyWeather>): (lows: seq<real>)
    requires Covers(ks, m)
    ensures |lows| == |ks|
    ensures forall i :: 0 <= i < |ks| ==> lows[i] == m[ks[i]].lowTemp
  {
    if ks == [] then []
    else
      assert forall k :: k in ks[..|ks| - 1] ==> k in ks;
      LowsOf(ks[..|ks| - 1], m) + [m[ks[|ks| - 1]].lowTemp]
  }

  /**
   * A month's minimum temperatures are the lows of that month's dates, one per date and
   * in order: so the mean divides their sum by the number of such dates.
   */
  lemma {:induction false} MonthLowsPerDate(ks: seq<Date>, m: map<Date, DailyWeather>, mo: int)
    requires Covers(ks, m)
    ensures Covers(MonthKeys(ks, mo), m)
    ensures MonthLows(ks, m, mo) == LowsOf(MonthKeys(ks, mo), m)
  {
    if ks != [] {
      var init, last := ks[..|ks| - 1], ks[|ks| - 1];
      MonthLast(ks, m, mo);
      MonthLowsPerDate(init, m, mo);
      if last.month == mo {
        var keys := MonthKeys(init, mo) + [last];
        assert keys[..|keys| - 1] == MonthKeys(init, mo);
      }
    }
  }

  /** The last date of ks adds itself and its low to the month's lists when it falls in that month. */
  lemma MonthLast(ks: seq<Date>, m: map<Date, DailyWeather>, mo: int)
    requires Covers(ks, m) && ks != []
    ensures var init, last := ks[..|ks| - 1], ks[|ks| - 1];
      && Covers(init, m)
      && MonthKeys(ks, mo) == MonthKeys(init, mo) + (if last.month == mo then [last] else [])
      && MonthLows(ks, m, mo) == MonthLows(init, m, mo) + (if last.month == mo then [m[last].lowTemp] else [])
  {
    assert forall k :: k in ks[..|ks| - 1] ==> k in ks;
  }

  /** A month's mean minimum temperature lies within any bounds on that month's minimum temperatures. */
  lemma MonthMeanWithin(ks: seq<Date>, m: map<Date, DailyWeather>, mo: int, lo: real, hi: real)
    requires Covers(ks, m)
    requires forall k :: k in ks && k.month == mo ==> lo <= m[k].lowTemp <= hi
    ensures MonthMean(ks, m, mo).Some? ==> lo <= MonthMean(ks, m, mo).value <= hi
  {
    var lows := MonthLows(ks, m, mo);
    if |lows| > 0 {
      forall x | x in lows
        ensures lo <= x <= hi
      {
        var k :| k in ks && k.month == mo && m[k].lowTemp == x;
      }
      MeanWithin(lows, lo, hi);
    }
  }
}
