/**
 * Building a weather history from the rows of a station's CSV file: every row is
 * type-checked field by field, the rows that fail are deleted from the table, and
 * the surviving rows are added in order to a fresh HistoricalWeather named after the
 * station of the first surviving row.
 *
 * A row is a sequence of fields (the line split at commas). The conversions float()
 * and int() are given as a pair of partial functions: the model does not fix how a
 * field is parsed, only what happens when it parses and when it does not.
 */
module Ingestion {
  import opened Wrappers
  import opened Dates
  import opened Lists
  import opened Weather

  // Column positions in a row.
  const Longitude := 0
  const Latitude := 1
  const StationName := 2
  const Year := 5
  const Month := 6
  const Day := 7
  const MaxTemp := 9
  const MinTemp := 11
  const MeanTemp := 13
  const TotalRain := 19
  const TotalRainFlag := 20
  const TotalSnow := 21
  const TotalSnowFlag := 22
  const TotalPrecip := 23
  const TotalPrecipFlag := 24

  /** The flag of an amount that was only a trace. */
  const TraceFlag: string := "T"

  /**
   * The outcome of reading a field: its value, a field that does not parse
   * (ValueError, which drops the row) or a field past the end of the row
   * (IndexError, which nothing catches).
   */
  datatype Cell<T> = Got(value: T) | Malformed | Missing
  {
    predicate IsFailure() {
      !Got?
    }

    function PropagateFailure<U>(): Cell<U>
      requires IsFailure()
    {
      if Malformed? then Malformed else Missing
    }

    function Extract(): T
      requires Got?
    {
      value
    }
  }

  /** The conversions float() and int(), None where they raise ValueError. */
  datatype Parsers = Parsers(parseFloat: string -> Option<real>, parseInt: string -> Option<int>)

  /** A row that passed every check, with its fields converted. */
  datatype Reading = Reading(longitude: real, latitude: real, station: string, date: Ymd, weather: DailyWeather)

  /** An entry of the table: a row as read, or the row after conversion. */
  datatype Line = Raw(fields: seq<string>) | Converted(reading: Reading)

  function FloatAt(row: seq<string>, i: nat, p: Parsers): (r: Cell<real>)
    ensures r.Missing? <==> |row| <= i
    ensures r.Got? <==> i < |row| && p.parseFloat(row[i]).Some?
    ensures r.Got? ==> r.value == p.parseFloat(row[i]).value
  {
    if |row| <= i then Missing
    else match p.parseFloat(row[i])
      case None => Malformed
      case Some(x) => Got(x)
  }

  function IntAt(row: seq<string>, i: nat, p: Parsers): (r: Cell<int>)
    ensures r.Missing? <==> |row| <= i
    ensures r.Got? <==> i < |row| && p.parseInt(row[i]).Some?
    ensures r.Got? ==> r.value == p.parseInt(row[i]).value
  {
    if |row| <= i then Missing
    else match p.parseInt(row[i])
      case None => Malformed
      case Some(x) => Got(x)
  }

  /**
   * An amount with its flag: the flag is looked at first, a trace becomes -1 and
   * anything else must parse as a float.
   */
  function AmountAt(row: seq<string>, value: nat, flag: nat, p: Parsers): (r: Cell<real>)
    requires value < flag
    ensures r.Missing? <==> |row| <= flag
    ensures flag < |row| && row[flag] == TraceFlag ==> r == Got(Trace)
    ensures flag < |row| && row[flag] != TraceFlag ==> r == FloatAt(row, value, p)
  {
    if |row| <= flag then Missing
    else if row[flag] == TraceFlag then Got(Trace)
    else FloatAt(row, value, p)
  }

  /** Whether an amount column is usable: flagged as a trace, or its value parses. */
  predicate AmountUsable(row: seq<string>, value: nat, flag: nat, p: Parsers)
    requires value < flag < |row|
  {
    row[flag] == TraceFlag || p.parseFloat(row[value]).Some?
  }

  /** The rows load_data keeps, stated field by field. */
  predicate Accepted(row: seq<string>, p: Parsers) {
    && |row| > TotalPrecipFlag
    && p.parseFloat(row[Longitude]).Some?
    && p.parseFloat(row[Latitude]).Some?
    && p.parseFloat(row[MeanTemp]).Some?
    && p.parseFloat(row[MaxTemp]).Some?
    && p.parseFloat(row[MinTemp]).Some?
    && p.parseInt(row[Year]).Some?
    && p.parseInt(row[Month]).Some?
    && p.parseInt(row[Day]).Some?
    && AmountUsable(row, TotalPrecip, TotalPrecipFlag, p)
    && AmountUsable(row, TotalSnow, TotalSnowFlag, p)
    && AmountUsable(row, TotalRain, TotalRainFlag, p)
  }

  /** The amount stored for a usable amount column: -1 for a trace, else the parsed value. */
  function AmountValue(row: seq<string>, value: nat, flag: nat, p: Parsers): real
    requires value < flag < |row| && AmountUsable(row, value, flag, p)
  {
    if row[flag] == TraceFlag then Trace else p.parseFloat(row[value]).value
  }

  /**
   * The checks of one row, in the order load_data makes them: the five floats,
   * the three integers of the date, then precipitation, snow and rain.
   */
  function ParseRow(row: seq<string>, p: Parsers): Cell<Reading>
  {
    var longitude :- FloatAt(row, Longitude, p);
    var latitude :- FloatAt(row, Latitude, p);
    var mean :- FloatAt(row, MeanTemp, p);
    var high :- FloatAt(row, MaxTemp, p);
    var low :- FloatAt(row, MinTemp, p);
    var year :- IntAt(row, Year, p);
    var month :- IntAt(row, Month, p);
    var day :- IntAt(row, Day, p);
    var precipitation :- AmountAt(row, TotalPrecip, TotalPrecipFlag, p);
    var snow :- AmountAt(row, TotalSnow, TotalSnowFlag, p);
    var rain :- AmountAt(row, TotalRain, TotalRainFlag, p);
    Got(Reading(longitude, latitude, row[StationName], Ymd(year, month, day),
                DailyWeather(mean, low, high, precipitation, rain, snow)))
  }

  /**
   * A row is kept exactly when every field it checks converts; only a row shorter
   * than 25 fields can run past its end; a trace flag becomes -1.
   */
  lemma ParseRowMeaning(row: seq<string>, p: Parsers)
    ensures var r := ParseRow(row, p);
      && (r.Got? <==> Accepted(row, p))
      && (r.Missing? ==> |row| <= TotalPrecipFlag)
      && (r.Got? ==>
        && r.value.station == row[StationName]
        && r.value.longitude == p.parseFloat(row[Longitude]).value
        && r.value.latitude == p.parseFloat(row[Latitude]).value
        && r.value.date == Ymd(p.parseInt(row[Year]).value, p.parseInt(row[Month]).value, p.parseInt(row[Day]).value)
        && r.value.weather.avgTemp == p.parseFloat(row[MeanTemp]).value
        && r.value.weather.lowTemp == p.parseFloat(row[MinTemp]).value
        && r.value.weather.highTemp == p.parseFloat(row[MaxTemp]).value
        && r.value.weather.precipitation == AmountValue(row, TotalPrecip, TotalPrecipFlag, p)
        && r.value.weather.snowfall == AmountValue(row, TotalSnow, TotalSnowFlag, p)
        && r.value.weather.rainfall == AmountValue(row, TotalRain, TotalRainFlag, p))
  {
  }

  /**
   * load_data's preconditions on a row: reading it never runs past its end, and a
   * kept row names a real calendar date.
   */
  predicate Loadable(row: seq<string>, p: Parsers) {
    var r := ParseRow(row, p);
    !r.Missing? && (r.Got? ==> IsValid(r.value.date))
  }

  /** The outcome of the checks of every row, in row order. */
  function Outcomes(rows: seq<seq<string>>, p: Parsers): (cs: seq<Cell<Reading>>)
    ensures |cs| == |rows|
  {
    seq(|rows|, i requires 0 <= i < |rows| => ParseRow(rows[i], p))
  }

  /** What the type-checking loop leaves at one position of the table. */
  function Convert(c: Cell<Reading>, row: seq<string>): Line {
    match c
    case Got(x) => Converted(x)
    case _ => Raw(row)
  }

  /** The readings of the rows that pass, in row order. */
  function Kept(cs: seq<Cell<Reading>>): (kept: seq<Reading>)
    ensures |kept| <= |cs|
    ensures kept == [] <==> forall i :: 0 <= i < |cs| ==> !cs[i].Got?
    ensures forall x :: x in kept ==> exists i :: 0 <= i < |cs| && cs[i] == Got(x)
    ensures forall i :: 0 <= i < |cs| && cs[i].Got? ==> cs[i].value in kept
  {
    if cs == [] then []
    else
      var front := Kept(cs[..|cs| - 1]);
      assert forall i :: 0 <= i < |cs| - 1 ==> cs[..|cs| - 1][i] == cs[i];
      match cs[|cs| - 1]
      case Got(x) => front + [x]
      case _ => front
  }

  lemma {:induction false} KeptAppend(a: seq<Cell<Reading>>, b: seq<Cell<Reading>>)
    ensures Kept(a + b) == Kept(a) + Kept(b)
    decreases |b|
  {
    if b == [] {
      assert a + b == a;
    } else {
      var b' := b[..|b| - 1];
      assert (a + b)[..|a + b| - 1] == a + b';
      assert (a + b)[|a + b| - 1] == b[|b| - 1];
      KeptAppend(a, b');
    }
  }

  // ---------------------------------------------------------------------------
  // _delete_specified_rows

  /** s without the elements at the positions in ds, the others in their order. */
  function Without<T>(s: seq<T>, ds: set<nat>): (r: seq<T>)
    ensures |r| <= |s|
  {
    if s == [] then []
    else Without(s[..|s| - 1], ds) + (if |s| - 1 in ds then [] else [s[|s| - 1]])
  }

  /** Deleting nothing within range leaves s as it is. */
  lemma {:induction false} WithoutNone<T>(s: seq<T>, ds: set<nat>)
    requires forall d :: d in ds ==> d >= |s|
    ensures Without(s, ds) == s
  {
    if s != [] {
      WithoutNone(s[..|s| - 1], ds);
    }
  }

  /**
   * Deleting one more position i below every position already deleted removes the
   * element at index i of what is left.
   */
  lemma {:induction false} WithoutOneMore<T>(s: seq<T>, ds: set<nat>, i: nat)
    requires i < |s|
    requires forall d :: d in ds ==> d > i
    ensures i < |Without(s, ds)|
    ensures Without(s, ds + {i}) == Without(s, ds)[..i] + Without(s, ds)[i + 1..]
  {
    var front := s[..|s| - 1];
    if i == |s| - 1 {
      WithoutNone(front, ds);
      WithoutNone(front, ds + {i});
      assert Without(s, ds) == s;
    } else {
      WithoutOneMore(front, ds, i);
    }
  }

  /** Position sets that agree below |s| delete the same elements. */
  lemma {:induction false} WithoutAgree<T>(s: seq<T>, ds: set<nat>, es: set<nat>)
    requires forall d :: d < |s| ==> (d in ds <==> d in es)
    ensures Without(s, ds) == Without(s, es)
  {
    if s != [] {
      WithoutAgree(s[..|s| - 1], ds, es);
    }
  }

  /** The positions held by positions[from..]. */
  function Positions(positions: seq<nat>, from: nat): set<nat> {
    set j | from <= j < |positions| :: positions[j]
  }

  /**
   * _delete_specified_rows: deletes the entries at the given positions, from the
   * highest position down so that the lower positions still point at their rows.
   */
  method DeleteSpecifiedRows<T>(main: seq<T>, positions: seq<nat>) returns (r: seq<T>)
    requires forall j :: 0 <= j < |positions| ==> positions[j] < |main|
    requires forall a, b :: 0 <= a < b < |positions| ==> positions[a] < positions[b]
    ensures r == Without(main, Positions(positions, 0))
  {
    r := main;
    WithoutNone(main, {});
    assert Positions(positions, |positions|) == {};
    for k := |positions| downto 0
      invariant r == Without(main, Positions(positions, k))
    {
      var done := Positions(positions, k + 1);
      assert forall d :: d in done ==> d > positions[k];
      WithoutOneMore(main, done, positions[k]);
      assert Positions(positions, k) == done + {positions[k]};
      r := r[..positions[k]] + r[positions[k] + 1..];
    }
  }

  // ---------------------------------------------------------------------------
  // load_data

  /** The positions of the rows that fail their checks. */
  function Failing(cs: seq<Cell<Reading>>): set<nat> {
    set i: nat | i < |cs| && !cs[i].Got?
  }

  /** The table after the type-checking loop. */
  function Table(cs: seq<Cell<Reading>>, rows: seq<seq<string>>): seq<Line>
    requires |cs| == |rows|
  {
    seq(|cs|, i requires 0 <= i < |cs| => Convert(cs[i], rows[i]))
  }

  /** The converted table entries of the readings rs, in order. */
  function Lines(rs: seq<Reading>): (ls: seq<Line>)
    ensures |ls| == |rs| && forall i :: 0 <= i < |rs| ==> ls[i] == Converted(rs[i])
  {
    if rs == [] then [] else Lines(rs[..|rs| - 1]) + [Converted(rs[|rs| - 1])]
  }

  /** Deleting the failing rows from the converted table leaves the kept readings. */
  lemma {:induction false} CompactedTable(cs: seq<Cell<Reading>>, rows: seq<seq<string>>)
    requires |cs| == |rows|
    ensures Without(Table(cs, rows), Failing(cs)) == Lines(Kept(cs))
  {
    if cs != [] {
      var n := |cs| - 1;
      CompactedTable(cs[..n], rows[..n]);
      CompactedLast(cs, rows);
      KeptLast(cs);
    }
  }

  /** The last row's part in the compacted table: its reading if it passes, nothing if not. */
  lemma CompactedLast(cs: seq<Cell<Reading>>, rows: seq<seq<string>>)
    requires |cs| == |rows| && cs != []
    ensures var n := |cs| - 1;
      Without(Table(cs, rows), Failing(cs))
      == Without(Table(cs[..n], rows[..n]), Failing(cs[..n])) + (if cs[n].Got? then [Converted(cs[n].value)] else [])
  {
    var n := |cs| - 1;
    var t, f := Table(cs, rows), Failing(cs);
    assert t[..n] == Table(cs[..n], rows[..n]);
    WithoutAgree(t[..n], f, Failing(cs[..n]));
    assert n in f <==> !cs[n].Got?;
  }

  /** The last cell's part in the kept readings, as table entries. */
  lemma KeptLast(cs: seq<Cell<Reading>>)
    requires cs != []
    ensures var n := |cs| - 1;
      Lines(Kept(cs)) == Lines(Kept(cs[..n])) + (if cs[n].Got? then [Converted(cs[n].value)] else [])
  {
    var n := |cs| - 1;
    if cs[n].Got? {
      var kept := Kept(cs[..n]) + [cs[n].value];
      assert Kept(cs) == kept;
      assert kept[..|kept| - 1] == Kept(cs[..n]);
    }
  }

  /** Every reading names a calendar date. */
  predicate DatesValid(rs: seq<Reading>) {
    forall i :: 0 <= i < |rs| ==> IsValid(rs[i].date)
  }

  /** The records after adding the readings in order (the first reading of a date wins). */
  function Built(rs: seq<Reading>): (m: map<Date, DailyWeather>)
    requires DatesValid(rs)
    ensures forall k :: k in m <==> exists i :: 0 <= i < |rs| && rs[i].date == k
  {
    if rs == [] then map[]
    else
      var last := rs[|rs| - 1];
      assert forall i :: 0 <= i < |rs| - 1 ==> rs[..|rs| - 1][i] == rs[i];
      Insert(Built(rs[..|rs| - 1]), last.date, last.weather)
  }

  /** The order in which the readings' dates were first added. */
  function BuiltOrder(rs: seq<Reading>): (ks: seq<Date>)
    requires DatesValid(rs)
    ensures Distinct(ks)
    ensures forall k :: k in ks <==> k in Built(rs)
  {
    if rs == [] then []
    else
      var last := rs[|rs| - 1];
      var front := rs[..|rs| - 1];
      assert DatesValid(front);
      var ks := BuiltOrder(front);
      if last.date in Built(front) then ks else ks + [last.date]
  }

  /** The records hold, for a date, the weather of the first reading of that date. */
  lemma {:induction false} FirstReadingWins(rs: seq<Reading>, i: nat)
    requires DatesValid(rs)
    requires i < |rs|
    requires forall j :: 0 <= j < i ==> rs[j].date != rs[i].date
    ensures rs[i].date in Built(rs) && Built(rs)[rs[i].date] == rs[i].weather
  {
    var front := rs[..|rs| - 1];
    assert DatesValid(front);
    if i < |rs| - 1 {
      assert front[i] == rs[i];
      FirstReadingWins(front, i);
    } else {
      assert rs[i].date !in Built(front) by {
        assert forall j :: 0 <= j < |front| ==> front[j] == rs[j];
      }
    }
  }

  /** The kept readings around a kept row: those before it, its own, those after it. */
  lemma KeptAround(cs: seq<Cell<Reading>>, i: nat)
    requires i < |cs| && cs[i].Got?
    ensures Kept(cs) == Kept(cs[..i]) + [cs[i].value] + Kept(cs[i + 1..])
  {
    assert Kept(cs[..i + 1]) == Kept(cs[..i]) + [cs[i].value] by {
      assert cs[..i + 1][..i] == cs[..i];
    }
    KeptAppend(cs[..i + 1], cs[i + 1..]);
    assert cs[..i + 1] + cs[i + 1..] == cs;
  }

  /**
   * A kept row whose date no earlier kept row has is what the built records hold
   * for that date.
   */
  lemma {:induction false} KeptRoundTrip(cs: seq<Cell<Reading>>, i: nat)
    requires i < |cs| && cs[i].Got?
    requires DatesValid(Kept(cs))
    requires forall j :: 0 <= j < i && cs[j].Got? ==> cs[j].value.date != cs[i].value.date
    ensures cs[i].value.date in Built(Kept(cs)) && Built(Kept(cs))[cs[i].value.date] == cs[i].value.weather
  {
    var x := cs[i].value;
    var before := Kept(cs[..i]);
    var kept := Kept(cs);
    KeptAround(cs, i);
    forall j | 0 <= j < |before|
      ensures kept[j].date != x.date
    {
      assert kept[j] == before[j] && before[j] in before;
      var k :| 0 <= k < i && cs[..i][k] == Got(before[j]);
      assert cs[k] == Got(before[j]);
    }
    assert kept[|before|] == x;
    FirstReadingWins(kept, |before|);
  }

  /** Under load_data's preconditions every kept row names a calendar date. */
  lemma KeptDatesValid(rows: seq<seq<string>>, p: Parsers)
    requires forall i :: 0 <= i < |rows| ==> Loadable(rows[i], p)
    ensures DatesValid(Kept(Outcomes(rows, p)))
  {
    var cs := Outcomes(rows, p);
    var kept := Kept(cs);
    forall i | 0 <= i < |kept|
      ensures IsValid(kept[i].date)
    {
      assert kept[i] in kept;
      var j :| 0 <= j < |cs| && cs[j] == Got(kept[i]);
      assert Loadable(rows[j], p);
    }
  }

  /**
   * load_data's type-checking loop: converts every row that passes in place and
   * collects, in ascending order, the positions of the rows that fail.
   */
  method CheckRows(rows: seq<seq<string>>, p: Parsers) returns (table: seq<Line>, toDelete: seq<nat>)
    ensures table == Table(Outcomes(rows, p), rows)
    ensures forall j :: 0 <= j < |toDelete| ==> toDelete[j] < |rows|
    ensures forall a, b :: 0 <= a < b < |toDelete| ==> toDelete[a] < toDelete[b]
    ensures Positions(toDelete, 0) == Failing(Outcomes(rows, p))
  {
    ghost var cs := Outcomes(rows, p);
    table := seq(|rows|, i requires 0 <= i < |rows| => Raw(rows[i]));
    toDelete := [];
    for n := 0 to |rows|
      invariant |table| == |rows|
      invariant forall i :: 0 <= i < n ==> table[i] == Convert(cs[i], rows[i])
      invariant forall i :: n <= i < |rows| ==> table[i] == Raw(rows[i])
      invariant forall j :: 0 <= j < |toDelete| ==> toDelete[j] < n
      invariant forall a, b :: 0 <= a < b < |toDelete| ==> toDelete[a] < toDelete[b]
      invariant forall i: nat :: i < n && !cs[i].Got? <==> i in toDelete
    {
      var parsed := ParseRow(rows[n], p);
      assert parsed == cs[n];
      if parsed.Got? {
        table := table[n := Converted(parsed.value)];
      } else {
        toDelete := toDelete + [n];
      }
    }
    assert Positions(toDelete, 0) == Failing(cs);
  }

  /** Building one more reading is adding its weather under its date. */
  lemma BuiltStep(rs: seq<Reading>, n: nat)
    requires DatesValid(rs) && n < |rs|
    ensures DatesValid(rs[..n]) && DatesValid(rs[..n + 1])
    ensures Built(rs[..n + 1]) == Insert(Built(rs[..n]), rs[n].date, rs[n].weather)
    ensures BuiltOrder(rs[..n + 1]) ==
      if rs[n].date in Built(rs[..n]) then BuiltOrder(rs[..n]) else BuiltOrder(rs[..n]) + [rs[n].date]
  {
    assert rs[..n + 1][..n] == rs[..n];
  }

  /** load_data's last loop: adds the weather of every entry of the compacted table to hw, in order. */
  method AddReadings(hw: HistoricalWeather, table: seq<Line>, ghost kept: seq<Reading>)
    requires hw.Valid() && hw.records == map[] && hw.order == []
    requires DatesValid(kept)
    requires |table| == |kept| && forall i :: 0 <= i < |table| ==> table[i] == Converted(kept[i])
    modifies hw
    ensures hw.Valid()
    ensures hw.records == Built(kept) && hw.order == BuiltOrder(kept)
  {
    for n := 0 to |table|
      invariant hw.Valid()
      invariant hw.records == Built(kept[..n]) && hw.order == BuiltOrder(kept[..n])
    {
      var reading := table[n].reading;
      BuiltStep(kept, n);
      hw.AddWeather(reading.date, reading.weather);
    }
    assert kept[..|table|] == kept;
  }

  /**
   * load_data, from the list of rows on: converts every row in place, deletes the
   * rows that failed, returns null when none is left, and otherwise adds every kept
   * row to a history named after the station of the first kept row, whose
   * coordinates are that row's (latitude, longitude).
   */
  method LoadData(rows: seq<seq<string>>, p: Parsers) returns (hw: HistoricalWeather?)
    requires forall i :: 0 <= i < |rows| ==> Loadable(rows[i], p)
    ensures hw == null <==> Kept(Outcomes(rows, p)) == []
    ensures hw != null ==>
      var kept := Kept(Outcomes(rows, p));
      && DatesValid(kept)
      && fresh(hw) && hw.Valid()
      && hw.name == kept[0].station
      && hw.coordinates == (kept[0].latitude, kept[0].longitude)
      && hw.records == Built(kept)
      && hw.order == BuiltOrder(kept)
  {
    ghost var cs := Outcomes(rows, p);
    var table, toDelete := CheckRows(rows, p);
    table := DeleteSpecifiedRows(table, toDelete);
    CompactedTable(cs, rows);
    ghost var kept := Kept(cs);
    assert |table| == |kept| && forall i :: 0 <= i < |table| ==> table[i] == Converted(kept[i]);
    KeptDatesValid(rows, p);

    if |table| == 0 {
      return null;
    }
    var first := table[0].reading;
    hw := new HistoricalWeather(first.station, (first.latitude, first.longitude));
    AddReadings(hw, table, kept);
  }
}
