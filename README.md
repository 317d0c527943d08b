# Weather history store

A model of the WeatherAnalyzer weather store (`weather.py`). It covers three things:

- **One location's history.** `HistoricalWeather` holds `DailyWeather` records keyed by calendar date. It answers four queries: the record high for a day of the year, the monthly average of the minimum temperatures, the longest run of consecutive days with precipitation, and the share of snow in all snow and rain.
- **A country's locations.** `Country` maps location names to histories. It finds the location with the largest share of snow.
- **Loading a history.** `load_data` reads a history from the rows of a climate CSV file. It converts every field it needs, drops the rows that fail, and adds the rest in file order.

## Modules

| file | module | contents |
|---|---|---|
| `wrappers.dfy` | `Wrappers` | `Option`, Python's `None` or a value |
| `dates.dfy` | `Dates` | `Date`, the proleptic Gregorian dates of years 1 to 9999 (the range of Python's `date`), and `NextDay` (`d + timedelta(days=1)`) |
| `lists.dfy` | `Lists` | `max`, `list.index` and `sum` over sequences, with their arithmetic facts |
| `weather.dfy` | `Weather` | `DailyWeather`, the class `HistoricalWeather`, the functions that specify its queries, and lemmas about them |
| `country.dfy` | `Countries` | the class `Country` |
| `ingestion.dfy` | `Ingestion` | the checks on one row, `_delete_specified_rows` and `load_data` |

Python dicts are iterated in insertion order, and several queries depend on that order: ties in `contiguous_precipitation` and `snowiest_location`, and the order of summation. So each class keeps its dict as two fields:

- a `map`, which holds the contents;
- a `seq` of the keys in insertion order.

`Valid()` ties the two together: the keys are distinct and are exactly the map's keys. `Country.Valid()` also requires the source's representation invariant: every history is stored under its own name (`weather.py:380-381`).

Each query that the source computes with a loop is a method. Its postcondition ties the result to a specification function of the records, for example `Total`, `MonthLows`, `MonthMean`, `WetRun`, `SnowFraction`, `Kept`, `Built` or `Without`. The lemmas then state what those functions mean.

## Model

| member | source | states |
|---|---|---|
| `Dates.DaysInMonth` | weather.py:631-632 | the lengths of months that `date(year, month, day)` accepts: 28 to 31 days, and 29 exactly for February of a Gregorian leap year |
| `Dates.NextDay` | weather.py:307-317 | stepping a date forward by one day gives a later date; it is defined for every date except 9999-12-31, where Python overflows |
| `Dates.NextDayIsSuccessor` | weather.py:307-317 | no valid date lies strictly between a date and the day after it, so walking with `NextDay` skips no day |
| `Lists.Max` | weather.py:230 | `max` of a non-empty list is an element of the list and is at least every element |
| `Lists.MaxNat` | weather.py:320 | `max` of the non-empty list of run lengths is one of them and bounds them all |
| `Lists.IndexOf` | weather.py:321-322 | `list.index` gives the first position holding the value |
| `Lists.MeanWithin` | weather.py:268-272 | `sum(xs) / len(xs)` of a non-empty list whose values all lie in [lo, hi] also lies in [lo, hi] |
| `Weather.Insert` | weather.py:171-187 | after adding w on date d, d is recorded; an existing record of d is kept rather than overwritten; every other date keeps its record |
| `Weather.MonthKeys` | weather.py:265-266 | the dates the inner loop selects for a month: exactly the recorded dates that fall in that month, in insertion order |
| `Weather.MonthKeysMultiplicity` | weather.py:265-266 | every date of the month is selected exactly as often as it occurs among the keys (once, since dict keys are distinct), and no date of another month is selected |
| `Weather.MonthLows` | weather.py:264-267 | the collected minimum temperatures are empty exactly when no recorded date falls in the month; each one is the low of such a date, and every such date's low is among them |
| `Weather.LowsOf` | weather.py:265-267 | the minimum temperatures of a list of dates: one entry per date, in order, each being that date's low |
| `Weather.MonthLowsPerDate` | weather.py:264-272 | a month's collected minimum temperatures are exactly `LowsOf` the month's selected dates: one entry per recorded date of the month, in insertion order. So the average divides their sum by the number of the month's recorded dates, and equal lows on different dates are each counted |
| `Weather.MonthMean` | weather.py:268-272 | a month's average is None exactly when no recorded date falls in that month |
| `Weather.HistoricalWeather.constructor` | weather.py:138-151 | a new history has the given name and coordinates and no records |
| `Weather.HistoricalWeather.AddWeather` | weather.py:171-187 | the records become `Insert(old records, d, w)`: the first write to a date wins; a new date is appended to the insertion order, and a date already recorded leaves the order unchanged; the store stays valid |
| `Weather.HistoricalWeather.RetrieveWeather` | weather.py:189-202 | returns a record exactly when d has been recorded, and then it is d's record |
| `Weather.HistoricalWeather.RecordHigh` | weather.py:204-230 | the result is the maximum temperature of some record on that month and day, and no record on that month and day in any year has a higher maximum |
| `Weather.HistoricalWeather.MonthlyAverage` | weather.py:232-273 | the result's keys are exactly the twelve month names "Jan" to "Dec"; each month maps to the mean of its minimum temperatures in insertion order, or to None when the month has no record |
| `Weather.HistoricalWeather.MinimaIn` | weather.py:264-267 | the inner loop collects exactly the month's minimum temperatures, in insertion order |
| `Weather.HistoricalWeather.ContiguousPrecipitation` | weather.py:275-323 | the start date is recorded, and the count is the length of the run of consecutive days with precipitation walked from it; no run from any recorded date is longer; every recorded date earlier in insertion order starts a strictly shorter run |
| `Weather.HistoricalWeather.RunsFromEachKey` | weather.py:308-319 | the two lists pair every recorded date, in insertion order, with the length of the run walked from it |
| `Weather.HistoricalWeather.RunLength` | weather.py:311-317 | the while loop counts exactly the days of the run walked from the key |
| `Weather.HistoricalWeather.PercentageSnowfall` | weather.py:325-356 | the result is total snowfall / (total snowfall + total rainfall) over every record, with trace amounts left out |
| `Weather.HadPrecipitation` | weather.py:313-315 | a day had precipitation exactly when its precipitation is above 0 or is the trace value -1; `WetRunMeaning` and the while loop in `RunLength` use this rule |
| `Weather.WetRun` | weather.py:311-317 | the days walked forward from a date while each is recorded with precipitation. By `WetRunMeaning` they are consecutive wet days starting at that date, and the walk stops at the first day that is not one. By `RunLength` the while loop counts exactly these days |
| `Weather.Total` | weather.py:349-355 | the running total of snowfall or rainfall over the records, with traces skipped. It does not depend on the order of the records (`TotalPermutation`, `SameKeysSameTotal`), a trace adds what 0 adds (`TraceCountsAsZero`), and it is at least 0 when no amount is negative (`TotalNonNegative`). `PercentageSnowfall`'s loop computes exactly these totals |
| `Weather.SnowFraction` | weather.py:356 | total snowfall / (total snowfall + total rainfall). It lies in [0, 1] when no amount is negative (`SnowFractionInUnitInterval`); `PercentageSnowfall` returns it, and `Country.Percentage` is it for each location |
| `Weather.WetRunMeaning` | weather.py:279-284 | the run from d holds consecutive days, each recorded with precipitation (positive or a trace), starting at d; the day after its last day is not such a day |
| `Weather.LongestRunBound` | weather.py:320-323 | the largest run length bounds the run from every date, and every date before the first position holding it starts a strictly shorter run |
| `Weather.MonthNamesDistinct` | weather.py:237-239 | the month names are twelve distinct keys |
| `Weather.TotalAppend` | weather.py:349-356 | a total over two lists of dates is the sum of their totals |
| `Weather.TotalRemove` | weather.py:349-356 | removing one date from anywhere in the list takes exactly its counted amount out of the total |
| `Weather.TotalPermutation` | weather.py:349-356 | summing the same dates in any other order gives the same total |
| `Weather.SameKeysSameTotal` | weather.py:349-356 | two insertion orders of the same set of dates give the same total, so the share of snow does not depend on the order in which the days were added |
| `Weather.TraceCountsAsZero` | weather.py:332-333 | a trace amount contributes to the totals exactly what an amount of zero contributes |
| `Weather.TotalNonNegative` | weather.py:349-356 | when every amount is a trace or at least zero, the total is at least zero |
| `Weather.SnowFractionInUnitInterval` | weather.py:325-356 | when every amount is a trace or at least zero, the share of snow lies between 0 and 1 |
| `Weather.MonthMeanWithin` | weather.py:268-272 | a month's average minimum temperature lies within any bounds that hold for all of that month's minimum temperatures |
| `Countries.Country.constructor` | weather.py:387-396 | a new country has the given name and no locations |
| `Countries.Country.AddHistory` | weather.py:428-446 | a history is stored under its own name unless that name is already present, in which case nothing changes; a new name is appended to the insertion order; every location stays stored under its own name |
| `Countries.Country.RetrieveHistory` | weather.py:448-464 | returns a history exactly when the name is stored; it is the stored history itself, and its name is the name asked for |
| `Countries.Country.SnowiestLocation` | weather.py:466-503 | None exactly when there are no locations; otherwise, when some share is at least 0, a stored location whose share is the largest of all, with no location later in insertion order having that share; ("", 0.0) when every share is negative |
| `Countries.Country.RunningMaximum` | weather.py:493-502 | the loop's running maximum, which starts at ("", 0.0) and is replaced by every share at least as large; the result is the last location holding the largest share, or the initial pair if no share reaches 0 |
| `Countries.Country.ShareOf` | weather.py:498-501 | `percentage_snowfall` of the stored history is that location's share of snow |
| `Countries.Country.LastLargestShare` | weather.py:497-503 | the running maximum found at a position is at least every location's share, and strictly exceeds the share of every location after that position |
| `Countries.Country.EveryShareNegative` | weather.py:493-503 | when the initial ("", 0.0) survives the loop, every location's share is negative |
| `Ingestion.FloatAt` | weather.py:576-585 | reading a float field fails with IndexError exactly when the row is too short, and succeeds exactly when `float()` accepts the text; it then gives the parsed value |
| `Ingestion.IntAt` | weather.py:588-593 | reading an integer field fails with IndexError exactly when the row is too short, and succeeds exactly when `int()` accepts the text; it then gives the parsed value |
| `Ingestion.AmountAt` | weather.py:596-612 | an amount whose flag column says "T" is recorded as -1; otherwise the value column is parsed as a float; only a row too short for the flag column fails with IndexError |
| `Ingestion.ParseRow` | weather.py:574-614 | the `try` block of one row: the checks run in the source's order, and the first failing access decides between IndexError (row too short) and ValueError (row dropped). `ParseRowMeaning` states what it keeps and what it stores |
| `Ingestion.Accepted` | weather.py:574-612 | the acceptance rule stated field by field, not in check order. The row reaches column 24; longitude, latitude and the mean, maximum and minimum temperature parse as floats; year, month and day parse as integers; each of precipitation, snow and rain is flagged "T" or parses. `ParseRowMeaning` proves that `ParseRow` keeps exactly these rows |
| `Ingestion.ParseRowMeaning` | weather.py:573-614 | a row is kept exactly when its eleven checked fields all convert; only a row of at most 24 fields can raise IndexError; a kept row's reading holds the parsed fields, with a trace amount as -1 |
| `Ingestion.Kept` | weather.py:572-616 | the readings of the passing rows in file order: empty exactly when no row passes; each comes from a passing row, and every passing row contributes its reading |
| `Ingestion.KeptAppend` | weather.py:572-616 | the readings kept from two consecutive blocks of rows are those of the first block followed by those of the second |
| `Ingestion.KeptRoundTrip` | weather.py:572-634 | a passing row whose date no earlier passing row has ends up in the loaded records with exactly that row's weather |
| `Ingestion.DeleteSpecifiedRows` | weather.py:537-543 | the result is the list without the entries at the given positions, the others kept in order |
| `Ingestion.Without` | weather.py:541-543 | the list without the entries at a set of positions, the others in order. It is never longer than the list; it deletes nothing when no position is in range (`WithoutNone`); and it depends only on the positions in range (`WithoutAgree`). `DeleteSpecifiedRows` computes it |
| `Ingestion.WithoutOneMore` | weather.py:542-543 | deleting a position below every position already deleted removes the element at that same index of what remains, which is why deleting from the highest position down is correct |
| `Ingestion.CompactedTable` | weather.py:572-616 | after the failing rows are deleted, the table holds exactly the converted rows that passed, in file order |
| `Ingestion.CheckRows` | weather.py:572-614 | the checking loop converts every passing row in place; it lists the positions of exactly the failing rows, in ascending order |
| `Ingestion.KeptDatesValid` | weather.py:631-632 | under `load_data`'s preconditions every kept row names a calendar date |
| `Ingestion.Built` | weather.py:626-633 | the records built from the kept readings have as keys exactly the readings' dates |
| `Ingestion.BuiltOrder` | weather.py:626-633 | the insertion order built from the kept readings has no repeats and holds exactly the keys of the built records |
| `Ingestion.FirstReadingWins` | weather.py:626-633 | for a date, the built records hold the weather of the first reading of that date |
| `Ingestion.AddReadings` | weather.py:626-633 | adding every kept reading to an empty history gives exactly the built records, in the built insertion order |
| `Ingestion.LoadData` | weather.py:546-634 | the result is null exactly when no row passes; otherwise it is a new, valid history named after the station of the first kept row, with that row's (latitude, longitude) and exactly the records built from the kept rows in file order |

## Left out

- Reading the file is not modelled. `LoadData` takes the rows already split into fields. The guard `line != '' or line != '\n'` (`weather.py:567`) is always true, so it drops nothing and has no counterpart.
- `float()` and `int()` are not modelled. They are given to `LoadData` as the two functions of a `Parsers` value, which return None where Python raises ValueError.
- The header row is not treated specially. As in the source, it is dropped only because its fields fail to convert.
- Ingestion.LoadData: two uncaught exceptions become its precondition `Loadable` instead of error results. These are an IndexError on a row too short for a field it reaches, and the ValueError of `date()` for a kept row whose year, month and day are not a calendar date. The source does not handle either of them.
- Ingestion.ParseRow: it checks a row all at once. The source converts the fields of a row in place, one by one, so a failing row is left partly converted. Such a row is then deleted, so no result depends on it.
- Ingestion.DeleteSpecifiedRows: it requires the positions to be in range and strictly ascending, which is what `load_data`, its only caller, passes. It does not model `sorted(..., reverse=True)` on arbitrary input, and it returns a new sequence instead of deleting in place.
- Weather.HistoricalWeather.ContiguousPrecipitation: it requires that 9999-12-31 is not a recorded day with precipitation. For that date, the source's `dummy_key += one_day` raises OverflowError.
- Weather.HistoricalWeather.ContiguousPrecipitation: on a tie it states which start date is returned, the first in insertion order. The docstring allows any of the tied dates.
- Weather.HistoricalWeather.PercentageSnowfall: its precondition `HasMeasuredFall` is the absence of the source's ZeroDivisionError, that is, counted snow and rain do not sum to zero. The docstring's precondition, some day with positive snow or rain, implies it only when no amount is negative.
- Weather.HistoricalWeather.RecordHigh: the returned temperature is a real, where the source's annotation says `int`.
- Countries.Country.RunningMaximum: it computes each location's share once. The source calls `percentage_snowfall` a second time when a location wins, and that call returns the same value, because nothing changes in between.
- `snowiest_location`'s `(None, None)` is modelled as `None`.
- `DailyWeather`'s representation invariant is not enforced by the datatype (the amounts are at least -1, and low <= average <= high). The lemmas that need non-negative amounts take that as a hypothesis (`MeasuredAtLeastZero`).
- Python floats are modelled as exact reals. No rounding is modelled.
- The month names come from a fixed table instead of `date(2000, month, 20).strftime('%b')`, which gives the same names in the C locale.
- `retrieve_weather` and `retrieve_history` return the stored objects. The model does not track aliasing beyond returning the stored reference.
- `__str__`, `generate_summary` and `load_country` are not modelled. They format text, print it, and walk a directory of files.
