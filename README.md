# Caltrain departure board, modelled in Dafny

This project models `src/caltrain.py`, a small program that builds a per-station departure
board for Caltrain. The program reads two feeds. The station-metadata feed yields the station directory.
The vehicle-monitoring feed yields each vehicle's onward calls with aimed and expected departure
times. The program files every onward call as a train under its station and direction, then prints
one text block for each station whose name contains `"Mountain"`: the northbound trains, then the southbound trains, each sorted by aimed
departure and annotated with how late they are.

The model keeps the program's own shape:

- `Wrappers`: `Option` (Python's `None`) and `Result` (a raised exception).
- `Dicts`: Python's insertion-ordered `dict` with string keys. Assigning to an existing key keeps
  its position, and `values()` follows insertion order. Sort stability depends on this.
- `Feed`: the typed feed records, `StationEntry` and `Vehicle` with its `OnwardCall`s.
- `Text`: `s[:-k]`, `in` on strings, `"{x:w}"` padding, `str(n)` and `"\n".join`.
- `Time`: `convert_time`, meaning `strptime(s[:-4], "%Y-%m-%dT%H:%M")` with its field grammar
  and calendar check. It also holds naive-datetime subtraction and comparison, and the
  `%I:%M%p` clock text.
- `Trains`: the `Caltrain` record (a value, since it is never mutated), its lateness and its report line.
  It also holds the stable sort by aimed departure.
- `Stations`: the `CaltrainStation` class. Its two train dicts are fields that
  `clear_trains` and `parse_trains` reassign. `format_output` is a method that appends to a
  builder list.
- `Directory`: the station table as a value. It holds the functions that specify
  `parse_stations`, `clear_trains`, `parse_trains` and `print_output`, and the lemmas about them.
- `Timings`: the `CaltrainTimings` class. Its methods run the program's loops, and their
  postconditions tie the new state to the `Directory` functions.

Points of the program's behaviour that the model keeps:

- There is a single pass over the vehicle feed. The aimed departure comes from the onward call
  itself (line 108). Nothing else supplies aimed times.
- A vehicle is northbound only when `DirectionRef` equals `"North"` exactly.
- An onward call whose station is not in the directory raises `KeyError` (line 112). It is not
  skipped. The model returns `UnknownStation` and keeps the trains stored before it.
- Lateness is `timedelta.seconds // 60`, which wraps modulo one day. A train three minutes early
  shows as 1437 minutes late rather than on time.
- `dt.replace(tzinfo=utc)` on line 59 discards its result, so every datetime stays naive.
- Every stored train has an expected departure, because `parse_trains` always converts one.
  The `"?"` line is still modelled, since `format_output` handles it.

## Model

| member | source | states |
|---|---|---|
| `Dicts.Dict.Get` | src/caltrain.py:83 | `d.get(k)`: the value stored under `k`, or `None` when `k` is not a key |
| `Dicts.Dict.Put` | src/caltrain.py:83-84 | `d[k] = v` (also lines 120 and 122): the last write under `k` wins, every other key keeps its value, an existing key keeps its position and a new key goes at the end; validity is kept |
| `Dicts.Dict.Values` | src/caltrain.py:145-150 | `d.values()`: one value per key, the value of the i-th key in insertion order at position i |
| `Dicts.Empty` | src/caltrain.py:95-96 | `{}` (also lines 75 and 136-137): a valid dict with no keys, where every lookup gives `None` |
| `Text.Contains` | src/caltrain.py:79 | `sub in s`: some position of `s` starts a copy of `sub` (also the `"Mountain"` test of line 126) |
| `Text.DropLast` | src/caltrain.py:82 | `s[:-k]` is a prefix of `s` that is `k` characters shorter, or empty when `s` has fewer than `k` characters |
| `Text.PadRight` | src/caltrain.py:175 | `"{x:w}"` keeps the text, pads it with spaces up to width `w` and never truncates |
| `Text.NatToString` | src/caltrain.py:169 | the minute count is written as a decimal numeral without leading zeros whose value is the count |
| `Text.Join` | src/caltrain.py:152 | `"\n".join(builder)`: the lines with the separator between consecutive ones; `Stations.BlockLayout` states the lines it joins |
| `Time.ParseMinutes` | src/caltrain.py:57-58 | `datetime.strptime(p, "%Y-%m-%dT%H:%M")`: splits at the separators, reads each field by its directive's grammar and checks the calendar; the lemmas below state what it accepts and returns |
| `Time.ConvertTime` | src/caltrain.py:56-60 | `convert_time`: `ParseMinutes` of the text without its last four characters; `ConvertTimeIgnoresSuffix` and `ConvertTimeRoundTrip` state what it returns |
| `Time.ConvertTimeIgnoresSuffix` | src/caltrain.py:56-60 | `convert_time` depends only on the text before the last four characters |
| `Time.ShortTimestampFails` | src/caltrain.py:58 | a timestamp shorter than four characters leaves an empty prefix and fails |
| `Time.ParsedFields` | src/caltrain.py:57-58 | every text that parses is laid out as year `-` month `-` day `T` hour `:` minute, and its fields give the result |
| `Time.ParseMinutesOfFields` | src/caltrain.py:57-58 | a text laid out that way parses to whatever its fields parse to |
| `Time.ParseMinutesIff` | src/caltrain.py:57-58 | parsing succeeds iff every field is in its directive's language and the date exists |
| `Time.ParsedHasSeparator` | src/caltrain.py:57-58 | a text without the `T` separator never parses |
| `Time.LeapDayChecked` | src/caltrain.py:58 | for every year 1..9999, a `YYYY-02-29THH:MM` timestamp converts iff the year is a leap year, and then to 29 February of that year |
| `Time.LeapDayLayout` | src/caltrain.py:57-58 | the February 29 text is laid out as the directive fields of `%Y-%m-%dT%H:%M` |
| `Time.ConvertTimeRoundTrip` | src/caltrain.py:56-60 | `YYYY-MM-DDTHH:MM` followed by any four characters converts back to that date and minute, with seconds 0 |
| `Time.FormatLayout` | src/caltrain.py:57-58 | the `YYYY-MM-DDTHH:MM` text of a datetime is laid out as the directive fields of `%Y-%m-%dT%H:%M` |
| `Time.Before` | src/caltrain.py:142 | `a < b` on naive datetimes: the (year, month, day, hour, minute) tuples compared lexicographically |
| `Time.BeforeIsStrictTotalOrder` | src/caltrain.py:142 | comparing naive datetimes, the sort key, is a strict total order |
| `Time.Minutes` | src/caltrain.py:165 | minutes since 0000-12-31 00:00 (the day before ordinal 1), from Python's proleptic Gregorian ordinal; `MinutesOrder` ties it to datetime order |
| `Time.YearLength` | src/caltrain.py:165 | a year has 366 days if it is a leap year and 365 otherwise, as `_days_before_year` counts them |
| `Time.NextMultiple` | src/caltrain.py:165 | counting multiples of 4, 100 or 400 up to `y` adds one exactly when `y` is such a multiple |
| `Time.YearsAdvance` | src/caltrain.py:165 | every later year starts at least one whole year after year `y` starts |
| `Time.MonthLength` | src/caltrain.py:165 | each month starts where the previous one ends, and December ends with the year |
| `Time.MonthsAdvance` | src/caltrain.py:165 | every later month of the year starts no earlier than month `m` ends |
| `Time.OrdinalOrder` | src/caltrain.py:165 | an earlier date has a smaller ordinal |
| `Time.MinutesOrder` | src/caltrain.py:142-165 | `a < b` iff `Minutes(a) < Minutes(b)`, and `a == b` iff their minutes are equal, so the sort key and the subtraction order datetimes alike |
| `Time.Clock12` | src/caltrain.py:173-174 | `strftime(dt, "%I:%M%p")` on an hour and minute: always seven characters; `Clock12RoundTrip` states that it reads back as that hour and minute |
| `Time.Hour12` | src/caltrain.py:173 | `%I` is in 1..12 and agrees with the hour modulo 12 |
| `Time.Clock12RoundTrip` | src/caltrain.py:173-174 | the `%I:%M%p` text determines the 24-hour hour and minute it shows |
| `Time.LocalClock` | src/caltrain.py:172-174 | the clock text of the expected departure after the host's UTC offset is always seven characters |
| `Time.LocalClockShows` | src/caltrain.py:172-174 | the clock text reads back as the hour and minute of (seconds since 0000-12-31 00:00 of the expected departure + offset) modulo one day |
| `Time.WholeDays` | src/caltrain.py:172-174 | shifting by whole days leaves the time of day unchanged |
| `Trains.MinutesLate` | src/caltrain.py:165 | `(expected - aimed).seconds // 60` is always below 1440 |
| `Trains.DaySeconds` | src/caltrain.py:165 | the `seconds` field of a `timedelta` of whole minutes, divided by 60, is below 1440 |
| `Trains.SecondsOfDayInMinutes` | src/caltrain.py:165 | that count is the signed difference in minutes modulo 1440 |
| `Trains.WrapsBackward` | src/caltrain.py:165 | a difference of `-n` minutes, for `0 < n <= 1440`, gives `1440 - n` |
| `Trains.MinutesLateIsDifferenceModDay` | src/caltrain.py:165 | minutes late is the difference in minutes modulo 1440 |
| `Trains.OnTimeWhenExpectedIsAimed` | src/caltrain.py:165 | equal aimed and expected departures give 0 minutes late |
| `Trains.FiveMinutesLate` | src/caltrain.py:165 | an expected departure five minutes after the aimed one gives 5 minutes late |
| `Trains.LateWithinADay` | src/caltrain.py:165 | a delay of less than a day is reported exactly |
| `Trains.EarlyTrainWraps` | src/caltrain.py:165 | a train three minutes early is reported 1437 minutes late, not clamped to 0 |
| `Trains.LateMessage` | src/caltrain.py:166-171 | the annotation is `" (On time)"` iff minutes late is 0 |
| `Trains.LateMessageRoundTrip` | src/caltrain.py:166-171 | the annotation shows the number of minutes late, which can be read back from it |
| `Trains.TrainLine` | src/caltrain.py:162-175 | a train without an expected departure renders as exactly `"?"`; otherwise its line starts with its id |
| `Trains.TrainLineLayout` | src/caltrain.py:172-175 | a train line is the id padded to 5, the local clock text padded to 10, then the lateness annotation |
| `Trains.OnTimeLine` | src/caltrain.py:165-175 | a train leaving at its aimed time has a line ending in `" (On time)"` |
| `Trains.FiveMinutesLateLine` | src/caltrain.py:165-175 | a train expected five minutes late has a line ending in `" (5 minutes late)"` |
| `Trains.SortByAimed` | src/caltrain.py:142-150 | `sorted(values, key=aimed_departure)`: each train, in input order, is inserted after every sorted train that does not leave after it; `SortByAimedSpec` states the result |
| `Trains.SortByAimedSpec` | src/caltrain.py:142-150 | `sorted(..., key=aimed_departure)` is ordered by aimed departure, is a permutation, and keeps equal keys in input order |
| `Stations.DirectionLines` | src/caltrain.py:143-151 | one direction's lines: the placeholder when the dict is empty, then the train lines sorted by aimed departure |
| `Stations.BlockLines` | src/caltrain.py:139-151 | the builder list: the name with `:`, the northbound heading and lines, the southbound heading and lines |
| `Stations.Block` | src/caltrain.py:139-152 | `format_output`: the builder lines joined by newlines; `BlockLayout` states its shape |
| `Stations.TrainLineIsNotPlaceholder` | src/caltrain.py:143-146 | no train line is the `"No upcoming trains."` placeholder |
| `Stations.DirectionLayout` | src/caltrain.py:143-151 | a direction has `max(1, n)` lines; the placeholder appears iff it has no trains; otherwise the lines are its trains sorted by aimed departure |
| `Stations.BlockLayout` | src/caltrain.py:139-152 | a station block has `3 + max(1, nb) + max(1, sb)` lines: the name with `:`, `Northbound Trains:`, the northbound lines, `Southbound Trains:`, the southbound lines |
| `Stations.WithTrain` | src/caltrain.py:119-122 | storing a train changes only the dict of its direction, where it sits under its id |
| `Stations.CaltrainStation.constructor` | src/caltrain.py:132-137 | a new station has the given name and two empty train dicts |
| `Stations.CaltrainStation.AddTrain` | src/caltrain.py:119-122 | `northbound_trains[id] = t` or `southbound_trains[id] = t` updates the station in place as `WithTrain` says |
| `Stations.CaltrainStation.FormatOutput` | src/caltrain.py:139-152 | the text built from the builder list is the station's block |
| `Stations.CaltrainStation.AppendDirection` | src/caltrain.py:143-146 | appends the placeholder when the dict is empty, then the sorted train lines |
| `Stations.CaltrainStation.AppendTrains` | src/caltrain.py:145-146 | the loop appends one indented line per train, in order |
| `Directory.BuildTable` | src/caltrain.py:73-85 | `parse_stations`: entries in order, skipping names containing `"Station"` and keys already taken; the lemmas below state the result |
| `Directory.BuildTableWellFormed` | src/caltrain.py:75-84 | the built directory is a well-formed dict whose stations all start without trains |
| `Directory.BuildTableNames` | src/caltrain.py:79-81 | every station name ends in `" Station"` |
| `Directory.BuildTableNamesContainStation` | src/caltrain.py:79-81 | every stored name contains `"Station"`, the very text the filter rejects in raw names |
| `Directory.BuildTableKeys` | src/caltrain.py:77-84 | a key is in the directory iff some kept entry's id minus its last character is that key; skipped entries add no key |
| `Directory.BuildTableFirstWins` | src/caltrain.py:82-84 | the station under a key is built from the first kept entry with that key |
| `Directory.FirstKeptWithKey` | src/caltrain.py:82-84 | when some kept entry has a key, one of them is the first |
| `Directory.BuildTableOrigin` | src/caltrain.py:76-84 | every station comes from the first kept entry with its key; its name is that raw name, which lacks `"Station"`, plus `" Station"` |
| `Directory.BuildTableAppend` | src/caltrain.py:76-84 | a skipped or duplicate entry leaves the directory unchanged; a new kept key is appended at the end |
| `Directory.ClearAll` | src/caltrain.py:92-96 | after clearing, the keys, their order and every name are unchanged and both train dicts are empty |
| `Directory.ClearAllEmpties` | src/caltrain.py:92-96 | a cleared directory holds no train in any slot |
| `Directory.Visits` | src/caltrain.py:100-106 | the onward calls of all vehicles, vehicle by vehicle and call by call, in feed order |
| `Directory.IsNorthbound` | src/caltrain.py:104 | `"North" == DirectionRef` |
| `Directory.ApplyVisit` | src/caltrain.py:107-122 | one onward call: a conversion error, then an unknown station, raises; otherwise the train goes into its station's dict for its direction |
| `Directory.ApplyVisits` | src/caltrain.py:98-122 | `parse_trains` over the sequence of calls, stopping at the first error with the earlier writes kept |
| `Directory.CallsOf` | src/caltrain.py:106-111 | the inner loop visits each onward call of the vehicle once, in order, with both timestamps converted |
| `Directory.TrainOf` | src/caltrain.py:113-118 | the stored train carries the vehicle's id and an expected departure |
| `Directory.ApplyVisitFails` | src/caltrain.py:110-112 | one call fails iff its aimed time, then its expected time, then its station fails, with the first such error |
| `Directory.ApplyVisitStores` | src/caltrain.py:107-122 | a successful call changes only its station, storing its train under the vehicle id in the direction `"North" == DirectionRef` picks |
| `Directory.ApplyVisitOk` | src/caltrain.py:107-122 | a call whose two times converted and whose station is known stores its train under that station |
| `Directory.ApplyVisitGet` | src/caltrain.py:112-122 | after one call, the targeted slot holds the call's train and every other slot is unchanged |
| `Directory.ApplyVisitsSnoc` | src/caltrain.py:100-122 | the calls run in sequence and the first error stops the run |
| `Directory.ApplyVisitsLast` | src/caltrain.py:100-122 | a run that completes is the run of all but the last call followed by a successful last call |
| `Directory.ErrorSticks` | src/caltrain.py:110-112 | once a call has raised, later calls change nothing |
| `Directory.ApplyVisitsKeepsStations` | src/caltrain.py:100-122 | `parse_trains` never adds, removes, reorders or renames a station |
| `Directory.ApplyVisitsKeepsWellFormed` | src/caltrain.py:113-122 | every stored train sits under its own id and has an expected departure |
| `Directory.ApplyVisitsSucceeds` | src/caltrain.py:100-112 | `parse_trains` completes iff no call has a bad timestamp or an unknown station |
| `Directory.FirstErrorReported` | src/caltrain.py:100-112 | the error raised is that of the first bad call, and the trains stored before it remain |
| `Directory.LastWriteWins` | src/caltrain.py:100-122 | a slot (station, direction, vehicle id) holds the train of the last call that targets it, and that call's times parsed |
| `Directory.UntargetedSlotKept` | src/caltrain.py:100-122 | a slot that no call targets keeps what it held before the calls |
| `Directory.LastTarget` | src/caltrain.py:100-122 | when some call targets a slot, one of them is the last |
| `Directory.UpdateKeepsOnlyThisFeed` | src/caltrain.py:88-90 | after `update_trains` a slot holds a train iff some onward call of this feed targets it; nothing from an earlier feed remains |
| `Directory.VisitsAround` | src/caltrain.py:100-106 | the flat sequence of calls is the calls of earlier vehicles, then this vehicle's, then later ones' |
| `Directory.StopsInVehicle` | src/caltrain.py:100-112 | when an onward call of some vehicle raises, `parse_trains` ends with that error and the directory as the earlier calls left it |
| `Directory.Blocks` | src/caltrain.py:125-128 | the loop of `print_output` over some keys: a block for each station whose name contains `"Mountain"` |
| `Directory.Report` | src/caltrain.py:124-128 | `print_output`: `Blocks` over every key in dict order; `ReportLayout` states its shape |
| `Directory.ShownKeysSelect` | src/caltrain.py:125-127 | `print_output` selects exactly the stations whose name contains `"Mountain"` |
| `Directory.ShownKeysOrdered` | src/caltrain.py:125-128 | the selected stations keep the directory's order |
| `Directory.BlocksSnoc` | src/caltrain.py:125-128 | each loop step adds the station's block exactly when its name contains `"Mountain"` |
| `Directory.BlocksOfShown` | src/caltrain.py:125-128 | the blocks are those of the selected stations, one each, in order |
| `Directory.ReportLayout` | src/caltrain.py:124-128 | the report is one block per selected station, in directory order |
| `Timings.CaltrainTimings.constructor` | src/caltrain.py:70-71 | the new object's directory is the one `parse_stations` builds |
| `Timings.CaltrainTimings.ParseStations` | src/caltrain.py:73-85 | the loop builds fresh station objects whose state is the specified directory |
| `Timings.CaltrainTimings.ClearTrains` | src/caltrain.py:92-96 | the loop empties both train dicts of every station and changes nothing else |
| `Timings.CaltrainTimings.StoreVisit` | src/caltrain.py:107-122 | one onward call either raises with the directory unchanged or stores its train as specified |
| `Timings.CaltrainTimings.ParseTrains` | src/caltrain.py:98-122 | the nested loops leave the directory and error that the specified sequence of calls gives |
| `Timings.CaltrainTimings.UpdateTrains` | src/caltrain.py:88-90 | `update_trains` is the sequence of calls applied to the cleared directory |
| `Timings.CaltrainTimings.PrintOutput` | src/caltrain.py:124-128 | the blocks produced are the specified report |

## Left out

- `main` (src/caltrain.py:38-53): the HTTP requests, the JSON dumps and loads and the `debug` flag are I/O. The model takes the feeds as typed records.
- `load_stops` (src/caltrain.py:178-185) reads a file, swallows all exceptions and is never called.
- The JSON path navigation (`["Siri"]["ServiceDelivery"]…`, `["Contents"]["dataObjects"]…`) and the `KeyError` a missing field would raise are replaced by typed inputs.
- `to_localtime` reads the system clock and the host time zone. The model takes the offset as the parameter `offsetSeconds`, one offset for the whole report, while the program calls `to_localtime` for each train (line 172) and reads the clock again each time (lines 64-65).
- `Time.LocalClock`: models only the time of day after the offset. The `OverflowError` that `datetime` raises past year 9999 or before year 1 is not modelled.
- `%p` depends on the locale. The model uses the C locale's `AM`/`PM`.
- `Time.ParseMinutes`: digits are ASCII only, while Python's `\d` also accepts other Unicode decimal digits.
- The Python 2 `UTC` shim (src/caltrain.py:7-19) has no effect, because the `replace` call that would use it discards its result.
- The debug `print` calls in `Caltrain.format_output` are left out. `print_output` returns its blocks instead of printing them.
- The fields `nb_id` and `sb_id` are never used. `train_type` is stored but never displayed.
- Station objects are modelled as distinct objects under distinct keys. `parse_stations` creates a fresh object for every key, so no two keys alias.
