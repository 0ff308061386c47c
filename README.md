# co2signal, modelled in Dafny

co2signal is a desktop tray application. It shows the forecast carbon
intensity of the electricity grid for the current hour. At start-up it loads
its preferences (API token, zone, threshold) and a cached forecast. It fetches
a new forecast from the Electricity Map API when the cache is more than a day
old. A loop then wakes at every full hour. It finds the forecast entry for the
current UTC hour and sets the tray title to `CI: <intensity>`. The icon is
green when that intensity is below the threshold and coal otherwise. When no
entry matches, the title is `?`, and the program fetches and shows again.

This project models the program's logic in `src/main.go`:

- `clock.dfy` holds UTC calendar time as Go reports it and the instant it
  denotes (nanoseconds since the Unix epoch, unbounded). It also holds
  `AddDate(0, 0, 1)` and "the next full hour".
- `layout.dfy` is Go's `time.Parse` (as of Go 1.20) for the layout
  `2006-01-02T15:04:05.999Z`, followed chunk by chunk, together with
  `Format("2006-01-02T15")`, the hour key. It also has a formatter for the
  full layout, used as Parse's inverse.
- `decimal.dfy` holds digit strings and `%d`.
- `forecast.dfy` holds the forecast records and the parse pass
  `ParseForecastedCarbonIntensity`. That pass is a method writing into the
  forecast's backing array in place. A Go slice copied by value still shares
  its array, and `Snapshot.forecast` is that shared array.
- `display.dfy` is `displayCurrentStatus`: the scan for the first entry whose
  first 13 characters are the hour key, and the title and icon it yields.
- `schedule.dfy` holds the start-up expiry check, `updateCache`, and one turn
  of the hourly loop, as methods of a `Tray` class whose fields are the
  program's shared variables.

For a timestamp with the fixed shape `YYYY-MM-DDTHH:…`, the hour key of its
parsed time is exactly its first 13 characters (`Layout.HourKeyRoundTrip`). The
layout's `15` element also accepts a single digit, so `2018-11-26T7:00:00Z`
parses to 07:00 while its first 13 characters are `2018-11-26T7:`
(`Layout.OneDigitHour`). No such timestamp ever equals an hour key, whatever
the current time (`Display.ShortHourNeverHits`). An entry written that way
is never matched. If the current hour's entry is written so, the tray shows
`?` and fetches again.

The network fetch is the `fetched` parameter: the raw decoded dataset before
the parse pass. The clock is the `now` parameter.

## Model

| member | source | states |
|---|---|---|
| Layout.Parse | src/main.go:168-170 | every accepted timestamp is a well-formed calendar time (month 1-12, day within its month, hour < 24, minutes and seconds < 60, nanoseconds < 10^9) with a four-digit year |
| Layout.ParseOrZero | src/main.go:168-170 | the field the pass stores is always a well-formed time; a rejected string gives Go's zero time |
| Layout.ParseOfHeadShape | src/main.go:168-170 | on a string with the fixed-width front `dddd-dd-ddTdd:dd:dd`, Parse reads each field from its position and accepts exactly when the fraction and a final `Z` end the string and every field is in range |
| Layout.ParseOfShortHourShape | src/main.go:168-170 | the same with a one-digit hour `dddd-dd-ddTd:dd:dd`, which the layout's `15` also accepts |
| Layout.ParseSpelled | src/main.go:168-170 | a timestamp written as a well-formed time's fixed-width front, then `.` or `,` with one to nine digits worth its nanoseconds, then `Z`, parses to that time |
| Layout.ParseFormat | src/main.go:168-170 | the parser inverts the layout's formatter: Parse(Format(t)) == Some(t) for every well-formed t with a year in 0..9999 and whole milliseconds |
| Layout.FormatInjective | src/main.go:168-170 | on those times, formatting with the layout is injective |
| Layout.HourKeyRoundTrip | src/main.go:27-32 | for an accepted timestamp with a two-digit hour, the hour key of its parsed time is exactly its first 13 characters |
| Layout.OneDigitHour | src/main.go:27-32 | `2018-11-26T7:00:00Z` is accepted as 07:00, but its first 13 characters differ from that time's hour key `2018-11-26T07` |
| Layout.FormatHourShape | src/main.go:27 | `Layout.FormatHour`, Go's `Format("2006-01-02T15")` of a UTC time: for a well-formed time in years 0 to 9999 the hour key is 13 characters `dddd-dd-ddTdd` whose digit groups read back as the year, month, day and hour |
| Decimal.DecimalRoundTrip | src/main.go:33 | `Decimal.FormatDecimal`, Go's `%d`, writes an optional `-` and the digits without leading zeros; its output reads back as the same integer, negative numbers included |
| Decimal.DecimalInjective | src/main.go:33 | different integers print differently |
| Forecast.ParseForecastedCarbonIntensity | src/main.go:166-172 | the array now holds each old entry with its parsed time set from its own raw string; the returned record is the argument with the parsed update time, sharing the same array; the result satisfies the parsed-snapshot invariant |
| Forecast.ParseEntriesSpec | src/main.go:167-169 | `Forecast.ParseEntries`, the loop's effect as a function, applies `Forecast.ParseEntry` (set the parsed time from the entry's own string) to every entry: it keeps length, order, intensities and raw strings, and sets every parsed time from its own string |
| Forecast.ParseEntriesUnique | src/main.go:167-169 | any sequence with the same raw fields and every time parsed from its own string is the pass's result |
| Forecast.ParseEntriesIdempotent | src/main.go:166-172 | running the pass twice gives what running it once gives |
| Forecast.ParseFailureIsLocal | src/main.go:167-169 | a rejected string gives the zero time for that entry alone, and every other accepted entry still gets its parsed time |
| Forecast.LoadCache | src/main.go:191-199 | a failed read or decode gives the empty record with the zero time; a decoded record comes back through the parse pass; either way the result satisfies the invariant |
| Forecast.ParseScenario | src/main_test.go:10-54 | after the pass, the repository's DK-DK2 dataset keeps its zone, update string, first intensity and last raw string, and has the expected parsed times |
| Forecast.ScenarioTimes | src/main_test.go:40-52 | `2018-11-26T17:25:24.685Z` parses to 17:25:24.685 and `2018-11-28T17:00:00.000Z` to 17:00:00 on their dates |
| Display.FirstMatch | src/main.go:30-38 | the position found is a hit with no hit before it; no position means no entry hits |
| Display.DisplayCurrentStatus | src/main.go:26-39 | the in-place scan with `break` yields exactly `Display.SelectStatus`: the status of the first hit (`Display.StatusOf`: title `CI: ` and its intensity, green below the threshold and coal otherwise), or `?` with the coal icon |
| Display.FirstMatchWins | src/main.go:30-38 | when entry k hits and none before it does, the status is k's: title `CI: ` plus its intensity in decimal, whatever later entries say |
| Display.UnknownIffNoHit | src/main.go:28-39 | the title is `?` if and only if no entry hits the hour key, including for an empty forecast; with no hit the icon stays coal |
| Display.GreenIff | src/main.go:34-36 | the icon is green if and only if the first hit's intensity is strictly below the threshold |
| Display.TitleReadsBack | src/main.go:33 | a title other than `?` is `CI: ` followed by text that reads back as the first hit's intensity |
| Display.TitleInjective | src/main.go:33 | two intensities give the same title only when they are equal |
| Display.ScanSafeIff | src/main.go:30-32 | the scan's precondition holds exactly when every entry the scan reaches has at least 13 characters, which is when `DateTime[0:13]` cannot panic |
| Display.AllLongIsSafe | src/main.go:30-32 | a forecast whose strings all have at least 13 characters is safe to scan |
| Display.SelectStatusIgnoresParsedFields | src/main.go:30-33 | the scan reads only the intensities and raw strings, so the parse pass never changes what is shown |
| Display.ShortHourNeverHits | src/main.go:27-32 | a timestamp with a one-digit hour, which the layout accepts, never matches the hour key of any time in years 0 to 9999 |
| Display.HitIffSameHour | src/main.go:27-32 | for an accepted timestamp with a two-digit hour, the string comparison holds exactly when its parsed date and hour equal the current ones |
| Clock.InstantOrder | src/main.go:63 | `Clock.After`, Go's `t.After(u)`, compares `Instant`s; the instant order of well-formed times is their field-by-field calendar order `Clock.Before` |
| Clock.InstantInjective | src/main.go:63 | different well-formed times denote different instants |
| Clock.AddOneDayInstant | src/main.go:63 | `Clock.AddOneDay`, Go's `AddDate(0, 0, 1)` in UTC (the next day, rolling over into the next month and year), gives a well-formed time exactly 24 hours later, across month and year ends |
| Clock.NextHourMarkSpec | src/main.go:107-108 | `Clock.NextHourMark`, Go's `time.Date(year, month, day, hour+1, 0, 0, 0)` with its normalisation, is well-formed with zero minutes, seconds and nanoseconds; it is strictly after now, at most one hour later, and the first whole-hour instant after now |
| Schedule.ExpiredIff | src/main.go:63 | `Schedule.Expired(now, updated)`, i.e. `After(now, AddOneDay(updated))`, the start-up test: the refresh happens if and only if more than 24 hours have passed since the cache's update time |
| Schedule.ExpiredCalendar | src/main.go:63 | equivalently, the next day at the update's clock time comes strictly before now |
| Schedule.ZeroCacheExpired | src/main.go:59-69 | a cache with the zero update time (no cache file, or one that fails to decode or parse) is stale at any date from year 2 on |
| Schedule.Tray.constructor | src/main.go:56-76 | a stale cache is replaced by the fetched dataset after the parse pass; a fresh one is kept and the fetched data is left untouched; the tray shows the logo and `Loading`; the cache menu item is labelled with the update time; the cache satisfies the parsed-snapshot invariant |
| Schedule.Tray.UpdateCache | src/main.go:46-54 | the parsed fetched dataset becomes the cache and the menu item shows its update time; title and icon are untouched |
| Schedule.Tray.Tick | src/main.go:99-111 | the loop's title is the first evaluation's; the cache is refreshed exactly when that title is `?`, at most once, and the tray then shows the re-evaluation over the new cache; on a refresh the cache menu item's title and tooltip show the new update time; otherwise nothing is changed, the fetched data, menu title and tooltip included; the wake-up is the next full hour, strictly ahead and at most an hour away |

## Left out

- The tray itself (`systray` icons, titles, tooltips, menu items, click channels) and `open.Run` are foreign UI calls. The model returns or records what would be shown. The "Cache updated" labels are kept as fields, including the tooltip's literal text `cache.UpdatedAt`.
- The HTTP request (`GetDatasetFromRemote`) is network I/O. Its decoded result is the `fetched` parameter, and `RequestForecastedCarbonIntensity` is the parse pass applied to it.
- JSON decoding and the file reads and writes (`LoadJsonFile`, `SaveCache`, `LoadPreferences`, `SavePreferences`) are library I/O. `Forecast.LoadCache` takes the decode outcome as an `Option`, and `SaveCache` has no observable effect in the model.
- The two goroutines and their unsynchronised sharing of `cache` are concurrency. The menu's refresh is `UpdateCache`, and one turn of the update loop is `Tick`, each run on its own.
- Time zones and daylight saving time are not modelled. Every time is UTC. That is exact for the hour key, which Go formats in UTC. It is also exact for the expiry check: the parsed update time is UTC because the layout has no zone element (its `Z` is a literal, not `Z07:00`), `AddDate` keeps that zone, and `After` compares instants. Only the next-hour computation (src/main.go:107-108) uses Go's local zone, and there the model uses UTC.
- Go reads the clock again on each call to `displayCurrentStatus`, and again for the wake-up. The re-evaluation after a refresh comes after a fetch that can take up to 10 seconds, so the hour can roll over in between. `Tick` uses one `now` for the first evaluation, the re-evaluation and the wake-up. `time.Sleep` is not modelled, and `waiting` is the duration it would be given.
- A forecast entry shorter than 13 characters that the scan reaches makes `DateTime[0:13]` panic (src/main.go:31-32), which ends the whole process. The model does not represent the crash. `Display.DisplayCurrentStatus` and `Schedule.Tray.Tick` require `ScanSafe`, which rules it out, and `Display.ScanSafeIff` states exactly which forecasts it admits.
- `fmt.Printf` logging and the empty `onExit` have no effect on state.
- Go's `time.Time` also carries a location and a monotonic reading; the model's `Time` is the UTC calendar fields only.
- Go strings are byte strings and `[0:13]` slices bytes. The model's strings are character sequences, which is the same for the ASCII timestamps the API sends.
- Integers are unbounded. Go's `After` compares seconds since year 1 and then nanoseconds, so it cannot overflow for any time the program compares, the zero time included; `Clock.Instant` is the same order without bounds. The intensity is only compared and printed, never computed with.
- The repository names no Go release, and the model follows Go 1.20 and later. Releases before 1.17 accept only `.` before the fraction digits, where the model also accepts `,`. Releases before 1.20 reject a fraction of ten or more digits, where the model keeps the first nine and ignores the rest.
