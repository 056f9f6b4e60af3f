# holidate, modelled in Dafny

holidate is a small Rust command-line tool and library. It lists the next N
public holidays of a country, from a reference date onwards, using the Nager.Date
web API (`https://date.nager.at/api/v3/publicholidays/{year}/{country}`). The
library function `next_holidays` pages through calendar years. It starts at
the reference date's year and fetches that year's full holiday list. It keeps
the holidays dated on or after the reference date, appends them to an
accumulator and moves on to the next year. Once it holds at least N holidays,
it cuts the list to exactly N. If any request fails, the whole call fails.

The project has three modules:

- `Decimal` (`decimal.dfy`): how `format!` writes the `i32` year into the URL. An
  optional `-` is followed by digits without leading zeros. A reading function
  and a round-trip lemma come with it.
- `Holidate` (`holidate.dfy`, src/lib.rs) has these parts:
  - the data shapes `HolidayType`, `Holiday` and `Error`;
  - the null-to-empty rule for `counties` (`DeserializeNullDefault`, `DecodeHoliday`);
  - the URL builder `UriFor`;
  - the page source `GetHolidaysCached`, as written: one request, no cache;
  - the pagination loop `NextHolidays`, as a `method` with a `while` loop.

  The loop is proved against a specification function. `Collected(source,
  country, relativeTo, n)` is what the first `n` years add up to: each year's
  page, filtered to the reference date, appended in year order. If a page
  fails, it is the first error instead.
- `Cli` (`cli.dfy`, src/main.rs): `comma_sep` as the recursive `CommaSep`, with
  the counties column of a printed holiday built from it.

The page source is a parameter `source: (int, string) -> Result<seq<Holiday>>`.
`HttpPages(transport)` turns the library's own `get_holidays_cached` into such
a source. It does this on top of an abstract `transport: string -> Fetch`,
which stands for the HTTP GET, the status check and the JSON decoding.
Dates are `(year, month, day)` triples compared lexicographically.

Termination. The Rust loop only stops once enough holidays have come in or a
page has failed. Pages shorter than the quantity still end the run once they
add up. The loop runs for ever only if no page fails and, from some year on,
every filtered page is empty, so the total never reaches the quantity.
`NextHolidays` therefore takes a ghost `horizon` and requires
`Settled(..., horizon)`, which says the run has stopped within `horizon` years.
Its results thus hold for every run that terminates. No bound and no extra
error are added to the behaviour. The ghost out-parameter `queried` records
the years that were asked for.

## Model

| member | source | states |
|---|---|---|
| `Decimal.NatToDecimal` | src/lib.rs:44 | the year's digits: at least one, all decimal digits, and a leading '0' only for zero |
| `Decimal.DecimalRoundTrip` | src/lib.rs:44 | reading the written digits back gives the original number |
| `Decimal.IntToDecimal` | src/lib.rs:44 | `{year}` is non-empty, contains no '/', and starts with '-' exactly for negative years |
| `Decimal.IntToDecimalInjective` | src/lib.rs:44 | distinct years are written differently |
| `Holidate.DeserializeNullDefault` | src/lib.rs:60-67 | a present list passes through unchanged; the result is empty exactly when the value was null or an empty list |
| `Holidate.DecodeHoliday` | src/lib.rs:17-24 | date, name and types are copied; `counties` is the present list, or empty when null, so it is never absent |
| `Holidate.DecodeAll` | src/lib.rs:53 | a JSON array decodes element by element, with length and order kept |
| `Holidate.UriFor` | src/lib.rs:43-45 | the URL is the fixed API base, then the decimal year, then '/' at the position right after the year, then the country code verbatim (no case change); the length is the sum of the four parts |
| `Holidate.UriForInjective` | src/lib.rs:43-45 | two pages share a URL only if both year and country code are equal |
| `Holidate.GetHolidaysCached` | src/lib.rs:47-55 | one request to `UriFor(year, country)`; it fails exactly when the transport fails, the error is never `UnknownCountry`, and on success the page is the decoded body |
| `Holidate.HttpPages` | src/lib.rs:47-55 | the page source `next_holidays` calls at src/lib.rs:34: a page never fails with `UnknownCountry`, it fails exactly when the transport fails for that year's URL, and a successful page is the decoded body of that URL's answer |
| `Holidate.Retain` | src/lib.rs:35 | the filtered page is no longer than the page; a holiday is kept exactly when it is on the page and dated on or after the reference date |
| `Holidate.RetainAppend` | src/lib.rs:35 | filtering keeps page order: filtering a concatenation is the concatenation of the filtered parts |
| `Holidate.RetainLaterYear` | src/lib.rs:35 | a page lying wholly in a later year than the reference date is kept whole |
| `Holidate.Truncate` | src/lib.rs:39 | the result is the prefix of length min(len, n) |
| `Holidate.Collected` | src/lib.rs:31-38 | the loop's accumulator after `n` years: empty after none; an error needs at least one year asked; on success, every page from the reference date's year up to year + n - 1 succeeded |
| `Holidate.Outcome` | src/lib.rs:39-40 | truncate and return: an error is passed on unchanged; on success the list is a prefix of the accumulator, at most `quantity` long, and exactly `quantity` long when the accumulator held at least that many |
| `Holidate.SettledMonotone` | src/lib.rs:33-38 | once the loop's stop condition (an error, or enough holidays) holds, it holds for every later year count |
| `Holidate.CollectedPrefix` | src/lib.rs:31-38 | collecting more years only extends the earlier collection: earlier years come first, in the same order |
| `Holidate.CollectedOnOrAfter` | src/lib.rs:35-36 | every collected holiday is dated on or after the reference date |
| `Holidate.CollectedAvoids` | src/lib.rs:34 | an error that no page produces is never the outcome: errors come only from the page source |
| `Holidate.NoUnknownCountry` | src/lib.rs:47-55 | with the page source as written, `next_holidays` never fails with `UnknownCountry` |
| `Holidate.RetainSorted` | src/lib.rs:35 | filtering a date-ordered page leaves it date-ordered |
| `Holidate.AppendYearSorted` | src/lib.rs:36 | appending a sorted page of a later year to a sorted accumulator keeps it sorted |
| `Holidate.CollectedSorted` | src/lib.rs:31-38 | if every page holds its own year's holidays in date order, the collection is in date order and lies in the years asked for; no sorting is done by the loop itself |
| `Holidate.OutcomeSorted` | src/lib.rs:39-40 | under the same condition on pages, the returned list is in date order |
| `Holidate.FirstYearShort` | src/lib.rs:31-39 | a first year with too few holidays is topped up from the second year's filtered page, in page order, and the run stops after two years |
| `Holidate.ContributingYearsGrow` | src/lib.rs:33-37 | when every year from the reference date's year on yields at least one holiday, `n` years collect at least `n` holidays without error |
| `Holidate.ContributingYearsSettle` | src/lib.rs:33-37 | under the same condition the loop's stop condition holds after `quantity` years: short pages add up and end the run |
| `Holidate.NextHolidays` | src/lib.rs:26-41 | years are asked for consecutively from the reference date's year, each once, within the horizon. Asking stops at the first year count after which a page has failed or enough holidays are in. The result is that collection cut to `quantity`, or the failing page's error, so no partial list. On success it has exactly `quantity` holidays, all on or after the reference date. With `quantity == 0` nothing is asked and the result is empty |
| `Cli.CommaSep` | src/main.rs:48-51 | `comma_sep`: no items give "", one item gives its rendering unchanged, and the join starts with the first item's rendering |
| `Cli.Rendered` | src/main.rs:50 | the `map(ToString::to_string)` step: one rendered string per item, in order |
| `Cli.CommaSepSnoc` | src/main.rs:48-51 | joining `a + [x]` (with `a` non-empty) is joining `a`, then ", ", then `x` rendered |
| `Cli.CommaSepLength` | src/main.rs:48-51 | the length of a non-empty join is the sum of the rendered lengths plus 2·(n−1) |
| `Cli.CommaSepEmpty` | src/main.rs:48-51 | the join is empty exactly for no items, or for one item that renders as "" |
| `Cli.SplitCommaSepRoundTrip` | src/main.rs:48-51 | splitting a join at ", " gives back the rendered items in order, when no item contains ',' |
| `Cli.CountiesColumn` | src/main.rs:65 | the counties column: "" for a nationwide holiday, the single county name unchanged for one county, and for several the first name followed by ", " |
| `Cli.NationwideColumn` | src/main.rs:65 | a holiday with no counties (nationwide) prints an empty counties column, and an empty column means no county or a single empty name |

## Left out

- HTTP transport: `reqwest::blocking::get`, `error_for_status` and `.json()` (src/lib.rs:51-54) are network I/O in a foreign library. They are the abstract `Transport`, a function of the URL. As a function it answers a repeated URL the same way, which is irrelevant here because each year is asked for once.
- JSON parsing by serde: only the null-to-empty rule for `counties` is modelled. A `null` value becomes the empty list (`DeserializeNullDefault`). An absent `counties` key is different: the field has `deserialize_with` and no `#[serde(default)]` (src/lib.rs:21), so the derived code fails with a missing-field error. `.json()` then fails, and the page becomes `Error::Reqwest`. In the model that case is a `FetchFailed` answer from the transport, not an empty list.
- `reqwest::Error` is kept only as a description string in `Error.Reqwest`.
- Runs that never stop are not modelled: those where no page fails and, from some year on, every filtered page is empty, so the total never reaches the quantity. `NextHolidays` requires a finite `horizon` within which the run stops.
- NextHolidays: does not model overflow of the `i32` year counter (`year += 1`, src/lib.rs:37). The year is an unbounded `int`. In Rust the counter overflows after more than two billion years with no failed page while the total stays below `quantity`. That happens with pages that are empty from some year on, or with a `usize` quantity larger than that many years supply. A debug build then panics, and a release build wraps round to year -2147483648 and goes on asking; the model instead keeps counting up and returns its normal result.
- Date: it is a `(year, month, day)` triple without calendar validity. Date parsing (`ParseableDate::from_str`, src/main.rs:14-16) calls the `time` crate, and the default date (`Options::relative_to`, src/main.rs:38-45) reads the local clock, so neither is modelled.
- No cache and no special handling of unknown countries are modelled, because the code has none. The TODO comments in `get_holidays_cached` name only a cache ("check cache, fill cache, invalidate cache if too old", src/lib.rs:48) and turning an empty body into `UnknownCountry` (src/lib.rs:50). A 24-hour freshness window, lower-casing of country codes, treating a 404 as `UnknownCountry` and a request timeout have no trace in the code at all. The code sends the country code as given, and `UnknownCountry` is never produced (`NoUnknownCountry`).
- `print_holiday` (src/main.rs:57-69): the console output and its column padding are I/O. Only its counties column is modelled (`CountiesColumn`). The types column depends on the derived `Display` of `HolidayType`, which is macro-generated and not modelled.
- `main`, `structopt` and `color_eyre` (src/main.rs:71-83) are process setup and argument parsing.
- The code does not require `types` to be non-empty, and neither does the model.
