/** The library half of holidate (src/lib.rs): the holiday record, the
    request URL, the page source, and `next_holidays`, which pages through
    successive calendar years until it has collected enough holidays on or
    after a reference date. */
module Holidate {
  import Decimal

  datatype Option<T> = None | Some(value: T)

  datatype HolidayType = Public | Bank | School | Authorities | Optional | Observance

  /** A calendar date; dates compare by year, then month, then day. */
  datatype Date = Date(year: int, month: int, day: int)

  /** `a <= b` on dates. */
  predicate DateLe(a: Date, b: Date) {
    a.year < b.year
    || (a.year == b.year && a.month < b.month)
    || (a.year == b.year && a.month == b.month && a.day <= b.day)
  }

  /** One holiday; `counties` empty means the holiday is nationwide. */
  datatype Holiday = Holiday(date: Date, name: string, counties: seq<string>, types: seq<HolidayType>)

  /** The library's error type. `Reqwest` carries the transport library's
      failure, kept here as its description. */
  datatype Error = UnknownCountry | Reqwest(cause: string)

  datatype Result<T> = Ok(value: T) | Err(error: Error)

  // ---------------------------------------------------------------------------
  // Decoding a record: the null-to-default rule for `counties`

  /** A holiday record as the JSON body carries it: `counties` may be null. */
  datatype RawHoliday = RawHoliday(date: Date, name: string, counties: Option<seq<string>>, types: seq<HolidayType>)

  /** `deserialize_null_default` at the type `Vec<String>`: null becomes the
      empty list, a present list passes through unchanged. */
  function DeserializeNullDefault(raw: Option<seq<string>>): (r: seq<string>)
    ensures raw.Some? ==> r == raw.value
    ensures r == [] <==> raw == None || raw == Some([])
  {
    match raw
    case None => []
    case Some(v) => v
  }

  /** The derived `Deserialize` for `Holiday`, after the JSON has been read. */
  function DecodeHoliday(raw: RawHoliday): (h: Holiday)
    ensures h.date == raw.date && h.name == raw.name && h.types == raw.types
    ensures raw.counties.Some? ==> h.counties == raw.counties.value
    ensures h.counties == [] <==> raw.counties == None || raw.counties == Some([])
  {
    Holiday(raw.date, raw.name, DeserializeNullDefault(raw.counties), raw.types)
  }

  function DecodeAll(raws: seq<RawHoliday>): (hs: seq<Holiday>)
    ensures |hs| == |raws|
    ensures forall i :: 0 <= i < |raws| ==> hs[i] == DecodeHoliday(raws[i])
  {
    if raws == [] then [] else [DecodeHoliday(raws[0])] + DecodeAll(raws[1..])
  }

  // ---------------------------------------------------------------------------
  // The request URL

  const ApiBase := "https://date.nager.at/api/v3/publicholidays/"

  /** The endpoint for one year's page; the country code goes in verbatim. */
  function UriFor(year: int, countryCode: string): (r: string)
    ensures |r| == |ApiBase| + |Decimal.IntToDecimal(year)| + 1 + |countryCode|
    ensures r[..|ApiBase|] == ApiBase
    ensures r[|ApiBase|..|r| - |countryCode| - 1] == Decimal.IntToDecimal(year)
    ensures r[|ApiBase| + |Decimal.IntToDecimal(year)|] == '/'
    ensures r[|r| - |countryCode|..] == countryCode
  {
    ApiBase + Decimal.IntToDecimal(year) + "/" + countryCode
  }

  /** Different pages are fetched from different URLs: the year and the
      country code can both be read back from the URL. */
  lemma UriForInjective(y1: int, c1: string, y2: int, c2: string)
    requires UriFor(y1, c1) == UriFor(y2, c2)
    ensures y1 == y2 && c1 == c2
  {
    var d1, d2 := Decimal.IntToDecimal(y1), Decimal.IntToDecimal(y2);
    var t1, t2 := d1 + "/" + c1, d2 + "/" + c2;
    assert UriFor(y1, c1)[|ApiBase|..] == t1;
    assert UriFor(y2, c2)[|ApiBase|..] == t2;
    assert t1 == t2;
    assert |d1| == |d2|;
    assert d1 == t1[..|d1|] == t2[..|d2|] == d2;
    assert c1 == t1[|d1| + 1..] == t2[|d2| + 1..] == c2;
    Decimal.IntToDecimalInjective(y1, y2);
  }

  // ---------------------------------------------------------------------------
  // The page source

  /** What one blocking GET, followed by the status check and the JSON
      decoding, yields: the decoded records, or the library's failure. */
  datatype Fetch = Fetched(records: seq<RawHoliday>) | FetchFailed(cause: string)

  /** The HTTP client, as a function of the requested URL. */
  type Transport = string -> Fetch

  /** The source of one year's full list of holidays for a country. */
  type PageSource = (int, string) -> Result<seq<Holiday>>

  /** `get_holidays_cached` as written: no cache, one request to
      `UriFor(year, country)`, and every failure of the request, the status
      check or the decoding surfaces as `Reqwest`. */
  function GetHolidaysCached(transport: Transport, year: int, country: string): (r: Result<seq<Holiday>>)
    ensures r != Err(UnknownCountry)
    ensures transport(UriFor(year, country)).FetchFailed? <==> r.Err?
    ensures r.Ok? ==> r.value == DecodeAll(transport(UriFor(year, country)).records)
  {
    match transport(UriFor(year, country))
    case FetchFailed(cause) => Err(Reqwest(cause))
    case Fetched(records) => Ok(DecodeAll(records))
  }

  /** The page source `next_holidays` calls: each year's page comes from the
      transport's answer for that year's URL. */
  function HttpPages(transport: Transport): (pages: PageSource)
    ensures forall year, country :: pages(year, country) != Err(UnknownCountry)
    ensures forall year, country :: pages(year, country).Err? <==> transport(UriFor(year, country)).FetchFailed?
    ensures forall year, country :: pages(year, country).Ok? ==>
      pages(year, country).value == DecodeAll(transport(UriFor(year, country)).records)
  {
    (year: int, country: string) => GetHolidaysCached(transport, year, country)
  }

  // ---------------------------------------------------------------------------
  // Pagination: the specification

  /** `retain(|holiday| holiday.date >= relative_to)` on one page. */
  function Retain(page: seq<Holiday>, relativeTo: Date): (r: seq<Holiday>)
    ensures |r| <= |page|
    ensures forall h :: h in r <==> h in page && DateLe(relativeTo, h.date)
  {
    if page == [] then []
    else (if DateLe(relativeTo, page[0].date) then [page[0]] else []) + Retain(page[1..], relativeTo)
  }

  /** Filtering keeps the order of the page: filtering two runs of a page
      one after the other is filtering the whole. */
  lemma {:induction false} RetainAppend(a: seq<Holiday>, b: seq<Holiday>, relativeTo: Date)
    ensures Retain(a + b, relativeTo) == Retain(a, relativeTo) + Retain(b, relativeTo)
  {
    if a != [] {
      assert (a + b)[1..] == a[1..] + b;
      RetainAppend(a[1..], b, relativeTo);
    } else {
      assert a + b == b;
    }
  }

  /** A page of a later year than the reference date loses nothing: only the
      first, partial year is actually filtered. */
  lemma {:induction false} RetainLaterYear(page: seq<Holiday>, relativeTo: Date)
    requires forall h :: h in page ==> h.date.year > relativeTo.year
    ensures Retain(page, relativeTo) == page
  {
    if page != [] {
      RetainLaterYear(page[1..], relativeTo);
    }
  }

  /** `Vec::truncate`. */
  function Truncate(s: seq<Holiday>, n: nat): (r: seq<Holiday>)
    ensures |r| == if |s| <= n then |s| else n
    ensures r == s[..|r|]
  {
    if |s| <= n then s else s[..n]
  }

  /** What the first `n` years, from the reference date's year on, add up to:
      each year's page filtered to the reference date, appended in year
      order, or the first error a page gave. */
  function Collected(source: PageSource, country: string, relativeTo: Date, n: nat): (r: Result<seq<Holiday>>)
    ensures n == 0 ==> r == Ok([])
    ensures r.Err? ==> n > 0
    ensures r.Ok? ==> forall year :: relativeTo.year <= year < relativeTo.year + n ==> source(year, country).Ok?
  {
    if n == 0 then Ok([])
    else
      match Collected(source, country, relativeTo, n - 1)
      case Err(e) => Err(e)
      case Ok(acc) =>
        match source(relativeTo.year + n - 1, country)
        case Err(e) => Err(e)
        case Ok(page) => Ok(acc + Retain(page, relativeTo))
  }

  /** After `n` years the loop has nothing more to do: a page failed, or
      enough holidays have been collected. */
  predicate Settled(source: PageSource, country: string, relativeTo: Date, quantity: nat, n: nat) {
    match Collected(source, country, relativeTo, n)
    case Err(_) => true
    case Ok(acc) => |acc| >= quantity
  }

  /** What `next_holidays` returns once it has asked for `n` years. */
  function Outcome(c: Result<seq<Holiday>>, quantity: nat): (r: Result<seq<Holiday>>)
    ensures r.Err? <==> c.Err?
    ensures c.Err? ==> r == c
    ensures r.Ok? ==> |r.value| <= quantity && |r.value| <= |c.value| && r.value == c.value[..|r.value|]
    ensures r.Ok? && |c.value| >= quantity ==> |r.value| == quantity
  {
    match c
    case Err(e) => Err(e)
    case Ok(acc) => Ok(Truncate(acc, quantity))
  }

  // ---------------------------------------------------------------------------
  // Pagination: properties of the specification

  /** Once settled, the loop stays settled: an error is final, and later
      years only add holidays. */
  lemma {:induction false} SettledMonotone(source: PageSource, country: string, relativeTo: Date, quantity: nat, m: nat, n: nat)
    requires m <= n
    requires Settled(source, country, relativeTo, quantity, m)
    ensures Settled(source, country, relativeTo, quantity, n)
    decreases n - m
  {
    if m < n {
      SettledMonotone(source, country, relativeTo, quantity, m, n - 1);
    }
  }

  /** Collecting more years only extends what was collected before: earlier
      years' holidays come first, in the same order. */
  lemma {:induction false} CollectedPrefix(source: PageSource, country: string, relativeTo: Date, m: nat, n: nat)
    requires m <= n
    requires Collected(source, country, relativeTo, n).Ok?
    ensures Collected(source, country, relativeTo, m).Ok?
    ensures |Collected(source, country, relativeTo, m).value| <= |Collected(source, country, relativeTo, n).value|
    ensures Collected(source, country, relativeTo, m).value
         == Collected(source, country, relativeTo, n).value[..|Collected(source, country, relativeTo, m).value|]
    decreases n - m
  {
    if m < n {
      CollectedPrefix(source, country, relativeTo, m, n - 1);
    }
  }

  /** Every collected holiday is on or after the reference date. */
  lemma {:induction false} CollectedOnOrAfter(source: PageSource, country: string, relativeTo: Date, n: nat)
    requires Collected(source, country, relativeTo, n).Ok?
    ensures forall h :: h in Collected(source, country, relativeTo, n).value ==> DateLe(relativeTo, h.date)
  {
    if n > 0 {
      CollectedOnOrAfter(source, country, relativeTo, n - 1);
    }
  }

  /** An error no page gives is never collected: only the page source
      produces errors. */
  lemma {:induction false} CollectedAvoids(source: PageSource, country: string, relativeTo: Date, n: nat, e: Error)
    requires forall year :: source(year, country) != Err(e)
    ensures Collected(source, country, relativeTo, n) != Err(e)
  {
    if n > 0 {
      CollectedAvoids(source, country, relativeTo, n - 1, e);
      assert source(relativeTo.year + n - 1, country) != Err(e);
    }
  }

  /** With the page source as written, `next_holidays` never fails with
      `UnknownCountry`. */
  lemma NoUnknownCountry(transport: Transport, country: string, relativeTo: Date, quantity: nat, n: nat)
    ensures Outcome(Collected(HttpPages(transport), country, relativeTo, n), quantity) != Err(UnknownCountry)
  {
    forall year ensures HttpPages(transport)(year, country) != Err(UnknownCountry) {
      assert HttpPages(transport)(year, country) == GetHolidaysCached(transport, year, country);
    }
    CollectedAvoids(HttpPages(transport), country, relativeTo, n, UnknownCountry);
  }

  /** Holidays ordered by date. */
  predicate SortedByDate(s: seq<Holiday>) {
    forall i, j :: 0 <= i < j < |s| ==> DateLe(s[i].date, s[j].date)
  }

  /** Every holiday of the page falls in `year`. */
  predicate PageOfYear(page: seq<Holiday>, year: int) {
    forall h :: h in page ==> h.date.year == year
  }

  /** A page is well formed when it holds that year's holidays in date order. */
  ghost predicate WellFormedPages(source: PageSource, country: string) {
    forall year :: source(year, country).Ok? ==>
      SortedByDate(source(year, country).value) && PageOfYear(source(year, country).value, year)
  }

  lemma {:induction false} RetainSorted(page: seq<Holiday>, relativeTo: Date)
    requires SortedByDate(page)
    ensures SortedByDate(Retain(page, relativeTo))
  {
    if page != [] {
      RetainSorted(page[1..], relativeTo);
      var rest := Retain(page[1..], relativeTo);
      forall h | h in rest ensures DateLe(page[0].date, h.date) {
        var i :| 0 <= i < |page[1..]| && page[1..][i] == h;
        assert page[i + 1] == h;
      }
    }
  }

  /** Appending a later year's sorted holidays to a sorted list keeps it sorted. */
  lemma AppendYearSorted(acc: seq<Holiday>, kept: seq<Holiday>, year: int)
    requires SortedByDate(acc) && SortedByDate(kept)
    requires forall h :: h in acc ==> h.date.year < year
    requires PageOfYear(kept, year)
    ensures SortedByDate(acc + kept)
  {
    var all := acc + kept;
    forall i, j | 0 <= i < j < |all| ensures DateLe(all[i].date, all[j].date) {
      if j < |acc| {
        assert all[i] == acc[i] && all[j] == acc[j];
      } else if i >= |acc| {
        assert all[i] == kept[i - |acc|] && all[j] == kept[j - |acc|];
      } else {
        assert all[i] in acc;
        assert all[j] in kept;
      }
    }
  }

  /** The holidays are not sorted by `next_holidays` itself: they come out in
      date order exactly because each page holds one year in date order. */
  lemma {:induction false} CollectedSorted(source: PageSource, country: string, relativeTo: Date, n: nat)
    requires WellFormedPages(source, country)
    requires Collected(source, country, relativeTo, n).Ok?
    ensures SortedByDate(Collected(source, country, relativeTo, n).value)
    ensures forall h :: h in Collected(source, country, relativeTo, n).value ==> h.date.year < relativeTo.year + n
  {
    if n > 0 {
      CollectedSorted(source, country, relativeTo, n - 1);
      var acc := Collected(source, country, relativeTo, n - 1).value;
      var year := relativeTo.year + n - 1;
      var page := source(year, country).value;
      assert SortedByDate(page) && PageOfYear(page, year);
      var kept := Retain(page, relativeTo);
      assert Collected(source, country, relativeTo, n) == Ok(acc + kept);
      RetainSorted(page, relativeTo);
      AppendYearSorted(acc, kept, year);
    }
  }

  /** The result of `next_holidays` is in date order whenever the pages are. */
  lemma OutcomeSorted(source: PageSource, country: string, relativeTo: Date, quantity: nat, n: nat)
    requires WellFormedPages(source, country)
    requires Outcome(Collected(source, country, relativeTo, n), quantity).Ok?
    ensures SortedByDate(Outcome(Collected(source, country, relativeTo, n), quantity).value)
  {
    CollectedSorted(source, country, relativeTo, n);
  }

  /** A first year that falls short is topped up from the second year's
      page, in page order, and the run then stops. */
  lemma FirstYearShort(source: PageSource, country: string, relativeTo: Date, quantity: nat,
                       first: seq<Holiday>, page: seq<Holiday>)
    requires Collected(source, country, relativeTo, 1) == Ok(first) && |first| < quantity
    requires source(relativeTo.year + 1, country) == Ok(page)
    requires |first| + |Retain(page, relativeTo)| >= quantity
    ensures !Settled(source, country, relativeTo, quantity, 0)
    ensures !Settled(source, country, relativeTo, quantity, 1)
    ensures Settled(source, country, relativeTo, quantity, 2)
    ensures Outcome(Collected(source, country, relativeTo, 2), quantity)
         == Ok(first + Retain(page, relativeTo)[..quantity - |first|])
  {
    var all := first + Retain(page, relativeTo);
    assert Collected(source, country, relativeTo, 2) == Ok(all);
    assert all[..quantity] == first + Retain(page, relativeTo)[..quantity - |first|];
  }

  /** When every year from the reference date's year on yields at least one
      holiday, `n` years collect at least `n` holidays. */
  lemma {:induction false} ContributingYearsGrow(source: PageSource, country: string, relativeTo: Date, n: nat)
    requires forall year :: relativeTo.year <= year ==>
      source(year, country).Ok? && Retain(source(year, country).value, relativeTo) != []
    ensures Collected(source, country, relativeTo, n).Ok?
    ensures |Collected(source, country, relativeTo, n).value| >= n
  {
    if n > 0 {
      ContributingYearsGrow(source, country, relativeTo, n - 1);
      assert source(relativeTo.year + n - 1, country).Ok?;
    }
  }

  /** Pages each shorter than the quantity still end the run: if every year
      yields at least one holiday, the loop stops within `quantity` years. */
  lemma ContributingYearsSettle(source: PageSource, country: string, relativeTo: Date, quantity: nat)
    requires forall year :: relativeTo.year <= year ==>
      source(year, country).Ok? && Retain(source(year, country).value, relativeTo) != []
    ensures Settled(source, country, relativeTo, quantity, quantity)
  {
    ContributingYearsGrow(source, country, relativeTo, quantity);
  }

  // ---------------------------------------------------------------------------
  // Pagination: the loop

  /** `next_holidays`. The run is assumed to stop: `horizon` is any number of
      years after which it has. There is no such number only when no page
      fails and, from some year on, every filtered page is empty; then
      `next_holidays` loops forever. Short pages still end the run once they
      add up (`ContributingYearsSettle`). `queried`
      records the years the page source was asked for. */
  method NextHolidays(source: PageSource, country: string, relativeTo: Date, quantity: nat, ghost horizon: nat)
    returns (r: Result<seq<Holiday>>, ghost queried: seq<int>)
    requires Settled(source, country, relativeTo, quantity, horizon)
    // the years asked for: consecutive from the reference date's year, each once
    ensures |queried| <= horizon
    ensures forall i :: 0 <= i < |queried| ==> queried[i] == relativeTo.year + i
    // asking stops at the first year after which nothing more is to be done
    ensures Settled(source, country, relativeTo, quantity, |queried|)
    ensures forall m :: 0 <= m < |queried| ==> !Settled(source, country, relativeTo, quantity, m)
    // the result: the first `quantity` of the collected holidays, or the error
    ensures r == Outcome(Collected(source, country, relativeTo, |queried|), quantity)
    ensures r.Ok? ==> |r.value| == quantity
    ensures r.Ok? ==> forall h :: h in r.value ==> DateLe(relativeTo, h.date)
    ensures r.Err? ==> |queried| > 0 && source(queried[|queried| - 1], country) == Err(r.error)
    ensures quantity == 0 ==> queried == [] && r == Ok([])
  {
    var year := relativeTo.year;
    var holidays: seq<Holiday> := [];
    queried := [];
    while |holidays| < quantity
      invariant year == relativeTo.year + |queried|
      invariant forall i :: 0 <= i < |queried| ==> queried[i] == relativeTo.year + i
      invariant Collected(source, country, relativeTo, |queried|) == Ok(holidays)
      invariant forall m :: 0 <= m < |queried| ==> !Settled(source, country, relativeTo, quantity, m)
      invariant |queried| <= horizon
      invariant queried == [] || quantity > 0
      decreases horizon - |queried|
    {
      var page := source(year, country);
      queried := queried + [year];
      if page.Err? {
        r := Err(page.error);
        return;
      }
      var newHolidays := Retain(page.value, relativeTo);
      holidays := holidays + newHolidays;
      year := year + 1;
    }
    CollectedOnOrAfter(source, country, relativeTo, |queried|);
    holidays := Truncate(holidays, quantity);
    r := Ok(holidays);
  }
}
