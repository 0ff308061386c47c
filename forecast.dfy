/** The forecast data of the program: the `forecast` and
    `ForecastedCarbonIntensity` records, `Config`, and the parse pass
    ParseForecastedCarbonIntensity that fills in the parsed time fields. */
module Forecast {
  import opened Wrappers
  import opened Clock
  import opened Decimal
  import opened Layout

  /** One forecast hour (Go's `forecast`): the raw fields decoded from JSON and
      the parsed time, which only the parse pass writes. */
  datatype Entry = Entry(carbonIntensity: int, dateTime: string, parsedDateTime: Time)

  /** ForecastedCarbonIntensity. Go passes the record by value, but its
      `Forecast` slice shares the backing array with every copy; the array here
      is that backing array. */
  datatype Snapshot = Snapshot(zone: string, forecast: array<Entry>, updatedAt: string, parsedUpdatedAt: Time)

  /** The preferences file: API token, zone, and the threshold below which the
      icon turns green. */
  datatype Config = Config(apiToken: string, zone: string, threshold: int)

  /** The loop body: the entry with its own raw string parsed (zero on error). */
  function ParseEntry(e: Entry): Entry {
    e.(parsedDateTime := ParseOrZero(e.dateTime))
  }

  function ParseEntries(es: seq<Entry>): seq<Entry> {
    seq(|es|, i requires 0 <= i < |es| => ParseEntry(es[i]))
  }

  /** Same length and order, same intensities and raw strings. */
  predicate SameRaw(es: seq<Entry>, fs: seq<Entry>) {
    && |es| == |fs|
    && forall i :: 0 <= i < |es| ==>
         es[i].carbonIntensity == fs[i].carbonIntensity && es[i].dateTime == fs[i].dateTime
  }

  /** Every parsed time is the parse of its own raw string, or zero. */
  predicate EntriesParsed(es: seq<Entry>) {
    forall i :: 0 <= i < |es| ==> es[i].parsedDateTime == ParseOrZero(es[i].dateTime)
  }

  /** The invariant of a snapshot the program holds: every parsed field is
      derived from its raw string. */
  predicate IsParsed(s: Snapshot)
    reads s.forecast
  {
    s.parsedUpdatedAt == ParseOrZero(s.updatedAt) && EntriesParsed(s.forecast[..])
  }

  /** The parse pass writes only the parsed fields, and each from its own raw
      string: a failed string costs that entry alone its time. It is the only
      such sequence, so parsing twice is parsing once. */
  lemma ParseEntriesSpec(es: seq<Entry>)
    ensures SameRaw(es, ParseEntries(es)) && EntriesParsed(ParseEntries(es))
  {
  }

  lemma ParseEntriesUnique(es: seq<Entry>, fs: seq<Entry>)
    requires SameRaw(es, fs) && EntriesParsed(fs)
    ensures fs == ParseEntries(es)
  {
    assert forall i :: 0 <= i < |fs| ==> fs[i] == ParseEntries(es)[i];
  }

  lemma ParseEntriesIdempotent(es: seq<Entry>)
    ensures ParseEntries(ParseEntries(es)) == ParseEntries(es)
  {
    var p := ParseEntries(es);
    ParseEntriesSpec(es);
    ParseEntriesUnique(p, p);
  }

  /** An entry whose raw string the layout rejects gets Go's zero time, and
      the entries around it are parsed all the same. */
  lemma ParseFailureIsLocal(es: seq<Entry>, i: int)
    requires 0 <= i < |es| && Parse(es[i].dateTime).None?
    ensures ParseEntries(es)[i].parsedDateTime == Zero
    ensures forall j :: 0 <= j < |es| && j != i && Parse(es[j].dateTime).Some? ==>
              ParseEntries(es)[j].parsedDateTime == Parse(es[j].dateTime).value
  {
  }

  /** ParseForecastedCarbonIntensity: parses every entry's DateTime into its
      ParsedDateTime in place (the caller's slice sees the writes), then
      UpdatedAt into ParsedUpdatedAt of the returned copy. */
  method ParseForecastedCarbonIntensity(forecast: Snapshot) returns (r: Snapshot)
    modifies forecast.forecast
    ensures r == forecast.(parsedUpdatedAt := ParseOrZero(forecast.updatedAt))
    ensures forecast.forecast[..] == ParseEntries(old(forecast.forecast[..]))
    ensures IsParsed(r)
  {
    var a := forecast.forecast;
    ghost var before := a[..];
    for x := 0 to a.Length
      invariant a[..x] == ParseEntries(before)[..x]
      invariant a[x..] == before[x..]
    {
      a[x] := a[x].(parsedDateTime := ParseOrZero(a[x].dateTime));
      assert a[..x + 1] == a[..x] + [ParseEntries(before)[x]];
      assert ParseEntries(before)[..x + 1] == ParseEntries(before)[..x] + [ParseEntries(before)[x]];
      assert a[x + 1..] == before[x..][1..];
    }
    assert a[..] == a[..a.Length];
    assert ParseEntries(before) == ParseEntries(before)[..a.Length];
    r := forecast.(parsedUpdatedAt := ParseOrZero(forecast.updatedAt));
    ParseEntriesSpec(before);
  }

  /** LoadCache after the file has been read and decoded: a failed read or
      decode (None) gives the zero record, which has no entries and the zero
      time; a decoded record is parsed. */
  method LoadCache(decoded: Option<Snapshot>) returns (r: Snapshot)
    modifies if decoded.Some? then {decoded.value.forecast} else {}
    ensures IsParsed(r)
    ensures decoded.None? ==>
              fresh(r.forecast) && r.forecast.Length == 0 && r.zone == "" && r.updatedAt == "" && r.parsedUpdatedAt == Zero
    ensures decoded.Some? ==>
              && r == decoded.value.(parsedUpdatedAt := ParseOrZero(decoded.value.updatedAt))
              && r.forecast[..] == ParseEntries(old(r.forecast[..]))
  {
    if decoded.None? {
      var empty := new Entry[0];
      r := Snapshot("", empty, "", Zero);
      assert Parse("").None?;
    } else {
      r := ParseForecastedCarbonIntensity(decoded.value);
    }
  }

  /** The repository's parse scenario: zone DK-DK2, three forecast hours and
      an update time with milliseconds. */
  method ParseScenario() returns (r: Snapshot)
    ensures r.zone == "DK-DK2" && r.updatedAt == "2018-11-26T17:25:24.685Z"
    ensures r.parsedUpdatedAt == Time(2018, 11, 26, 17, 25, 24, 685_000_000)
    ensures r.forecast.Length == 3
    ensures r.forecast[0].carbonIntensity == 326
    ensures r.forecast[2].dateTime == "2018-11-28T17:00:00.000Z"
    ensures r.forecast[2].parsedDateTime == Time(2018, 11, 28, 17, 0, 0, 0)
  {
    var a := new Entry[3];
    a[0] := Entry(326, "2018-11-26T17:00:00.000Z", Zero);
    a[1] := Entry(297, "2018-11-26T18:00:00.000Z", Zero);
    a[2] := Entry(194, "2018-11-28T17:00:00.000Z", Zero);
    ScenarioTimes();
    r := ParseForecastedCarbonIntensity(Snapshot("DK-DK2", a, "2018-11-26T17:25:24.685Z", Zero));
  }

  /** The two timestamps of the scenario parse to the times the repository
      expects. */
  lemma ScenarioTimes()
    ensures ParseOrZero("2018-11-26T17:25:24.685Z") == Time(2018, 11, 26, 17, 25, 24, 685_000_000)
    ensures ParseOrZero("2018-11-28T17:00:00.000Z") == Time(2018, 11, 28, 17, 0, 0, 0)
  {
    UpdatedAtTime("2018-11-26T17:25:24.685Z");
    LastEntryTime("2018-11-28T17:00:00.000Z");
  }

  lemma UpdatedAtTime(s: string)
    requires s == "2018-11-26T17:25:24.685Z"
    ensures ParseOrZero(s) == Time(2018, 11, 26, 17, 25, 24, 685_000_000)
  {
    var d, t := "685", Time(2018, 11, 26, 17, 25, 24, 685_000_000);
    UpdatedAtSpells(s, t);
    assert s[19..] == ['.'] + d + "Z";
    assert Scaled(d) == 685_000_000 by {
      Num3(d);
      assert |d| == 3 && Pow10(6) == 1_000_000;
    }
    HeadShapeTime(s, d, t);
  }

  lemma UpdatedAtSpells(s: string, t: Time)
    requires s == "2018-11-26T17:25:24.685Z" && t == Time(2018, 11, 26, 17, 25, 24, 685_000_000)
    ensures Spells(s, t)
  {
    assert HeadShape(s) && s[..4] == "2018";
    Num4("2018");
  }

  lemma LastEntryTime(s: string)
    requires s == "2018-11-28T17:00:00.000Z"
    ensures ParseOrZero(s) == Time(2018, 11, 28, 17, 0, 0, 0)
  {
    var d, t := "000", Time(2018, 11, 28, 17, 0, 0, 0);
    LastEntrySpells(s, t);
    assert s[19..] == ['.'] + d + "Z";
    assert Scaled(d) == 0 by {
      Num3(d);
    }
    HeadShapeTime(s, d, t);
  }

  lemma LastEntrySpells(s: string, t: Time)
    requires s == "2018-11-28T17:00:00.000Z" && t == Time(2018, 11, 28, 17, 0, 0, 0)
    ensures Spells(s, t)
  {
    assert HeadShape(s) && s[..4] == "2018";
    Num4("2018");
  }
}
