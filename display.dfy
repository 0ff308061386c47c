/** displayCurrentStatus: the scan of the forecast for the current UTC hour and
    the title and icon it chooses. The tray calls themselves are not modelled;
    the method returns what it would show. */
module Display {
  import opened Wrappers
  import opened Decimal
  import opened Clock
  import opened Layout
  import opened Forecast

  /** The three icons the tray can show: the logo while loading, coal at or
      above the threshold (and when nothing matches), green below it. */
  datatype Icon = Logo | Coal | Green

  /** What the tray shows: its title (also its tooltip) and its icon. */
  datatype Status = Status(title: string, icon: Icon)

  /** The title when no forecast hour matches the current one. */
  const Unknown: string := "?"

  /** "CI: " followed by the intensity in decimal (`%d`). */
  function Title(n: int): string {
    "CI: " + FormatDecimal(n)
  }

  /** The entry's raw time string starts with the hour key. */
  predicate Hit(e: Entry, hour: string) {
    |e.dateTime| >= 13 && e.dateTime[..13] == hour
  }

  /** No entry before position j hits the hour key: the scan gets to j. */
  predicate Reached(es: seq<Entry>, hour: string, j: int) {
    forall k :: 0 <= k < j && k < |es| ==> !Hit(es[k], hour)
  }

  /** The scan slices `[0:13]` from every entry it reaches; a shorter string
      there would make Go panic. The scan stops at the first hit. */
  predicate ScanSafe(es: seq<Entry>, hour: string)
    decreases |es|
  {
    es == [] || (|es[0].dateTime| >= 13 && (es[0].dateTime[..13] == hour || ScanSafe(es[1..], hour)))
  }

  /** The position of the first entry that hits the hour key, if any. */
  function FirstMatch(es: seq<Entry>, hour: string): (r: Option<nat>)
    requires ScanSafe(es, hour)
    ensures r.Some? ==> r.value < |es| && Hit(es[r.value], hour) && Reached(es, hour, r.value)
    ensures r.None? ==> forall j :: 0 <= j < |es| ==> !Hit(es[j], hour)
    decreases |es|
  {
    if es == [] then None
    else if es[0].dateTime[..13] == hour then Some(0)
    else
      match FirstMatch(es[1..], hour)
      case None => None
      case Some(k) => Some(k + 1)
  }

  /** The status of a matching entry: its intensity as the title, green
      strictly below the threshold and coal otherwise. */
  function StatusOf(threshold: int, e: Entry): Status {
    Status(Title(e.carbonIntensity), if e.carbonIntensity < threshold then Green else Coal)
  }

  /** The status the scan settles on: the first matching entry's, or "?" with
      the coal icon when none matches. */
  function SelectStatus(threshold: int, es: seq<Entry>, hour: string): Status
    requires ScanSafe(es, hour)
  {
    match FirstMatch(es, hour)
    case None => Status(Unknown, Coal)
    case Some(i) => StatusOf(threshold, es[i])
  }

  /** The scan over the forecast, in place over its backing array, stopping at
      the first entry whose first 13 characters are the current hour key. */
  method DisplayCurrentStatus(threshold: int, cache: Snapshot, now: Time) returns (status: Status)
    requires ScanSafe(cache.forecast[..], FormatHour(now))
    ensures status == SelectStatus(threshold, cache.forecast[..], FormatHour(now))
  {
    var hour := FormatHour(now);
    var a := cache.forecast;
    ghost var es := a[..];
    var icon := Coal;
    var title := Unknown;
    var k := 0;
    while k < a.Length
      invariant 0 <= k <= a.Length
      invariant ScanSafe(es[k..], hour)
      invariant Reached(es, hour, k)
      invariant title == Unknown && icon == Coal
    {
      var e := a[k];
      assert e == es[k..][0];
      if e.dateTime[..13] == hour {
        title := Title(e.carbonIntensity);
        if e.carbonIntensity < threshold {
          icon := Green;
        }
        FirstHitIsMatch(es, hour, k);
        // Go breaks out here; nothing after the loop depends on how it ended.
        return Status(title, icon);
      }
      assert es[k..][1..] == es[k + 1..];
      k := k + 1;
    }
    NoHitIsNone(es, hour);
    status := Status(title, icon);
  }

  /** With no hit anywhere the scan finds nothing. */
  lemma NoHitIsNone(es: seq<Entry>, hour: string)
    requires ScanSafe(es, hour) && Reached(es, hour, |es|)
    ensures FirstMatch(es, hour) == None
  {
  }

  /** An entry that hits with no hit before it is the first match. */
  lemma FirstHitIsMatch(es: seq<Entry>, hour: string, k: nat)
    requires ScanSafe(es, hour) && k < |es| && Hit(es[k], hour) && Reached(es, hour, k)
    ensures FirstMatch(es, hour) == Some(k)
  {
  }

  /** First match wins: the status is that of the first hit in stored
      order, whatever the later entries say. */
  lemma FirstMatchWins(threshold: int, es: seq<Entry>, hour: string, k: nat)
    requires ScanSafe(es, hour) && k < |es| && Hit(es[k], hour) && Reached(es, hour, k)
    ensures SelectStatus(threshold, es, hour) == StatusOf(threshold, es[k])
    ensures SelectStatus(threshold, es, hour).title == "CI: " + FormatDecimal(es[k].carbonIntensity)
  {
    FirstHitIsMatch(es, hour, k);
  }

  /** The precondition is exactly Go's absence of a panic: every entry the
      scan reaches, up to and including the first hit, has a 13-character
      prefix. */
  lemma {:induction false} ScanSafeIff(es: seq<Entry>, hour: string)
    ensures ScanSafe(es, hour) <==>
      forall j :: 0 <= j < |es| && Reached(es, hour, j) ==> |es[j].dateTime| >= 13
    decreases |es|
  {
    if es != [] {
      ScanSafeIff(es[1..], hour);
      var tail := es[1..];
      assert forall j :: 1 <= j < |es| ==> es[j] == tail[j - 1];
      if |es[0].dateTime| >= 13 && es[0].dateTime[..13] != hour {
        forall j | 1 <= j < |es| && Reached(es, hour, j)
          ensures Reached(tail, hour, j - 1)
        {
          assert forall k :: 0 <= k < j - 1 ==> tail[k] == es[k + 1];
        }
        forall j | 0 <= j < |tail| && Reached(tail, hour, j)
          ensures Reached(es, hour, j + 1)
        {
          assert forall k :: 1 <= k < j + 1 ==> es[k] == tail[k - 1];
        }
      } else if |es[0].dateTime| < 13 {
        assert Reached(es, hour, 0);
      }
    }
  }

  /** A forecast whose strings are all long enough is always safe to scan. */
  lemma AllLongIsSafe(es: seq<Entry>, hour: string)
    requires forall j :: 0 <= j < |es| ==> |es[j].dateTime| >= 13
    ensures ScanSafe(es, hour)
  {
    ScanSafeIff(es, hour);
  }

  /** "?" is shown exactly when no entry hits the hour key. */
  lemma UnknownIffNoHit(threshold: int, es: seq<Entry>, hour: string)
    requires ScanSafe(es, hour)
    ensures SelectStatus(threshold, es, hour).title == Unknown <==>
      forall j :: 0 <= j < |es| ==> !Hit(es[j], hour)
    ensures (forall j :: 0 <= j < |es| ==> !Hit(es[j], hour)) ==>
      SelectStatus(threshold, es, hour) == Status(Unknown, Coal)
  {
    var r := FirstMatch(es, hour);
    if r.Some? {
      var t := Title(es[r.value].carbonIntensity);
      assert t[0] == 'C' && |t| > 1;
    }
  }

  /** The icon is green exactly when the first hit's intensity is strictly
      below the threshold; with no hit it is coal. */
  lemma GreenIff(threshold: int, es: seq<Entry>, hour: string)
    requires ScanSafe(es, hour)
    ensures SelectStatus(threshold, es, hour).icon == Green <==>
      exists i :: 0 <= i < |es| && Hit(es[i], hour) && Reached(es, hour, i) && es[i].carbonIntensity < threshold
  {
    var r := FirstMatch(es, hour);
    if exists i :: 0 <= i < |es| && Hit(es[i], hour) && Reached(es, hour, i) && es[i].carbonIntensity < threshold {
      var i :| 0 <= i < |es| && Hit(es[i], hour) && Reached(es, hour, i) && es[i].carbonIntensity < threshold;
      FirstHitIsMatch(es, hour, i);
    }
  }

  /** A title other than "?" reads back, after its "CI: " prefix, as the
      intensity of the first hit; so the title names the intensity uniquely. */
  lemma TitleReadsBack(threshold: int, es: seq<Entry>, hour: string)
    requires ScanSafe(es, hour)
    ensures var title := SelectStatus(threshold, es, hour).title;
      title != Unknown ==>
        FirstMatch(es, hour).Some? && |title| > 4 && title[..4] == "CI: "
        && ParseDecimal(title[4..]) == Some(es[FirstMatch(es, hour).value].carbonIntensity)
  {
    var r := FirstMatch(es, hour);
    if r.Some? {
      var n := es[r.value].carbonIntensity;
      DecimalRoundTrip(n);
      assert |FormatDecimal(n)| >= 1;
      assert Title(n)[4..] == FormatDecimal(n);
    }
  }

  /** Two intensities give the same title only when they are equal. */
  lemma TitleInjective(a: int, b: int)
    ensures Title(a) == Title(b) <==> a == b
  {
    DecimalInjective(a, b);
    if Title(a) == Title(b) {
      assert Title(a)[4..] == FormatDecimal(a) && Title(b)[4..] == FormatDecimal(b);
    }
  }

  /** The scan reads only the intensities and the raw strings: the parse pass,
      which writes the parsed times alone, never changes what is shown. */
  lemma {:induction false} SelectStatusIgnoresParsedFields(threshold: int, es: seq<Entry>, fs: seq<Entry>, hour: string)
    requires SameRaw(es, fs)
    ensures ScanSafe(es, hour) == ScanSafe(fs, hour)
    ensures ScanSafe(es, hour) ==> FirstMatch(es, hour) == FirstMatch(fs, hour)
    ensures ScanSafe(es, hour) ==> SelectStatus(threshold, es, hour) == SelectStatus(threshold, fs, hour)
    decreases |es|
  {
    if es != [] {
      assert SameRaw(es[1..], fs[1..]) by {
        assert forall j :: 0 <= j < |es| - 1 ==> es[1..][j] == es[j + 1] && fs[1..][j] == fs[j + 1];
      }
      SelectStatusIgnoresParsedFields(threshold, es[1..], fs[1..], hour);
      assert es[0].dateTime == fs[0].dateTime;
    }
  }

  /** On a timestamp with a two-digit hour that the layout accepts, the
      string comparison is a comparison of times: the entry hits exactly when
      its parsed date and hour are the current ones. */
  lemma HitIffSameHour(e: Entry, now: Time)
    requires HeadShape(e.dateTime) && Parse(e.dateTime).Some?
    requires WellFormed(now) && 0 <= now.year <= 9999
    ensures var t := Parse(e.dateTime).value;
      Hit(e, FormatHour(now)) <==>
        t.year == now.year && t.month == now.month && t.day == now.day && t.hour == now.hour
  {
    var t := Parse(e.dateTime).value;
    HourKeyRoundTrip(e.dateTime);
    FormatHourShape(t);
    FormatHourShape(now);
  }

  /** A timestamp with a one-digit hour, which the layout accepts, never hits
      any hour key: its 13th character is the ':' after the hour, where every
      hour key has its second hour digit. */
  lemma ShortHourNeverHits(e: Entry, now: Time)
    requires ShortHourShape(e.dateTime)
    requires WellFormed(now) && 0 <= now.year <= 9999
    ensures !Hit(e, FormatHour(now))
  {
    FormatHourShape(now);
    assert e.dateTime[..13][12] == ':';
  }
}
