/** onReady and its refresh loop: the cache-expiry check at start-up, the
    cache refresh behind the "Cache updated" menu item, and one turn of the
    hourly loop that updates the icon. The network fetch is the `fetched`
    parameter (the raw decoded dataset, before the parse pass); the clock is
    the `now` parameter. */
module Schedule {
  import opened Wrappers
  import opened Clock
  import opened Layout
  import opened Forecast
  import opened Display

  /** The cache is stale when now is after its update time plus one day. */
  predicate Expired(now: Time, updated: Time)
    requires WellFormed(updated)
  {
    After(now, AddOneDay(updated))
  }

  /** Stale exactly when more than 24 hours (in nanoseconds) have passed. */
  lemma ExpiredIff(now: Time, updated: Time)
    requires WellFormed(updated)
    ensures Expired(now, updated) <==> Instant(now) > Instant(updated) + NanosPerDay
  {
    AddOneDayInstant(updated);
  }

  /** The same test read on the calendar: the next day at the update's clock
      time comes before now. */
  lemma ExpiredCalendar(now: Time, updated: Time)
    requires WellFormed(updated) && WellFormed(now)
    ensures Expired(now, updated) <==> Before(AddOneDay(updated), now)
  {
    AddOneDayInstant(updated);
    InstantOrder(AddOneDay(updated), now);
  }

  /** A missing or unreadable cache file leaves the zero time as its update
      time, and that is stale at any date from year 2 on: start-up then always
      fetches. */
  lemma ZeroCacheExpired(now: Time)
    requires WellFormed(now) && now.year >= 2
    ensures Expired(now, Zero)
  {
    ExpiredIff(now, Zero);
    DayOfYearBounds(now);
    DaysBeforeYearGrows(2, now.year);
    assert DaysBeforeYear(2) == 365;
    assert Instant(Zero) == -UnixEpochDay * NanosPerDay;
    assert DayNumber(now) >= 365 - UnixEpochDay;
    NanosOfDayBounds(now);
  }

  /** The running tray application: its preferences, the cache the two
      goroutines share, the title variable of the update loop, what the tray
      currently shows, and the "Cache updated" menu item's title and
      tooltip. */
  class Tray {
    const config: Config
    var cache: Snapshot
    var title: string
    var shown: Status
    var cacheLabel: string
    var cacheTooltip: string

    /** The cache is always the output of the parse pass. */
    ghost predicate Valid()
      reads this, cache.forecast
    {
      IsParsed(cache)
    }

    /** onReady up to the start of the goroutines: keep the loaded cache
        unless it is stale, in which case fetch and parse a new one; show the
        logo with the title "Loading" and label the cache menu item. */
    constructor (config: Config, loaded: Snapshot, now: Time, fetched: Snapshot)
      requires IsParsed(loaded)
      modifies fetched.forecast
      ensures this.config == config
      ensures Expired(now, loaded.parsedUpdatedAt) ==>
                && cache == fetched.(parsedUpdatedAt := ParseOrZero(fetched.updatedAt))
                && cache.forecast[..] == ParseEntries(old(fetched.forecast[..]))
      ensures !Expired(now, loaded.parsedUpdatedAt) ==>
                && cache == loaded && cache.forecast[..] == old(loaded.forecast[..])
                && fetched.forecast[..] == old(fetched.forecast[..])
      ensures title == "Loading" && shown == Status("Loading", Logo)
      ensures cacheLabel == "Cache updated: " + cache.updatedAt
      ensures cacheTooltip == "Cache updated: cache.UpdatedAt" + cache.updatedAt
      ensures Valid()
    {
      var c := loaded;
      if Expired(now, loaded.parsedUpdatedAt) {
        c := ParseForecastedCarbonIntensity(fetched);
      }
      this.config := config;
      cache := c;
      title := "Loading";
      shown := Status("Loading", Logo);
      cacheLabel := "Cache updated: " + c.updatedAt;
      cacheTooltip := "Cache updated: cache.UpdatedAt" + c.updatedAt;
    }

    /** updateCache, also run when the cache menu item is clicked: the fetched
        dataset, parsed, becomes the cache, and the menu item shows its update
        time. The tray's title and icon are left alone. */
    method UpdateCache(fetched: Snapshot)
      modifies this, fetched.forecast
      ensures cache == fetched.(parsedUpdatedAt := ParseOrZero(fetched.updatedAt))
      ensures cache.forecast[..] == ParseEntries(old(fetched.forecast[..]))
      ensures cacheLabel == "Cache updated: " + cache.updatedAt
      ensures cacheTooltip == "Cache updated: cache.UpdatedAt" + cache.updatedAt
      ensures title == old(title) && shown == old(shown)
      ensures Valid()
    {
      cache := ParseForecastedCarbonIntensity(fetched);
      cacheLabel := "Cache updated: " + cache.updatedAt;
      cacheTooltip := "Cache updated: cache.UpdatedAt" + cache.updatedAt;
    }

    /** One turn of the hourly loop. The status is computed from the cache;
        on "?" the cache is refreshed once and the status shown again, but the
        loop's title keeps the first result. The loop then sleeps until the
        next full hour, which is strictly ahead and at most an hour away. */
    method Tick(now: Time, fetched: Snapshot) returns (refreshed: bool, wake: Time, waiting: int)
      requires Valid() && WellFormed(now)
      requires ScanSafe(cache.forecast[..], FormatHour(now))
      requires SelectStatus(config.threshold, cache.forecast[..], FormatHour(now)).title == Unknown ==>
                 ScanSafe(fetched.forecast[..], FormatHour(now))
      modifies this, fetched.forecast
      ensures Valid()
      ensures var first := SelectStatus(config.threshold, old(cache.forecast[..]), FormatHour(now));
        && title == first.title
        && refreshed == (first.title == Unknown)
        && (!refreshed ==>
              && cache == old(cache) && cache.forecast[..] == old(cache.forecast[..]) && shown == first
              && fetched.forecast[..] == old(fetched.forecast[..])
              && cacheLabel == old(cacheLabel) && cacheTooltip == old(cacheTooltip))
      ensures refreshed ==>
                && cache == fetched.(parsedUpdatedAt := ParseOrZero(fetched.updatedAt))
                && cache.forecast[..] == ParseEntries(old(fetched.forecast[..]))
                && ScanSafe(cache.forecast[..], FormatHour(now))
                && shown == SelectStatus(config.threshold, cache.forecast[..], FormatHour(now))
                && cacheLabel == "Cache updated: " + cache.updatedAt
                && cacheTooltip == "Cache updated: cache.UpdatedAt" + cache.updatedAt
      ensures wake == NextHourMark(now) && waiting == Instant(wake) - Instant(now)
      ensures 0 < waiting <= NanosPerHour && Instant(wake) % NanosPerHour == 0
    {
      var first := DisplayCurrentStatus(config.threshold, cache, now);
      title := first.title;
      shown := first;
      refreshed := first.title == Unknown;
      if refreshed {
        ghost var raw := fetched.forecast[..];
        UpdateCache(fetched);
        ParseEntriesSpec(raw);
        SelectStatusIgnoresParsedFields(config.threshold, raw, cache.forecast[..], FormatHour(now));
        var second := DisplayCurrentStatus(config.threshold, cache, now);
        shown := second;
      }
      wake := NextHourMark(now);
      NextHourMarkSpec(now);
      waiting := Instant(wake) - Instant(now);
    }
  }
}
