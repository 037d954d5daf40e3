/**
 * The menu cache (`MenuCacheService` in menuCacheService.ts): one shared
 * service holding the last fetched menus and when they were fetched.
 *
 * The fetch is a parameter: each refresh receives what `fetchMenuData`
 * produced (the menus, or the error it threw) and the clock reading
 * `new Date()` would give. A tick of the hourly interval is an explicit
 * `Tick` call; `refreshInterval` records the period the interval was armed
 * with.
 */
module MenuCache {
  import opened Wrappers
  import opened MealViewer

  /** `CACHE_DURATION`: one hour in milliseconds. */
  const CacheDuration: nat := 1000 * 60 * 60

  /** A `setInterval` handle, identified by its period. */
  datatype Interval = Interval(periodMs: nat)

  class MenuCacheService {
    /** `cache.data`. */
    var data: Option<seq<DailyMenu>>
    /** `cache.lastUpdated`, as a millisecond timestamp. */
    var lastUpdated: Option<int>
    var initialized: bool
    var refreshInterval: Option<Interval>
    /** How many refreshes have succeeded so far. */
    ghost var successes: nat

    /**
     * The cache holds data exactly when a refresh has succeeded, and then
     * also its time; the service is initialized exactly when the hourly
     * interval is armed, and only after a successful refresh.
     */
    ghost predicate Valid()
      reads this
    {
      && (data.Some? <==> successes > 0)
      && (lastUpdated.Some? <==> successes > 0)
      && (initialized <==> refreshInterval.Some?)
      && (initialized ==> successes > 0)
      && (refreshInterval.Some? ==> refreshInterval.value == Interval(CacheDuration))
    }

    constructor ()
      ensures Valid()
      ensures data == None && lastUpdated == None && !initialized && refreshInterval == None
      ensures successes == 0
    {
      data := None;
      lastUpdated := None;
      initialized := false;
      refreshInterval := None;
      successes := 0;
    }

    /**
     * `refreshCache()`: on a successful fetch, replace the whole cache with
     * the fetched menus stamped `now`; on a failed one, leave the cache as it
     * was and re-raise the error.
     */
    method RefreshCache(fetched: Result<seq<DailyMenu>, string>, now: int) returns (outcome: Outcome<string>)
      modifies this
      ensures fetched.Success? ==>
                && data == Some(fetched.value) && lastUpdated == Some(now)
                && successes == old(successes) + 1 && outcome == Pass
      ensures fetched.Failure? ==>
                && data == old(data) && lastUpdated == old(lastUpdated)
                && successes == old(successes) && outcome == Fail(fetched.error)
      ensures initialized == old(initialized) && refreshInterval == old(refreshInterval)
      ensures old(Valid()) ==> Valid()
    {
      if fetched.Failure? {
        return Fail(fetched.error);
      }
      data := Some(fetched.value);
      lastUpdated := Some(now);
      successes := successes + 1;
      outcome := Pass;
    }

    /**
     * `initializeCache()`: nothing once initialized; otherwise refresh, and
     * only if that refresh succeeds arm the hourly interval and set the flag.
     * A failed first refresh re-raises its error with both still unset.
     */
    method InitializeCache(fetched: Result<seq<DailyMenu>, string>, now: int) returns (outcome: Outcome<string>)
      modifies this
      ensures old(initialized) ==>
                && outcome == Pass
                && data == old(data) && lastUpdated == old(lastUpdated) && initialized
                && refreshInterval == old(refreshInterval) && successes == old(successes)
      ensures !old(initialized) && fetched.Success? ==>
                && outcome == Pass && initialized && refreshInterval == Some(Interval(CacheDuration))
                && data == Some(fetched.value) && lastUpdated == Some(now)
      ensures !old(initialized) && fetched.Failure? ==>
                && outcome == Fail(fetched.error) && !initialized && refreshInterval == old(refreshInterval)
                && data == old(data) && lastUpdated == old(lastUpdated)
      ensures old(Valid()) ==> Valid()
    {
      if initialized {
        return Pass;
      }
      outcome := RefreshCache(fetched, now);
      if outcome.Fail? {
        return;
      }
      refreshInterval := Some(Interval(CacheDuration));
      initialized := true;
    }

    /**
     * One firing of the interval: `refreshCache()` again. Its error goes
     * nowhere (nothing awaits the interval's callback), so it is dropped.
     */
    method Tick(fetched: Result<seq<DailyMenu>, string>, now: int)
      requires Valid() && initialized
      modifies this
      ensures Valid() && initialized && refreshInterval == old(refreshInterval)
      ensures fetched.Success? ==> data == Some(fetched.value) && lastUpdated == Some(now)
      ensures fetched.Failure? ==> data == old(data) && lastUpdated == old(lastUpdated)
    {
      var _ := RefreshCache(fetched, now);
    }

    /** `getCachedMenu()`: `null` until a refresh has succeeded. */
    method GetCachedMenu() returns (menus: Option<seq<DailyMenu>>)
      requires Valid()
      ensures menus == data
      ensures menus.None? <==> successes == 0
    {
      menus := data;
    }

    /** `getLastUpdated()`: `null` until a refresh has succeeded. */
    method GetLastUpdated() returns (time: Option<int>)
      requires Valid()
      ensures time == lastUpdated
      ensures time.None? <==> successes == 0
    {
      time := lastUpdated;
    }

    /** `isInitialized()`: never true before a refresh has succeeded. */
    method IsInitialized() returns (flag: bool)
      requires Valid()
      ensures flag == initialized
      ensures flag ==> successes > 0 && refreshInterval == Some(Interval(CacheDuration))
    {
      flag := initialized;
    }
  }

  /** The class-level `instance` slot behind `getInstance()`. */
  class ServiceRegistry {
    var instance: MenuCacheService?

    constructor ()
      ensures instance == null
    {
      instance := null;
    }

    /** `getInstance()`: create the service on first use, then always hand back that one. */
    method GetInstance() returns (service: MenuCacheService)
      modifies this
      ensures old(instance) != null ==> service == old(instance)
      ensures old(instance) == null ==> fresh(service) && service.Valid() && service.successes == 0
      ensures instance == service
    {
      if instance == null {
        instance := new MenuCacheService();
      }
      service := instance;
    }

    /** Every caller of `getInstance()` shares one service. */
    method GetInstanceTwice() returns (first: MenuCacheService, second: MenuCacheService)
      modifies this
      ensures first == second
    {
      first := GetInstance();
      second := GetInstance();
    }
  }

  /**
   * The module's exported `menuCacheService` after a first failed
   * initialization followed by a successful one: the failure leaves
   * everything unset, the retry fills the cache and arms the interval, and
   * a later initialization changes nothing.
   */
  method InitializeRetry(menus: seq<DailyMenu>) returns (service: MenuCacheService)
    ensures service.initialized && service.data == Some(menus) && service.lastUpdated == Some(20)
    ensures service.refreshInterval == Some(Interval(3600000))
  {
    service := new MenuCacheService();
    var first := service.InitializeCache(Failure("network down"), 10);
    assert first == Fail("network down") && !service.initialized && service.data == None;
    var second := service.InitializeCache(Success(menus), 20);
    var third := service.InitializeCache(Success([]), 30);
    assert third == Pass;
  }
}
