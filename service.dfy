/** `GoogleSheetsService`: the catalog cache with a five-minute time to live and a
    stale-on-error fallback, and the catalog lookups that go through it.
    The network fetch and the clock are parameters: `now` is the millisecond time
    read on entry, and `fetched` is the body of a successful response, or `None`
    when the request failed, threw, or answered with a non-success status. */
module SheetsService {
  import opened Wrappers
  import opened Catalog
  import opened CatalogSearch

  /** How long a fetched catalog is served without refetching, in milliseconds. */
  const CacheDuration := 5 * 60 * 1000

  /** The service's static state: the last catalog fetched, and when. */
  class CatalogService {
    var cache: Option<seq<Perfume>>
    var lastFetch: int
    /** How many times the sheet has been requested; no source counterpart, it lets
        the contracts say when a fetch happens. */
    ghost var fetches: nat

    /** The state at process start: nothing cached, timestamp zero. */
    constructor ()
      ensures cache == None && lastFetch == 0 && fetches == 0
    {
      cache := None;
      lastFetch := 0;
      fetches := 0;
    }

    /** The cached catalog may be served at time `now` without a fetch. */
    predicate IsFresh(now: int)
      reads this
    {
      cache.Some? && now - lastFetch < CacheDuration
    }

    /** What `getPerfumeData` returns at time `now` given what the fetch would yield. */
    function Served(now: int, fetched: Option<string>): seq<Perfume>
      reads this
    {
      if IsFresh(now) then cache.value
      else if fetched.Some? then CatalogOf(fetched.value)
      else cache.GetOr([])
    }

    /** `getPerfumeData`. A fresh cache is returned as it is, without a fetch and
        without any change. Otherwise the sheet is fetched: on success the parsed
        catalog replaces the cache, stamped with the time read on entry, and is
        returned; on failure the state is left alone and the old catalog (or the
        empty one, if none was ever fetched) is returned. */
    method GetPerfumeData(now: int, fetched: Option<string>) returns (data: seq<Perfume>)
      modifies this
      ensures data == old(Served(now, fetched))
      ensures old(IsFresh(now)) ==>
        cache == old(cache) && lastFetch == old(lastFetch) && fetches == old(fetches)
      ensures !old(IsFresh(now)) ==> fetches == old(fetches) + 1
      ensures !old(IsFresh(now)) && fetched.Some? ==>
        cache == Some(data) && lastFetch == now
      ensures !old(IsFresh(now)) && fetched.None? ==>
        cache == old(cache) && lastFetch == old(lastFetch)
      ensures old(cache).Some? ==> cache.Some?
    {
      if cache.Some? && now - lastFetch < CacheDuration {
        return cache.value;
      }
      fetches := fetches + 1;
      match fetched
      case Some(csvText) =>
        data := ParseCsv(csvText);
        cache := Some(data);
        lastFetch := now;
      case None =>
        data := cache.GetOr([]);
    }

    /** `searchPerfumes`: the catalog as `getPerfumeData` serves it, searched for `query`. */
    method SearchPerfumes(query: string, now: int, fetched: Option<string>) returns (found: seq<Perfume>)
      modifies this
      ensures found == Search(old(Served(now, fetched)), query)
      ensures old(IsFresh(now)) ==> cache == old(cache) && lastFetch == old(lastFetch)
      ensures !old(IsFresh(now)) && fetched.Some? ==>
        cache == Some(CatalogOf(fetched.value)) && lastFetch == now
      ensures !old(IsFresh(now)) && fetched.None? ==>
        cache == old(cache) && lastFetch == old(lastFetch)
    {
      var data := GetPerfumeData(now, fetched);
      found := Search(data, query);
    }

    /** `getPerfumesByBrand`: the catalog as `getPerfumeData` serves it, filtered by brand. */
    method GetPerfumesByBrand(brand: string, now: int, fetched: Option<string>) returns (found: seq<Perfume>)
      modifies this
      ensures found == ByBrand(old(Served(now, fetched)), brand)
      ensures old(IsFresh(now)) ==> cache == old(cache) && lastFetch == old(lastFetch)
      ensures !old(IsFresh(now)) && fetched.Some? ==>
        cache == Some(CatalogOf(fetched.value)) && lastFetch == now
      ensures !old(IsFresh(now)) && fetched.None? ==>
        cache == old(cache) && lastFetch == old(lastFetch)
    {
      var data := GetPerfumeData(now, fetched);
      found := ByBrand(data, brand);
    }
  }

  /** Two reads less than five minutes apart (or with the clock set back) after a
      successful fetch: the second is served from the cache, whatever the network would have answered, and only one fetch happens. */
  method ReadTwiceWithinTtl(text: string, t0: int, t1: int, second: Option<string>)
    returns (first: seq<Perfume>, again: seq<Perfume>, ghost fetchCount: nat)
    requires t1 < t0 + CacheDuration
    ensures first == CatalogOf(text) && again == first
    ensures fetchCount == 1
  {
    var service := new CatalogService();
    first := service.GetPerfumeData(t0, Some(text));
    again := service.GetPerfumeData(t1, second);
    fetchCount := service.fetches;
  }

  /** A failed refresh after the cache expired still serves the catalog of the
      last successful fetch. */
  method StaleOnError(text: string, t0: int, t1: int)
    returns (first: seq<Perfume>, again: seq<Perfume>)
    requires t1 >= t0 + CacheDuration
    ensures first == CatalogOf(text) && again == first
  {
    var service := new CatalogService();
    first := service.GetPerfumeData(t0, Some(text));
    again := service.GetPerfumeData(t1, None);
  }

  /** A cold start whose first fetch fails serves the empty catalog. */
  method ColdStartFailure(now: int) returns (data: seq<Perfume>)
    ensures data == []
  {
    var service := new CatalogService();
    data := service.GetPerfumeData(now, None);
  }
}
