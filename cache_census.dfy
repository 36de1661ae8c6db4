/**
 * The `/memory-usage-in-mem-cache` report: for each of the proxy's three
 * in-memory caches, the number of entries of its value dictionary plus the
 * number of entries of its expiry (TTL) dictionary.
 */
module CacheCensus {

  /**
   * An in-memory cache, seen through its two dictionaries: cached values by
   * key, and expiry times by key. Nothing ties the two key sets together.
   */
  datatype InMemoryCache<V> = InMemoryCache(cacheDict: map<string, V>, ttlDict: map<string, real>)

  /** The report: one item count per cache. */
  datatype Census = Census(
    numItemsInUserApiKeyCache: nat,
    numItemsInLlmRouterCache: nat,
    numItemsInProxyLoggingObjCache: nat)

  /**
   * The count reported for one cache. A key held in both dictionaries is
   * counted twice, so the count is the number of distinct keys plus the
   * number of keys that have both a value and an expiry time.
   */
  function ItemCount<V>(cache: InMemoryCache<V>): (n: nat)
    ensures n == |cache.cacheDict.Keys + cache.ttlDict.Keys| + |cache.cacheDict.Keys * cache.ttlDict.Keys|
    ensures n == 0 <==> cache.cacheDict == map[] && cache.ttlDict == map[]
  {
    |cache.cacheDict| + |cache.ttlDict|
  }

  /** The report for the user-API-key cache, the router's cache and the proxy logging object's usage cache. */
  function MemoryUsageInMemCache<V1, V2, V3>(
    userApiKeyCache: InMemoryCache<V1>,
    llmRouterCache: InMemoryCache<V2>,
    proxyLoggingCache: InMemoryCache<V3>): (r: Census)
    ensures r.numItemsInUserApiKeyCache == |userApiKeyCache.cacheDict| + |userApiKeyCache.ttlDict|
    ensures r.numItemsInLlmRouterCache == |llmRouterCache.cacheDict| + |llmRouterCache.ttlDict|
    ensures r.numItemsInProxyLoggingObjCache == |proxyLoggingCache.cacheDict| + |proxyLoggingCache.ttlDict|
  {
    Census(ItemCount(userApiKeyCache), ItemCount(llmRouterCache), ItemCount(proxyLoggingCache))
  }

  /**
   * The count equals the number of distinct keys exactly when no key has
   * both a value and an expiry time; otherwise it is larger.
   */
  lemma ItemCountIsDistinctKeysWhenDisjoint<V>(cache: InMemoryCache<V>)
    ensures ItemCount(cache) >= |cache.cacheDict.Keys + cache.ttlDict.Keys|
    ensures ItemCount(cache) == |cache.cacheDict.Keys + cache.ttlDict.Keys|
            <==> cache.cacheDict.Keys !! cache.ttlDict.Keys
  {
    var both := cache.cacheDict.Keys * cache.ttlDict.Keys;
    if !(cache.cacheDict.Keys !! cache.ttlDict.Keys) {
      var k :| k in cache.cacheDict.Keys && k in cache.ttlDict.Keys;
      assert k in both;
    }
  }
}
