/**
 * The renderer's cache of the tool catalog: one entry in a string key-value
 * store (the browser's `localStorage`), fresh for one hour, bypassed on a
 * forced refresh and written only after a successful fetch. The clock, the
 * network and the JSON codec are parameters.
 */
module ToolsCache {
  import opened Wrappers

  const CacheKey: string := "tools_json_cache_v1"

  /** One hour in milliseconds. */
  const CacheTimeMs: int := 1000 * 60 * 60

  /** What the network gives when it is asked: a rejected request, or a reply. */
  datatype FetchReply<D> = RequestRejected | HttpNotOk | BodyNotJson | Body(data: D)

  datatype CacheError = RequestFailed | FetchFailed | ResponseNotJson

  /** Where the returned catalog came from. */
  datatype Served<D> = FromCache(data: D) | Fetched(data: D)

  datatype CacheStep<D> = CacheStep(store: map<string, string>, result: Result<Served<D>, CacheError>)

  /**
   * The stored text decodes to a catalog that is younger than an hour at
   * `now` (a timestamp in the future counts as young). `decode` is
   * `JSON.parse` followed by reading `data` and `timestamp`; it yields None
   * for text that does not parse and for a record without a numeric timestamp.
   */
  predicate Fresh<D>(stored: string, now: int, decode: string -> Option<(D, int)>)
  {
    decode(stored).Some? && now - decode(stored).value.1 < CacheTimeMs
  }

  /** The cached catalog is used: an entry exists, is not the empty text, no refresh is forced, and it is fresh. */
  predicate Hit<D>(store: map<string, string>, forceRefresh: bool, now: int, decode: string -> Option<(D, int)>)
  {
    CacheKey in store && store[CacheKey] != "" && !forceRefresh && Fresh(store[CacheKey], now, decode)
  }

  /** `getCachedToolsJson` with the clock read once at the start as `now`. */
  function GetSpec<D>(store: map<string, string>, forceRefresh: bool, now: int, fetched: FetchReply<D>,
                      decode: string -> Option<(D, int)>, encode: (D, int) -> string): CacheStep<D>
  {
    if Hit(store, forceRefresh, now, decode) then CacheStep(store, Success(FromCache(decode(store[CacheKey]).value.0)))
    else match fetched
      case RequestRejected => CacheStep(store, Failure(RequestFailed))
      case HttpNotOk => CacheStep(store, Failure(FetchFailed))
      case BodyNotJson => CacheStep(store, Failure(ResponseNotJson))
      case Body(d) => CacheStep(store[CacheKey := encode(d, now)], Success(Fetched(d)))
  }

  /** The store behind the cache, updated in place. */
  class Cache<D> {
    var store: map<string, string>

    constructor (initial: map<string, string>)
      ensures store == initial
    {
      store := initial;
    }

    method GetCachedToolsJson(forceRefresh: bool, now: int, fetched: FetchReply<D>,
                              decode: string -> Option<(D, int)>, encode: (D, int) -> string)
      returns (r: Result<Served<D>, CacheError>)
      modifies this
      ensures CacheStep(store, r) == GetSpec(old(store), forceRefresh, now, fetched, decode, encode)
    {
      if CacheKey in store && store[CacheKey] != "" && !forceRefresh {
        var parsed := decode(store[CacheKey]);
        if parsed.Some? {
          var (data, timestamp) := parsed.value;
          if now - timestamp < CacheTimeMs {
            return Success(FromCache(data));
          }
        }
      }
      match fetched {
        case RequestRejected =>
          return Failure(RequestFailed);
        case HttpNotOk =>
          return Failure(FetchFailed);
        case BodyNotJson =>
          return Failure(ResponseNotJson);
        case Body(data) =>
          store := store[CacheKey := encode(data, now)];
          return Success(Fetched(data));
      }
    }
  }

  /**
   * The cached catalog is returned, and nothing is fetched or written,
   * exactly when the entry is present, non-empty, decodes, no refresh is
   * forced and it is less than an hour old.
   */
  lemma CacheHitIff<D>(store: map<string, string>, forceRefresh: bool, now: int, fetched: FetchReply<D>,
                       decode: string -> Option<(D, int)>, encode: (D, int) -> string)
    ensures var step := GetSpec(store, forceRefresh, now, fetched, decode, encode);
      && (step.result.Success? && step.result.value.FromCache? <==>
            && CacheKey in store && store[CacheKey] != "" && !forceRefresh
            && decode(store[CacheKey]).Some? && now - decode(store[CacheKey]).value.1 < CacheTimeMs)
      && (step.result.Success? && step.result.value.FromCache? ==>
            step.store == store && step.result.value.data == decode(store[CacheKey]).value.0)
  {
  }

  /** An entry exactly one hour old is stale: the catalog is fetched again. */
  lemma OneHourIsStale<D>(store: map<string, string>, now: int, fetched: FetchReply<D>,
                          decode: string -> Option<(D, int)>, encode: (D, int) -> string)
    requires CacheKey in store && decode(store[CacheKey]).Some?
    requires decode(store[CacheKey]).value.1 == now - 3600000
    ensures GetSpec(store, false, now, fetched, decode, encode).result
      == (match fetched
            case RequestRejected => Failure(RequestFailed)
            case HttpNotOk => Failure(FetchFailed)
            case BodyNotJson => Failure(ResponseNotJson)
            case Body(d) => Success(Fetched(d)))
  {
  }

  /**
   * A forced refresh never uses the cache: its outcome is the fetch's,
   * whatever the store holds.
   */
  lemma ForceRefreshFetches<D>(store: map<string, string>, now: int, fetched: FetchReply<D>,
                               decode: string -> Option<(D, int)>, encode: (D, int) -> string)
    ensures var step := GetSpec(store, true, now, fetched, decode, encode);
      && (fetched.RequestRejected? ==> step == CacheStep(store, Failure(RequestFailed)))
      && (fetched.HttpNotOk? ==> step == CacheStep(store, Failure(FetchFailed)))
      && (fetched.BodyNotJson? ==> step == CacheStep(store, Failure(ResponseNotJson)))
      && (fetched.Body? ==> step == CacheStep(store[CacheKey := encode(fetched.data, now)], Success(Fetched(fetched.data))))
  {
  }

  /**
   * The store changes only by a successful fetch, which writes the catalog
   * with the start-of-call time under the one key and touches no other key;
   * a failed fetch leaves the store as it was.
   */
  lemma StoreWrittenOnlyOnSuccess<D>(store: map<string, string>, forceRefresh: bool, now: int, fetched: FetchReply<D>,
                                     decode: string -> Option<(D, int)>, encode: (D, int) -> string)
    ensures var step := GetSpec(store, forceRefresh, now, fetched, decode, encode);
      && (step.result.Failure? ==> step.store == store)
      && (step.store != store ==> step.result.Success? && step.result.value.Fetched?)
      && (step.result.Success? && step.result.value.Fetched? ==>
            && step.store.Keys == store.Keys + {CacheKey}
            && step.store[CacheKey] == encode(step.result.value.data, now)
            && (forall k :: k in store && k != CacheKey ==> step.store[k] == store[k]))
  {
  }

  /**
   * With a codec that round-trips and never writes the empty text, a call
   * at `t` that fetched a catalog makes every unforced call within the
   * following hour serve that catalog from the cache, whatever the network
   * would answer.
   */
  lemma FetchedCatalogServedWithinHour<D>(store: map<string, string>, forceRefresh: bool, t: int, d: D, t2: int,
                                          later: FetchReply<D>,
                                          decode: string -> Option<(D, int)>, encode: (D, int) -> string)
    requires decode(encode(d, t)) == Some((d, t)) && encode(d, t) != ""
    requires t <= t2 < t + CacheTimeMs
    ensures var first := GetSpec(store, forceRefresh, t, Body(d), decode, encode);
      first.result == Success(Fetched(d)) ==>
        GetSpec(first.store, false, t2, later, decode, encode) == CacheStep(first.store, Success(FromCache(d)))
  {
    var first := GetSpec(store, forceRefresh, t, Body(d), decode, encode);
    if first.result == Success(Fetched(d)) {
      assert first.store[CacheKey] == encode(d, t);
    }
  }
}
