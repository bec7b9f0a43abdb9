/** `srs_seat_api_request`: an authenticated GET against the SeAT API,
    answered from the transient cache when a live entry exists. */
module SeatApi {
  import opened Decimal
  import opened Php
  import opened WordPress

  const HourInSeconds := 3600

  /** `get_option( 'seat_api_key' )`: `false` when the setting is missing. */
  function ApiKey(settings: map<string, string>): Value {
    GetOption(settings, "seat_api_key", Bool(false))
  }

  /** `get_option( 'seat_api_url' )`: `false` when the setting is missing. */
  function BaseUrl(settings: map<string, string>): Value {
    GetOption(settings, "seat_api_url", Bool(false))
  }

  /** The request is attempted only when both the key and the URL are truthy. */
  predicate Configured(settings: map<string, string>) {
    Truthy(ApiKey(settings)) && Truthy(BaseUrl(settings))
  }

  /** `$hours * HOUR_IN_SECONDS`, where `$hours` is `get_option(
      'seat_api_hours', 1 )`; a saved setting is read by its leading digits. */
  function Ttl(settings: map<string, string>): (ttl: int)
    ensures "seat_api_hours" !in settings ==> ttl == HourInSeconds
    ensures ttl % HourInSeconds == 0 && ttl >= 0
    ensures "seat_api_hours" in settings && Canonical(settings["seat_api_hours"]) ==>
      ttl == DigitsValue(settings["seat_api_hours"]) * HourInSeconds
  {
    var hours := if "seat_api_hours" in settings then LeadingNumber(settings["seat_api_hours"]) else 1;
    hours * HourInSeconds
  }

  /** The default request arguments: a GET with a JSON `accept` header, the
      API key as `X-Token` and a blank `X-CSRF-TOKEN`. */
  function Defaults(key: Value): Options {
    [ ("method", Str("GET")),
      ("headers", Arr([ (StrKey("accept"), Str("application/json")),
                        (StrKey("X-Token"), key),
                        (StrKey("X-CSRF-TOKEN"), Str(" ")) ])) ]
  }

  /** `array_merge( $default, $args )` on string keys: every key the caller
      passes replaces the default (in the default's position), the rest keep
      their default, and new keys follow the defaults. */
  function Query(key: Value, args: Options): (q: Options)
    ensures UniqueKeys(q)
    ensures forall k :: Find(q, k) == (if LastValue(args, k).Some? then LastValue(args, k) else Find(Defaults(key), k))
    ensures args == [] ==> q == Defaults(key)
  {
    var d := Defaults(key);
    assert d[1..][1..] == [] && d[1..][0].0 != d[0].0;
    assert UniqueKeys(d[1..]);
    assert Find(d[1..], d[0].0) == Find(d[1..][1..], d[0].0) == None;
    assert UniqueKeys(d);
    AssignEach(d, args)
  }

  /** The transient name: "seatapi_" followed by the hash of the full URL and
      the serialised request options. */
  function CacheKey(f: Foreign, url: string, query: Options): string {
    "seatapi_" + f.hash(url + f.serialize(query))
  }

  /** The full URL, `$base . $endpoint`. */
  function Url(settings: map<string, string>, endpoint: string): string {
    ToStr(BaseUrl(settings)) + endpoint
  }

  /** The transient name of a request. */
  function RequestKey(f: Foreign, settings: map<string, string>, endpoint: string, args: Options): string {
    CacheKey(f, Url(settings, endpoint), Query(ApiKey(settings), args))
  }

  /** What one call does: the value returned, the cache afterwards, and how
      many HTTP requests, cache reads and cache writes it made. */
  datatype Outcome = Outcome(body: Value, entries: map<string, Entry>, calls: nat, lookups: nat, stores: nat)

  /** The behaviour of `srs_seat_api_request( $endpoint, $args )`. */
  function Request(f: Foreign, site: Site, entries: map<string, Entry>, server: (string, Options) -> Response,
                   endpoint: string, args: Options): (o: Outcome)
    // Missing settings: nothing is returned and nothing is touched.
    ensures !Configured(site.settings) ==> o == Outcome(Null, entries, 0, 0, 0)
    // At most one cache read, at most one HTTP request, and a write only after a request.
    ensures o.lookups <= 1 && o.calls <= o.lookups && o.stores <= o.calls
    // The cache changes only by storing the returned value under the request's key.
    ensures o.stores == 0 ==> o.entries == entries
    ensures o.stores == 1 ==> o.entries == entries[RequestKey(f, site.settings, endpoint, args) := Entry(o.body, Expiry(site.now, Ttl(site.settings)))]
  {
    var key := ApiKey(site.settings);
    var base := BaseUrl(site.settings);
    if !Truthy(key) || !Truthy(base) then Outcome(Null, entries, 0, 0, 0)
    else
      var url := ToStr(base) + endpoint;
      var query := Query(key, args);
      var hash := CacheKey(f, url, query);
      var cached := Transient(entries, hash, site.now);
      if cached != Bool(false) then Outcome(cached, entries, 0, 1, 0)
      else
        match server(url, query)
        case WpError => Outcome(Bool(false), entries, 1, 1, 0)
        case Reply(b) =>
          var body := f.jsonDecode(b);
          Outcome(body, entries[hash := Entry(body, Expiry(site.now, Ttl(site.settings)))], 1, 1, 1)
  }

  /** A live cached value other than `false` is returned without a request. */
  lemma CacheHit(f: Foreign, site: Site, entries: map<string, Entry>, server: (string, Options) -> Response,
                 endpoint: string, args: Options)
    requires Configured(site.settings)
    requires Transient(entries, RequestKey(f, site.settings, endpoint, args), site.now) != Bool(false)
    ensures var o := Request(f, site, entries, server, endpoint, args);
      o.body == Transient(entries, RequestKey(f, site.settings, endpoint, args), site.now)
      && o.calls == 0 && o.stores == 0 && o.entries == entries
  {
  }

  /** On a miss exactly one request is sent. A response is decoded, stored
      for `hours * 3600` seconds and returned; a `WP_Error` stores nothing
      and the call returns `false` (the miss marker it read). */
  lemma CacheMiss(f: Foreign, site: Site, entries: map<string, Entry>, server: (string, Options) -> Response,
                  endpoint: string, args: Options)
    requires Configured(site.settings)
    requires Transient(entries, RequestKey(f, site.settings, endpoint, args), site.now) == Bool(false)
    ensures var o := Request(f, site, entries, server, endpoint, args);
      var response := server(Url(site.settings, endpoint), Query(ApiKey(site.settings), args));
      && o.calls == 1
      && (response.WpError? ==> o.body == Bool(false) && o.stores == 0 && o.entries == entries)
      && (response.Reply? ==>
            o.body == f.jsonDecode(response.body) && o.stores == 1
            && o.entries == entries[RequestKey(f, site.settings, endpoint, args) := Entry(o.body, Expiry(site.now, Ttl(site.settings)))])
  {
  }

  /** A stored `false` is indistinguishable from a miss: the request is sent again. */
  lemma StoredFalseIsMiss(f: Foreign, site: Site, entries: map<string, Entry>, server: (string, Options) -> Response,
                          endpoint: string, args: Options)
    requires Configured(site.settings)
    requires RequestKey(f, site.settings, endpoint, args) in entries
    requires entries[RequestKey(f, site.settings, endpoint, args)].value == Bool(false)
    ensures Request(f, site, entries, server, endpoint, args).calls == 1
  {
  }

  /** Repeating a call while the entry it stored is live sends no second
      request and returns the same value, unless the stored body decoded to
      `false`. */
  lemma RepeatWithinTtl(f: Foreign, site: Site, entries: map<string, Entry>, server: (string, Options) -> Response,
                        later: int, server2: (string, Options) -> Response, endpoint: string, args: Options)
    requires site.now <= later
    requires Ttl(site.settings) == 0 || later <= site.now + Ttl(site.settings)
    requires Request(f, site, entries, server, endpoint, args).stores == 1
    requires Request(f, site, entries, server, endpoint, args).body != Bool(false)
    ensures var first := Request(f, site, entries, server, endpoint, args);
      var second := Request(f, site.(now := later), first.entries, server2, endpoint, args);
      second.calls == 0 && second.body == first.body && second.entries == first.entries
  {
  }

  /** Once a stored entry has expired, the same call sends a new request. */
  lemma RepeatAfterExpiry(f: Foreign, site: Site, entries: map<string, Entry>, server: (string, Options) -> Response,
                          later: int, server2: (string, Options) -> Response, endpoint: string, args: Options)
    requires Request(f, site, entries, server, endpoint, args).stores == 1
    requires Ttl(site.settings) != 0 && site.now + Ttl(site.settings) < later
    ensures var first := Request(f, site, entries, server, endpoint, args);
      Request(f, site.(now := later), first.entries, server2, endpoint, args).calls == 1
  {
  }

  /** `srs_seat_api_request`, against the cache and the HTTP client. */
  method SeatApiRequest(f: Foreign, site: Site, cache: TransientStore, http: Http, endpoint: string, args: Options)
    returns (body: Value)
    modifies cache, http
    ensures var o := Request(f, site, old(cache.entries), old(http.server), endpoint, args);
      && body == o.body
      && cache.entries == o.entries
      && http.calls == old(http.calls) + o.calls
      && cache.lookups == old(cache.lookups) + o.lookups
      && cache.stores == old(cache.stores) + o.stores
    ensures http.server == old(http.server)
  {
    var key := GetOption(site.settings, "seat_api_key", Bool(false));
    var base := GetOption(site.settings, "seat_api_url", Bool(false));
    if !Truthy(key) || !Truthy(base) {
      return Null;
    }
    var url := ToStr(base) + endpoint;
    var query := Query(key, args);
    var hash := CacheKey(f, url, query);
    body := cache.Get(hash, site.now);
    if body == Bool(false) {
      var response := http.Request(url, query);
      if response.Reply? {
        body := f.jsonDecode(response.body);
        cache.Set(hash, body, Ttl(site.settings), site.now);
      }
    }
  }
}
