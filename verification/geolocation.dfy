/** `get_ip_location`: a memo map from an IP string to its (latitude,
    longitude), in front of an external lookup service. The loopback address
    is answered without a lookup, a cached address is answered from the map,
    and only a successful lookup is stored, so failures are retried later. */
module Geolocation {
  import opened Basics
  import opened Strings

  /** The one address answered at once with no location. */
  const Loopback: string := "127.0.0.1"

  /** Latitude and longitude. */
  type Coord = (real, real)

  /** What the lookup service gives for an address: no usable response (a
      network error or a body that is not JSON), or a JSON body whose `loc`
      field may be missing. */
  datatype Fetch = Unreachable | Answer(loc: Option<string>)

  /** The result of one call: the location returned, the cache afterwards, and
      whether the lookup service was asked. */
  datatype Resolution = Resolution(location: Option<Coord>, cache: map<string, Coord>, lookedUp: bool)

  /** Reading "lat,lon" text into a pair: succeeds only when the text
      has exactly one comma and both parts parse as numbers (`num` stands for
      `float`). */
  function ParseLoc(loc: string, num: string -> Option<real>): (r: Option<Coord>)
    ensures r.Some? ==> Count(loc, ',') == 1
  {
    var parts := Split(loc, ',');
    if |parts| == 2 && num(parts[0]).Some? && num(parts[1]).Some? then
      Some((num(parts[0]).value, num(parts[1]).value))
    else None
  }

  /** A "lat,lon" text parses into the pair of its parsed halves. */
  lemma ParseLocOf(lat: string, lon: string, num: string -> Option<real>)
    requires ',' !in lat && ',' !in lon
    ensures num(lat).Some? && num(lon).Some? ==>
              ParseLoc(lat + [','] + lon, num) == Some((num(lat).value, num(lon).value))
    ensures num(lat).None? || num(lon).None? ==> ParseLoc(lat + [','] + lon, num) == None
  {
    SplitJoin([lat, lon], ',');
    assert Join([lat, lon], ',') == lat + [','] + lon;
  }

  /** The location a lookup answer gives: a missing or empty `loc` field is
      rejected before it is parsed. */
  function Located(answer: Fetch, num: string -> Option<real>): (r: Option<Coord>)
    ensures r.Some? ==> answer.Answer? && answer.loc.Some? && ParseLoc(answer.loc.value, num) == r
  {
    match answer
    case Unreachable => None
    case Answer(None) => None
    case Answer(Some(loc)) => if loc == [] then None else ParseLoc(loc, num)
  }

  /** `b` keeps every entry of `a` unchanged. */
  ghost predicate Extends(a: map<string, Coord>, b: map<string, Coord>) {
    forall ip :: ip in a ==> ip in b && b[ip] == a[ip]
  }

  lemma ExtendsValues(a: map<string, Coord>, b: map<string, Coord>)
    requires Extends(a, b)
    ensures a.Values <= b.Values
  {
    forall v | v in a.Values ensures v in b.Values {
      var ip :| ip in a && a[ip] == v;
      assert b[ip] == v;
    }
  }

  /** One call of `get_ip_location` against `cache`; `fetch` is what the lookup
      service would answer for each address. */
  function Resolve(cache: map<string, Coord>, ip: string, fetch: string -> Fetch,
                   num: string -> Option<real>): (r: Resolution)
    ensures ip == Loopback ==> r == Resolution(None, cache, false)
    ensures ip != Loopback && ip in cache ==> r == Resolution(Some(cache[ip]), cache, false)
    ensures r.lookedUp <==> ip != Loopback && ip !in cache
    ensures r.lookedUp ==> r.location == Located(fetch(ip), num)
    ensures Extends(cache, r.cache)
    ensures r.cache.Keys <= cache.Keys + {ip}
    ensures r.location.None? ==> r.cache == cache
    ensures r.location.Some? && ip != Loopback ==> ip in r.cache && r.cache[ip] == r.location.value
  {
    if ip == Loopback then Resolution(None, cache, false)
    else if ip in cache then Resolution(Some(cache[ip]), cache, false)
    else
      match Located(fetch(ip), num)
      case Some(c) => Resolution(Some(c), cache[ip := c], true)
      case None => Resolution(None, cache, true)
  }

  /** A miss asks the service. An answer "lat,lon" whose halves both parse is
      returned and stored under the address; one with a half that does not
      parse gives nothing and leaves the cache as it was. */
  lemma ResolveLookup(cache: map<string, Coord>, ip: string, fetch: string -> Fetch,
                      num: string -> Option<real>, lat: string, lon: string)
    requires ip != Loopback && ip !in cache
    requires fetch(ip) == Answer(Some(lat + [','] + lon))
    requires ',' !in lat && ',' !in lon
    ensures num(lat).Some? && num(lon).Some? ==>
              var p := (num(lat).value, num(lon).value);
              Resolve(cache, ip, fetch, num) == Resolution(Some(p), cache[ip := p], true)
    ensures num(lat).None? || num(lon).None? ==>
              Resolve(cache, ip, fetch, num) == Resolution(None, cache, true)
  {
    ParseLocOf(lat, lon, num);
    assert lat + [','] + lon != [];
  }

  /** After a successful call, asking again for the same address is a cache hit:
      same answer, no lookup, whatever the service would now say. */
  lemma SecondCallHits(cache: map<string, Coord>, ip: string, f: string -> Fetch,
                       g: string -> Fetch, num: string -> Option<real>)
    requires Resolve(cache, ip, f, num).location.Some?
    ensures var r := Resolve(cache, ip, f, num);
            Resolve(r.cache, ip, g, num) == Resolution(r.location, r.cache, false)
  {
  }

  /** A failed lookup leaves nothing behind: the next call asks again. */
  lemma FailureRetries(cache: map<string, Coord>, ip: string, f: string -> Fetch,
                       g: string -> Fetch, num: string -> Option<real>)
    requires ip != Loopback && ip !in cache
    requires Resolve(cache, ip, f, num).location.None?
    ensures Resolve(Resolve(cache, ip, f, num).cache, ip, g, num).lookedUp
  {
  }

  /** The loopback address never enters a cache that did not hold it. */
  lemma LoopbackNeverCached(cache: map<string, Coord>, ip: string, f: string -> Fetch,
                            num: string -> Option<real>)
    requires Loopback !in cache
    ensures Loopback !in Resolve(cache, ip, f, num).cache
  {
  }
}
