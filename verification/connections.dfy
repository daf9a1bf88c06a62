/** `update_connections_chart` without its drawing: one table row per socket
    connection with its endpoints written "ip:port" (or "N/A"), a tally of
    connection states that starts from four seeded states, and the map points
    of the remote ends located through the geolocation cache. */
module Connections {
  import opened Basics
  import opened Strings
  import opened Geolocation

  /** An (ip, port) socket address. */
  datatype Endpoint = Endpoint(ip: string, port: nat)

  /** One `psutil` connection record; an absent address is the empty tuple. */
  datatype Connection = Connection(laddr: Option<Endpoint>, raddr: Option<Endpoint>, status: string)

  /** One row of the connection table. */
  datatype Row = Row(local: string, remote: string, status: string)

  // ---------------------------------------------------------------------------
  // Address text

  /** A table cell for an address: its ip, a colon and its port in decimal, or
      "N/A" when the address is absent. */
  function FormatEndpoint(a: Option<Endpoint>): (s: string)
    ensures a.None? <==> ':' !in s
  {
    match a
    case None => NotAvailable
    case Some(e) =>
      assert (e.ip + [':'] + Decimal(e.port))[|e.ip|] == ':';
      e.ip + [':'] + Decimal(e.port)
  }

  /** Reads a table cell back: the text after the last ':' is the port, the text
      before it the address (an IPv6 address keeps its own colons). */
  function ParseEndpoint(s: string): Option<Endpoint> {
    if ':' !in s then None
    else
      var port := AfterLast(s, ':');
      if port != [] && AllDigits(port) then
        Some(Endpoint(s[..|s| - |port| - 1], ParseDecimal(port)))
      else None
  }

  /** Every cell of the table determines the address it was written from. */
  lemma FormatEndpointRoundTrip(a: Option<Endpoint>)
    ensures ParseEndpoint(FormatEndpoint(a)) == a
  {
    if a.Some? {
      var e := a.value;
      var d := Decimal(e.port);
      assert ':' !in d;
      AfterLastOf(e.ip, ':', d);
      var s := e.ip + [':'] + d;
      assert s[..|s| - |d| - 1] == e.ip;
      DecimalRoundTrip(e.port);
    }
  }

  /** The table row of a connection. */
  function RowOf(c: Connection): Row {
    Row(FormatEndpoint(c.laddr), FormatEndpoint(c.raddr), c.status)
  }

  /** A row reads back to its connection's addresses and state. */
  lemma RowOfReadsBack(c: Connection)
    ensures ParseEndpoint(RowOf(c).local) == c.laddr
    ensures ParseEndpoint(RowOf(c).remote) == c.raddr
    ensures RowOf(c).status == c.status
  {
    FormatEndpointRoundTrip(c.laddr);
    FormatEndpointRoundTrip(c.raddr);
  }

  // ---------------------------------------------------------------------------
  // Status tally

  /** The four states the tally starts from, each at zero. */
  const Seeded: map<string, nat> :=
    map["ESTABLISHED" := 0, "CLOSE_WAIT" := 0, "LISTEN" := 0, "TIME_WAIT" := 0]

  /** Sum of all counts of a tally. */
  ghost function MapSum(m: map<string, nat>): nat
    decreases |m|
  {
    if m == map[] then 0
    else
      var k :| k in m;
      assert |(m - {k}).Keys| < |m.Keys| by {
        assert (m - {k}).Keys == m.Keys - {k};
      }
      m[k] + MapSum(m - {k})
  }

  /** The sum does not depend on which key is taken out first. */
  lemma {:induction false} MapSumRemove(m: map<string, nat>, k: string)
    requires k in m
    ensures MapSum(m) == m[k] + MapSum(m - {k})
    decreases |m|
  {
    var j :| j in m && MapSum(m) == m[j] + MapSum(m - {j});
    if j != k {
      assert (m - {j}).Keys == m.Keys - {j};
      assert (m - {k}).Keys == m.Keys - {k};
      MapSumRemove(m - {j}, k);
      MapSumRemove(m - {k}, j);
      assert m - {j} - {k} == m - {k} - {j};
    }
  }

  lemma {:induction false} MapSumZero(m: map<string, nat>)
    requires forall k :: k in m ==> m[k] == 0
    ensures MapSum(m) == 0
    decreases |m|
  {
    if m != map[] {
      var k :| k in m;
      MapSumRemove(m, k);
      assert (m - {k}).Keys == m.Keys - {k};
      MapSumZero(m - {k});
    }
  }

  /** Counting one connection: only the connection's own state goes up, by one,
      and is added if it was new. */
  function Bump(counts: map<string, nat>, status: string): (r: map<string, nat>)
    ensures r.Keys == counts.Keys + {status}
    ensures status in counts ==> r[status] == counts[status] + 1
    ensures status !in counts ==> r[status] == 1
    ensures forall k :: k in counts && k != status ==> r[k] == counts[k]
    ensures MapSum(r) == MapSum(counts) + 1
  {
    var r := counts[status := (if status in counts then counts[status] else 0) + 1];
    assert MapSum(r) == MapSum(counts) + 1 by {
      MapSumRemove(r, status);
      assert r - {status} == counts - {status};
      if status in counts {
        MapSumRemove(counts, status);
      } else {
        assert counts - {status} == counts;
      }
    }
    r
  }

  /** The tally after a run of connection states, one `Bump` per connection. */
  function TallyOf(statuses: seq<string>): map<string, nat>
    decreases |statuses|
  {
    if statuses == [] then Seeded
    else Bump(TallyOf(statuses[..|statuses| - 1]), Last(statuses))
  }

  /** The tally holds the four seeded states and every state seen, each mapped
      to the number of connections in that state; the counts add up to the
      number of connections. */
  lemma TallyCounts(statuses: seq<string>)
    ensures TallyOf(statuses).Keys == Seeded.Keys + (set s | s in statuses)
    ensures forall k :: k in TallyOf(statuses) ==> TallyOf(statuses)[k] == Count(statuses, k)
    ensures MapSum(TallyOf(statuses)) == |statuses|
  {
    TallyKeys(statuses);
    TallyValues(statuses);
    TallySum(statuses);
  }

  lemma {:induction false} TallyKeys(statuses: seq<string>)
    ensures TallyOf(statuses).Keys == Seeded.Keys + (set s | s in statuses)
    decreases |statuses|
  {
    if statuses != [] {
      var init := statuses[..|statuses| - 1];
      assert statuses == init + [Last(statuses)];
      TallyKeys(init);
    }
  }

  lemma {:induction false} TallyValues(statuses: seq<string>)
    ensures forall k :: k in TallyOf(statuses) ==> TallyOf(statuses)[k] == Count(statuses, k)
    decreases |statuses|
  {
    if statuses != [] {
      var init := statuses[..|statuses| - 1];
      var x := Last(statuses);
      assert statuses == init + [x];
      TallyValues(init);
      TallyKeys(init);
      forall k | k in TallyOf(statuses) ensures TallyOf(statuses)[k] == Count(statuses, k) {
        CountAppend(init, [x], k);
        if k !in TallyOf(init) {
          CountPositive(init, k);
        }
      }
    }
  }

  lemma {:induction false} TallySum(statuses: seq<string>)
    ensures MapSum(TallyOf(statuses)) == |statuses|
    decreases |statuses|
  {
    if statuses == [] {
      MapSumZero(Seeded);
    } else {
      TallySum(statuses[..|statuses| - 1]);
    }
  }

  function Statuses(conns: seq<Connection>): seq<string> {
    seq(|conns|, i requires 0 <= i < |conns| => conns[i].status)
  }

  // ---------------------------------------------------------------------------
  // One refresh

  /** Number of connections with a remote end. */
  function RemoteCount(conns: seq<Connection>): nat
    decreases |conns|
  {
    if conns == [] then 0
    else RemoteCount(conns[..|conns| - 1]) + (if Last(conns).raddr.Some? then 1 else 0)
  }

  /** The remote addresses of the connections. */
  function RemoteIps(conns: seq<Connection>): set<string> {
    set i | 0 <= i < |conns| && conns[i].raddr.Some? :: conns[i].raddr.value.ip
  }

  /** Python truthiness of both coordinates: a point at latitude or longitude
      zero is not drawn. */
  predicate Plotted(c: Coord) {
    c.0 != 0.0 && c.1 != 0.0
  }

  /** The table rows of a run of connections, one `RowOf` per connection. */
  function RowsOf(conns: seq<Connection>): seq<Row>
    decreases |conns|
  {
    if conns == [] then [] else RowsOf(conns[..|conns| - 1]) + [RowOf(Last(conns))]
  }

  lemma RowsStep(conns: seq<Connection>, i: nat)
    requires i < |conns|
    ensures RowsOf(conns[..i + 1]) == RowsOf(conns[..i]) + [RowOf(conns[i])]
  {
    assert conns[..i + 1][..i] == conns[..i];
  }

  /** One row per connection, in order, each being that connection's row. */
  lemma {:induction false} RowsOfEach(conns: seq<Connection>)
    ensures |RowsOf(conns)| == |conns|
    ensures forall j :: 0 <= j < |conns| ==> RowsOf(conns)[j] == RowOf(conns[j])
    decreases |conns|
  {
    if conns != [] {
      RowsOfEach(conns[..|conns| - 1]);
    }
  }

  /** Every row's cells are "N/A" exactly for the absent addresses, and read
      back to the connection's addresses and state. */
  lemma RowsReadBack(conns: seq<Connection>)
    ensures forall j :: 0 <= j < |conns| ==>
              var row := RowOf(conns[j]);
              && (row.local == NotAvailable <==> conns[j].laddr.None?)
              && (row.remote == NotAvailable <==> conns[j].raddr.None?)
              && ParseEndpoint(row.local) == conns[j].laddr
              && ParseEndpoint(row.remote) == conns[j].raddr
              && row.status == conns[j].status
  {
    forall j | 0 <= j < |conns|
      ensures var row := RowOf(conns[j]);
              && (row.local == NotAvailable <==> conns[j].laddr.None?)
              && (row.remote == NotAvailable <==> conns[j].raddr.None?)
              && ParseEndpoint(row.local) == conns[j].laddr
              && ParseEndpoint(row.remote) == conns[j].raddr
              && row.status == conns[j].status
    {
      RowOfReadsBack(conns[j]);
      assert ':' !in NotAvailable;
    }
  }

  /** The statuses of one more connection are those before it and its own. */
  lemma StatusesStep(conns: seq<Connection>, i: nat)
    requires i < |conns|
    ensures Statuses(conns[..i + 1]) == Statuses(conns[..i]) + [conns[i].status]
  {
  }

  /** Counting one more state bumps the tally so far. */
  lemma TallyStep(statuses: seq<string>, status: string)
    ensures TallyOf(statuses + [status]) == Bump(TallyOf(statuses), status)
  {
    assert (statuses + [status])[..|statuses|] == statuses;
  }

  /** The map side of a refresh: the cache, the points drawn, and the number of
      lookups made so far. */
  datatype Geo = Geo(cache: map<string, Coord>, points: seq<Coord>, lookups: nat)

  /** The map side of the loop body: a connection with a remote end has its
      address located, and the location is drawn when both coordinates are
      non-zero. */
  function Locate(g: Geo, conn: Connection, fetch: string -> Fetch,
                  num: string -> Option<real>): Geo
  {
    match conn.raddr
    case None => g
    case Some(remote) =>
      var r := Resolve(g.cache, remote.ip, fetch, num);
      var points := if r.location.Some? && Plotted(r.location.value)
                    then g.points + [r.location.value] else g.points;
      Geo(r.cache, points, g.lookups + (if r.lookedUp then 1 else 0))
  }

  /** The map side over a run of connections, one `Locate` per connection. */
  function LocateAll(conns: seq<Connection>, cache: map<string, Coord>,
                     fetch: string -> Fetch, num: string -> Option<real>): Geo
    decreases |conns|
  {
    if conns == [] then Geo(cache, [], 0)
    else Locate(LocateAll(conns[..|conns| - 1], cache, fetch, num), Last(conns), fetch, num)
  }

  /** The map side after one more connection locates it on the map side so far. */
  lemma LocateStep(conns: seq<Connection>, i: nat, cache: map<string, Coord>,
                   fetch: string -> Fetch, num: string -> Option<real>)
    requires i < |conns|
    ensures LocateAll(conns[..i + 1], cache, fetch, num)
         == Locate(LocateAll(conns[..i], cache, fetch, num), conns[i], fetch, num)
  {
    assert conns[..i + 1][..i] == conns[..i];
  }

  /** The remote addresses of a run of connections include those of its
      prefix. */
  lemma RemoteIpsPrefix(conns: seq<Connection>)
    requires conns != []
    ensures RemoteIps(conns[..|conns| - 1]) <= RemoteIps(conns)
    ensures Last(conns).raddr.Some? ==> Last(conns).raddr.value.ip in RemoteIps(conns)
  {
    var init := conns[..|conns| - 1];
    forall ip | ip in RemoteIps(init) ensures ip in RemoteIps(conns) {
      var j :| 0 <= j < |init| && init[j].raddr.Some? && init[j].raddr.value.ip == ip;
      assert conns[j] == init[j];
    }
    assert conns[|conns| - 1] == Last(conns);
  }

  /** Locating one connection only adds its own non-loopback remote address to
      the cache. */
  lemma LocateCache(g: Geo, conn: Connection, fetch: string -> Fetch,
                    num: string -> Option<real>)
    ensures var c := Locate(g, conn, fetch, num).cache;
            && Extends(g.cache, c)
            && forall ip :: ip in c && ip !in g.cache ==> ip != Loopback && conn.raddr.Some? && ip == conn.raddr.value.ip
  {
  }

  /** The cache only grows, and only by non-loopback remote addresses. */
  lemma {:induction false} LocateAllCache(conns: seq<Connection>, cache: map<string, Coord>,
                                          fetch: string -> Fetch, num: string -> Option<real>)
    ensures var c := LocateAll(conns, cache, fetch, num).cache;
            && Extends(cache, c)
            && forall ip :: ip in c && ip !in cache ==> ip != Loopback && ip in RemoteIps(conns)
    decreases |conns|
  {
    if conns != [] {
      var init := conns[..|conns| - 1];
      var g := LocateAll(init, cache, fetch, num);
      LocateAllCache(init, cache, fetch, num);
      LocateCache(g, Last(conns), fetch, num);
      RemoteIpsPrefix(conns);
    }
  }

  /** Locating one connection makes at most one lookup and draws at most one
      point, and none without a remote end. */
  lemma LocateCounts(g: Geo, conn: Connection, fetch: string -> Fetch,
                     num: string -> Option<real>)
    ensures var h := Locate(g, conn, fetch, num);
            var most := g.lookups + (if conn.raddr.Some? then 1 else 0);
            h.lookups <= most && |h.points| <= |g.points| + (if conn.raddr.Some? then 1 else 0)
  {
  }

  /** At most one lookup and one point per connection with a remote end. */
  lemma {:induction false} LocateAllBounds(conns: seq<Connection>, cache: map<string, Coord>,
                                           fetch: string -> Fetch, num: string -> Option<real>)
    ensures var g := LocateAll(conns, cache, fetch, num);
            g.lookups <= RemoteCount(conns) && |g.points| <= RemoteCount(conns)
    decreases |conns|
  {
    if conns != [] {
      var init := conns[..|conns| - 1];
      LocateAllBounds(init, cache, fetch, num);
      LocateCounts(LocateAll(init, cache, fetch, num), Last(conns), fetch, num);
    }
  }

  /** Every point drawn is a cached location away from latitude and longitude
      zero. */
  ghost predicate PointsCached(g: Geo) {
    forall k :: 0 <= k < |g.points| ==> g.points[k] in g.cache.Values && Plotted(g.points[k])
  }

  lemma LocatePoints(g: Geo, conn: Connection, fetch: string -> Fetch,
                     num: string -> Option<real>)
    requires PointsCached(g)
    ensures PointsCached(Locate(g, conn, fetch, num))
  {
    if conn.raddr.Some? {
      var ip := conn.raddr.value.ip;
      var r := Resolve(g.cache, ip, fetch, num);
      ExtendsValues(g.cache, r.cache);
      if r.location.Some? && ip != Loopback {
        assert r.cache[ip] == r.location.value;
      }
    }
  }

  lemma {:induction false} LocateAllPoints(conns: seq<Connection>, cache: map<string, Coord>,
                                           fetch: string -> Fetch, num: string -> Option<real>)
    ensures PointsCached(LocateAll(conns, cache, fetch, num))
    decreases |conns|
  {
    if conns != [] {
      var init := conns[..|conns| - 1];
      LocateAllPoints(init, cache, fetch, num);
      LocatePoints(LocateAll(init, cache, fetch, num), Last(conns), fetch, num);
    }
  }

  /** Locating a connection whose remote end is cached or loopback asks nothing
      and leaves the cache alone. */
  lemma LocateWarm(g: Geo, conn: Connection, fetch: string -> Fetch,
                   num: string -> Option<real>)
    requires conn.raddr.Some? ==> conn.raddr.value.ip == Loopback || conn.raddr.value.ip in g.cache
    ensures Locate(g, conn, fetch, num).lookups == g.lookups
    ensures Locate(g, conn, fetch, num).cache == g.cache
  {
  }

  /** A warm cache makes no request: when every remote address is cached or is
      the loopback address, nothing is looked up and the cache is unchanged. */
  lemma {:induction false} LocateAllWarm(conns: seq<Connection>, cache: map<string, Coord>,
                                         fetch: string -> Fetch, num: string -> Option<real>)
    requires forall ip :: ip in RemoteIps(conns) ==> ip == Loopback || ip in cache
    ensures LocateAll(conns, cache, fetch, num).lookups == 0
    ensures LocateAll(conns, cache, fetch, num).cache == cache
    decreases |conns|
  {
    if conns != [] {
      var init := conns[..|conns| - 1];
      RemoteIpsPrefix(conns);
      LocateAllWarm(init, cache, fetch, num);
      LocateWarm(LocateAll(init, cache, fetch, num), Last(conns), fetch, num);
    }
  }

  /** One refresh of the connections tab, as `update_connections_chart`'s loop
      runs it. Rows: one per connection, in order, each cell "ip:port" reading
      back to the connection's own address, or "N/A" exactly when the address
      is absent. Tally: the seeded states plus every state seen, each with its
      number of connections, summing to the number of connections. Cache:
      entries are only added, never changed, and only for non-loopback remote
      addresses; a warm cache makes no request. Points: at most one per remote
      end, each a cached location, none at zero. */
  method UpdateConnections(conns: seq<Connection>, cache: map<string, Coord>,
                           fetch: string -> Fetch, num: string -> Option<real>)
    returns (rows: seq<Row>, counts: map<string, nat>, cache': map<string, Coord>,
             points: seq<Coord>, lookups: nat)
    ensures |rows| == |conns|
    ensures forall i :: 0 <= i < |conns| ==> rows[i] == RowOf(conns[i])
    ensures forall i :: 0 <= i < |conns| ==>
              && (rows[i].local == NotAvailable <==> conns[i].laddr.None?)
              && (rows[i].remote == NotAvailable <==> conns[i].raddr.None?)
    ensures forall i :: 0 <= i < |conns| ==>
              && ParseEndpoint(rows[i].local) == conns[i].laddr
              && ParseEndpoint(rows[i].remote) == conns[i].raddr
              && rows[i].status == conns[i].status
    ensures counts.Keys == Seeded.Keys + (set s | s in Statuses(conns))
    ensures forall k :: k in counts ==> counts[k] == Count(Statuses(conns), k)
    ensures MapSum(counts) == |conns|
    ensures Geo(cache', points, lookups) == LocateAll(conns, cache, fetch, num)
    ensures Extends(cache, cache')
    ensures forall ip :: ip in cache' && ip !in cache ==> ip != Loopback && ip in RemoteIps(conns)
    ensures lookups <= RemoteCount(conns) && |points| <= RemoteCount(conns)
    ensures forall k :: 0 <= k < |points| ==> points[k] in cache'.Values && Plotted(points[k])
    ensures (forall ip :: ip in RemoteIps(conns) ==> ip == Loopback || ip in cache)
              ==> lookups == 0 && cache' == cache
  {
    rows := [];
    counts := Seeded;
    cache' := cache;
    points := [];
    lookups := 0;
    var i := 0;
    while i < |conns|
      invariant 0 <= i <= |conns|
      invariant rows == RowsOf(conns[..i])
      invariant counts == TallyOf(Statuses(conns[..i]))
      invariant Geo(cache', points, lookups) == LocateAll(conns[..i], cache, fetch, num)
    {
      var conn := conns[i];
      RowsStep(conns, i);
      StatusesStep(conns, i);
      TallyStep(Statuses(conns[..i]), conn.status);
      LocateStep(conns, i, cache, fetch, num);
      rows := rows + [RowOf(conn)];
      counts := Bump(counts, conn.status);
      if conn.raddr.Some? {
        var r := Resolve(cache', conn.raddr.value.ip, fetch, num);
        cache' := r.cache;
        if r.lookedUp {
          lookups := lookups + 1;
        }
        if r.location.Some? && Plotted(r.location.value) {
          points := points + [r.location.value];
        }
      }
      i := i + 1;
    }
    assert conns[..i] == conns;
    RowsOfEach(conns);
    RowsReadBack(conns);
    TallyCounts(Statuses(conns));
    LocateAllCache(conns, cache, fetch, num);
    LocateAllBounds(conns, cache, fetch, num);
    LocateAllPoints(conns, cache, fetch, num);
    if forall ip :: ip in RemoteIps(conns) ==> ip == Loopback || ip in cache {
      LocateAllWarm(conns, cache, fetch, num);
    }
  }
}
