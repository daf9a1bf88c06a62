# Network diagnosis tool: a model of its parsing and bookkeeping core

`Network_diagnosis_tool.py` is a Tkinter application. It polls the machine's
network interfaces and socket connections, and on request it runs `tracert`
and `ping`. Inside its UI methods sit five pieces of sequential logic. This
project models those pieces as pure functions and loop methods over text and
over abstract OS records, and proves what they compute.

- **Traceroute** (`traceroute.dfy`, `route_graph.dfy`). The output of
  `tracert` is split on `'\n'` and the first four lines are dropped. A blank
  line is skipped. A line with at least three whitespace-separated words names
  a hop by its last word. The hops are chained from a synthetic `"Start"` node
  into an undirected graph whose nodes are labels, so a label that recurs is
  one node. `RouteGraph.ChainGraph` states this graph in closed form.
  `Traceroute.Trace` is `trace`'s loop, and it is proved to build exactly
  that graph.
- **Ping** (`ping.dfy`). Every line of the `ping` output that contains
  `"Average"` overwrites the value found so far, so the last such line wins.
  The value is the text after the line's last `'='`, stripped. No such line,
  or an empty value, means "Ping failed.".
- **Connections** (`connections.dfy`). Each connection gives a table row.
  The row holds two `ip:port` cells (or `"N/A"`) and the connection's state.
  A tally of states starts from ESTABLISHED, CLOSE_WAIT, LISTEN and
  TIME_WAIT at zero, and each connection adds one to its own state. Each
  remote address is located through the geolocation cache, and a location
  with both coordinates non-zero is drawn as a map point.
- **Geolocation cache** (`geolocation.dfy`). The exact text `"127.0.0.1"` is
  answered with no location. A cached address is answered from the cache.
  Any other address is looked up, and only a lookup that yields a parsable
  `"lat,lon"` is stored. The lookup service is a parameter
  `fetch: string -> Fetch`. Float parsing is a parameter
  `num: string -> Option<real>`.
- **Interfaces** (`interfaces.dfy`). Each interface gives one row: its name,
  the address of its last IPv4 entry (or `"N/A"`), and `🟢 Connected` or
  `🔴 Disconnected` from its link state. An interface missing from the
  link-state table raises a `KeyError`. The surrounding `try` then ends the
  refresh with the rows written so far.

The Python string operations these pieces rely on are modelled once, in
`strings.dfy`, on `seq<char>`:
- `split(sep)` and `split()`
- `strip()`, using the full `str.isspace` set
- `splitlines()`, which knows every Python line boundary and treats `"\r\n"`
  as one
- substring `in`
- `str(n)`

Each of these has a lemma that pins its result down for every input of a
stated shape:
- `split(sep)` splits a join back into its pieces.
- `split()` recovers the words of any layout: leading, trailing and repeated
  whitespace are all allowed.
- `strip()` removes exactly the whitespace padding.
- `splitlines()` recovers the lines of any text of terminated lines. Any mix
  of terminators is allowed, and so is a final terminator.
- Substring `in` is proved in both directions: it holds exactly when the
  text occurs at some position.
- `str(n)` reads back to `n`.

Some behaviour follows from the exact code:
- Only the exact string `"127.0.0.1"` skips the lookup.
- An unrecognised connection state gets its own tally key.
- The interface status text is one of the two emoji labels.
- A missing IPv4 address is shown as the text `"N/A"`.

## Model

| member | source | states |
|---|---|---|
| Basics.LastIndexWhere | Network_diagnosis_tool.py:193-195 | the index found satisfies the predicate and no later element does; there is none exactly when no element satisfies it |
| Basics.LastIndexWhereAppend | Network_diagnosis_tool.py:193-195 | elements after the last match that do not match leave the last match where it was |
| Basics.LastIndexWhereIs | Network_diagnosis_tool.py:193-195 | a match with no match after it is the last match |
| Basics.LastIndexWhereShift | Network_diagnosis_tool.py:193-195 | elements put in front shift the last match by their number |
| Basics.CountAppend | Network_diagnosis_tool.py:221 | occurrences in a concatenation add up |
| Basics.CountPositive | Network_diagnosis_tool.py:221 | a value is counted at least once exactly when it occurs |
| Strings.Split | Network_diagnosis_tool.py:152 | splitting on a separator gives one more piece than there are separators, and no piece holds the separator |
| Strings.JoinSplit | Network_diagnosis_tool.py:152 | joining the pieces with the separator gives back the text |
| Strings.SplitJoin | Network_diagnosis_tool.py:152 | splitting a join of separator-free pieces gives back the pieces |
| Strings.AfterLast | Network_diagnosis_tool.py:195 | the last piece after splitting holds no separator and is a suffix; it is the whole text when there is no separator, otherwise it is preceded by one |
| Strings.AfterLastIsLastPiece | Network_diagnosis_tool.py:195 | the text after the last separator is the last piece of the split on it |
| Strings.AfterLastOf | Network_diagnosis_tool.py:195 | the last piece of any text followed by the separator and separator-free text is that text |
| Strings.Tokens | Network_diagnosis_tool.py:156 | argument-less split yields only non-empty whitespace-free words, and none exactly when the text is blank |
| Strings.TokensAfterSpace | Network_diagnosis_tool.py:156 | leading whitespace contributes no word |
| Strings.TokensOfLayout | Network_diagnosis_tool.py:156 | the words of any layout of words, with any whitespace before, after and between them, are those words in order |
| Strings.Strip | Network_diagnosis_tool.py:153 | strip yields a trimmed text, no longer than the input and made of its characters, empty exactly when the input is blank |
| Strings.StripPadded | Network_diagnosis_tool.py:195 | stripping whitespace padding around a trimmed text gives that text |
| Strings.SplitLines | Network_diagnosis_tool.py:193 | no line holds a line boundary; there are no lines exactly when the text is empty, and never more lines than characters |
| Strings.SplitLinesOfJoin | Network_diagnosis_tool.py:193 | splitting boundary-free lines joined by newlines, the last non-empty, gives back the lines |
| Strings.SplitLinesAfter | Network_diagnosis_tool.py:193 | a line ended by "\r\n" or by any single boundary character is the first line, and splitting goes on after its terminator |
| Strings.SplitLinesOfLayout | Network_diagnosis_tool.py:193 | lines each ended by any terminator, then an optional unterminated line, split back into exactly those lines; a final terminator adds no empty line |
| Strings.SplitLinesTrailingNewline | Network_diagnosis_tool.py:193 | a line followed by one "\n" splits into that line alone |
| Strings.ContainsInfix | Network_diagnosis_tool.py:194 | any text surrounding a word contains it |
| Strings.ContainsAt | Network_diagnosis_tool.py:194 | a text that contains a word holds it at some position |
| Strings.ContainsIff | Network_diagnosis_tool.py:194 | the substring test holds exactly when the word occurs at some position |
| Strings.Decimal | Network_diagnosis_tool.py:216-217 | decimal text of a port is non-empty digits with no leading zero |
| Strings.DecimalRoundTrip | Network_diagnosis_tool.py:216-217 | reading the decimal text back gives the number |
| RouteGraph.AddHop | Network_diagnosis_tool.py:160-161 | adding a hop keeps every edge between nodes of the graph, removes nothing, and adds at most the two ends and one edge |
| RouteGraph.ChainGraph | Network_diagnosis_tool.py:148-162 | the route graph holds "Start" and every hop label, no other node, and at most one edge per hop |
| RouteGraph.ChainEdgesBound | Network_diagnosis_tool.py:161 | a chain over n steps has at most n distinct edges |
| RouteGraph.ChainStep | Network_diagnosis_tool.py:157-162 | one more accepted hop adds its label and the edge from the previously visited node, and nothing else |
| RouteGraph.ChainWellFormed | Network_diagnosis_tool.py:160-161 | every edge joins nodes of the graph |
| RouteGraph.ChainConnected | Network_diagnosis_tool.py:148-162 | every node is reachable from "Start" along edges |
| RouteGraph.ChainSizesWhenDistinct | Network_diagnosis_tool.py:148-162 | with no repeated label the graph has one node per hop plus "Start" and one edge per hop |
| RouteGraph.RevisitCollapses | Network_diagnosis_tool.py:160-162 | hops a, b, a, c give the nodes Start, a, b, c and the edges Start-a, a-b and a-c, the repeated a-b edge collapsing |
| Traceroute.HopLabel | Network_diagnosis_tool.py:153-159 | a line names a hop exactly when it has at least three words, and the hop is its last word |
| Traceroute.HopLabelOfWords | Network_diagnosis_tool.py:153-159 | a line of at least three words names its last word and one of at most two names nothing, however the words are indented, padded and spaced |
| Traceroute.TracertLineHop | Network_diagnosis_tool.py:153-159 | the indented, space-padded `tracert` line "  1    <1 ms    <1 ms    <1 ms  192.168.1.1" names the hop "192.168.1.1" |
| Traceroute.HopLabelsStep | Network_diagnosis_tool.py:152-157 | one more line adds the hop it names, if any, and nothing else |
| Traceroute.TraceStep | Network_diagnosis_tool.py:160-162 | the loop's node and edge updates for an accepted hop give the chain over one more hop, and the hop becomes the previous node |
| Traceroute.HopLabelsAppend | Network_diagnosis_tool.py:152-162 | lines are read independently: the hops of two runs of lines concatenate |
| Traceroute.HeaderNeverHops | Network_diagnosis_tool.py:152 | whatever the first four lines hold, the hops are those of the lines after them |
| Traceroute.Trace | Network_diagnosis_tool.py:148-162 | the loop builds exactly the chain graph of the hops in the output; it holds "Start", has no more edges than hops, and is connected |
| Traceroute.HopLabelsOfRows | Network_diagnosis_tool.py:152-162 | lines of three or more words, spaced in any way, yield their last words, in order |
| Traceroute.LayoutOneLine | Network_diagnosis_tool.py:152 | words laid out with gaps holding no "\n" make one line |
| Traceroute.DistinctHopTrace | Network_diagnosis_tool.py:148-162 | four header lines and distinct hop lines, spaced in any way, give a chain with one node per hop plus "Start" and one edge per hop |
| Ping.FieldValue | Network_diagnosis_tool.py:195 | the value is trimmed, holds no '=', and is made of the line's characters |
| Ping.AverageOf | Network_diagnosis_tool.py:192-195 | there is no value exactly when no line contains "Average" |
| Ping.AverageOfLast | Network_diagnosis_tool.py:193-195 | when some line holds "Average", the value is that of the last such line |
| Ping.AverageStep | Network_diagnosis_tool.py:193-195 | one more line replaces the value found exactly when it holds "Average" |
| Ping.ScanAverage | Network_diagnosis_tool.py:192-195 | the scanning loop ends with the value of the last "Average" line of the output |
| Ping.Report | Network_diagnosis_tool.py:196-199 | an absent or empty value means failure; any other value is reported |
| Ping.PingTest | Network_diagnosis_tool.py:192-199 | the test fails exactly when no line has "Average" or its value is empty; a reported latency is non-empty, trimmed and free of '=' |
| Ping.LaterMatchWins | Network_diagnosis_tool.py:193-195 | a later "Average" line overrides every earlier one |
| Ping.TrailingLinesKeep | Network_diagnosis_tool.py:193-195 | lines without "Average" after the others, such as trailing blank lines, leave the value alone |
| Ping.LastLineDecides | Network_diagnosis_tool.py:193-195 | an "Average" line at the end decides the value, whatever came before |
| Ping.SummaryLineAverage | Network_diagnosis_tool.py:193-197 | the Windows summary line "Minimum = 10ms, Maximum = 20ms, Average = 15ms" reports "15ms" |
| Connections.FormatEndpoint | Network_diagnosis_tool.py:216-217 | a cell holds a colon exactly when the address is present |
| Connections.FormatEndpointRoundTrip | Network_diagnosis_tool.py:216-217 | every cell reads back to the address it was written from |
| Connections.RowOfReadsBack | Network_diagnosis_tool.py:216-220 | a row's cells read back to the connection's local and remote addresses, and its state is the connection's |
| Connections.RowsStep | Network_diagnosis_tool.py:220 | one more connection appends exactly its own row |
| Connections.RowsOfEach | Network_diagnosis_tool.py:215-220 | one row per connection, in order, each being that connection's row |
| Connections.RowsReadBack | Network_diagnosis_tool.py:216-220 | a cell is "N/A" exactly when its address is absent; otherwise it reads back to that address |
| Connections.MapSumRemove | Network_diagnosis_tool.py:221 | the sum of a tally does not depend on the order keys are taken |
| Connections.MapSumZero | Network_diagnosis_tool.py:212 | a tally of zeros sums to zero |
| Connections.Bump | Network_diagnosis_tool.py:221 | counting a connection adds its state if new, raises its count by one, leaves every other count alone, and raises the sum by one |
| Connections.TallyCounts | Network_diagnosis_tool.py:212-221 | the tally holds the four seeded states and every state seen, each mapped to its number of connections, summing to the number of connections |
| Connections.TallyKeys | Network_diagnosis_tool.py:212-221 | the tally's keys are the seeded states and the states seen |
| Connections.TallyValues | Network_diagnosis_tool.py:212-221 | each state's count is its number of occurrences |
| Connections.TallySum | Network_diagnosis_tool.py:212-221 | the counts add up to the number of connections |
| Connections.StatusesStep | Network_diagnosis_tool.py:218 | one more connection adds its own state to the states seen |
| Connections.TallyStep | Network_diagnosis_tool.py:221 | counting one more state bumps the tally so far |
| Connections.LocateStep | Network_diagnosis_tool.py:223-228 | the map side after one more connection is the map side so far with that connection located |
| Connections.RemoteIpsPrefix | Network_diagnosis_tool.py:223-225 | the remote addresses of a run of connections include those of its prefix and that of its last connection |
| Connections.LocateCache | Network_diagnosis_tool.py:223-225 | locating one connection keeps every cache entry and adds at most its own non-loopback remote address |
| Connections.LocateAllCache | Network_diagnosis_tool.py:223-225 | over a refresh the cache keeps every earlier entry and gains only non-loopback remote addresses of the connections |
| Connections.LocateCounts | Network_diagnosis_tool.py:223-228 | locating one connection makes at most one lookup and draws at most one point, none without a remote end |
| Connections.LocateAllBounds | Network_diagnosis_tool.py:223-228 | at most one lookup and one map point per connection with a remote end |
| Connections.LocatePoints | Network_diagnosis_tool.py:223-228 | locating a connection keeps every map point a cached location with non-zero coordinates |
| Connections.LocateAllPoints | Network_diagnosis_tool.py:223-228 | every map point of a refresh is a cached location with non-zero coordinates |
| Connections.LocateWarm | Network_diagnosis_tool.py:223-225 | a connection whose remote end is cached or loopback causes no lookup and leaves the cache alone |
| Connections.LocateAllWarm | Network_diagnosis_tool.py:223-225 | when every remote address is cached or loopback, nothing is looked up and the cache is unchanged |
| Connections.UpdateConnections | Network_diagnosis_tool.py:212-228 | `update_connections_chart`'s loop yields the rows, tally, cache and points above. The cache, the points and the lookup count are exactly those of locating every connection in order (`LocateAll`), so each remote end is resolved once and every resolved non-zero location is drawn: each row is its connection's "ip:port" or "N/A" cells and state, counts per state summing to the number of connections, the cache only extended by non-loopback remote addresses, points cached and non-zero, no lookup on a warm cache |
| Geolocation.ParseLoc | Network_diagnosis_tool.py:255 | a location parses only when it has exactly one comma |
| Geolocation.ParseLocOf | Network_diagnosis_tool.py:255 | "lat,lon" parses into the pair of its parsed halves, and fails when either half does not parse |
| Geolocation.Located | Network_diagnosis_tool.py:252-255 | a location comes only from a response with a non-empty loc field that parses |
| Geolocation.ExtendsValues | Network_diagnosis_tool.py:256 | a cache that keeps every entry keeps every location |
| Geolocation.Resolve | Network_diagnosis_tool.py:244-260 | loopback gives nothing with the cache unchanged; a cached address gives its entry with no lookup; otherwise the service is asked, a success is stored under the address, and a failure leaves the cache unchanged; no existing entry ever changes |
| Geolocation.ResolveLookup | Network_diagnosis_tool.py:249-260 | on a miss, a "lat,lon" answer whose halves parse is returned and stored under the address, with one lookup; a half that does not parse gives nothing and leaves the cache unchanged |
| Geolocation.SecondCallHits | Network_diagnosis_tool.py:246-247 | after a success, asking again gives the same answer from the cache, whatever the service would now say |
| Geolocation.FailureRetries | Network_diagnosis_tool.py:254-260 | after a failed lookup, the next call for that address asks again |
| Geolocation.LoopbackNeverCached | Network_diagnosis_tool.py:244-245 | the loopback address never enters the cache |
| Interfaces.Ipv4Of | Network_diagnosis_tool.py:128-131 | the shown address is that of the last IPv4 entry, or "N/A" when there is none |
| Interfaces.StatusLabel | Network_diagnosis_tool.py:132 | the status is the green "Connected" label exactly when the link is up, the red "Disconnected" label exactly when it is down |
| Interfaces.IpAddressOf | Network_diagnosis_tool.py:128-131 | the inner loop ends with the address of the last IPv4 entry, or "N/A" |
| Interfaces.InterfaceRows | Network_diagnosis_tool.py:127-134 | the refresh completes exactly when every interface has a link state; the rows are one per interface, in order, up to the first interface without one |

## Left out

- Tkinter widgets, the tables' clearing and inserting, and the message boxes
  are UI. The model returns the rows and the ping report instead.
- Drawing and layout with matplotlib, Basemap and networkx are rendering only.
  The route graph is plain sets. Map points are the coordinates that would be
  plotted, without the map projection.
- `subprocess.run`, `psutil` and `requests.get` are I/O. The outputs of
  `tracert` and `ping` are input strings. Interfaces and connections are input
  records. The lookup service is the parameter `fetch`.
- Threads and the five-second `root.after` rescheduling are concurrency and
  timing. Each refresh and each probe is modelled as one sequential call.
- The speed test wraps an external library and floating-point division.
- Float parsing of the `loc` halves is the abstract parameter `num`. A NaN
  coordinate, which Python treats as true, is not modelled.
- Exception logging with `print` is left out. Exceptions that end a refresh
  are modelled only where the pure logic raises them (the missing link state
  of an interface). Exceptions inside the lookup are modelled as a failed
  lookup.
- Interfaces.InterfaceRows: takes one snapshot of the link-state table for the
  whole refresh, whereas the source re-reads it for each interface.
- Connections.UpdateConnections: the lookup service answers each address the
  same way throughout one refresh. The source may see different answers for
  repeated failing lookups of one address.
- Traceroute.Trace: the unused second word of a hop line and the numeric test
  whose branches agree are not modelled, since both branches yield the last
  word.
