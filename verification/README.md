# CSAir flight network in Dafny

A model of the in-memory core of the CSAir flight-network program. The program keeps a graph of airports and
flights, computes statistics over the flights, finds shortest routes with Dijkstra's algorithm, and translates between city
names and airport codes. It exists in three generations, all modelled here:

- **The current network** (`NetworkGraph`, `NetworkStatistics`, `FlightStats`, `Dijkstra`). The graph is an
  insertion-ordered hash from airport code to a row of one-way routes. It also holds a connection index used for the map
  URL. Its running statistics are the total distance, the number of flights, and the shortest and longest flight.
  `Dijkstra` also holds the shortest-path search, the reconstruction of a route from the predecessor map, and the
  route-to-URL encoder.
- **The earlier network** (`CsairGraph`). Connections are stored in both directions at once and count as one flight. A
  deleted direction keeps its key and reads infinity. It runs the same Dijkstra.
- **The oldest sketch** (`SketchGraph`, `SketchNode`, `SketchConnection`). It has symmetric additions, lookup sentinels
  and case-preserving connection tokens.
- **Supporting value types**:
  - `Connection` is the sorted set of canonical `"A-B"` tokens.
  - `Dictionary` and `CsairDictionary` are the two-way translation between city names and codes.
  - `Metro` and `GraphMetro` are the per-airport formatters.

Modelling choices:

- Ruby hashes are `Hashes.Hash`: a key sequence, in insertion order, plus a map. Insertion order decides ties in
  `min_dist` and in the extreme-flight rescans.
- Distances are `Distance.Dist` (`Fin(n)` or `Inf`), so there is no float infinity. The `-1` lookup sentinel is
  `Lookup.Unknown`.
- Ruby `nil` is `Optional.None`.
- `Text` holds ASCII case mapping, Ruby's string order, joining, `s[0..-k]` and integer printing.
- `SortedSet` stands for Ruby's `SortedSet`.

The older metro of lib/graph/metro.rb:20-44 formats timezone, coordinates and population exactly as lib/csair_lib/metro.rb
does. So `Metro.Timezone`, `Metro.Coordinates` and `Metro.Population` model both files. Only its region differs
(`GraphMetro`).

## Model

| member | source | states |
|---|---|---|
| Connection.Empty | lib/csair_lib/connection.rb:11-13 | a new index holds no token and is sorted |
| Connection.TokenIsOrdered | lib/csair_lib/connection.rb:51-62 | the token is the two codes upper-cased and joined by a dash, the one smaller ignoring case first |
| Connection.TokenSymmetric | lib/csair_lib/connection.rb:60-62 | swapping the two codes gives the same token |
| Connection.DashBetweenUppercase | lib/csair_lib/connection.rb:51-53 | the token splits at the dash back into both codes, upper-cased |
| Connection.AlphabeticalOrder | lib/csair_lib/connection.rb:60-62 | the token puts first the code that is smaller ignoring case; codes equal ignoring case give the same token in either order |
| Connection.AddConnection | lib/csair_lib/connection.rb:20-24 | two equal codes leave the set unchanged; otherwise the set gains exactly the pair's token and stays sorted |
| Connection.AddConnectionIdempotent | lib/csair_lib/connection.rb:20-24 | adding a pair that is already present changes nothing, so no token is held twice |
| Connection.AddConnectionCommutes | lib/csair_lib/connection.rb:20-24 | the index depends only on which pairs were added, not on the order or direction of the additions |
| Connection.GetConnectionUrl | lib/csair_lib/connection.rb:28-34 | the tokens in sorted order joined by `,+` with no trailing delimiter; `""` for an empty set |
| Connection.DeleteConnection | lib/csair_lib/connection.rb:40-42 | as written: the pair's token is present afterwards, together with every earlier token |
| Connection.DeleteConnectionAddsToken | lib/csair_lib/connection.rb:40-42 | deleting a pair that was never added puts `ABC-DEF` into the URL |
| Connection.RemoveConnection | lib/csair_lib/connection.rb:36 | the intended removal: exactly the pair's token leaves the set, which stays sorted |
| Connection.RemoveUndoesAdd | lib/csair_lib/connection.rb:36 | removing a pair undoes adding it when it was not there before |
| Connection.ExampleTokens | test/csair_lib/connection_test.rb:32-35 | `def`/`abc` gives `ABC-DEF`, and the other two test pairs give `ABD-GEG` and `ABD-GEF` |
| Connection.UrlExample | test/csair_lib/connection_test.rb:42-47 | the test's three additions give the URL `ABC-DEF,+ABD-GEF,+ABD-GEG`, in sorted order rather than the order of addition |
| SketchConnection.DashBetween | lib/graph/connection.rb:22-24 | the token splits at the dash back into both codes, case kept |
| SketchConnection.AlphabeticalOrder | lib/graph/connection.rb:29-31 | the code that is smaller ignoring case comes first; for codes equal ignoring case the second argument comes first |
| SketchConnection.TokenSymmetricIff | lib/graph/connection.rb:22-31 | the two argument orders give the same token if and only if the codes differ ignoring case or are identical; codes that differ only in case come out in the reverse of the argument order |
| SketchConnection.AddConnection | lib/graph/connection.rb:11-15 | equal codes are ignored; otherwise exactly the case-preserving token joins the sorted set |
| SketchConnection.AddConnectionIdempotent | lib/graph/connection.rb:11-15 | the set deduplicates: adding the same pair again changes nothing |
| SketchConnection.AddConnectionEitherDirection | lib/graph/connection.rb:29-31 | adding `(a, b)` or `(b, a)` gives the same set when the codes differ ignoring case |
| SortedSet.Insert | lib/csair_lib/connection.rb:12-22 | the result is sorted and holds exactly the old elements plus the new one |
| SortedSet.Remove | lib/csair_lib/connection.rb:12-42 | the result is sorted and holds exactly the old elements minus the removed one |
| SortedSet.SameElementsSame | lib/csair_lib/connection.rb:12 | two sorted sets with the same elements are the same sequence, which is why the index has one canonical order |
| SketchNode.New | lib/graph/node.rb:6-9 | a new node has no connections; every other airport is at infinity |
| SketchNode.DistanceTo | lib/graph/node.rb:51-59 | 0 to the node itself whatever is stored, the stored length to a connected airport, infinity otherwise |
| SketchNode.AddConnection | lib/graph/node.rb:45-47 | the distance to `p` becomes `d` (overwriting), unless `p` is the node itself; no other distance changes |
| SketchNode.Items | lib/graph/node.rb:18-30 | one ` {'P' => d}` item per connection, in insertion order |
| SketchNode.AddConnectionsToString | lib/graph/node.rb:18-30 | the loop that writes a comma before every item but the first builds the items joined by `,` |
| SketchNode.ToString | lib/graph/node.rb:35-41 | `Node{'X'}` without connections; otherwise followed by `:` and the joined items |
| SketchNode.NodeExamples | spec/graph/node_test.rb:8-22 | the three node tests: MEX to SCL is 2453 after adding it, MEX to itself is 0, and unconnected is infinity |
| SketchGraph.Empty | lib/graph/graph.rb:4-6 | a new graph has no airports |
| SketchGraph.GetConnection | lib/graph/graph.rb:21-34 | unknown (-1) exactly when an airport is missing; otherwise the stored length or infinity, with no special case for an airport to itself |
| SketchGraph.CheckExistenceOf | lib/graph/graph.rb:42-46 | the airport exists afterwards, every existing lookup is unchanged, and a new airport reads infinity to everything |
| SketchGraph.AddNode | lib/graph/graph.rb:37-39 | the airport gets an empty row, so it reads infinity to every airport |
| SketchGraph.AddConnection | lib/graph/graph.rb:11-16 | missing airports are created; both directions read `d`; every other lookup between existing airports is unchanged |
| SketchGraph.StoreBoth | lib/graph/graph.rb:14-15 | both directions read `d` and nothing else changes |
| SketchGraph.Store | lib/graph/graph.rb:14 | one direction reads `d` and nothing else changes |
| SketchGraph.AddConnectionExample | lib/graph/graph.rb:11-27 | after adding LIM–SCL, both directions read the length, a missing airport reads unknown, and LIM to itself reads infinity |
| Dictionary.Empty | lib/model/dictionary.rb:18-22 | nothing encodes, unlocks or exists |
| Dictionary.Encode | lib/model/dictionary.rb:38-40 | the code filed under the lower-cased name, so every spelling of a name encodes alike; `nil` when nothing is filed there |
| Dictionary.Unlock | lib/model/dictionary.rb:46-48 | the name as spelled when its code was filed; `nil` exactly for a code that was never filed |
| Dictionary.CityExistsAgreesWithEncode | lib/model/dictionary.rb:38-56 | `city_exists?` of a lower-cased name holds exactly when `encode` finds a code or a `nil` code is filed; it does not lower-case, so a name with a capital is never found among lower-cased entries |
| Dictionary.AddTranslation | lib/model/dictionary.rb:29-32 | every spelling of the name now encodes to the code, and the code unlocks to the name as spelled; every other name and code is unchanged, so an old code of the name is not cleared |
| Dictionary.DeleteTranslation | lib/model/dictionary.rb:64-68 | no spelling of the name encodes and its code no longer unlocks; every other entry is unchanged |
| Dictionary.ChangeAirportCode | lib/model/dictionary.rb:77-80 | the city encodes to the new code, which unlocks to it; the old code no longer unlocks; other names encode and other codes unlock as before |
| Dictionary.ChangeCityName | lib/model/dictionary.rb:89-93 | the new name takes over the old name's code, which unlocks to the new name; the old name no longer encodes unless it differs only in case; every other code unlocks as before |
| Dictionary.InverseRoundTrip | lib/model/dictionary.rb:38-48 | in a dictionary whose two sides are inverse, unlocking a code and encoding the name gives the code back |
| Dictionary.AddFreshKeepsInverse | lib/model/dictionary.rb:29-32 | adding a new name with a new code keeps the two sides inverse |
| Dictionary.AddKnownLeavesStaleCode | lib/model/dictionary.rb:29-32 | re-adding a known name under another code leaves the old code unlocking to the name, so the sides are no longer inverse |
| Dictionary.DeleteKeepsInverse | lib/model/dictionary.rb:64-68 | deleting a known name keeps the sides inverse |
| Dictionary.ChangeAirportCodeKeepsInverse | lib/model/dictionary.rb:77-80 | moving a known city to an unused code keeps the sides inverse |
| Dictionary.ChangeCityNameKeepsInverse | lib/model/dictionary.rb:89-93 | renaming a known city to an unused name keeps the sides inverse |
| Dictionary.DictionaryExamples | test/model/dictionary_test.rb:15-59 | the Lima/LIM tests: translation in any case, deletion, change of code and change of name; `city_exists?` is true only for the lower-case spelling |
| CsairDictionary.Empty | lib/csair_lib/dictionary.rb:17-22 | no metro is filed and no name encodes |
| CsairDictionary.MetroOf | lib/csair_lib/dictionary.rb:65-70 | the metro built from an airport record carries every field of the record |
| CsairDictionary.AddMetro | lib/csair_lib/dictionary.rb:65-70 | the name and code translate into each other, the record's metro replaces any earlier one under its code; other names encode, and other codes unlock and keep their metros, as before |
| CsairDictionary.LoadHasCode | lib/csair_lib/dictionary.rb:53-59 | after the constructor's loop every record's code has a metro |
| CsairDictionary.LoadOnlyCodes | lib/csair_lib/dictionary.rb:53-59 | only the records' codes have a metro |
| CsairDictionary.LoadLastWins | lib/csair_lib/dictionary.rb:53-70 | the last record with a code decides the metro filed under it |
| CsairDictionary.LoadUnlocksLastName | lib/csair_lib/dictionary.rb:36-38 | the last record with a code decides the name that code unlocks to |
| CsairDictionary.LoadEncodesLastCode | lib/csair_lib/dictionary.rb:28-80 | the last record whose name agrees ignoring case decides the code that name encodes to |
| CsairDictionary.LoadExample | lib/csair_lib/dictionary.rb:28-46 | Santiago and Lima are found by code and by a name in any case; Lima's region is the Americas |
| Metro.Timezone | lib/csair_lib/metro.rb:36-42 | `GMT +n` for a non-negative offset and `GMT -k` for an offset of `-k` |
| Metro.TimezoneInjective | lib/csair_lib/metro.rb:36-42 | two metros print the same timezone only when their offsets are equal |
| Metro.CoordinateTexts | lib/csair_lib/metro.rb:48-54 | one `deg°dir` text per coordinate, in insertion order |
| Metro.Coordinates | lib/csair_lib/metro.rb:48-54 | writing each pair followed by `", "` and cutting the last two characters gives the pairs joined by `", "` |
| Metro.Population | lib/csair_lib/metro.rb:60-62 | Ruby's canonical text: a numeral without leading zeros (after a minus sign exactly when negative) that reads back as the population |
| Metro.Region | lib/csair_lib/metro.rb:68-75 | each of Americas, Africa and Europe is named exactly for its code 1, 2 or 3; every other code is Asia and Oceania |
| Metro.EditInformationAboutCity | lib/csair_lib/metro.rb:85-91 | option `1` replaces the population and option `2` the timezone; the other field, the name, country, continent, coordinates and region are kept; any other option changes nothing |
| Metro.TimezoneExamples | test/csair_lib/metro_test.rb:16-37 | the test metro prints `GMT +5`, and `GMT -5` after its offset becomes -5 |
| Metro.CoordinatesExample | lib/csair_lib/metro.rb:48-54 | 44°N and 80°W print as `44°N, 80°W` |
| Metro.PopulationAndRegionExample | lib/csair_lib/metro.rb:60-75 | the test metro's population prints `100000` and its region is Americas |
| GraphMetro.Region | lib/graph/metro.rb:49-56 | as written: the switch is on a variable that is never assigned, so the region is Asia and Oceania for every metro |
| GraphMetro.RegionAgreesOnlyForAsia | lib/graph/metro.rb:49-56 | the as-written region agrees with the intended one exactly for codes other than 1, 2 and 3 |
| GraphMetro.RegionMisreportsAmericas | lib/graph/metro.rb:7-15 | a metro built with region 1 (Americas) is reported as Asia and Oceania |
| FlightStats.AccountForShortest | lib/model/graph/graph.rb:398-406 | the result is the shorter of the recorded and the new flight, is one of the two, and on a tie keeps the recorded flight with its ports |
| FlightStats.AccountForLongest | lib/model/graph/graph.rb:414-422 | the result is the longer of the recorded and the new flight, is one of the two, and on a tie keeps the recorded flight with its ports |
| FlightStats.MakeStatistics | lib/model/graph/graph.rb:87-92 | the total grows by the distance and the count by one; the shortest is at most both the new distance and the old shortest, and the longest at least both |
| FlightStats.ReplayFolds | lib/model/graph/graph.rb:87-92 | recording flights in order folds the total, the count and each extreme independently |
| FlightStats.ScanShortestFinds | lib/model/graph/graph.rb:273-288 | a scan that starts at infinity ends at the first route of least distance, or at its start when there are no routes |
| FlightStats.ScanLongestFinds | lib/model/graph/graph.rb:294-309 | a scan that starts at 0 ends at the first route of greatest positive distance, or at its start while every route has length 0 |
| FlightStats.ShortestSnoc | lib/model/graph/graph.rb:398-406 | the first shortest flight so far stays first unless the next one is strictly shorter, on a tie the earlier flight keeps the ports |
| FlightStats.LongestSnoc | lib/model/graph/graph.rb:414-422 | the first longest flight so far stays first unless the next one is strictly longer |
| FlightStats.ZeroSnoc | lib/model/graph/graph.rb:414-422 | after flights of length 0 only, the next flight becomes the longest exactly when it is longer than 0 |
| FlightStats.ReplayTotals | lib/model/graph/graph.rb:87-92 | under additions only, the total is the sum of the added distances and the count is their number |
| FlightStats.ReplayShortest | lib/model/graph/graph.rb:25-26 | under additions only, the shortest flight is the first added flight of least distance, or infinity with no ports |
| FlightStats.ReplayLongest | lib/model/graph/graph.rb:25-26 | under additions only, the longest flight is the first added flight of greatest distance, or 0 with no ports while all have length 0 |
| NetworkGraph.Empty | lib/model/graph/graph.rb:20-28 | a new graph has no airports |
| NetworkGraph.GetRoute | lib/model/graph/graph.rb:107-115 | unknown (-1) exactly when an airport is missing; 0 from an airport to itself; otherwise the stored length, or infinity when no route is stored |
| NetworkGraph.AddNode | lib/model/graph/graph.rb:123-125 | the airport exists with an empty row, so its routes read infinity; every other route is unchanged |
| NetworkGraph.AddIfNonExisting | lib/model/graph/graph.rb:386-390 | the airport exists afterwards and no route changes |
| NetworkGraph.AddRoute | lib/model/graph/graph.rb:57-63 | missing airports are created; only the route `a -> b` changes and it reads `d`; the statistics record one flight of `d` and the pair joins the connection index |
| NetworkGraph.StoreRoute | lib/model/graph/graph.rb:61 | only the route `a -> b` changes, and it reads `d` |
| NetworkGraph.AddConnection | lib/model/graph/graph.rb:74-77 | both directions read `d` (0 for an airport to itself); no other route changes; the total grows by `2d` and the flight count by 2 |
| NetworkGraph.RowRoutes | lib/model/graph/graph.rb:277-278 | one record per stored route of the row, in insertion order |
| NetworkGraph.RecalculateShortest | lib/model/graph/graph.rb:273-288 | only the shortest flight changes, to the scan of every stored route from infinity |
| NetworkGraph.RecalculateLongest | lib/model/graph/graph.rb:294-309 | only the longest flight changes, to the scan of every stored route from 0 |
| NetworkGraph.CheckExtremeFlights | lib/model/graph/graph.rb:191-198 | routes, total and count are unchanged; an extreme whose ports do not include the airport is unchanged |
| NetworkGraph.DeleteRoute | lib/model/graph/graph.rb:207-217 | nothing changes unless the route is stored; otherwise the route reads infinity, its length leaves the total, the count drops by one, and the pair leaves the index exactly when there is no route back |
| NetworkGraph.DropRoute | lib/model/graph/graph.rb:209-214 | the first steps of `delete_route`: key, length, one flight and possibly the pair go, and the extremes are not yet touched |
| NetworkGraph.DropKey | lib/model/graph/graph.rb:211 | only the route `a -> b` changes, and it reads infinity |
| NetworkGraph.DeleteConnection | lib/model/graph/graph.rb:226-229 | both directions read infinity and no other route changes |
| NetworkGraph.DeleteRoutesFrom | lib/model/graph/graph.rb:180-182 | every route out of the airport reads infinity and no other route changes |
| NetworkGraph.DeleteEach | lib/model/graph/graph.rb:181 | the routes from `s` to each listed destination read infinity and nothing else changes |
| NetworkGraph.DeleteIncoming | lib/model/graph/graph.rb:165-169 | the routes into `n` from each listed source read infinity and nothing else changes |
| NetworkGraph.DeleteRoutesTouching | lib/model/graph/graph.rb:163-169 | every route into or out of the airport reads infinity and no other route changes |
| NetworkGraph.RemoveIsolated | lib/model/graph/graph.rb:170 | removing an airport that no route touches drops only that airport |
| NetworkGraph.DeleteNode | lib/model/graph/graph.rb:162-173 | an absent airport changes nothing; otherwise it is gone and every route touching it reads infinity, while all other routes are unchanged |
| NetworkGraph.DeleteNodeLeavesNoRouteTo | lib/model/graph/graph.rb:162-173 | after `delete_node(n)` no remaining row has `n` as a key |
| NetworkGraph.AverageFlight | lib/model/graph/graph.rb:44-46 | the average times the number of flights is the total distance |
| NetworkGraph.FiniteRow | lib/model/graph/graph.rb:235-243 | the row handed to the search has the same keys in the same order, every length finite |
| NetworkGraph.AsAdjacency | lib/model/graph/graph.rb:235-243 | the search reads the same airports in the same order, and every weight is the stored route |
| NetworkGraph.SolvesEachPut | lib/model/graph/graph.rb:237-241 | storing one more solved search keeps every stored search solved |
| NetworkGraph.SolveFrom | lib/model/graph/graph.rb:238-241 | one search from `source` satisfies every guarantee of `dijkstra` |
| NetworkGraph.SolveAll | lib/model/graph/graph.rb:237-242 | one solved search is stored for exactly the listed airports |
| NetworkGraph.EvaluateDijkstra | lib/model/graph/graph.rb:235-243 | a solved search is stored for exactly the graph's airports |
| NetworkGraph.ShortestPathAsArray | lib/model/graph/graph.rb:252-254 | the route read back is a walk from `a` to `b` that no other walk beats; `[a]` when `a == b` |
| NetworkGraph.ShortestPathAsString | lib/model/graph/graph.rb:263-265 | the URL of such a shortest walk; `""` when `a == b` |
| NetworkStatistics.RowRoutesMembership | lib/model/graph/graph.rb:277-278 | a row's records are exactly its stored routes |
| NetworkStatistics.RoutesOverMembership | lib/model/graph/graph.rb:277-278 | the records of a list of rows are exactly the routes stored in those rows |
| NetworkStatistics.RoutesMembership | lib/model/graph/graph.rb:277-278 | the rescans visit exactly the stored routes |
| NetworkStatistics.RescanShortestOK | lib/model/graph/graph.rb:273-288 | after the rescan no stored route is shorter than the shortest flight, and a finite shortest flight is a stored route |
| NetworkStatistics.RescanLongestOK | lib/model/graph/graph.rb:294-309 | after the rescan no stored route is longer than the longest flight, and a positive longest flight is a stored route |
| NetworkStatistics.ExtremesFrame | lib/model/graph/graph.rb:191-198 | whether an extreme is correct depends only on the stored routes and on that extreme |
| NetworkStatistics.CheckExtremeFlightsOK | lib/model/graph/graph.rb:191-198 | an extreme that was correct or is rescanned is correct afterwards |
| NetworkStatistics.EmptyConsistent | lib/model/graph/graph.rb:20-28 | a new graph's statistics agree with its (absent) routes |
| NetworkStatistics.EmptyRowSums | lib/model/graph/graph.rb:124 | a row without routes adds nothing to the total or the count |
| NetworkStatistics.AddNodeSums | lib/model/graph/graph.rb:123-125 | adding a new airport leaves the sum and the number of stored routes unchanged |
| NetworkStatistics.AddNodeConsistent | lib/model/graph/graph.rb:123-125 | adding a new airport keeps the statistics consistent |
| NetworkStatistics.AddNodeExistingMiscounts | lib/model/graph/graph.rb:123-125 | re-adding an airport with routes wipes them while the flight count keeps them |
| NetworkStatistics.AddIfNonExistingConsistent | lib/model/graph/graph.rb:386-390 | `add_if_non_existing` keeps the statistics consistent |
| NetworkStatistics.StoreRouteSums | lib/model/graph/graph.rb:61 | storing a route trades the old length (if any) for the new one in the sum, and adds one route if none was stored |
| NetworkStatistics.AddRouteSums | lib/model/graph/graph.rb:57-63 | a new route adds its length to the sum and one to the number of stored routes |
| NetworkStatistics.AddRouteShortest | lib/model/graph/graph.rb:398-406 | the shortest flight stays correct when a new route is added |
| NetworkStatistics.AddRouteLongest | lib/model/graph/graph.rb:414-422 | the longest flight stays correct when a new route is added |
| NetworkStatistics.AddRouteConsistent | lib/model/graph/graph.rb:57-63 | adding a route that is not stored yet keeps the total, the count and both extremes consistent |
| NetworkStatistics.AddRouteAgainMiscounts | lib/model/graph/graph.rb:57-63 | re-adding a stored route counts one flight too many and keeps the old length in the total |
| NetworkStatistics.AddConnectionConsistent | lib/model/graph/graph.rb:74-77 | adding a new connection between two different airports keeps the statistics consistent |
| NetworkStatistics.DeleteRouteSums | lib/model/graph/graph.rb:207-217 | deleting a stored route takes its length and one route out of the sums |
| NetworkStatistics.DroppedRouteExtremes | lib/model/graph/graph.rb:215 | after a route from `a` is dropped, an extreme whose ports do not include `a` is still correct, so checking only the first airport suffices |
| NetworkStatistics.DeleteRouteConsistent | lib/model/graph/graph.rb:207-217 | `delete_route` keeps the statistics consistent |
| NetworkStatistics.DeleteEachConsistent | lib/model/graph/graph.rb:180-182 | deleting the routes of a list one by one keeps the statistics consistent |
| NetworkStatistics.DeleteIncomingConsistent | lib/model/graph/graph.rb:165-169 | deleting the routes into an airport one by one keeps the statistics consistent |
| NetworkStatistics.RemoveIsolatedConsistent | lib/model/graph/graph.rb:170 | removing an airport that no route touches keeps the statistics consistent |
| NetworkStatistics.ExtremesFrameLengths | lib/model/graph/graph.rb:191-198 | graphs with the same route lengths and statistics agree on whether the extremes are correct |
| NetworkStatistics.DeleteNodeConsistent | lib/model/graph/graph.rb:162-173 | `delete_node` keeps the statistics consistent |
| NetworkStatistics.DeleteConnectionConsistent | lib/model/graph/graph.rb:226-229 | `delete_connection` keeps the statistics consistent |
| Dijkstra.PrefixIsPath | lib/model/graph/dijkstra.rb:59-70 | dropping the last airport of a walk from the source leaves a walk from the source |
| Dijkstra.PotentialBoundsCost | lib/model/graph/dijkstra.rb:35-43 | a labelling that no edge can improve bounds the cost of every walk from below |
| Dijkstra.MinDist | lib/model/graph/graph.rb:318-328 | `""` when every queued airport is at infinity; otherwise a queued airport of least distance, the first such one in queue order |
| Dijkstra.FrontierBound | lib/model/graph/dijkstra.rb:31-43 | every walk from the source to an unsettled airport passes a queued airport whose distance is at most the walk's cost |
| Dijkstra.RelaxNeighbours | lib/model/graph/dijkstra.rb:35-43 | only still-queued neighbours change, each to at most the settled distance plus the edge, and a distance or predecessor changes only on a strict improvement through `u` |
| Dijkstra.RelaxImproves | lib/model/graph/dijkstra.rb:37-40 | a strict improvement through `u` keeps the relaxation invariant for one more neighbour |
| Dijkstra.RelaxKeeps | lib/model/graph/dijkstra.rb:36-38 | a neighbour that is not improved keeps the relaxation invariant |
| Dijkstra.SettledStep | lib/model/graph/dijkstra.rb:31-43 | settling the nearest airport keeps every settled distance optimal |
| Dijkstra.RelaxedStep | lib/model/graph/dijkstra.rb:35-43 | after relaxing, every edge from a settled airport to a queued one is relaxed |
| Dijkstra.PrevStep | lib/model/graph/dijkstra.rb:38-40 | every predecessor stays a settled airport whose distance plus the edge is the recorded distance |
| Dijkstra.RankStep | lib/model/graph/dijkstra.rb:31-41 | predecessors are settled strictly earlier, so predecessor chains lead back to the source |
| Dijkstra.AchievedStep | lib/model/graph/dijkstra.rb:38-41 | every recorded distance stays the cost of some walk from the source |
| Dijkstra.ExtendPath | lib/model/graph/dijkstra.rb:38 | a walk extended by a finite edge is a walk whose cost grows by the edge |
| Dijkstra.SettleNearest | lib/model/graph/dijkstra.rb:31-43 | one round of the loop keeps the invariant and removes one airport from the queue |
| Dijkstra.QueuedFinite | lib/model/graph/dijkstra.rb:31-32 | while airports are queued and all are reachable, some queued airport has a finite distance, so `min_dist` never returns `""` |
| Dijkstra.NearestIsFinal | lib/model/graph/dijkstra.rb:31-32 | the queued airport of least distance has an optimal distance |
| Dijkstra.SettleKeepsInv | lib/model/graph/dijkstra.rb:31-43 | settling and relaxing the nearest airport keeps the loop invariant |
| Dijkstra.InitialState | lib/model/graph/dijkstra.rb:23-29 | the source at 0 and every airport queued satisfy the loop invariant |
| Dijkstra.FinalState | lib/model/graph/dijkstra.rb:31-47 | with the queue empty, the invariant gives every guarantee of the search |
| Dijkstra.AllVisited | lib/model/graph/dijkstra.rb:31 | when the queue is empty every airport has been settled and has a distance |
| Dijkstra.Dijkstra | lib/model/graph/dijkstra.rb:21-48 | every airport gets the distance of a shortest walk from the source, the source 0 with no predecessor; each predecessor's distance plus its edge is the recorded distance, and every predecessor chain reaches the source |
| Dijkstra.ChainToSource | lib/model/graph/dijkstra.rb:32-40 | predecessors of strictly smaller rank give a chain from every ranked airport to the source |
| Dijkstra.AncestorStep | lib/model/graph/dijkstra.rb:63-66 | a chain that reaches the source later goes through a recorded predecessor at every step before |
| Dijkstra.CreateShortestPath | lib/model/graph/dijkstra.rb:59-70 | `[source]` when source and destination coincide; otherwise it starts at the source, ends at the destination, and each element's predecessor is the element before it |
| Dijkstra.PrevChainCost | lib/model/graph/dijkstra.rb:59-70 | a route read back through sound predecessors is a walk whose cost is the destination's distance |
| Dijkstra.ShortestPath | lib/model/graph/dijkstra.rb:21-70 | the search followed by the reconstruction gives a walk that no other walk beats |
| Dijkstra.TestNetwork | test/utils/graph/dijkstra_test.rb:30-51 | the test network ABC–DEF 20, DEF–GHI 20, GHI–JKL 20, ABC–GHI 50, ABC–JKL 50 |
| Dijkstra.RowsShapeNetwork | test/utils/graph/dijkstra_test.rb:30-51 | four rows of the test's shape make a network of the test's shape |
| Dijkstra.TestDistancesAreFeasible | test/utils/graph/dijkstra_test.rb:30-51 | no edge of the test network improves the expected distances |
| Dijkstra.TestNetworkWalks | test/utils/graph/dijkstra_test.rb:30-51 | walks of cost 0, 20, 40 and 50 exist to ABC, DEF, GHI and JKL |
| Dijkstra.TestNetworkReachable | test/utils/graph/dijkstra_test.rb:30-51 | every airport of the test network is reachable from ABC |
| Dijkstra.TestNodeDistance | test/utils/graph/dijkstra_test.rb:30-51 | an optimal, achieved distance in the test network is the test's value |
| Dijkstra.TestNodeAtLeast | test/utils/graph/dijkstra_test.rb:30-51 | an achieved distance is at least the test's value |
| Dijkstra.TestNodeAtMost | test/utils/graph/dijkstra_test.rb:30-51 | an optimal distance is at most the test's value |
| Dijkstra.TestNetworkDistances | test/utils/graph/dijkstra_test.rb:34-36 | the distances from ABC are 0, 20, 40 and 50 |
| Dijkstra.TestPredecessorOf | test/utils/graph/dijkstra_test.rb:38-50 | only one airport can precede each airport under the test's distances |
| Dijkstra.TestNetworkPredecessors | test/utils/graph/dijkstra_test.rb:38-50 | the predecessors are DEF←ABC, GHI←DEF, JKL←ABC, and ABC has none |
| Dijkstra.TestNetworkFromAbc | test/utils/graph/dijkstra_test.rb:30-51 | the search from ABC gives the test's distances and predecessors, GHI through DEF because 40 beats the direct 50 |
| Dijkstra.CreateUrlFromPath | lib/model/graph/dijkstra.rb:78-87 | as written: `""` for a path of at most one airport; otherwise the intended URL followed by `,+`, the last code and a dash, with the last 6 characters cut |
| Dijkstra.UrlAsWritten | lib/model/graph/dijkstra.rb:80-85 | the pieces the loop writes, terminated by `,+` and cut by 8, are the intended URL plus `,+`, the last code and a dash, cut by 6 |
| Dijkstra.PiecesArePairs | lib/model/graph/dijkstra.rb:81-83 | the loop writes the consecutive pairs and then the last code with an empty partner |
| Dijkstra.Pairs | lib/model/graph/dijkstra.rb:81-83 | one `"x-y"` piece for every consecutive pair of the path, in path order, none for a path of at most one airport |
| Dijkstra.PathUrl | lib/model/graph/dijkstra.rb:78-87 | the intended URL: the consecutive pairs joined by `,+`, `""` for a path of at most one airport |
| Dijkstra.UrlMatchesForThreeLetterCodes | lib/model/graph/dijkstra.rb:80-85 | for two or more codes whose last code has three characters, the URL as written is the pairs joined by `,+` |
| Dijkstra.UrlCutsShortCodes | lib/model/graph/dijkstra.rb:84 | with two-letter codes the fixed cut eats a character: `AB, CD` gives `AB-C` instead of `AB-CD` |
| Dijkstra.TestRouteForced | test/utils/graph/dijkstra_test.rb:57-63 | a route read back from the test's predecessors is forced: `[ABC]`, `[ABC, DEF]`, `[ABC, DEF, GHI]`, `[ABC, JKL]` |
| Dijkstra.TestUrls | test/utils/graph/dijkstra_test.rb:75-78 | the URLs of the four test routes are `""`, `ABC-DEF`, `ABC-DEF,+DEF-GHI` and `ABC-JKL` |
| Dijkstra.TestNetworkRoutes | test/utils/graph/dijkstra_test.rb:57-78 | the search, the reconstruction and the URL encoder together give the test's routes and URLs |
| CsairGraph.Empty | lib/csair_lib/graph.rb:21-28 | a new graph has no airports and the initial statistics |
| CsairGraph.GetConnection | lib/csair_lib/graph.rb:82-91 | unknown (-1) exactly when an airport is missing; 0 from an airport to itself; otherwise the stored value, which defaults to infinity |
| CsairGraph.AddNode | lib/csair_lib/graph.rb:99-101 | the airport gets an empty row, so it reads infinity to everything, while other rows are unchanged |
| CsairGraph.AddIfNonExisting | lib/csair_lib/graph.rb:279-283 | the airport exists afterwards; existing rows are unchanged and a new one is empty |
| CsairGraph.AddConnection | lib/csair_lib/graph.rb:48-54 | missing airports are created, both directions read `d`, no other pair changes, the statistics record one flight, and the pair joins the index |
| CsairGraph.SameNodesRead | lib/csair_lib/graph.rb:82-91 | lookups depend only on the rows |
| CsairGraph.Grow | lib/csair_lib/graph.rb:49-50 | both airports exist afterwards and nothing that was stored changes |
| CsairGraph.StoreBoth | lib/csair_lib/graph.rb:52 | both directions read `x` and nothing else changes |
| CsairGraph.Store | lib/csair_lib/graph.rb:52 | one direction reads `x` and nothing else changes |
| CsairGraph.RemoveCity | lib/csair_lib/graph.rb:138-147 | the city and every key naming it are gone; everything else reads as before; lookups to or from it are unknown; the statistics are not corrected |
| CsairGraph.DeleteDirection | lib/csair_lib/graph.rb:156-163 | a missing airport changes nothing; otherwise the direction reads infinity with its key kept, no other lookup changes, and the index keeps every token and gains the pair's token exactly when the way back reads infinity (the index's `delete_connection` adds) |
| CsairGraph.DeleteBoth | lib/csair_lib/graph.rb:172-174 | both directions read infinity and no other lookup changes; no token leaves the index and only the pair's token can join |
| CsairGraph.DeleteConnection | lib/csair_lib/graph.rb:172-176 | both directions read infinity and no other lookup changes; the index afterwards holds exactly its old tokens plus the pair's, whether or not the airports exist |
| CsairGraph.ShortestPaths | lib/csair_lib/graph.rb:185-212 | on the graph's own hash: every distance is the shortest walk's cost and achieved, the source is 0 with no predecessor, every other airport has a predecessor over a finite direction whose distance plus the direction is its own, and every predecessor chain reaches the source |
| CsairGraph.AdjacencyOf | lib/csair_lib/graph.rb:185-212 | the search's weights are the graph's lookups, stored infinities included |
| CsairGraph.NoWalkUsesInfinity | lib/csair_lib/graph.rb:199-206 | a walk never steps along a direction stored as infinity, so relaxing over it never improves a distance |
| CsairGraph.DeletedConnectionUnused | lib/csair_lib/graph.rb:172-176 | after `delete_connection` no walk uses either direction of the pair |
| CsairGraph.Build | lib/csair_lib/graph.rb:48-54 | adding connections one by one from an empty graph keeps it well formed |
| CsairGraph.BuildStats | lib/csair_lib/graph.rb:62-67 | statistics count once per connection: they are the replay of the added connections alone |
| CsairGraph.AddConnectionExample | test/csair_lib/graph_test.rb:22-27 | MEX–CHI reads 2131 in both directions |
| CsairGraph.RemoveCityExample | test/csair_lib/graph_test.rb:63-67 | a removed city is unknown afterwards |
| Hashes.Put | lib/model/graph/graph.rb:61 | the key maps to the new value; a new key is appended to the order, and an existing key keeps its place |
| Hashes.Delete | lib/model/graph/graph.rb:211 | the key leaves both the map and the order, and the order is otherwise kept |
| Hashes.SumPut | lib/model/graph/graph.rb:61 | storing a value trades the key's old value (if any) for the new one in every sum over the hash |
| Hashes.SumDelete | lib/model/graph/graph.rb:211 | deleting a key takes its value out of every sum over the hash |
| Text.DropTerminatorIsJoin | lib/csair_lib/connection.rb:28-34 | writing every item followed by the separator and cutting one separator off gives the items joined by it |
| Text.ParseNatToString | lib/csair_lib/metro.rb:60-62 | the decimal text of a number reads back as that number |
| Text.IntToString | lib/csair_lib/metro.rb:60-62 | a minus sign exactly for a negative value, then a numeral without leading zeros that reads back as the magnitude |
| Text.IntToStringInjective | lib/csair_lib/metro.rb:60-62 | distinct integers print as distinct texts |

## Left out

- Console, menus, printing and the browser launch are not part of this model. Neither are the JSON reading and writing
  of routes and airports. Route records and airport records enter as parameters.
- `to_s` of both graph generations (`get_node_connections`, `add_to_string`) is display only and prints float infinity.
  `get_url_addition` and `get_closest_cities` only forward to the connection index or a row, and are left out.
- The query module, the metro collection of lib/model/metro/all_metros.rb and the dictionary of lib/graph/dictionary.rb
  are not modelled. The last one cannot run: it indexes a hash with undefined names.
- `get_metros_from_json` of lib/model/dictionary.rb:98-104 calls an `add_metro` that class does not define. It is left out.
- lib/model/graph/connection.rb, which the current graph requires, is not part of this model. Its connection index is
  modelled with `Connection.AddConnection` and the intended removal `Connection.RemoveConnection`.
- NetworkGraph.AverageFlight: requires at least one flight. With none, Ruby divides 0.0 by 0.0 and answers NaN, which a
  real number cannot express.
- `Text.Lower` and `Text.Upper` change ASCII letters only. Ruby's `downcase`/`upcase` also map non-ASCII letters.
- Route lengths are natural numbers, and the searches assume non-negative weights. Population and timezone are integers.
- Dijkstra.Dijkstra: requires every airport to be reachable from the source. Otherwise `min_dist` returns `""` and the
  Ruby fails on `node_hash[""]`. The same precondition carries over to `NetworkGraph.EvaluateDijkstra` and
  `CsairGraph.ShortestPaths`.
- Dijkstra.CreateShortestPath: requires the predecessor chain from the destination to reach the source. The Ruby loops
  forever otherwise.
- `delete_routes_from` and `delete_node` delete routes while iterating. They are modelled as deletions over a snapshot
  of the keys taken before the loop.
- NetworkStatistics.AddRouteConsistent: holds only for routes not stored yet. Re-adding a stored route or airport makes
  the running statistics drift, as `AddRouteAgainMiscounts` and `AddNodeExistingMiscounts` show.
- The `empty?` branches of `account_for_shortest_flight` and `account_for_longest_flight` (lib/model/graph/graph.rb:399,
  415) can never be taken, because the extreme's hash always has both keys. They are not modelled as separate branches.
- Metro options other than `1` and `2` change nothing. The validation and extra options that the metro tests exercise
  are not in the Ruby.
- The earlier graph's test of `delete_connection` calls a `remove_connection` that does not exist. The model follows
  `delete_connection` as written: `CsairGraph.DeleteDirection`, `CsairGraph.DeleteBoth` and
  `CsairGraph.DeleteConnection` call the index's written `delete_connection` (`Connection.DeleteConnection`), so the
  pair's token ends up in the index (see Findings).

## Findings

| source | as written | input that shows it | evidently intended | confidence | as-written member | corrected member |
|---|---|---|---|---|---|---|
| lib/csair_lib/connection.rb:40-42 | `delete_connection` calls `add` on the token set | deleting `abc`/`def` from an empty index gives the URL `ABC-DEF` | the pair's token is removed, as the doc comment at line 36 and the removal test describe | not executed | Connection.DeleteConnection, Connection.DeleteConnectionAddsToken | Connection.RemoveConnection, Connection.RemoveUndoesAdd |
| lib/model/graph/dijkstra.rb:84 | the URL is cut by a fixed 8 characters, which is the tail `",+" + last code + "-,+"` only for a 3-character last code | the path `AB`, `CD` gives `AB-C` | the consecutive pairs joined by `,+` for any code length | not executed | Dijkstra.CreateUrlFromPath, Dijkstra.UrlCutsShortCodes | Dijkstra.PathUrl, Dijkstra.UrlMatchesForThreeLetterCodes |
| lib/graph/metro.rb:49-56 | `region` switches on `@code`, which is never assigned | a metro built with region 1 reports Asia and Oceania | the region named by the stored region code, as in lib/csair_lib/metro.rb:68-75 | not executed | GraphMetro.Region, GraphMetro.RegionMisreportsAmericas | Metro.Region, GraphMetro.RegionAgreesOnlyForAsia |
