# RIP router core, modelled in Dafny

A model of the routing core of a small RIP-style distance-vector router: the
routing table and its route entries, the response packet codec (which routes
are advertised to which neighbour, how they are grouped into packets of at most
25 entries, and the byte layout), the merging of received responses into the
table, the timeout and garbage-collection sweep, and the start-up check of the
configuration.

Modules, one per file:

- `Common` (`common.dfy`): the metric and id limits, the work events handed to
  the thread pool, `Option`, and small sequence helpers.
- `RouteEntries` (`route_entry.dfy`): one table row with its timeout and
  garbage-collection deadlines.
- `RoutingTables` (`routing_table.dfy`): the table as an insertion-ordered map
  (a repetition-free key sequence plus a map), together with the neighbour
  configuration and the periodic and triggered update deadlines.
- `Packet` (`packet.dfy`): the route selection (split horizon plus flagged
  unreachable routes), the grouping into packets and the big-endian codec.
  The codec follows section 4 of RFC 2453 (RIP version 2), except that the
  reserved header bytes carry the sender's router id and the address field
  carries a destination router id.
- `InputProcessing` (`input_processing.dfy`): the distance-vector merge of one
  received packet (section 3.9.2 of RFC 2453) and the refresh of the direct
  route to the sender.
- `OutputProcessing` (`output_processing.dfy`): the responses for every
  destination, route expiry with triggered-update suppression, and garbage
  collection, both as the code is written and as it is evidently intended.
- `ValidateData` (`validate_data.dfy`): the configuration check.

Conventions of the model:

- Time is an integer number of seconds. The current time is passed in as `now`.
- The random jitters are parameters constrained to their ranges. The periodic
  schedule draws from [-5, 5]. The triggered-update delay draws from [1, 5].
- Work the router submits to its thread pool is not run. It is returned, in
  request order, as a list of `Event`s: a deletion sweep or a broadcast.
- A Python exception that the code lets escape becomes an `Option` result or a
  separate verdict. The exceptions modelled are a value too large for its byte
  field, a packet too short to hold a command and version, and a zero update
  interval.
- Where the code reads or writes a route entry's `next_hop`, the model uses the
  entry's `learned_from` field. That is the field the route entry class defines
  and the one the constructor sets.
- Where the code departs from RIP version 2 as RFC 2453 describes it, the
  model follows the code:
  - A received entry must carry a metric between 1 and 15
    (input_processing.py:27). Section 3.9.2 of RFC 2453 accepts 1 to 16.
  - The docstring at routingtable.py:184-187 says a triggered update that is
    requested again before it is sent is detected after the sleep, in the
    spirit of the suppression in section 3.10.1 of RFC 2453. The model has no
    sleep, so each expiry before the next periodic update asks for its own
    broadcast.
- The equal-route switch at input_processing.py:148-152 is modelled both as
  written and as its own comment describes it; see "## Findings".

## Model

| member | source | states |
|---|---|---|
| Common.DistinctCardinality | validate_data.py:48-55 | A list has no repeated value exactly when the set of its values is as large as the list, which is the idea behind the configuration's length checks. |
| RouteEntries.NewRouteEntry | routeentry.py:36-49 | A new entry is unflagged and has no garbage-collection deadline. Its timeout is `now` plus the given seconds, or the given absolute time. Its next hop is the given one, by default -1 (not learned from any router). |
| RouteEntries.ShallowCopy | routeentry.py:51-57 | The copy equals the original in every field, including the flag and the garbage-collection deadline that the constructor does not take. |
| RouteEntries.UpdateTimeoutTime | routeentry.py:59-81 | The timeout becomes the initial time (the given one, else now) plus the delta. Any garbage-collection deadline is dropped. The initial time is returned. No other field changes. |
| RouteEntries.SetGarbageCollectionTime | routeentry.py:83-103 | The garbage-collection deadline becomes the initial time plus the delta. The timeout and every other field are kept. The initial time is returned. |
| RouteEntries.TimeoutAfterGcClearsGc | routeentry.py:79-80 | Restarting the timeout after a garbage-collection deadline was set cancels that deadline and leaves every field other than the two deadlines as it was. |
| RoutingTables.NewTable | routingtable.py:41-53 | A new table is empty. It keeps its id and intervals, and its periodic update falls within 5 seconds of the update interval from now. |
| RoutingTables.Contains | routingtable.py:70-74 | A router id is in the table exactly when it is one of the iterated keys. |
| RoutingTables.GetAfterAddRoute | routingtable.py:151-155 | After adding a route under an id, reading that id gives the new route, and every other id is present and reads as before. |
| RoutingTables.GetAfterRemoveRoute | routingtable.py:157-161 | After removing an id, it is no longer present, and every other id is present and reads as before. |
| RoutingTables.Len | routingtable.py:55-57 | The length is the number of distinct destinations stored. |
| RoutingTables.Ids | routingtable.py:59-61 | Iteration lists every stored destination exactly once and nothing else. |
| RoutingTables.Neighbours | routingtable.py:145-149 | The neighbour ids are the stored destinations, each once. |
| RoutingTables.AddRoute | routingtable.py:151-155 | The id maps to the new route. Every other id keeps its route. A new id is appended to the iteration order and an existing id keeps its position. |
| RoutingTables.RemoveKeyProperties | routingtable.py:157-161 | Deleting a key from the iteration order drops exactly that key. The other keys stay distinct and keep their relative order, and the order shrinks by one. |
| RoutingTables.RemoveRoute | routingtable.py:157-161 | Deleting a present id removes only that id, and the others keep their routes. The table stays well formed and shrinks by one. |
| RoutingTables.UpdateSchedUpdateTime | routingtable.py:163-177 | The next periodic update is the initial time plus the update interval plus a jitter in [-5, 5]. The initial time is returned. Nothing else changes. |
| RoutingTables.SetTriggeredUpdateTime | routingtable.py:179-203 | The triggered update is set 1 to 5 seconds after the initial time. The answer is false exactly when that moment is not before the next periodic update. It is always true when the periodic update is more than 5 seconds away. |
| RoutingTables.SetTriggeredUpdateTimeAsWritten | routingtable.py:197-203 | As written, the triggered time is stored, but the answer is false or missing and is never true. It is missing exactly when the intended answer is true. |
| Packet.FixedWidthValues | packet.py:87-91 | The two- and four-byte readers give the big-endian value of those bytes, as `int.from_bytes` does. |
| Packet.Bytes16 | packet.py:55 | The two bytes written for a value that fits read back as that value. |
| Packet.Bytes32 | packet.py:65-69 | The four bytes written for a value that fits read back as that value. |
| Packet.BytesValues | packet.py:65-69 | The two- and four-byte big-endian encodings of a value that fits have that value as their big-endian number. |
| Packet.SelectFromProperties | packet.py:22-41 | Over a list of distinct keys, the selected rows are exactly the advertised routes. They keep the list's order and carry the stored entries. |
| Packet.Select | packet.py:22-41 | The rows for a neighbour are exactly the known routes not learned from it that are reachable or flagged, each once and in table order. |
| Packet.Chunks | packet.py:22-41 | The groups hold 25 rows each except the last, which holds the remainder (possibly none). Concatenated, they give back the rows. |
| Packet.ChunksCount | packet.py:32-41 | There are rows / 25 + 1 groups, and the last one holds the rows mod 25 left over. |
| Packet.ChunksUnique | packet.py:32-41 | Any grouping into full groups of 25 followed by one shorter group, which concatenates to the rows, is the grouping `Chunks` gives. |
| Packet.NextPacketEntries | packet.py:22-41 | Accumulating the selected rows while walking the table, and emitting a group whenever it reaches 25 and once more at the end, gives exactly those groups. |
| Packet.PacketHeader | packet.py:44-55 | The header is command 2, version 2, then the sender id in two big-endian bytes. |
| Packet.EntryBytes | packet.py:64-70 | An entry is 20 bytes: family 2 in bytes 0-1, destination in bytes 4-7, metric in bytes 16-19, and zero everywhere else. |
| Packet.EncodeEntries | packet.py:62-70 | The entries are laid one after another, 20 bytes each. |
| Packet.ConstructPacket | packet.py:58-72 | A packet exists exactly when the sender id fits two bytes and every destination and metric fits four. It is then 4 + 20 × rows bytes long with the right header. |
| Packet.ConstructAll | packet.py:75-82 | There is one packet per group, in order. There are none when any group cannot be encoded. |
| Packet.ConstructPackets | packet.py:75-82 | Packets exist exactly when this router's id fits two bytes and every advertised destination and metric fits four. A neighbour then gets rows / 25 + 1 packets, the i-th being the packet built from the i-th group of 25. |
| Packet.ConstructAllChunks | packet.py:75-82 | Every group of a list of rows can be encoded exactly when the sender id and every row of the list can. |
| Packet.FlattenEncodable | packet.py:32-41 | The rows of concatenated groups can be encoded exactly when the rows of each group can. |
| Packet.ReadPacketEntryFields | packet.py:85-92 | The entry's family, destination and metric are the big-endian values of the bytes 0-2, 4-8 and 16-20 of the entry. |
| Packet.ReadEntriesLength | packet.py:101-110 | As many entries are read as whole 20-byte blocks fit after the start offset. A shorter tail is ignored. |
| Packet.ReadEntriesIndex | packet.py:101-110 | The j-th entry read is the one whose bytes start 20 × j after the start offset. |
| Packet.ReadPacket | packet.py:95-111 | Reading fails exactly when the buffer is shorter than two bytes. Otherwise it gives the command, the version, the sender (from the header bytes present) and one entry per complete 20 bytes after the header. |
| Packet.SenderFieldValue | packet.py:99 | The sender is the big-endian value of header bytes 2 and 3, or of as many of them as the buffer holds. |
| Packet.EncodeEntriesAt | packet.py:62-70 | Row j is laid out, as family 2, destination and metric, in the 20 bytes starting at 20 × j. |
| Packet.ReadLaidOut | packet.py:101-110 | Bytes holding one laid-out entry per row up to their end read back as one response per row, in order. |
| Packet.ReadEncodedEntries | packet.py:64-70 | Reading entries back from where they were encoded gives one response per row, in order. |
| Packet.PacketRoundTrip | packet.py:58-111 | Reading a constructed packet gives back command 2, version 2, the sender and its rows in order, each row read as family 2, its destination and its metric (the reference list `Responses`). |
| Packet.ConstructPacketsRoundTrip | packet.py:22-111 | Every packet for a neighbour reads back with this router as sender. Taken in order, their entries are exactly the advertised routes, with none lost or repeated. |
| Packet.TrailingFragmentIgnored | packet.py:104-109 | Bytes after the last complete entry do not change the packet read: the same command, version, sender and entries. |
| Packet.ReadSingleEntryExample | packet.py:95-111 | A 24-byte buffer with header 2, 2, 0 and one entry (family 2, id 1, metric 1) reads as that packet. |
| InputProcessing.ValidateEntry | input_processing.py:14-48 | An entry is accepted exactly when it is not about this router, has family 2, names an id in [1, 64000] and carries a metric in [1, 15]. |
| InputProcessing.CandidateMetric | input_processing.py:176-179 | The candidate is the advertised metric plus the sender's metric, capped at 16. It is 16 exactly when the sum reaches 16. |
| InputProcessing.AddRoute | input_processing.py:51-76 | A finite candidate inserts a flagged, live route through the sender, on the sender's configured port, timing out one interval from now. A candidate at infinity leaves the table unchanged. |
| InputProcessing.AdoptRoute | input_processing.py:79-110 | The route takes the new metric and next hop and is flagged. At infinity it keeps its timeout and asks for a deletion sweep. Otherwise its timeout restarts. |
| InputProcessing.SecondsComponent | input_processing.py:150-152 | The seconds part of a time difference lies in [0, 86400) and equals the difference when that is already in range. |
| InputProcessing.UpdateTable | input_processing.py:113-163 | The current next hop always refreshes a finite route. The route is adopted exactly under the decision `Adopts` (a change from the current next hop, a shorter path, or an equal path elsewhere with at least half the timeout left). Otherwise it keeps metric, next hop and flag, and a deletion sweep is asked for exactly when an unreachable candidate meets a reachable route. |
| InputProcessing.ProcessEntry | input_processing.py:166-188 | An invalid entry changes nothing. A valid one merges its candidate metric into a known destination or inserts an unknown one. No other route changes. |
| InputProcessing.ProcessEntries | input_processing.py:233-235 | A packet's entries are merged in order. Routes are never removed and existing keys keep their positions. Only deletion sweeps are asked for. |
| InputProcessing.AddDiscovered | input_processing.py:215-225 | A configured sender gets a flagged direct route at its configured cost, unless that cost is infinite. An unconfigured sender changes nothing. |
| InputProcessing.RefreshDirectRoute | input_processing.py:237-248 | For a configured sender, the direct route is reinstalled when it is missing, no better than the configured cost, or points through a missing or unreachable route. Otherwise only its timeout restarts. |
| InputProcessing.ProcessPacket | input_processing.py:228-249 | The entries are merged only for an accepted packet, and then the merge alone decides every route other than the sender's and all the work asked for. The direct route to the sender is refreshed either way: a configured sender at a finite cost always ends with a live route whose timeout is one interval from now. No route disappears and only deletion sweeps are asked for. |
| InputProcessing.ProcessEntriesKeepsMetricsInRange | input_processing.py:176-188 | Merging a packet's entries keeps every stored metric in [1, 16]. |
| InputProcessing.RefreshKeepsMetricsInRange | input_processing.py:237-248 | With configured costs in [1, 15], refreshing the direct route keeps every stored metric in [1, 16]. |
| InputProcessing.ProcessPacketKeepsMetricsInRange | input_processing.py:228-249 | With configured costs in [1, 15], processing a packet keeps every stored metric in [1, 16]. |
| InputProcessing.EqualMetricSwitchBoundary | input_processing.py:144-160 | As written, an equal route through another neighbour is taken with exactly half the timeout left, and not with one second less. |
| InputProcessing.UpdateTableIntended | input_processing.py:148-152 | As the comment intends, an equal route through another neighbour is taken exactly when at most half the timeout is left, as a flagged live route through the new neighbour; otherwise nothing changes. Every other candidate is merged as `UpdateTable` merges it. |
| InputProcessing.EqualMetricSwitchIntendedBoundary | input_processing.py:148-152 | As intended, an equal route through another neighbour is taken with exactly half the timeout left, and not with one second more. |
| InputProcessing.EqualMetricSwitchRulesDisagree | input_processing.py:148-152 | With one second more than half the timeout left the code switches and the intended rule does not; with one second less it is the other way round. |
| InputProcessing.LearnRouteExample | input_processing.py:166-188 | Neighbour 5, one hop away, advertising destination 9 at metric 3, teaches a flagged route to 9 at metric 4 through 5. |
| OutputProcessing.TimeoutProcessing | output_processing.py:35-47 | An expired route becomes unreachable and flagged, with garbage collection due one interval from now and its timeout kept. A broadcast is asked for exactly when the triggered moment is before the periodic update. |
| OutputProcessing.TimeoutProcessingAsWritten | output_processing.py:35-47 | As written, the route is expired the same way but no broadcast is ever asked for. |
| OutputProcessing.TriggeredUpdateLost | routingtable.py:197-203 | For an expiry more than 5 seconds before the periodic update, the intended processing asks for one broadcast and the code as written asks for none. |
| OutputProcessing.GcProcessing | output_processing.py:50-63 | As written, a present route is removed exactly when its garbage-collection deadline is set and not earlier than now. Nothing else changes. |
| OutputProcessing.GcProcessingCorrected | output_processing.py:50-63 | A present route is removed exactly when its garbage-collection deadline has been reached. Nothing else changes. |
| OutputProcessing.SweepStep | output_processing.py:72-77 | One visited route is expired if its timeout has passed, else garbage-collected as written if it has a deadline, else left alone. Only broadcasts are asked for, and only on expiry. |
| OutputProcessing.Sweep | output_processing.py:66-77 | A sweep over a snapshot of ids keeps the table well formed, changes only its routes and triggered-update time, and asks only for broadcasts. |
| OutputProcessing.SweepTreats | output_processing.py:66-77 | Over a snapshot of ids, each route is treated as the sweep step says. Routes outside the snapshot are untouched, and an id with no route gains none. |
| OutputProcessing.SweepQuiet | output_processing.py:66-77 | With no visited route past its timeout, the sweep asks for nothing. |
| OutputProcessing.DeletionProcess | output_processing.py:66-77 | One sweep at a single moment treats every route as written, adds no route, and asks only for broadcasts. |
| OutputProcessing.SweepStepCorrected | output_processing.py:72-77 | As intended, one visited route is removed if its deadline has been reached, expired if it is live and its timeout has passed, and otherwise left alone. A settled route is not touched. |
| OutputProcessing.SweepCorrected | output_processing.py:66-77 | A corrected sweep keeps the table well formed, changes only its routes and triggered-update time, and asks only for broadcasts. |
| OutputProcessing.SweepCorrectedTreats | output_processing.py:66-77 | A route whose deadline has been reached is removed. A live route whose timeout has passed is expired. Every other route is untouched. |
| OutputProcessing.SweepCorrectedSettled | output_processing.py:66-77 | A corrected sweep over settled routes changes nothing and asks for nothing. |
| OutputProcessing.DeletionProcessCorrected | output_processing.py:66-77 | One corrected sweep at a single moment treats every route that way and adds no route. |
| OutputProcessing.GcProcessingRemovesBeforeDeadline | output_processing.py:56 | A route whose deadline is one interval ahead is removed by the code as written and kept by the corrected check. |
| OutputProcessing.ExpiredRouteNeverCollected | output_processing.py:74-77 | As written, a route past its timeout is expired again by every later sweep, which moves its deadline forward each time, so it is never removed. |
| OutputProcessing.DeletionProcessCorrectedSettles | output_processing.py:66-77 | After a corrected sweep, every remaining route is settled for that moment. |
| OutputProcessing.DeletionProcessCorrectedIdempotent | output_processing.py:66-77 | A second corrected sweep at the same moment changes nothing and asks for nothing. |
| OutputProcessing.ExpiredRouteCollected | output_processing.py:66-77 | With the corrected sweep, an expired route is unreachable and is removed by the first sweep at or after its deadline. |
| OutputProcessing.SendResponses | output_processing.py:20-24 | Every destination in the table, in table order, is paired with its packets. |
| OutputProcessing.SendResponsesSplitHorizon | output_processing.py:20-24 | Every packet sent to a destination reads back with this router as sender and carries only known routes not learned from that destination. |
| ValidateData.CheckRangeAndDistinct | validate_data.py:48-55 | A list passes exactly when every value is in range and none repeats. The set collected is then the list's values. |
| ValidateData.Validate | validate_data.py:23-121 | Router ids, input ports, output ports (also disjoint from the input ports), costs and timer ratios are checked in that order. Exactly the first failing category is reported. A zero update interval aborts, and the timeout and garbage intervals must be 6 and 4 times the update interval. |

## Left out

- Sockets, `select`, receiving (`get_packets`) and sending (`send_response`, an empty stub in the code) are not modelled. The packets a destination would be sent are returned instead.
- `routerbase.py`, `router.py`, the configuration parser, and the port opener and closer are not part of this model.
- OutputProcessing.DeletionProcess: sweeps a snapshot of the ids. The code iterates the live dictionary (routingtable.py:59-61) while `gc_processing` deletes from it (output_processing.py:59-61), so the next step of the loop raises RuntimeError after any removal. The model finishes the sweep instead.
- Threads, `sleep` and the thread pool are not modelled. Submitted work is returned as events, and a sweep's expiries are applied within the sweep, one route at a time.
- Logging, printing and the text rendering of the table are not modelled.
- Times are whole seconds. `datetime`, `timedelta` and `datetime.now()` are replaced by integers and an explicit `now`. The default argument `initial_time=datetime.now()`, evaluated once when the module is loaded, is not modelled; `NewTable` takes the time explicitly.
- The two calls into the pool with the wrong arguments (`deletion_process` at input_processing.py:108 and 143, `timeout_processing` at output_processing.py:75) are modelled as intended: a sweep request and the expiry of the route.
- The packet check `validate_packet` is imported at input_processing.py:7 but packet.py does not define it. Its verdict is the parameter `accepted` of `InputProcessing.ProcessPacket`.
- InputProcessing.ValidateEntry: reads the destination as `targetRouterId`. The code reads `packet_entry.router_id` (input_processing.py:17, 30, 69, 124, 181), but a received entry only has `target_router_id` (packet.py:16-17), so validate_entry, add_route and update_table raise AttributeError on every entry. The model reads the field the entry has.
- InputProcessing.ProcessPacket: does not model the failing import `from validate_data import INFINITY, ...` (input_processing.py:11, also output_processing.py:7 and router.py:6). Those names are locals of `validate_data`, so the import raises ImportError. The model uses the same constants from `Common`.
- InputProcessing.ProcessEntry: requires the sender to be in the table, and in the configuration when a finite route is inserted. The code raises KeyError otherwise, before the direct route is refreshed.
- InputProcessing.UpdateTable: reads and writes the next hop as `learned_from`. As written, the code uses an attribute `next_hop` that a route entry only gets once `adopt_route` sets it, so it raises AttributeError for any other entry.
- InputProcessing.AdoptRoute: does not model the attribute `triggered_update_time` that it sets on the entry, which nothing reads.
- RoutingTables.SetTriggeredUpdateTime: the comparison after the sleep, which would detect a later triggered update, is modelled as succeeding.
- Packet.TrailingFragmentIgnored: holds for `read_packet` alone. For a trailing fragment `read_packet` returns a bare tuple (packet.py:109), which has no `sender_router_id`, so input_processing.py:233 raises AttributeError on it. The model returns the same fields as a record, so the merge of such a packet goes ahead.
- ValidateData.Validate: compares the timer ratios with integer equality. The code divides in floating point, so for values near 2^53 rounding can accept a timeout that is not exactly 6 times the update interval.
- ValidateData.Validate: takes the router id as a list of ids, as validate_data.py:49 and 54 iterate it. The test at validate_data_test.py:23 passes a single int, for which the code raises TypeError.
- ValidateData.Validate: takes the output section as three lists, where the code calls `output_ports(0)` and `timers(0)` as functions. It reports a verdict rather than the code's `1` (error) or `None` (success). The neighbour ids of the output section are not checked, in the code or the model.
- The configuration file format, and the conversion of a validated configuration into a table, are not part of this model.

## Findings

| source | as written | input that shows it | evidently intended | confidence | as-written member | corrected member |
|---|---|---|---|---|---|---|
| output_processing.py:56 | A route is removed when `gc_time >= now`, that is, before its garbage-collection deadline. | A route whose deadline is one interval ahead is removed at once. | Remove the route once the deadline has been reached (`gc_time <= now`). | high; not executed | OutputProcessing.GcProcessing, OutputProcessing.GcProcessingRemovesBeforeDeadline | OutputProcessing.GcProcessingCorrected |
| output_processing.py:74-77 | The sweep tests the timeout first (`if timeout_time <= now ... elif gc_time`), so a route whose timeout has passed is expired again on every sweep and never reaches garbage collection. | A route with timeout at or before `now1`, swept at `now1` and again at any later `now2`. | A route already waiting for garbage collection is collected when its deadline is reached, and is not expired again. The correction also iterates a copy of the ids, since deleting from the dictionary while iterating it raises RuntimeError. | high; not executed | OutputProcessing.DeletionProcess, OutputProcessing.ExpiredRouteNeverCollected | OutputProcessing.DeletionProcessCorrected, OutputProcessing.ExpiredRouteCollected |
| input_processing.py:148-152 | An equal route through another neighbour is taken when `time_diff.seconds >= half_time`, that is, while at least half the timeout interval is still left, the opposite of the comment at lines 148-149 and of section 3.9.2 of RFC 2453. | A 180-second timeout with 91 seconds left: the code switches; with 89 seconds left it does not. | Switch once the current route is at least halfway to its timeout, when at most half the interval is left. | high; not executed | InputProcessing.UpdateTable, InputProcessing.EqualMetricSwitchBoundary, InputProcessing.EqualMetricSwitchRulesDisagree | InputProcessing.UpdateTableIntended, InputProcessing.EqualMetricSwitchIntendedBoundary |
| routingtable.py:203 | `initial_time + diff` adds an int to a `datetime`, which raises TypeError, so the method never returns True and timeout processing never asks for a triggered update. | An expiry more than 5 seconds before the next periodic update. | Compare `initial_time + timedelta(seconds=diff)` with the stored triggered time; the answer is true when no later triggered update replaced it. | high; not executed | RoutingTables.SetTriggeredUpdateTimeAsWritten, OutputProcessing.TimeoutProcessingAsWritten, OutputProcessing.TriggeredUpdateLost | RoutingTables.SetTriggeredUpdateTime, OutputProcessing.TimeoutProcessing |
