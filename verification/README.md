# A verified model of the OpenWiFi analytics service

The service listens to access points, keeps a time series of their state per board, and answers queries over
it. This project models its decision-making parts in Dafny and proves what they promise, for every input and
every run. `dafny verify dfyconfig.toml` checks all of it.

| file | models |
|---|---|
| `Basics.dfy`, `Orders.dfy`, `Hex.dfy` | options, machine words, query windows; sorting and the sorted listing of a set; hexadecimal serials |
| `ClientMac.dfy` | normalising a station address |
| `BandwidthSpec.dfy`, `Bandwidth.dfy`, `BandwidthQuery.dfy`, `BandwidthBoundaries.dfy` | the client usage summary: its meaning, the calculator, the handler that feeds it, and its boundary records against the written design |
| `Calendar.dfy`, `Timestamps.dfy` | the calendar; timestamp parsers and printer |
| `MemorySummary.dfy` | the gateway memory summary |
| `Retention.dfy` | query validation and the periodic cleanup |
| `Boards.dfy` | the board table under POST, PUT and DELETE, and the venue resolver |
| `Registries.dfy`, `Watchers.dfy`, `Coordinator.dfy` | the subscription protocol: registries as values, the objects that keep them, the coordinator that starts and stops watchers |
| `Counters.dfy`, `ApStats.dfy`, `Availability.dfy` | counters that restart, one access point's telemetry state machine, the table of offline events |
| `ClientIndex.dfy` | the client MAC index and its searches |
| `TimeSlots.dfy` | splitting points into time slots |

How to read it. Order-independence is never assumed of a definition that has an order: the usage summary
(`BandwidthSpec.IsSummary`) is defined over the *set* of observations the records carry, the calculator, loops,
sort and all, is proved to compute it, and independence follows. State machines come twice: as pure step
functions with a theorem over all runs, and as classes whose methods are proved to perform those steps. A
mutex-guarded method is one atomic step. Iteration over a `std::map` is modelled as iteration in an arbitrary
order, so the results hold for the map's order and for every other. Where code and specification use one
comparator or one table function, a further result says what it means without it: `Orders.TextLessIff`,
`BandwidthSpec.HeaviestClientsKept`, `TimeSlots.SplitInPlainTerms`, `MemorySummary.SummaryInPlainTerms`,
`ApStats.DeltaOfIsRight`, `Boards.WrittenMeaning`.

Results about code that does not do what one would expect:

* a PUT that another request overtakes can leave two boards on one venue. A run keeps one board per venue
  throughout iff no write of such a PUT lands on a row that is still there while another board has the venue it
  read (`Boards.RunsKeepOnePerVenueIff`); without reused ids that never happens
  (`Boards.OverlappingRunsKeepOnePerVenue`), with them it can (`Boards.ReusedIdBreaksOnePerVenue`), and ids can be
  reused, since a POST body without a name keeps the id the client sent
  (`src/RESTObjects/RESTAPI_ProvObjects.cpp:1088-1103`);
* storage failures aside, an offered offline event is dropped exactly when one of the same device, kind and
  identifier is still on record, so a second disconnection under one uuid is not recorded
  (`Availability.RecordedIffNew`, `Availability.RepeatedUuidIsDropped`);
* the offset parser refuses instants after the epoch exactly when their local date is before 1970
  (`Timestamps.OffsetInstantRefused`);
* the memory summary depends on record order exactly when two newest samples share a non-empty id and
  disagree (`MemorySummary.OrderIrrelevant`, `MemorySummary.AmbiguousDependsOnOrder`);
* retries and airtime deltas wrap around whenever those counters fall without a detected reconnection
  (`ApStats.UnguardedDeltas`);
* a station id is not checked before it reaches the MAC index. It keeps the two lists in step iff it does not
  parse, or is known, or spells a 48-bit number and backwards that number's mirror image
  (`ClientIndex.AddKeepsIndexIff`). Fewer than twelve hex digits never do, unless they are zeros, and nothing
  throws (`ClientIndex.ShortTextAddsCleanlyIff`); or the reversed parse throws half way
  (`ClientIndex.MalformedStationBreaksIndex`);
* a full-length search pattern is found in any case of its digits, a shorter one only in lowercase
  (`ClientIndex.FullPatternAnyCase`, `ClientIndex.OtherCharactersFindNothing`);
* an unseeded `RelativeCounter` hands back its first value without keeping it (`StatFunc.RelativeCounter.Set`);
* a cleanup that went by a smaller retention than the one a query resolves to has removed something that query
  may ask for, unless the clock is too low for either to matter (`Retention.CleanupSafeIff`);
* the cleanup pages through a live table, so it can skip a board that is there all the time. It visits a board iff
  it gets to a batch at which the board stands in the hundred that batch takes (`Retention.VisitedIff`); a board
  that stays while others are deleted is visited iff it never moves up past the beginning of the next batch
  (`Retention.VisitedIffNeverCrosses`, `Retention.LiveTableSkipsBoard`). A skip delays a deletion and never causes
  one (`Retention.AcceptedQueriesLoseNothing`);
* an age limit on client history of more days than the clock has counted removes all of it
  (`Retention.TooOldIff`);
* the branches of starting and updating a board that retire it are dead: the provisioning client reports a missing
  venue as a success without devices (`Coordinator.NoAnswerAsksToRetire`). A board whose venue is missing gets a
  watcher without devices, or has its watcher emptied, and is retired iff a later round finds it on record and the
  venue lookup says gone (`Coordinator.VenueCoordinator.VisitBoard`, `Coordinator.VenueCoordinator.UpdateFrom`);
* the written design asks for boundary samples per stream (`analytics_apis_for_mcp.md:1459-1463`), the handler
  fetches one boundary record per router on each side. A stream is charged what the design asks iff the steps that
  cuts off are worth nothing (`BandwidthBoundaries.HandlerMeetsDesignIff`,
  `BandwidthBoundaries.RowsMissGrowth`).

## Model

| member | source | states |
|---|---|---|
| ClientMac.NormalizeClientMac | src/RESTAPI/RESTAPI_mcp_helpers.h:560-618 | the scanning loops accept exactly the three layouts and give the canonical text of the twelve digits |
| ClientMac.AcceptedIffSpelled | src/RESTAPI/RESTAPI_mcp_helpers.h:560-618 | a text is accepted iff it is twelve hex digits, bare, in pairs joined by ':' or by '-', or in quads joined by '.' |
| ClientMac.FormatPairs | src/RESTAPI/RESTAPI_mcp_helpers.h:570-578 | the digits in pairs joined by ':' |
| ClientMac.CanonicalAccepted | src/RESTAPI/RESTAPI_mcp_helpers.h:570-594 | canonical text is six lowercase pairs, is accepted, and carries the same digits |
| ClientMac.NormalizeIdempotent | src/RESTAPI/RESTAPI_mcp_helpers.h:560-618 | normalising an accepted address again changes nothing |
| ClientMac.SameClientIffSameDigits | src/RESTAPI/RESTAPI_mcp_helpers.h:560-618 | two accepted inputs of any layouts give the same text iff their twelve hex digits agree ignoring case |
| Bandwidth.SaturatingAdd | src/RESTAPI/RESTAPI_mcp_helpers.h:626-630 | the sum capped at 2^64-1 |
| Bandwidth.CollectStreams | src/RESTAPI/RESTAPI_mcp_helpers.h:675-700 | the streams hold exactly the readings of the records' valid stations, by (mac, bssid, ssid, band) |
| Bandwidth.Dedupe | src/RESTAPI/RESTAPI_mcp_helpers.h:710-725 | keeps, in time order and once each, exactly the readings whose timestamp has no conflicting duplicate |
| Bandwidth.SettledSamples | src/RESTAPI/RESTAPI_mcp_helpers.h:704-725 | sorting and dropping conflicts give the same track whatever the order of the samples |
| Bandwidth.ApplyCounterSample | src/RESTAPI/RESTAPI_mcp_helpers.h:736-769 | the total stays the capped exact usage of the values seen, the observed span stays the hull of the counted segments |
| Bandwidth.ApplyStream | src/RESTAPI/RESTAPI_mcp_helpers.h:733-776 | a stream adds to a client exactly its rx and tx usage and its segments |
| Bandwidth.TallyStreams | src/RESTAPI/RESTAPI_mcp_helpers.h:702-777 | each client's totals are the capped exact sums over its streams, for any order of visiting them |
| Bandwidth.UsageItems | src/RESTAPI/RESTAPI_mcp_helpers.h:779-801 | the sorted list is the ranking of the clients with an unconflicted in-window sample |
| Bandwidth.ObservedWindow | src/RESTAPI/RESTAPI_mcp_helpers.h:808-824 | the tightest span around the counted segments of the kept clients |
| Bandwidth.CalculateBandwidthConsumptionSummary | src/RESTAPI/RESTAPI_mcp_helpers.h:632-831 | the calculator computes the summary of the set of observations |
| BandwidthSpec.OrderAndRepetitionIrrelevant | src/RESTAPI/RESTAPI_mcp_helpers.h:675-831 | record lists with the same set of records have one summary |
| BandwidthSpec.PermutationAndBoundaryIrrelevant | src/RESTAPI/RESTAPI_device_bandwidth_consumption_handler.cpp:93-106 | no permutation and no repeated boundary record changes the summary |
| BandwidthSpec.SumUsagePick | src/RESTAPI/RESTAPI_mcp_helpers.h:703-777 | a client's exact sum does not depend on which stream is taken first |
| BandwidthSpec.MonotoneStreamTelescopes | src/RESTAPI/RESTAPI_mcp_helpers.h:747-769 | a never-falling stream whose only out-of-window values are its first and/or last is charged last minus first |
| BandwidthSpec.BestClientsKept | src/RESTAPI/RESTAPI_mcp_helpers.h:795-806 | the list is the strictly ordered best min(500, n) of the n clients; every omitted client is outranked by all kept; totalClients is n; truncated iff n > 500 |
| BandwidthSpec.HeaviestClientsKept | src/RESTAPI/RESTAPI_mcp_helpers.h:795-806 | in plain terms: at most 500, by total descending and then address in dictionary order; every client left out is lighter than every one kept, or as heavy with a later address |
| BandwidthSpec.ListedIffSeenInside | src/RESTAPI/RESTAPI_mcp_helpers.h:727-745 | a client is listed iff it has an unconflicted reading at or after the start and before the end of the window |
| Orders.TextLessIff | src/RESTAPI/RESTAPI_mcp_helpers.h:798-801 | text comparison is dictionary order: a proper prefix, or the smaller character at the first difference |
| BandwidthSpec.ObservedWindowMeetsRequest | src/RESTAPI/RESTAPI_mcp_helpers.h:736-766 | an observed window has start < end and contains an instant of the requested window |
| BandwidthQuery.Assemble | src/RESTAPI/RESTAPI_device_bandwidth_consumption_handler.cpp:64-106 | the calculator is fed the window's rows plus at most one older and one newer time; a start boundary at the window's start adds nothing new |
| BandwidthQuery.UsageSummary | src/RESTAPI/RESTAPI_device_bandwidth_consumption_handler.cpp:64-109 | the answer is the summary of exactly the window's rows plus the boundary rows found |
| BandwidthQuery.InteriorPointsInWindow | src/RESTAPI/RESTAPI_device_bandwidth_consumption_handler.cpp:81-106 | in every stream of a query only the first and last values can lie outside the window |
| BandwidthQuery.QueryChargesLastMinusFirst | src/RESTAPI/RESTAPI_device_bandwidth_consumption_handler.cpp:81-108 | for a query, any never-falling stream with an in-window value is charged last minus first |
| BandwidthBoundaries.TrackCut | src/RESTAPI/RESTAPI_mcp_helpers.h:704-725 | cutting the rows to an interval of time cuts every settled track to it |
| BandwidthBoundaries.ChargesDiffer | analytics_apis_for_mcp.md:1459-1463 | with boundaries per stream a stream is charged what the handler charges plus exactly the steps into and out of the window that the router's boundary records cut off |
| BandwidthBoundaries.HandlerMeetsDesignIff | src/RESTAPI/RESTAPI_device_bandwidth_consumption_handler.cpp:81-106 | for the records fetched, no stream is charged more than the design asks, and as much iff the steps cut off are worth nothing |
| BandwidthBoundaries.GrowthIntoWindowMissed | src/RESTAPI/RESTAPI_device_bandwidth_consumption_handler.cpp:81-94 | a stream of two values, the first before the router's latest earlier record, is charged nothing for its growth into the window |
| BandwidthBoundaries.RowsMissGrowth | src/RESTAPI/RESTAPI_device_bandwidth_consumption_handler.cpp:64-108 | three stored rows the handler can be given, for which it charges a growing stream nothing and the design the whole rise |
| Calendar.YearStep | src/RESTAPI/RESTAPI_mcp_helpers.h:123-125 | the closed day count of POSIX grows by 366 exactly in the leap years of IsLeapYear |
| Calendar.MonthTableIsGregorian | src/RESTAPI/RESTAPI_mcp_helpers.h:127-135 | the month table agrees with the classical (153m+2)/5 formula |
| Calendar.GmtimeThenTimegm | src/RESTAPI/RESTAPI_mcp_helpers.h:251-258 | every instant has a valid date that gives the instant back |
| Calendar.TimegmThenGmtime | src/RESTAPI/RESTAPI_mcp_helpers.h:178-188 | every date from 1970 on that passes the field checks survives the round trip |
| Calendar.DatesBeforeEpoch | src/RESTAPI/RESTAPI_mcp_helpers.h:178-180 | a valid date is before the epoch iff its year is before 1970 |
| Calendar.FourDigitYears | src/RESTAPI/RESTAPI_mcp_helpers.h:251-258 | instants below 253402300800 are exactly those with four-digit years |
| Timestamps.DigitsAt | src/RESTAPI/RESTAPI_mcp_helpers.h:137-141 | true iff the text is long enough and the run is all digits |
| Timestamps.ToInt | src/RESTAPI/RESTAPI_mcp_helpers.h:143-148 | the decimal value of the run |
| Timestamps.ParseTimestampTill | src/RESTAPI/RESTAPI_mcp_helpers.h:150-191 | accepts exactly the UTC texts of real dates from 1970 on and returns their instant; the gmtime comparison never rejects |
| Timestamps.ParseRFC3339Timestamp | src/RESTAPI/RESTAPI_mcp_helpers.h:193-249 | agrees with ParseTimestampTill on 20 characters; with an offset, the UTC reading of the first 19 less the offset |
| Timestamps.PrintThenParse | src/RESTAPI/RESTAPI_mcp_helpers.h:150-258 | every instant below 253402300800 is read back from its print |
| Timestamps.ParseThenPrint | src/RESTAPI/RESTAPI_mcp_helpers.h:150-258 | every accepted text is the print of the instant it denotes |
| Timestamps.OffsetInstantRefused | src/RESTAPI/RESTAPI_mcp_helpers.h:241-248 | an instant after the epoch is refused iff its local date is before 1970 |
| Timestamps.HalfPastMidnightRefused | src/RESTAPI/RESTAPI_mcp_helpers.h:241-243 | an instance: 1969-12-31T23:30:00-01:00 is instant 1800 and is refused |
| MemorySummary.CalculateMemorySummary | src/RESTAPI/RESTAPI_mcp_helpers.h:399-465 | the loop computes minimum, maximum, observed times, newest value and rounded average of the usable records; the cap is never reached |
| MemorySummary.NewestMeaning | src/RESTAPI/RESTAPI_mcp_helpers.h:442-450 | no usable sample is newer than the one reported |
| MemorySummary.LatestIsGreatest | src/RESTAPI/RESTAPI_mcp_helpers.h:442-463 | latest belongs to a greatest (time, id, value) sample at the observed end; min <= latest, average <= max |
| MemorySummary.SummaryInPlainTerms | src/RESTAPI/RESTAPI_mcp_helpers.h:399-465 | the latest value is that of a usable record that no other is ahead of, by time, then id, then, without ids, value; the average is the nearest whole number to the mean, halves up |
| MemorySummary.SamplesAreUsable | src/RESTAPI/RESTAPI_mcp_helpers.h:412-416 | exactly the records count that have a free amount, not above the total if there is one |
| MemorySummary.AverageBetween | src/RESTAPI/RESTAPI_mcp_helpers.h:457-463 | the rounded average lies between minimum and maximum |
| MemorySummary.OrderIrrelevant | src/RESTAPI/RESTAPI_mcp_helpers.h:413-455 | unless the newest samples disagree, every order of the records gives one summary |
| MemorySummary.AmbiguityShape | src/RESTAPI/RESTAPI_mcp_helpers.h:442-447 | only samples with one time and one non-empty id can disagree |
| MemorySummary.AmbiguousDependsOnOrder | src/RESTAPI/RESTAPI_mcp_helpers.h:442-450 | if they do disagree, two orders give different summaries |
| Retention.ParseDecimalUint64 | src/RESTAPI/RESTAPI_mcp_helpers.h:108-121 | accepts exactly the non-empty digit texts whose value fits 64 bits, and returns the value |
| Retention.ValidateWindowQuery | src/RESTAPI/RESTAPI_mcp_helpers.h:264-331 | accepts iff the parameters denote a window, and returns it; which refusal is given first |
| Retention.ValidateRetention | src/RESTAPI/RESTAPI_mcp_helpers.h:333-356 | allowed iff the retention covers an hour and the lookback, the window starts within it and ends by the skewed clock; which refusal is given first |
| Retention.EffectiveBoardRetention | src/StorageService.cpp:16-23 | the largest venue retention |
| Retention.ExpiresIff | src/StorageService.cpp:16-29 | a row expires iff it is the board's, which has a retention, and is older than every retention of its venues |
| Retention.Storage.OnTimer | src/StorageService.cpp:64-120 | a run over a live board table removes exactly what its visits expire, failing reads and failing deletions included, and then the client history past the age limit |
| Retention.TooOldIff | src/StorageService.cpp:112-117 | history is too old iff older than the limit in days, or the limit reaches back before the epoch |
| Retention.VisitedIff | src/StorageService.cpp:68-110 | over any table, however it changes between batches, a board is visited iff the run gets to a batch at which it stands in the hundred taken |
| Retention.VisitedIffNeverCrosses | src/StorageService.cpp:68-110 | a board that stays while others are deleted is visited iff it never moves up past the beginning of the next batch |
| Retention.FixedTableVisits | src/StorageService.cpp:68-110 | so in a table that does not change every board is visited |
| Retention.FixedTableVisitsAll | src/StorageService.cpp:68-110 | and then each is visited once and in order |
| Retention.LiveTableSkipsBoard | src/StorageService.cpp:68-110 | if d boards go in front of another between two batches, the other, within d of the next batch, is not visited |
| Retention.LastOfAHundredAndOne | src/StorageService.cpp:68-110 | for example the last of 101 boards when another goes after the first batch |
| Retention.AcceptedQueriesLoseNothing | src/RESTAPI/RESTAPI_mcp_helpers.h:333-356 | no history of cleanups up to now, whatever boards they saw, removed a row that a query accepted now may ask for, if the retention was not raised since |
| Retention.ResolvedRetentionCovered | src/StorageService.cpp:16-23 | a resolved retention that is one of the board's is at most the one the cleanup goes by |
| Retention.CleanupSafeIff | src/StorageService.cpp:25-29 | a cleanup at the moment of the query is harmless to all accepted queries iff it skips the board, keeps all its rows, goes by at least their retention, or no query is accepted |
| Boards.BoardHandler.DoPost | src/RESTAPI/RESTAPI_board_handler.cpp:48-76 | when each answer is given; on Ok exactly the new row is stored, otherwise nothing changes; keeps one board per venue |
| Boards.BoardHandler.DoPut | src/RESTAPI/RESTAPI_board_handler.cpp:87-128 | when each answer is given; on Ok the row holds the new venue, or stays if the body has none, and no other row changes; otherwise nothing changes; keeps one board per venue |
| Boards.BoardHandler.DoDelete | src/RESTAPI/RESTAPI_board_handler.cpp:37-42 | the board table and the answer after a DELETE; keeps one board per venue |
| Boards.WrittenMeaning | src/RESTAPI/RESTAPI_board_handler.cpp:106-128 | what the second half of a PUT stores and answers: the body's venue, or the one read earlier, in this row alone and only if it is still there |
| Boards.WriteKeepsIff | src/RESTAPI/RESTAPI_board_handler.cpp:106-120 | a write keeps one board per venue iff it does not land on a row that is still there while another board has the venue read |
| Boards.RunsKeepOnePerVenueIff | src/RESTAPI/RESTAPI_board_handler.cpp:31-129 | in any run, with PUTs cut in two by other requests, one board per venue holds throughout iff no such write occurs |
| Boards.AtomicRunsKeepOnePerVenue | src/RESTAPI/RESTAPI_board_handler.cpp:31-129 | every table reachable from empty by atomic steps has at most one board per venue |
| Boards.OverlappingRunsKeepOnePerVenue | src/RESTAPI/RESTAPI_board_handler.cpp:87-128 | in particular it holds if no id is posted twice |
| Boards.ReusedIdBreaksOnePerVenue | src/RESTAPI/RESTAPI_board_handler.cpp:93-120 | for any two ids and venues, a run in which an id is posted twice and a venue ends up with two boards |
| Boards.ResolveBoardForVenue | src/RouterIdResolver.h:87-116 | unknown, conflict or the board according to how many records match |
| Boards.Resolve | src/RouterIdResolver.h:87-116 | with one board per venue the conflict answer is impossible and a board is found iff the venue has one, and it is that board |
| Registries.SymmetricDifferenceMeaning | src/VenueWatcher.cpp:87-90 | the merge gives, sorted, exactly the elements in one list and not the other |
| Registries.IntersectionMeaning | src/VenueWatcher.cpp:92-98 | the merge gives, sorted, exactly the common elements |
| Registries.ModifyDiff | src/VenueWatcher.cpp:87-98 | a modify removes exactly the departed serials and adds exactly the new ones |
| Registries.RegisterAllMeaning | src/StateReceiver.cpp:68-78 | registering a list of serials appends the watcher once under each and nowhere else |
| Registries.DeRegisterAllMeaning | src/StateReceiver.cpp:80-91 | deregistering removes its first entry under each and nothing else |
| Registries.StartKeeps | src/VenueWatcher.cpp:12-28 | starting a watcher keeps the registries consistent |
| Registries.ModifyKeeps | src/VenueWatcher.cpp:84-114 | modifying a watcher keeps the registries consistent |
| Registries.StopKeeps | src/VenueWatcher.cpp:30-40 | stopping a watcher leaves it in no registry and keeps the rest consistent |
| Registries.RunsStayConsistent | src/VenueWatcher.cpp:12-114 | after every sequence of starts, modifications and stops the three registries agree with the watchers' serial lists |
| Registries.EnrolledOnce | src/StateReceiver.cpp:68-91 | a live watcher is listed exactly once under each serial it owns and nowhere else; its other two entries are its serials |
| Watchers.SortUnique | src/VenueWatcher.h:37-39 | the serials, sorted, without duplicates |
| Watchers.StateReceiver.Register | src/StateReceiver.cpp:68-78 | the watcher is appended to the serial's list |
| Watchers.StateReceiver.DeRegister | src/StateReceiver.cpp:80-91 | the first entry of the watcher is removed from the serial's list |
| Watchers.StateReceiver.Publish | src/StateReceiver.cpp:43-48 | each listed watcher gets one copy per listing |
| Watchers.PerWatcherReceiver.Register | src/DeviceStatusReceiver.cpp:61-73 | the watcher's set is replaced by the given serials |
| Watchers.PerWatcherReceiver.DeRegister | src/HealthReceiver.cpp:74-77 | the watcher's entry is removed |
| Watchers.PerWatcherReceiver.Deliver | src/DeviceStatusReceiver.cpp:41-49 | at most one watcher is told, one that registered the device, and somebody is told iff somebody registered it |
| Watchers.VenueWatcher.constructor | src/VenueWatcher.h:34-40 | sorted duplicate-free serials, no APs, an empty queue |
| Watchers.VenueWatcher.Post | src/VenueWatcher.h:42-56 | the message is queued last |
| Watchers.VenueWatcher.Start | src/VenueWatcher.cpp:12-28 | fresh APs for exactly its serials; registries, serial lists and AP tables agree with this watcher live |
| Watchers.VenueWatcher.Stop | src/VenueWatcher.cpp:30-40 | they agree with this watcher gone |
| Watchers.VenueWatcher.ModifySerialNumbers | src/VenueWatcher.cpp:84-114 | they agree with the new serials; kept serials keep their AP object, new ones get a fresh one |
| Watchers.VenueWatcher.DispatchOne | src/VenueWatcher.cpp:45-81 | the head of the queue reaches its own AP and no other, or is dropped if the device is no longer watched; what is saved, against which base, and which event is offered |
| Watchers.PublishToOwners | src/StateReceiver.cpp:43-48 | when everything agrees, a state message reaches every owner exactly once and nobody else |
| Coordinator.NoAnswerAsksToRetire | src/sdks/SDK_prov.cpp:13-78 | no response makes the call for devices fail with the venue gone; a readable list is handed on as it is, a missing venue is a success without devices, and the only response the venue lookup takes for gone |
| Coordinator.VenueCoordinator.StopBoard | src/VenueCoordinator.cpp:144-152 | the board loses its watcher; all invariants stay |
| Coordinator.VenueCoordinator.RetireBoard | src/VenueCoordinator.cpp:85-93 | the board loses its watcher; of its row, points and events nothing is left, of every other board everything, and nothing is added |
| Coordinator.VenueCoordinator.RetireTwice | src/VenueCoordinator.cpp:85-93 | retiring twice is retiring once |
| Coordinator.VenueCoordinator.DeleteBoard | src/RESTAPI/RESTAPI_board_handler.cpp:31-46 | a DELETE stops the watcher and deletes exactly the row, the points and the events of this board, or finds nothing |
| Coordinator.VenueCoordinator.DeleteRows | src/VenueCoordinator.cpp:90-92 | the board row, the points and the events of the board are deleted |
| Coordinator.VenueCoordinator.GetDevicesForBoard | src/VenueCoordinator.cpp:95-116 | for any answer: sorted duplicate-free devices on success, a retirement on a failure that says the venue is gone, nothing otherwise |
| Coordinator.VenueCoordinator.StartBoard | src/VenueCoordinator.cpp:118-142 | for any answer: a fresh watcher whose serials are on record on success, one retirement on a failure that says the venue is gone, no change otherwise; what is reported |
| Coordinator.VenueCoordinator.UpdateBoard | src/VenueCoordinator.cpp:154-185 | for any answer: on success the record of the board, watched or not, and its watcher follow the new devices; a retirement on a failure that says the venue is gone; other records and watchers keep their serials |
| Coordinator.VenueCoordinator.UpdateFrom | src/VenueCoordinator.cpp:154-185 | for any response: never a retirement; a missing venue leaves the watcher and the record without devices |
| Coordinator.VenueCoordinator.VisitBoard | src/VenueCoordinator.cpp:70-80 | for any responses: a board not on record is started on success, with no devices if its venue is missing; one on record is never started again, and is retired iff the venue lookup says gone |
| Coordinator.VenueCoordinator.MissingVenueLastsTwoRounds | src/VenueCoordinator.cpp:59-93 | a venue missing from the first: one round starts a watcher without devices, the next retires the board, which stays on record |
| Coordinator.VenueCoordinator.Handle | src/VenueCoordinator.cpp:59-185 | of rounds and updates, exactly the rounds that meet a recorded board whose venue is gone take a watcher away and erase a board |
| Coordinator.VenueCoordinator.Drive | src/VenueCoordinator.cpp:59-190 | over any history, board rows stored and edited in between, no board id is given two watchers, and every live watcher's serials are the recorded, sorted, duplicate-free list |
| ResetLaw.DeltasAddUp | src/APStats.cpp:568-588 | deltas of a restarting counter are never negative and add up to last minus first plus what was lost at restarts |
| StatFunc.RelativeCounter.Set | src/StatFunc.h:32-48 | the rise since the last value, or the value itself after a fall; a first value is only remembered |
| StatFunc.Feed | src/StatFunc.h:12-50 | over a whole series, from the seed if there is one, the deltas add up to last minus first plus the value lost at each fall |
| ApStats.FindUe | src/APStats.cpp:139-151 | the first association of the station over all SSIDs |
| ApStats.ComputeDeltas | src/APStats.cpp:568-588 | each delta is the new value if the base does not have the station, or has it with some guarded counter higher than now, and otherwise the difference from the base's first association of the station |
| ApStats.DeltaOfIsRight | src/APStats.cpp:171-181 | the same of one association, in terms of the counters alone |
| ApStats.GuardedDeltaExact | src/APStats.cpp:571-588 | bytes, packets and tx_failed deltas are exact and never wrap |
| ApStats.StationDeltasAddUp | src/APStats.cpp:171-181 | over any run a station's deltas add up to last minus first plus the values held before each fall of a guarded counter |
| ApStats.SteadyDeltasAddUp | src/APStats.cpp:571-588 | for a station whose guarded counters never fall, to just last minus first |
| ApStats.UnguardedDeltas | src/APStats.cpp:578-587 | retries and airtime deltas are exact iff the counter did not fall, and wrap otherwise |
| ApStats.AP.UpdateStats | src/APStats.cpp:193-661 | the flag and base transition of a state message; what is persisted, against which base, and with which deltas |
| ApStats.AP.UpdateConnection | src/APStats.cpp:663-714 | the flag transition of a ping, capabilities or disconnection; which offline event is offered |
| ApStats.AP.UpdateHealth | src/APStats.cpp:716-726 | the health flag is set |
| ApStats.FlagsAreHistory | src/APStats.cpp:663-726 | in every run each flag says exactly which messages the open connected period has seen |
| ApStats.PersistedIff | src/APStats.cpp:509-660 | a state is persisted iff an earlier state, a ping or capabilities, and a health message came since the last disconnection |
| ApStats.BaseIsPreviousState | src/APStats.cpp:649-660 | the base is the immediately preceding state of the same period |
| ApStats.PersistingContinues | src/APStats.cpp:649-660 | once a state is persisted, so is every later one of the same period |
| ApStats.PeriodDeltasAddUp | src/APStats.cpp:509-660 | over any run of messages, the deltas stored for a station in one connected period add up to its last value minus the one in the first base plus the values held before each fall of a guarded counter; to the difference alone if none falls |
| ApStats.OfflineIff | src/APStats.cpp:89-103 | an offline event is offered for recording iff a dated disconnection follows a contact of the same period |
| ApStats.ContactBetweenOfflineEvents | src/APStats.cpp:685-691 | between two offered, hence between two recorded, offline events there is a state, ping or capabilities message |
| Availability.KeysCollideOnlyWhenEqual | src/APStats.cpp:80-87 | keys of colon-free serials are equal only for equal serial, kind and identifier |
| Availability.DeviceKeysCollideOnlyWhenEqual | src/APStats.cpp:80-87 | so keys of two devices' events are equal only for the same device, kind and identifier |
| Availability.KeyText | src/APStats.cpp:80-87 | the text of the key |
| Availability.DeviceAvailabilityEvents.CreateEventIfAbsent | src/storage/storage_device_availability_events.cpp:45-54 | the row is added iff its key is new and the insertion succeeds; what is reported |
| Availability.DeletionTakesOnlyItsOwn | src/storage/storage_device_availability_events.cpp:90-98 | a deletion for one board leaves every event of other boards, and its own from the cutoff on, as they are |
| Availability.DeviceAvailabilityEvents.Connection | src/APStats.cpp:89-125 | a connection message makes its transition and its offline event, if any, reaches the table |
| Availability.OfferedIff | src/APStats.cpp:89-103 | over all access points, an event is offered iff a dated disconnection follows a contact of that access point's open period |
| Availability.HeldWasRecorded | src/storage/storage_device_availability_events.cpp:45-54 | every row of the table stands under its own key, was added by some step, and was not deleted since |
| Availability.RecordedIsHeld | src/storage/storage_device_availability_events.cpp:45-98 | every row added and not deleted since is in the table |
| Availability.RecordedIffNew | src/APStats.cpp:104-125 | over every run of all access points and deletions, an offered event is recorded iff the insertion succeeds and none of the same device, kind and identifier is still on record |
| Availability.RecordedIffFirst | src/APStats.cpp:104-125 | with nothing deleted or failing, iff it is the first of its device, kind and identifier |
| Availability.OneRowPerEvent | src/storage/storage_device_availability_events.cpp:37-42 | the table never holds two rows for one event |
| Availability.RepeatedUuidIsDropped | src/storage/storage_device_availability_events.cpp:49-50 | after any history, a disconnection that repeats a uuid is offered and adds nothing |
| Hex.IntToSerialNumber | src/framework/utils.cpp:340-352 | the twelve low hex digits, lowercase |
| Hex.SerialTextParses | src/framework/utils.cpp:336-352 | below 2^48 the text parses back to the number |
| Hex.ParsedTextPrints | src/framework/utils.cpp:336-352 | twelve lowercase digits parse to the number that prints them |
| ClientIndex.StoullOfHex | src/WifiClientCache.cpp:55-63 | up to sixteen hex digits are parsed to their value |
| ClientIndex.StoullOfDigits | src/WifiClientCache.cpp:55-63 | hex digits are read as their number, or throw if it needs more than 64 bits |
| ClientIndex.StoullOfSigned | src/WifiClientCache.cpp:55-63 | a sign may come first; a minus negates in 64 bits |
| ClientIndex.Reverse | src/WifiClientCache.cpp:92-101 | the shifting loop reverses the twelve low nibbles of any 64-bit number |
| ClientIndex.MirrorInvolution | src/WifiClientCache.cpp:92-101 | reversal is an involution below 2^48 |
| ClientIndex.MirrorParses | src/WifiClientCache.h:33-37 | reversal agrees with parsing the reversed text |
| ClientIndex.WithMacMeaning | src/WifiClientCache.cpp:55-67 | adding a MAC keeps both lists strictly increasing and mirror images, and adds just that MAC |
| ClientIndex.AddKeepsIndexIff | src/WifiClientCache.cpp:55-67 | for any text: the lists stay in step iff it does not parse, or is known, or spells a 48-bit number and backwards its mirror image |
| ClientIndex.ShortTextAddsCleanlyIff | src/WifiClientCache.cpp:55-66 | fewer than twelve hex digits are added without a throw, and keep the lists in step iff they are zeros |
| ClientIndex.DeleteKeepsIndexIff | src/WifiClientCache.cpp:70-90 | for any text: deleting keeps the lists in step iff it does not parse, or is unknown, or spells backwards its mirror image |
| ClientIndex.MalformedStationBreaksIndex | src/WifiClientCache.cpp:55-66 | a text whose reversed parse throws leaves the first list changed and the second not |
| ClientIndex.WifiClientCache.AddSerialNumber | src/WifiClientCache.cpp:41-68 | the new cache for any text; still an index iff the text adds cleanly; for a MAC, contents grown by it |
| ClientIndex.WifiClientCache.DeleteSerialNumber | src/WifiClientCache.cpp:70-90 | the new cache for any text; still an index iff the text deletes cleanly; for a MAC, contents without it |
| ClientIndex.WifiClientCache.OnTimer | src/WifiClientCache.cpp:30-39 | the cache rebuilt from any rows, up to the first that throws; an index if the rows are MACs; unchanged if they cannot be read |
| ClientIndex.RebuildKeepsIndexesIff | src/WifiClientCache.cpp:30-39 | for any rows: all lists are in step throughout the rebuild iff every row met adds cleanly |
| ClientIndex.RebuildOfMacs | src/WifiClientCache.cpp:30-39 | from MACs it holds exactly the venues and MACs of the rows |
| ClientIndex.RebuildOrderIrrelevant | src/WifiClientCache.cpp:30-39 | a rebuild gives the same cache for any order or repetition of the rows |
| ClientIndex.ReachedFromMacs | src/WifiClientCache.cpp:30-90 | in every state reached by additions, deletions and rebuilds of MACs each venue's lists are strictly increasing, mirror images, and hold exactly the MACs of a plain set |
| ClientIndex.TextsKeepSound | src/WifiClientCache.cpp:46-90 | whatever texts are added or deleted, the lists stay sorted, so a search of them is defined |
| ClientIndex.PrefixBlock | src/WifiClientCache.cpp:115-118 | a MAC starts with a lowercase pattern iff it lies in the block the zero-padded pattern opens |
| ClientIndex.SuffixIsMirroredPrefix | src/WifiClientCache.cpp:121-128 | ending with a pattern is starting with its reversal in the mirror image |
| ClientIndex.ScanFindsAll | src/WifiClientCache.cpp:118-137 | in an index the run of matches from lower_bound is all the matches |
| ClientIndex.ReturnNumbers | src/WifiClientCache.cpp:103-140 | for any sorted list, text and count: twelve characters are looked up as a number, fewer give the run of matches from lower_bound cut to HowMany, more give nothing, each as is or mirrored; when it throws |
| ClientIndex.FullPatternAnyCase | src/WifiClientCache.cpp:108-113 | twelve hex digits in any case find exactly the MAC they spell |
| ClientIndex.OtherCharactersFindNothing | src/WifiClientCache.cpp:122-134 | a pattern with anything but lowercase hex digits is the prefix of no MAC |
| ClientIndex.FoundIsFilter | src/WifiClientCache.cpp:103-140 | of an index, lowercase hex patterns of 1 to 12 digits get the plain filter cut to HowMany |
| ClientIndex.SearchPrefix | src/WifiClientCache.cpp:172-174 | of an index, exactly the first HowMany MACs, in its order, that start with the pattern; of any sorted list, the run found |
| ClientIndex.SearchSuffix | src/WifiClientCache.cpp:166-171 | of a reversed index, exactly the first HowMany MACs, in its order, that end with the pattern; of any sorted list, the run found |
| ClientIndex.Slice | src/WifiClientCache.cpp:152-164 | the HowMany elements from the offset, or as many as there are, by position |
| ClientIndex.WifiClientCache.FindNumbers | src/WifiClientCache.cpp:142-175 | for any reachable cache, pattern and count: prefix search, suffix search, slice for the empty pattern, nothing for an unknown venue or a lone '*'; HowMany is cut to 32 bits; the plain filter when the lists are in step |
| TimeSlots.FindInterval | src/RESTAPI/RESTAPI_board_timepoint_handler.cpp:101-126 | the scan's running minimum, and the first and last times |
| TimeSlots.IntervalIsSmallestDistance | src/RESTAPI/RESTAPI_board_timepoint_handler.cpp:103-126 | for proper points the interval is the smallest distance between two points of one device |
| TimeSlots.LaySlots | src/RESTAPI/RESTAPI_board_timepoint_handler.cpp:142-153 | the slot loop ends; the slots are consecutive, of the interval's width, from the first time to past the last |
| TimeSlots.FillBuckets | src/RESTAPI/RESTAPI_board_timepoint_handler.cpp:155-164 | each bucket holds, in order, exactly the points of its slot |
| TimeSlots.RangeOfNamed | src/RESTAPI/RESTAPI_board_timepoint_handler.cpp:101-126 | among named devices the range runs from the first point in serial order to the last |
| TimeSlots.NewSort | src/RESTAPI/RESTAPI_board_timepoint_handler.cpp:84-165 | the whole split: the points in order of serial and time; for proper points an interval of zero iff no device has two, else the smallest distance within a device; the range from the earliest time of the least serial to the latest of the greatest; consecutive slots that stop as soon as the end is reached, each bucket the points of its slot |
| TimeSlots.SplitInPlainTerms | src/RESTAPI/RESTAPI_board_timepoint_handler.cpp:89-126 | order, interval and range of a split, without the comparator |
| TimeSlots.OnePointPerDevice | src/RESTAPI/RESTAPI_board_timepoint_handler.cpp:142-164 | no bucket holds two points of one device |
| TimeSlots.OnePointPerDeviceIff | src/RESTAPI/RESTAPI_board_timepoint_handler.cpp:142-164 | for any points, some bucket holds two of one device iff two of one device in the range are the same number of whole intervals after the first time |
| TimeSlots.SameTimeSameBucket | src/RESTAPI/RESTAPI_board_timepoint_handler.cpp:155-164 | points of one time share their bucket |
| TimeSlots.AtMostOneBucket | src/RESTAPI/RESTAPI_board_timepoint_handler.cpp:142-164 | no point is in two buckets |
| TimeSlots.BucketedIffInRange | src/RESTAPI/RESTAPI_board_timepoint_handler.cpp:142-164 | a point is in a bucket iff its time lies between the first slot's start and the last slot's end |
| TimeSlots.OneDeviceLosesNothing | src/RESTAPI/RESTAPI_board_timepoint_handler.cpp:99-164 | with one device every point is in a bucket |

## Left out

- Kafka, HTTP, timers, threads, logging, authentication and SQL text: I/O; tables are sets and maps with the evident select and delete meaning, what the provisioning service answers and what the clock reads are parameters.
- Deadlock freedom and interleavings inside a locked method: each locked method is one step (PUT, which takes no lock over its read and write, is also modelled as two).
- The reconcile loop over all watchers: its body is `UpdateBoard`.
- JSON extraction of state messages, radio and AP-level rates, percentages and averages: unguarded differences and floating point, nothing decided by them.
- RSSI and radio temperature summaries: counting loops of the same shape as the memory summary, with easier results.
- Text rendering of byte counts, and of the windows inside summaries: summaries carry the instants, whose rendering is `Timestamps.FormatTimestamp`.
- CIDR parsing, configuration schemas and object serialisation: tables and field lists.
- Timestamps.ParseTimestampTill: `timegm` of a year before 1970, which POSIX leaves undefined, is taken as the proleptic Gregorian count.
- Timestamps.PrintThenParse: instants from the year 10000 on, whose text does not fit the service's buffer.
- Bandwidth.TallyStreams: streams are visited in an arbitrary order instead of the map's, which is one such order.
- MemorySummary.CalculateMemorySummary: rounding of the long double sum; the sum and quotient are exact.
- TimeSlots.NewSort: points whose row serial differs from the serial in their device info, or with times of 2^63 seconds and more, neither of which is ever stored; on such input the slot arithmetic can wrap around.
- Retention.Storage.OnTimer: the table sizes met by one run are taken to be bounded.
- BandwidthBoundaries.HandlerMeetsDesignIff: a second row at the very time of a boundary row, of which the query returns either.
- Boards.BoardHandler.DoPost: handing the board to the coordinator, whose next round re-reads the table anyway; a POST or PUT without an id in its path.
- Boards.BoardHandler.DoPut: the coordinator's update that follows, which is `Coordinator.VenueCoordinator.UpdateBoard`.
- Boards.BoardHandler.DoDelete: the watcher, points and events, which are `Coordinator.VenueCoordinator.DeleteBoard`.
- Watchers.VenueWatcher.ModifySerialNumbers: unsorted serial lists, on which the standard library's set algorithms are undefined; the coordinator passes sorted ones.
- TimeSlots.LaySlots: widths and times whose sum exceeds 2^64, where slot ends wrap around.
- Coordinator.VenueCoordinator.UpdateBoard: a board row without a venue, which the source would index out of bounds and which no handler creates.
- ApStats.AP.UpdateConnection: contact counters, last-contact times and device descriptions.
- ApStats.AP.UpdateStats: contact counters, last-seen times and device descriptions, and the client history rows written on the way.
- Watchers.PerWatcherReceiver.Deliver: which of several registered watchers is told; the source's choice depends on pointer values.
