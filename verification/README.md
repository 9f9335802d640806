# Verified model of the sysctl telemetry server

The server reads macOS kernel metrics, keeps some of them fresh in a background cache, and streams changes to
subscribers. This project models that logic in Dafny and proves what it promises: how old an answer can be, how
often the kernel is asked, what a subscriber holds, when the two metric registries agree, that shutdown is clean,
and that the keys derived from MIB arrays identify them.

The kernel is an oracle. A live read of a name at an instant has an outcome, value or error, that nothing else
depends on; name resolution is deterministic. Every theorem is for all oracles, all registries and all runs.

## How it is organised

| file | part of the system |
|---|---|
| `Base.dfy` | options, results, int32/int64 wrap-around |
| `Metrics.dfy` | the Known registry: lookup index, categories |
| `KernelRegistry.dfy` | access patterns: validation, merge with Known, fastest subscription interval |
| `Generator.dfy` | classification rules and the generated registry text |
| `Decode.dfy`, `LiveRead.dfy` | little-endian decoders; one live read, by table and branch by branch |
| `MibCache.dfy` | name-to-MIB cache, alone and under concurrent calls |
| `MibKeys.dfy`, `MibAnalysis.dfy` | printed and packed MIB keys; the collision analysis |
| `Poller.dfy`, `PollerRuns.dfy` | metric store, schedule and tick; whole runs of them |
| `ServerSystem.dfy` | poller goroutine, stop and one GetMetrics call, interleaved |
| `Subscribe.dfy` | the delta stream and the client that folds it |
| `Pipeline.dfy` | startup end to end, from generator to answers |

Objects that the source updates in place are classes (`MetricStore`, `TtlPoller`, `Cache`) whose methods are proved
against functions; loops are methods with invariants; the theorems are about those functions. The poller's state
in a specification is its schedule together with the instant at which each stored value was read, so "the store
agrees with a live read" is an invariant (`Valid`) and staleness is a statement about instants. A tick is visible
to readers when its batch is published; its kernel reads happen at arbitrary instants between its time stamp and
that publication. A tick with nothing due counts as a pass that publishes nothing. In `MibKeys.dfy` the word
operations `|` and `<<` are written out on natural numbers, the shift with its 64-bit truncation.

Where the repository's own texts and its code differ, the model follows the code:

- The 100ms "absolute floor" of the subscription interval is an upper bound; `HundredMsIsNotAFloor` says when it
  is also a lower one. The interval is not clamped to a TTL, as `DELTA_DESIGN.md` has it, but rejected when faster.
- A DISABLED metric is not refused but read live on every request, like DYNAMIC and unspecified ones.
- The comment above the packing call describes lanes of 8, 16, 16, 16 and 8 bits; the code packs four lanes of 16
  bits and rejects deeper MIBs.
- `CACHE_DESIGN.md` says no layer refreshes more often than its source. The generator breaks that for the boot
  flags among the miscellaneous kernel metrics (for instance `kern.hv_support`) and nowhere else:
  `ChainHoldsOutsideBootFlags`.
- The number printed as "flattenable" counts distinct keys, not results; `AnalyzeFlattenability` relates the two.
- The poll-rate bound is on gathers by ticks; construction reads every scheduled metric once more, and the first
  tick gathers it again at once.

## Model

| member | source | states |
|---|---|---|
| Metrics.ByNameIsLast | internal/metrics/registry.go:453-461 | a lookup answers the last Known entry of the name, or nothing exactly when there is none |
| Metrics.ByNameOfDistinct | internal/metrics/registry.go:453-461 | with distinct names every entry is found under its own name |
| Metrics.IndexByName | internal/metrics/registry.go:453-461 | the index built by the loop answers every name as the lookup does |
| Metrics.ByCategory | internal/metrics/registry.go:464-472 | the loop returns the entries of the category, in order |
| Metrics.Categories | internal/metrics/registry.go:475-485 | every occurring category is listed once, ordered by first occurrence |
| Metrics.CategoryPartition | internal/metrics/registry.go:464-485 | the members of the listed categories, concatenated, are a permutation of Known that keeps the order inside each category |
| Metrics.ListCategories | internal/server/server.go:152-163 | each listed category carries its own size (as an int32), and the counts add up to the size of Known |
| KernelRegistry.KernelRegistryByName | internal/metrics/kernelregistry.go:88-94 | the loop builds the index in which a later entry shadows an earlier one |
| KernelRegistry.KernelIndexIsLast | internal/metrics/kernelregistry.go:88-94 | the index holds exactly the registered names, each with its last entry |
| KernelRegistry.IndexKernel | internal/metrics/kernelregistry.go:43-50 | the first pass reports, in registry order, one duplicate for each occurrence of a name seen before, and leaves the index |
| KernelRegistry.DuplicatesAreExcess | internal/metrics/kernelregistry.go:43-50 | there are as many duplicate issues as registry entries beyond the distinct names |
| KernelRegistry.DuplicatesOfName | internal/metrics/kernelregistry.go:43-50 | a name that occurs m times is reported m - 1 times |
| KernelRegistry.DuplicatesAreInOrder | internal/metrics/kernelregistry.go:43-50 | duplicates come in registry order: a longer registry only adds to the reports of a shorter one |
| KernelRegistry.CheckKnown | internal/metrics/kernelregistry.go:52-77 | the deleting pass reports exactly each Known entry's own issues, in Known order and once per occurrence, and leaves exactly the undeleted entries |
| KernelRegistry.KnownIssuesAreInOrder | internal/metrics/kernelregistry.go:52-77 | a longer Known list only adds to the issues of a shorter one |
| KernelRegistry.IssuesOfEntry | internal/metrics/kernelregistry.go:53-76 | what one more Known entry adds, case by case: missing or already deleted, or its absent configs and TTL in a fixed order |
| KernelRegistry.ReportLeftover | internal/metrics/kernelregistry.go:79-82 | each leftover name is reported once and nothing else is, whatever the map order |
| KernelRegistry.ValidateRegistry | internal/metrics/kernelregistry.go:40-85 | duplicates, then the issues of Known, both in order, then each leftover name once; together they are exactly the justified issues, and there are none exactly for consistent registries |
| KernelRegistry.NoIssueMeansConsistent | internal/metrics/kernelregistry.go:38-85 | no issue is justified iff both name lists are distinct, their sets agree, all configs are present and every polled entry has a TTL |
| KernelRegistry.BuildFullRegistry | internal/server/server.go:73-110 | one merged record a Known entry in Known order, access configs from the kernel registry or the DYNAMIC default |
| KernelRegistry.IdentityIsKnown | internal/server/server.go:89-95 | name, description, type and category of a merged record are those of Known |
| KernelRegistry.RegisteredTakesLast | internal/server/server.go:97-100 | a registered metric takes both access configs and the notes of the last registry entry of its name |
| KernelRegistry.MissingIsDynamic | internal/server/server.go:86-104 | a metric that the kernel registry does not hold is DYNAMIC on both sides, without a TTL |
| KernelRegistry.MinSubscribeInterval | internal/server/server.go:174-190 | the result is the least positive TTL if that is below 100ms and 100ms otherwise |
| KernelRegistry.IntervalCoversEveryTtl | internal/server/server.go:179-188 | every recommended TTL counts whatever its pattern, and nothing else does |
| KernelRegistry.NanosOfDuration | internal/server/server.go:184 | a duration in range is its seconds times 10^9 plus its nanoseconds; beyond int64 it wraps |
| KernelRegistry.HundredMsIsNotAFloor | internal/server/server.go:175-188 | the interval is at least 100ms iff no TTL lies strictly between 0 and 100ms |
| KernelRegistry.FiveNanosecondInterval | internal/server/server.go:175-188 | a registry whose one TTL is five nanoseconds has that as its interval, far below the commented floor |
| Decode.LeastByteFirst | internal/macosasmsysctl/mibcache.go:99-120 | the first byte of a word is the least significant one, with the four places spelled out |
| Decode.EncodeDecode | internal/macosasmsysctl/mibcache.go:99-120 | encoding undoes little-endian decoding at every width |
| Decode.DecodeEncode | internal/macosasmsysctl/mibcache.go:99-120 | decoding undoes encoding for every value that fits |
| Decode.RawChangeIsDecodedChange | internal/macosasmsysctl/mibcache.go:99-147 | for every fixed-width type but load averages, two raw strings are equal iff the decoded values are, flags and spare word included |
| Decode.ClockFields | internal/macosasmsysctl/mibcache.go:190-205 | each clock field agrees iff its own four bytes do |
| Decode.SwapFields | internal/macosasmsysctl/mibcache.go:173-187 | each swap field agrees iff its own eight bytes do |
| Decode.LoadavgChange | internal/macosasmsysctl/mibcache.go:150-170 | load averages decode alike, as exact quotients, iff each word times the other reading's scale agrees, a zero scale counting as 2048; padding never matters |
| LiveRead.ReadMetricLive | internal/server/server.go:279-416 | the type dispatch, branch by branch, answers what the table of sources, widths and decoders says, errors included |
| LiveRead.NumberAnswers | internal/server/server.go:311-341 | an unsigned or two's complement word under the metric's own name is answered as that number |
| LiveRead.TimevalAnswers | internal/server/server.go:343-356 | sixteen bytes of seconds and microseconds are answered as those two numbers, in that order |
| LiveRead.SwapAnswers | internal/server/server.go:373-386 | the four words of vm.swapusage are answered as total, available and used; the flags are dropped |
| LiveRead.ClockAnswers | internal/server/server.go:388-402 | the five words of kern.clockrate are answered as hz, tick, profhz and stathz; the spare word is dropped |
| LiveRead.LoadAnswers | internal/server/server.go:358-371 | the three words of vm.loadavg are answered in their own fields as the nearest hundredths of word / scale, a zero scale counting as 2048 |
| LiveRead.BytesAnswer | internal/server/server.go:287-310 | strings lose one trailing NUL, raw metrics and unknown names are answered as they are |
| LiveRead.FailureAnswers | internal/server/server.go:287-416 | per type: which sysctl is read, that its failure is answered, and the one length that is accepted |
| LiveRead.OtherAnswers | internal/server/server.go:279-302 | aggregates answer what they evaluate to, unsupported types their own text, and the category is that of Known |
| LiveRead.ResponseChange | internal/server/server.go:311-402 | responses for a fixed-width type other than the load averages are equal iff all raw bytes are, but for the swap flags and the clock's spare word |
| LiveRead.StringResponseChange | internal/macosasmsysctl/mibcache.go:87-96 | string responses are equal iff the raw bytes are, or differ by one trailing NUL |
| LiveRead.HundredthsArePrinted | internal/server/server.go:364-371 | printing word / scale to two decimals is one integer division of the word by its scale, rounded to the nearest and then to the even hundredth |
| LiveRead.HalfwayLoads | internal/server/server.go:364-371 | 0.125 prints as 0.12 and 0.375 as 0.38 |
| LiveRead.LoadResponseChange | internal/server/server.go:358-371 | load averages answer alike iff all three words print the same hundredths under their scales; equal loads always do |
| LiveRead.SmallLoadsPrintAlike | internal/server/server.go:364-371 | the converse fails: loads of 1/2048 and 2/2048 decode differently and both answer zero |
| LiveRead.FloatRoundingIsInvisible | internal/server/server.go:364-371 | any float within a relative error of 2^-51 of the load prints as the exact load does, unless that lies halfway between two hundredths |
| LiveRead.OutcomeChange | internal/server/server.go:279-402 | two live reads of any sysctl-backed metric answer alike iff their readings look alike: the same failure, the same wrong length, loads that agree to two decimals, the same visible or raw bytes, the same string up to a trailing NUL |
| MibCache.Cache.Resolve | internal/macosasmsysctl/mibcache.go:24-41 | the answer is the kernel's, success or failure, and only a success is remembered |
| MibCache.Cache.Warm | internal/macosasmsysctl/mibcache.go:46-54 | the count is the number of resolvable positions, and exactly the resolvable names are added |
| MibCache.CountIsOfPositions | internal/macosasmsysctl/mibcache.go:46-54 | the count is the number of positions whose name resolves |
| MibCache.Cache.GetRaw | internal/macosasmsysctl/mibcache.go:78-84 | a failed resolution is answered as it is, otherwise the read of the resolved MIB: what resolve-then-read without a cache would answer |
| MibCache.SoloCall | internal/macosasmsysctl/mibcache.go:24-41 | the steps of one call: a hit answers the entry, a miss asks the kernel, and only a MIB is remembered |
| MibCache.EntriesAreStable | internal/macosasmsysctl/mibcache.go:24-41 | in every interleaving of calls, even if single kernel calls fail, entries agree with resolution and are never dropped or changed |
| MibCache.CallsAgreeWithKernel | internal/macosasmsysctl/mibcache.go:24-41 | in every interleaving without such failures each finished call answers what resolution answers |
| MibCache.CachedNamesNeverFail | internal/macosasmsysctl/mibcache.go:24-30 | a call that starts after its name was cached cannot fail, even when the kernel would |
| MibKeys.FormatMib | cmd/darwin-name2int/main.go:298-307 | the loop prints the decimal levels joined by commas in braces, and the empty MIB as the empty string |
| MibKeys.PrintedOne | cmd/darwin-name2int/main.go:298-307 | the empty MIB prints as nothing, a single level as its decimal digits in braces |
| MibKeys.PrintedMore | cmd/darwin-name2int/main.go:298-307 | a further level is appended inside the braces after a comma |
| MibKeys.DecimalDigits | cmd/darwin-name2int/main.go:304 | each decimal digit is the right one of 0 to 9 |
| MibKeys.ParsePrinted | cmd/darwin-name2int/main.go:298-307 | a parser recovers every uint32 sequence from its printed form |
| MibKeys.PrintedIsInjective | cmd/darwin-name2int/main.go:298-307 | two MIBs print alike iff they are equal |
| MibKeys.OrIsBitwise | cmd/darwin-name2int/main.go:525 | a bit of the or is set iff it is set in one of the operands |
| MibKeys.OrIsSum | cmd/darwin-name2int/main.go:523-525 | where no bits overlap the bitwise or is the sum |
| MibKeys.PackLane | cmd/darwin-name2int/main.go:523-525 | one or-and-shift of the loop adds one 16-bit lane without truncation |
| MibKeys.FlattenMib | cmd/darwin-name2int/main.go:513-527 | a MIB is accepted iff it has at most four levels and none above 65535, and its key is the sum of its levels at 2^48, 2^32, 2^16 and 1 |
| MibKeys.LanesRecoverLevels | cmd/darwin-name2int/main.go:513-527 | 16-bit extraction recovers every level |
| MibKeys.PackedOrder | cmd/darwin-name2int/main.go:513-527 | keys are equal iff the MIBs agree after zero-padding, and order as the padded MIBs do lexicographically |
| MibKeys.ZeroExtensionCollides | cmd/darwin-name2int/main.go:513-527 | a MIB and its extension by a zero level share a key |
| MibAnalysis.AnalyzeFlattenability | cmd/darwin-name2int/main.go:408-509 | no MIB collision iff no two resolved results have one MIB; no flat collision iff the distinct keys are as many as the packable results iff no two of them agree on all padded levels; the unflattenable ones are counted, and with the buckets account for every resolved non-empty result; ranges are exact |
| MibAnalysis.SelectKeeps | cmd/darwin-name2int/main.go:416-419 | a selection of rows keeps each row that qualifies as often as it occurs and no other |
| MibAnalysis.SelectInOrder | cmd/darwin-name2int/main.go:416-419 | and keeps their order |
| MibAnalysis.GroupHolds | cmd/darwin-name2int/main.go:420-421 | a bucket holds the names of its key in table order |
| MibAnalysis.CollidingIsShared | cmd/darwin-name2int/main.go:423-429 | a key collides iff at least two rows have it |
| MibAnalysis.CountCollisions | cmd/darwin-name2int/main.go:423-429 | the count is the number of keys with more than one name |
| MibAnalysis.GroupShape | cmd/darwin-name2int/main.go:415-429 | buckets exist for exactly the keys seen; all are singletons iff the keys are distinct iff there are as many buckets as items |
| MibAnalysis.TotalOfGroup | cmd/darwin-name2int/main.go:437-448 | bucket sizes add up to the number of items |
| MibAnalysis.PrintedCollisions | cmd/darwin-name2int/main.go:415-432 | printed keys collide iff two MIBs are the same sequence |
| MibAnalysis.PackedCollisions | cmd/darwin-name2int/main.go:436-458 | packed keys collide iff two padded MIBs agree |
| MibAnalysis.RangeOfIsExact | cmd/darwin-name2int/main.go:470-487 | a range bounds every second level under its top level, attains both ends and counts right |
| Poller.MetricStore.PutBatch | internal/server/poller.go:44-50 | the whole batch overwrites, whatever the map order, and the rest is kept |
| Poller.TtlPoller.constructor | internal/server/poller.go:67-122 | schedule and store after construction; every stored value is a live read at its recorded instant |
| Poller.TtlPoller.GatherDue | internal/server/poller.go:151-162 | the gathering half of a tick reads the due entries, reschedules exactly them and leaves the store alone |
| Poller.TtlPoller.Tick | internal/server/poller.go:151-167 | schedule and store after a tick; stored values stay live reads at recorded instants |
| Poller.Server.ReadMetric | internal/server/server.go:269-276 | the stored value if there is one, otherwise a live read now; always live without a poller |
| Poller.Server.GetMetrics | internal/server/server.go:112-120 | one answer a requested name, in request order |
| PollerRuns.Drive | internal/server/poller.go:67-167 | the poller object, built and ticked through any whole run, ends valid in the state that the specification gives the run |
| PollerRuns.ScheduleIsPerEntry | internal/server/poller.go:155-162 | schedule entries evolve independently and keep name and TTL |
| PollerRuns.NextIsLastPlusTtl | internal/server/poller.go:157-160 | the next gather is always due one TTL after the last |
| PollerRuns.FreshAfterTick | internal/server/poller.go:151-162 | after a tick at t each entry was last gathered at a stamp s with s <= t < s + ttl |
| PollerRuns.GathersAreSpaced | internal/server/poller.go:155-162 | gathers of an entry are at least a TTL apart whatever the tick times |
| PollerRuns.GathersAreFrequent | internal/server/poller.go:155-162 | with ticks at most a gap apart, consecutive gathers are less than ttl + gap apart |
| PollerRuns.PollRateBound | internal/server/poller.go:155-162 | a window of length w holds at most floor(w / ttl) + 1 gathers of an entry |
| PollerRuns.PollRateFloor | internal/server/poller.go:155-162 | with ticks at most a gap apart, a window of w + 1 instants inside the run holds at least floor((w + 1) / (ttl + gap - 1)) gathers of an entry |
| PollerRuns.CountWithinCounts | internal/server/poller.go:155-162 | the count of the two bounds is the number of stamps in the window |
| PollerRuns.NamePollRate | internal/server/poller.go:151-162 | with distinct names the ticks read a repeating metric at most floor(w / ttl) + 1 times in a window of length w, over all its schedule entries |
| PollerRuns.UnscheduledIsNotPolled | internal/server/poller.go:151-162 | no tick reads a name that is not scheduled |
| PollerRuns.DueEarlyExactlyOnOverflow | internal/server/poller.go:157-160 | an entry is due again before its TTL is over iff the int64 sum overflowed |
| PollerRuns.BuiltShape | internal/server/poller.go:85-118 | construction stores exactly the STATIC, POLLED and CONSTRAINED names and schedules exactly the last two, due at once |
| PollerRuns.ScheduleIsExact | internal/server/poller.go:91-117 | an entry stands in the schedule as often as registry entries of its name and TTL repeat |
| PollerRuns.ScheduleSize | internal/server/poller.go:91-117 | the schedule is as long as there are POLLED and CONSTRAINED entries |
| PollerRuns.ScheduleInOrder | internal/server/poller.go:91-117 | and stands in registry order |
| PollerRuns.ScheduleNamesStayDistinct | internal/server/poller.go:102-162 | with distinct registry names no name is scheduled twice, at the start and after every tick |
| PollerRuns.ScheduleComesFromRegistry | internal/server/poller.go:98-106 | every scheduled TTL is that of a polled registry entry of the name, ten seconds by default |
| PollerRuns.OwnTtlIsScheduled | internal/server/poller.go:98-106 | with distinct names every polled or constrained entry is scheduled with its own TTL |
| PollerRuns.StoreShape | internal/server/poller.go:85-167 | the stored names never change after construction |
| PollerRuns.StaticIsFrozen | internal/server/poller.go:92-96 | a stored name that nothing schedules keeps its startup outcome for ever |
| PollerRuns.ScheduledIsNotFrozen | internal/server/poller.go:98-116 | conversely, a scheduled name is overwritten in some run |
| PollerRuns.ReadingsOnlyAdvance | internal/server/poller.go:151-167 | a stored reading is only ever replaced by one taken later |
| PollerRuns.ReadingAfterStamp | internal/server/poller.go:151-167 | what is stored for a scheduled name was read no earlier than its last gather |
| PollerRuns.BoundedStaleness | internal/server/server.go:269-276 | after the first tick, readMetric answers a scheduled name with a live read less than ttl + gap old |
| PollerRuns.StalenessBoundIsTight | internal/server/server.go:269-276 | for every positive gap and every positive TTL up to half the int64 range some run serves a reading that is ttl + gap - 1 old, so the bound cannot be lowered |
| PollerRuns.UnscheduledReads | internal/server/server.go:269-276 | unstored names are read live, frozen ones answer their startup reading |
| ServerSystem.ExecKeeps | internal/server/poller.go:125-149 | every interleaving of poller, stop and GetMetrics keeps the invariant on channels, clock, answers and order |
| ServerSystem.TickIsRecorded | internal/server/poller.go:145-167 | a tick enters the run stamped with the instant it fired and changes nothing but the run and the clock |
| ServerSystem.ShutdownSafety | internal/server/poller.go:125-149 | doneCh is closed at most once, stop has returned only if the loop has exited, and nothing is published after that |
| ServerSystem.StopTwiceIsFatal | internal/server/poller.go:130-133 | the first stop closes the channel and waits; a second one panics, after which nothing happens |
| ServerSystem.StopNeedsStart | internal/server/poller.go:125-133 | stopping a poller that was never started waits for ever |
| ServerSystem.StopCanReturn | internal/server/poller.go:130-149 | from every reachable state with a waiting stop there are steps that let it return |
| ServerSystem.TicksAfterStopCall | internal/server/poller.go:141-148 | any number of ticks may still be published between the call of stop and its return |
| ServerSystem.StoppedServerRepeatsItself | internal/server/poller.go:128-149 | once stop has returned, a stored name answers one and the same reading at every later instant in every continuation |
| ServerSystem.AnswersNeverGoBack | internal/server/server.go:112-120 | store versions behind the answers of one call never decrease, each answer is a live read of its version, and a repeated name is never answered with an older reading |
| ServerSystem.AnswersAreFresh | internal/server/server.go:112-120 | the staleness bound holds for every answer in every interleaving |
| Subscribe.EveryNameIsSorted | internal/server/server.go:206-220 | each requested name is rejected or accepted, never both |
| Subscribe.RejectionTexts | internal/server/server.go:209-219 | a name is rejected as unknown iff Known has no entry of it, as computed iff its last entry is computed, each with its exact text, and accepted otherwise |
| Subscribe.NamesAreJudgedInOrder | internal/server/server.go:208-220 | rejections and acceptances of a list are those of its parts, one after the other |
| Subscribe.AcceptedAreReadable | internal/server/server.go:209-219 | the accepted names are the requested ones that are known and not computed |
| Subscribe.ValidateNames | internal/server/server.go:206-220 | the loop lists rejections with their messages and accepted names, both in request order |
| Subscribe.ReadsInOrder | internal/server/server.go:229-243 | each position of a round leaves, behind those of the earlier ones, either its value or its name with its error text |
| Subscribe.Round | internal/server/server.go:229-244 | one round sends and remembers exactly the successful reads that differ from what is remembered, and collects failures in the first round only |
| Subscribe.Stream | internal/server/server.go:225-264 | every response carries its round's changes, and only the first one errors: rejections, then failed reads |
| Subscribe.Subscribe | internal/server/server.go:195-265 | an interval is rejected iff it is positive and below the minimum; requested names equal errors plus deltas plus matches in the first response |
| Subscribe.RoundsAreTransmission | internal/server/server.go:225-244 | rounds continue from what the server remembers, as one transmission of all reads |
| Subscribe.StreamIsTransmission | internal/server/server.go:228-255 | after any number of responses the deltas are the reads that changed what is held |
| Subscribe.ClientTracksServer | internal/server/server.go:240-243 | a client folding the deltas holds what the server remembers |
| Subscribe.DeltasRefineSnapshots | internal/server/server.go:228-255 | that is each name's last successful read, as if every read were sent in full |
| Subscribe.SubscriberHoldsLastReads | internal/server/server.go:228-255 | the same for the responses of a stream after any number of rounds, with read failures and repeated names |
| Subscribe.SentIsDestuttered | internal/server/server.go:240-243 | per name the values sent are its successful reads without repetitions, starting from empty |
| Subscribe.NoRedundantDelta | internal/server/server.go:240-243 | no delta repeats what the client holds when it arrives |
| Subscribe.DestutterIsShortest | internal/server/server.go:192-193 | for one name, no stream that keeps the client exact after every read has fewer updates |
| Subscribe.StreamIsShortest | internal/server/server.go:192-255 | over all names and rounds, no stream of deltas that leaves the client exact for each name right after it is read is shorter than what the responses carry |
| Subscribe.OwnUpdatesAreExact | internal/server/server.go:225-244 | the bound is attained: the deltas sent are such a stream |
| Subscribe.ByteComparisonIsTyped | internal/server/server.go:240-243 | for a fixed-width type but the load averages, comparing bytes finds exactly the changes of the decoded value |
| Subscribe.OpeningIsTyped | internal/server/server.go:225-244 | from the empty opening on, the values sent decode to the first value and then every change of the decoded value |
| Subscribe.SubscriberSeesTypedChanges | internal/server/server.go:228-255 | so do the deltas of one such metric in the responses of a whole stream, read failures and repeated names included |
| Generator.RecommendedClasses | internal/metrics/darwin/generate_textproto.go:166-326 | the whole condition, over categories and names, for each of STATIC, CONSTRAINED, POLLED at 10, 30 and 60 seconds, and DYNAMIC |
| Generator.KernelClasses | internal/metrics/darwin/generate_textproto.go:101-158 | the whole condition for each of STATIC, CONSTRAINED and DYNAMIC on the kernel side |
| Generator.ListedNames | internal/metrics/darwin/generate_textproto.go:18-95 | the names behind those conditions, one by one |
| Generator.HardwareCategories | internal/metrics/darwin/generate_textproto.go:103-107 | the hardware categories, one by one |
| Generator.OnlyForeignCategoriesAreDynamic | internal/metrics/darwin/generate_textproto.go:166-326 | only a metric of a category outside the built-in ones is recommended DYNAMIC |
| Generator.ChainHoldsOutsideBootFlags | internal/metrics/darwin/generate_textproto.go:101-326 | the recommended pattern is no more frequent than the kernel's iff the metric is not a boot flag of kern.misc |
| Generator.HvSupportBreaksTheChain | internal/metrics/darwin/generate_textproto.go:141-326 | kern.hv_support is recommended more often than its kernel pattern allows |
| Generator.TunablesAreConstrained | internal/metrics/darwin/generate_textproto.go:101-211 | a writable tunable is CONSTRAINED at 60 seconds iff it is not hardware, and CONSTRAINED for the kernel iff moreover it is no time metric |
| Generator.ClassificationIsConfigured | internal/metrics/darwin/generate_textproto.go:166-326 | a TTL is given exactly to polled and constrained metrics: 10, 30 or 60 seconds, and 60 when constrained |
| Generator.Generate | internal/metrics/darwin/generate_textproto.go:342-369 | the text written holds exactly the classified record of every Known entry, in Known order |
| Generator.GeneratedFields | internal/metrics/darwin/generate_textproto.go:352-368 | a record holds a name and the two access configs, and nothing else |
| Generator.WriteText | internal/metrics/darwin/generate_textproto.go:342-369 | a header precedes a record iff its category differs from the record before, and the text holds one record a Known entry in Known order |
| Generator.HeadersMarkChanges | internal/metrics/darwin/generate_textproto.go:342-350 | the lines that come before each record, case by case |
| Pipeline.GeneratedIsConsistent | internal/metrics/darwin/generate_textproto.go:343-369 | the generated records pass validation iff no Known name occurs twice |
| Pipeline.MergedIsOwnClassification | internal/server/server.go:97-100 | with distinct names every merged metric carries its own classification |
| Pipeline.GeneratedTreatment | internal/server/poller.go:91-117 | every metric of the generated server is stored once, scheduled every 10, 30 or 60 seconds, or read live |
| Pipeline.GeneratedIntervalIs100ms | internal/server/server.go:174-190 | the generated server's fastest subscription interval is exactly 100ms |
| Pipeline.FrozenNamesAreNotScheduled | internal/server/server.go:89-107 | in a merged registry, duplicates or not, no name is both stored once and scheduled |
| Pipeline.UnregisteredIsLive | internal/server/server.go:86-104 | what the kernel registry does not hold is read live and sets no subscription interval |
| Pipeline.NoRegistryReadsLive | internal/server/server.go:269-276 | without a registry every answer of every run is a live read of its own instant, and the fastest interval is 100ms |
| Pipeline.AnswersOfGeneratedServer | internal/server/server.go:269-276 | duplicate Known names or not, every answer is a live read: now if unstored, at startup if frozen, and otherwise less than 60 seconds plus the tick gap ago |
| Pipeline.AnswersWithinOwnTtl | internal/server/server.go:269-276 | with distinct names every scheduled metric answers a live read younger than its own recommended TTL plus the tick gap |
| Pipeline.FreshnessByClass | internal/server/server.go:269-276 | with distinct names answers are younger than 10, 30 or 60 seconds plus the tick gap, by the class of the metric |
| Pipeline.PollRateByClass | internal/server/poller.go:151-162 | and the ticks read it at most floor(w / period) + 1 times in a window of length w, never when it has no period |
| Pipeline.ServesWithinOwnTtl | internal/server/server.go:112-120 | the own-TTL bound for each answer of a GetMetrics call, in every interleaving with ticks and stop |
| Pipeline.ReadsReachTheKernel | internal/macosasmsysctl/mibcache.go:78-84 | a live read answers the failed resolution or the read of the resolved MIB at that instant |
| Pipeline.AggregatesAreLive | internal/server/server.go:279-302 | a computed metric answers its aggregate at the instant of the answer |
| Pipeline.TimevalEndToEnd | internal/server/server.go:269-356 | seconds and microseconds held by the kernel at the served instant are what the client gets |
| Pipeline.AnswersDifferWithTheirBytes | internal/server/server.go:269-402 | two answers for a sysctl-backed metric of any type, cached or not, are equal iff the readings they stem from looked alike when they were taken, failures, wrong lengths and two-decimal loads included |
| Pipeline.New | internal/server/server.go:30-62 | the server holds the merged registry and a warmed cache, reads through its own registry and that cache, and has a poller over those reads iff the poll interval is positive |

## Left out

- LiveRead.ReadMetricLive: decoder errors are a datatype in place of their texts, and values stay structured: no time text of a timeval, numbers in place of their digits.
- KernelRegistry.ValidateRegistry: issues are a datatype in place of the message texts.
- Pipeline.New: builds the poller; starting its goroutine is the Start step of `ServerSystem.dfy`.
- System calls: assembly trampolines, the size-then-read pair of calls and name resolution inside the kernel are the oracle.
- Libraries: gRPC transport, protobuf messages and their text format; the generated text is kept at record level.
- Computed aggregates: their floating-point formulas; a computed metric is whatever its aggregate evaluates to.
- Load averages: floating-point rounding, which can show only for a load exactly halfway between two hundredths under a scale that is no power of two; the model divides exactly and prints the even hundredth.
- Formatting: decimal digits and times as text; a load is its number of hundredths.
- Error texts: those of the kernel are opaque strings and those of the decoders a datatype; Subscribe's are exact.
- Timers: the ticker is replaced by arbitrary tick times; gaps between ticks, a clock that never steps back and the absence of int64 overflow appear as hypotheses of the theorems that need them.
- Scheduling fairness: stop is shown able to return from every state, not that the runtime will choose the exit.
- Locks: each critical section is one atomic step.
- Lazy index: two goroutines racing to build the name index of the Known registry.
- Literal tables: the 250 Known entries and the XNU constants; the theorems hold for every list.
- Listing: ListKnownMetrics, GetMetricsByCategory and GetKernelRegistry wrap members modelled here.
- Command line tools: the client, the tables, CSV and JSON of the MIB tool, its summary and its read validation.
- Design documents: compact deltas, configuration overrides and client masks are not implemented by the code.
