# openstack-exporter, verified model

A Dafny model of the parts of the OpenStack exporter where a wrong number, a mixed snapshot
or a lost sample would go unnoticed, with proofs for all inputs and, where goroutines are
involved, for all interleavings. `dafny verify dfyconfig.toml` checks the whole project.

## What is modelled

**Subnet pools** (`exporters/neutron.go`). For every pool prefix and prefix length the exporter
reports how many subnets exist, are used, and are free. The free count removes the subnets
from the prefix, decomposes what is left into CIDR blocks and adds up powers of two, which is
right only if the decomposition is the canonical one.
- `CidrBlocks`: addresses of both families on one number line, CIDR blocks (section 3.1 of
  RFC 4632, section 2.3 of RFC 4291), nesting, masking, and the overlap test of a prefix.
- `AddressSets`, `BlockDecomposition`, `FreeDecomposition`: the set builder of the `netipx`
  library (which is not part of the repository, so it is written out: sorted merged ranges,
  subtraction, recursive splitting) and the proof that its prefixes are disjoint, exact,
  maximal, and hence count every free block once.
- `SubnetAccounting`: what free, used and total mean on sets of blocks, conservation and the
  allocation law. A subnet of another prefix of the pool, which the exporter passes along, takes
  no part of this one; one that holds the whole prefix is cut down to it.
- `Float64`, `FloatSum`: the accumulation in float64, rounding included.
- `SubnetCounts`, `SubnetPools`, `ReportKeys`, `SubnetReport`: the exporter's own functions and
  loops, `SubnetReport` with the table of registered metrics that the loops look up.
- `SubnetMeaning`: what the samples sent say, in terms of the listed pools and subnets alone.
- `SubnetRuns`: runs of allocations and releases in a pool of several prefixes, and how the
  exported numbers move along them.

**The snapshot cache** (`cache/`, the ticker loop in `main.go`). `CacheStore` has the classes
over the heap, with the family map as an object that struct copies share. `CacheCycles` says
what a collection cycle produces and which families a read serves. `CacheRuns` is the state
machine of one collecting and flushing goroutine, any number of readers, and a clock that moves
between any two steps, with map addresses explicit. `CacheRefinement` ties the two together: what
the contracts of the classes allow is what runs of the machine do.

**Concurrent collection**. `ErrGroups` is the fan-out both collectors use; a schedule is any
sequence of events. `Collection` is the metric table and `Collect` (`exporters/exporter.go`),
with every lookup of a metric that handlers and `Collect` make; `Zones` is the DNS collector with
its concurrency limit and `Designate` its exporter (`exporters/designate.go`).

**The label-mapping flag** (`utils/kingpin_parser.go`): `Strings`, `LabelNames`, `LabelFlag`.

**Service resolution and selection** (`main.go`, `utils/slices.go`): `Services`, `Slices`.

## What the proofs found

- The exported free count is exact for every list of subnets iff the pool holds at most 2^53
  subnets of that length. All IPv4 pools do. In a larger IPv6 pool one allocated subnet is
  enough for the float64 sum to be wrong (`SubnetCounts.ReportedFreeExactIff`), while an
  untouched pool of any size is reported exactly (`SubnetCounts.UntouchedPool`).
- README.md:286 of the repository says that expired data is not returned. The read makes no age
  check. If every read comes within a time `gap` of the start of the last completed flush (or of
  the service) and within a time `period` of its cloud's last publication, data is at most as old
  as the smaller of TTL plus `gap` and `period`, and that age is reached (`CacheRuns.AgeBoundIff`).
  So the promise holds of all runs iff `period` is at most the TTL or `gap` is zero
  (`CacheRuns.NeverExpiredIff`). Collecting every half TTL meets it as long as a cloud's data is
  published anew within the TTL, and stops meeting it when collections take longer or fail.
- Handlers look metrics up in the exporter's table without a check, and a disabled metric is not
  in it. `Collect` is free of nil dereferences, for every map order, behaviour and schedule, iff
  some default metric survives the disable, slow and deprecated filters and so does every metric
  that a surviving handler may look up (`Collection.CollectSafeIff`). Disabling only
  `designate-recordsets` breaks this (`Designate.DisabledRecordsets`): the designate exporter is
  safe iff some metric is kept and, if `zones` is, the other three are (`Designate.DesignateSafeIff`).
  The subnet report needs its three metrics as soon as there is anything to report
  (`SubnetReport.ListSubnetsPerPool`).
- A cached read gives the samples that the requested services gave iff no later service gathered
  a family of the same name (`CacheCycles.CachedReadIsDirectIff`). With `collect-metric-time` on,
  all services share the family `openstack_metric_collect_seconds`: the cached read has only the
  times of the last service that gathered some, and only if that one is requested
  (`CacheCycles.TimesAreLost`, `CacheCycles.LastSamples`).
- A `dns-concurrent-count` of zero lets no zone worker start, so the call never returns unless
  there are no zones; every other value, negative ones included, finishes (`Zones.ZonesFinishIff`).
- The comment on label names and the expression under it disagree exactly on `_` and on names
  whose first or second character is neither letter, digit nor underscore
  (`LabelNames.DocumentedRuleIff`). Printing and parsing agree all the same.

## Model

| member | source | states |
|---|---|---|
| `CidrBlocks.Nesting` | exporters/neutron.go:735-740 | two CIDR blocks are nested or disjoint, and shifting the longer index decides which |
| `CidrBlocks.OverlapsMeansMeeting` | exporters/neutron.go:736-738 | the overlap test holds exactly when the masked blocks share an address; never across families |
| `AddressSets.IPSetBuilder.AddPrefix` | exporters/neutron.go:706-707 | the builder then holds what it held plus the masked prefix |
| `AddressSets.IPSetBuilder.RemovePrefix` | exporters/neutron.go:709-711 | the builder then holds what it held minus the masked prefix |
| `AddressSets.IPSetBuilder.IPSet` | exporters/neutron.go:713-716 | sorted, gap-separated ranges covering exactly what the builder held |
| `AddressSets.NormalUnique` | exporters/neutron.go:713-713 | equal address sets have equal range lists |
| `AddressSets.RunInOneRange` | exporters/neutron.go:713-719 | an unbroken run of free addresses lies in a single range |
| `BlockDecomposition.SplitCounts` | exporters/neutron.go:718-725 | for one range the sum of powers of two is the number of aligned blocks it holds |
| `BlockDecomposition.DecomposeCounts` | exporters/neutron.go:718-725 | the same for a whole set of ranges, each aligned block counted once |
| `BlockDecomposition.DecomposeMaximal` | exporters/neutron.go:719-719 | no prefix of a decomposition has a wholly covered parent |
| `FreeDecomposition.FreePrefixesCanonical` | exporters/neutron.go:706-719 | the prefixes summed over ascend without overlap, hold exactly the free addresses, and cannot be shortened |
| `FreeDecomposition.FreeBlockInPrefix` | exporters/neutron.go:706-719 | every free block of any length lies inside one of the prefixes summed over |
| `FreeDecomposition.FreePrefixesCount` | exporters/neutron.go:704-728 | the exact sum is the number of aligned blocks of the pool that meet no subnet, for overlapping, repeated and outside subnets too |
| `FreeDecomposition.AddressBalance` | exporters/neutron.go:706-725 | sizes of the prefixes plus addresses in use make up the pool |
| `FreeDecomposition.WholePool` | exporters/neutron.go:706-719 | a pool that no subnet touches is left as one prefix, itself |
| `Float64.RoundNearest` | exporters/neutron.go:724-724 | adding rounds to the nearest float64, ties to even, at every size; what fits is unchanged |
| `Float64.NearestUnique` | exporters/neutron.go:724-724 | there is only one such value |
| `FloatSum.SumsOf` | exporters/neutron.go:718-725 | the result is the last of the running sums: from zero, a longer prefix adds nothing, any other its power of two, rounded to nearest |
| `FloatSum.SumsUnique` | exporters/neutron.go:718-725 | these sums are determined by the prefixes |
| `FloatSum.FloatCountExact` | exporters/neutron.go:718-725 | while the exact sum stays where rounding is the identity, the float64 sum equals it |
| `FloatSum.PartialSums` | exporters/neutron.go:718-725 | each partial sum of the loop is exact and at most the number of blocks in the pool, up to 2^53 of them |
| `SubnetCounts.CalculateFreeSubnets` | exporters/neutron.go:704-728 | the builder, the set and the accumulating loop return the float64 sum over the canonical free prefixes, at any size; the number of free blocks up to 2^53 of them; all blocks exactly, however many, when no subnet overlaps the pool |
| `SubnetCounts.UntouchedPool` | exporters/neutron.go:704-728 | a pool no subnet overlaps reports two to the difference of lengths, exactly, at every length |
| `SubnetCounts.ReportedFreeExact` | exporters/neutron.go:704-728 | up to 2^53 blocks per pool the returned number is the count of free blocks |
| `SubnetCounts.ReportedFreeRounds` | exporters/neutron.go:718-725 | in any larger pool one subnet makes the returned number wrong |
| `SubnetCounts.ReportedFreeExactIff` | exporters/neutron.go:718-725 | right for all subnet lists iff the length exceeds the pool's by at most 53 |
| `SubnetCounts.ReportedFreeDependsOnMembers` | exporters/neutron.go:709-711 | order and repetition of subnets change nothing, at any length, rounded or not |
| `SubnetCounts.CalculateUsedSubnets` | exporters/neutron.go:730-744 | the tally of one length is the number of listed subnets of that length that overlap the prefix |
| `SubnetCounts.OverlapMeansContained` | exporters/neutron.go:736-738 | a subnet no shorter than the pool prefix overlaps it iff it lies inside |
| `SubnetCounts.UsedConcat` | exporters/neutron.go:735-743 | used counts add over lists, so order does not matter |
| `SubnetCounts.AllocateSubnet` | exporters/neutron.go:704-744 | allocating a subnet that overlaps no other, in this prefix or elsewhere, raises only the used count of its own length, only if it overlaps the prefix, and lowers the free counts by exactly what it costs |
| `SubnetCounts.UsedAndFreeFit` | exporters/neutron.go:730-744 | with distinct masked subnets used plus free is at most the total |
| `SubnetCounts.CountsConserve` | exporters/neutron.go:785-795 | for any subnets that do not overlap each other: total is free plus blocks under shorter-or-equal subnets plus blocks holding a longer one; subnets of other prefixes take no part |
| `SubnetAccounting.Conservation` | exporters/neutron.go:704-728 | the same law on blocks, by clipping the subnets to the pool and partitioning it into three classes |
| `SubnetAccounting.AllocationStep` | exporters/neutron.go:704-728 | how many free blocks of each size of a pool an allocation removes, wherever it lies |
| `SubnetRuns.ExportedNumbersConserve` | exporters/neutron.go:785-802 | for any subnets that do not overlap, of this prefix or others: total is reported free plus taken plus broken blocks, and used plus reported free is at most total |
| `SubnetRuns.RunsConserve` | exporters/neutron.go:779-802 | both hold for every prefix after every run of allocations and releases in a pool of several prefixes |
| `SubnetRuns.RunLedger` | exporters/neutron.go:779-802 | along every run the exported used and free numbers of every prefix move by exactly what each step takes or gives back |
| `SubnetRuns.ReleaseUndoesAllocation` | exporters/neutron.go:704-744 | releasing any subnet and allocating it again restores every exported number of every prefix, rounded or not |
| `SubnetPools.IPPrefixes` | exporters/neutron.go:666-679 | all prefixes in order, or a failure iff one does not parse |
| `SubnetPools.SubnetpoolsWithSubnets` | exporters/neutron.go:682-702 | each pool gets the order-preserving filter of the parsed subnets by its ID; fails iff a pooled subnet does not parse |
| `SubnetPools.SubnetsOfMeaning` | exporters/neutron.go:684-692 | the prefixes kept for a pool are those of the listed subnets that name it, each once, in listing order |
| `SubnetPools.GroupingConserves` | exporters/neutron.go:682-702 | with distinct pool IDs no pooled subnet is lost or given twice |
| `SubnetReport.ListSubnetsPerPool` | exporters/neutron.go:768-807 | a subnet that does not parse means an error and nothing sent; otherwise the report on the pools before the first bad one, complete with the three metrics registered, else cut at the first missing one, zero, one or two samples in |
| `SubnetMeaning.SamplesReport` | exporters/neutron.go:773-805 | what is sent, in terms of pools and subnets: for every pool, prefix and length asked for, in loop order, total, used and free samples with the pool's own labels |
| `SubnetMeaning.TripleTells` | exporters/neutron.go:785-802 | the three values: blocks of the prefix, listed subnets of that pool and length inside it, blocks clear of all its subnets (up to 2^53, else the float64 sum) |
| `SubnetMeaning.SentNumbersFit` | exporters/neutron.go:785-802 | of the values sent, used plus free is at most total when used subnets differ |
| `SubnetReport.BeforeMissingLongest` | exporters/neutron.go:785-802 | what is sent is the part before the first sample whose metric is missing |
| `SubnetReport.NamesNeeded` | exporters/neutron.go:785-802 | all lookups succeed iff the three metrics are registered or nothing is reported |
| `ReportKeys.PoolKeysOnce` | exporters/neutron.go:773-783 | the three loops visit every pool, prefix and length from max(minimum, prefix length) to the maximum exactly once |
| `ReportKeys.PoolKeysAscend` | exporters/neutron.go:773-783 | they are visited by pool, then prefix, then length |
| `SubnetPools.PoolSamplesByKey` | exporters/neutron.go:773-805 | an error-free run sends one total, used and free sample for each of these, in loop order |
| `CacheStore.InMemoryCache.Init` | cache/cache.go:89-100 | known clouds keep their entry, an unknown one gets an empty cache |
| `CacheStore.InMemoryCache.GetCloudCache` | cache/cache.go:103-112 | the stored struct with its shared map, whatever its age |
| `CacheStore.InMemoryCache.SetCloudCache` | cache/cache.go:116-123 | only this cloud's entry changes, to the given map under the current time |
| `CacheStore.InMemoryCache.FlushExpiredCloudCaches` | cache/cache.go:127-137 | with the clock read per entry: survivors are unchanged and were within the TTL when the flush began, removed entries past it when it ended |
| `CacheStore.NewCloudCache` | cache/cache.go:140-147 | a fresh, empty map under the current time |
| `CacheStore.SetMetricFamilyCache` | cache/cache.go:150-152 | one name is rewritten in the shared map |
| `CacheStore.BuildCloud` | cache/utils.go:65-99 | a fresh map with the complete output of the cycle, failed services skipped |
| `CacheStore.OutputHoldsCycle` | cache/utils.go:67-99 | in terms of the gathers alone: under each name the family of the last service to gather it for that cloud, nothing else |
| `CacheStore.CollectCache` | cache/utils.go:60-104 | every listed cloud gets a complete output in a map of its own; other clouds and all earlier maps are untouched |
| `CacheStore.BufferFromCache` | cache/utils.go:108-129 | each family of the requested services is written once, in some order; an encoding failure stops the output; an unknown cloud and a nil map give nothing |
| `CacheCycles.CycleMapEntries` | cache/utils.go:67-99 | each name maps to the last service in collection order that succeeded and gathered it |
| `CacheCycles.ServedIff` | cache/utils.go:107-129 | a read serves a name iff that last service is requested |
| `CacheCycles.CachedReadIsDirectIff` | cache/utils.go:67-129 | the cached read holds the same samples as the requested services gathered iff no later service gathered a family of the same name |
| `CacheCycles.LastSamples` | cache/utils.go:81-89 | under each name a cached read has exactly the samples of the last service that gathered it, if that one is requested |
| `CacheCycles.TimesAreLost` | exporters/exporter.go:205-209 | two services that both gathered collection times: the cached read lacks times of the earlier one |
| `CacheRuns.StepIsolated` | cache/utils.go:63-101 | every step keeps the map under construction unreachable and all published maps complete |
| `CacheRuns.SnapshotsAreWholeCycles` | cache/cache.go:103-123 | in every interleaving a reader holds exactly one complete cycle of its cloud, unchanged at any later time |
| `CacheRuns.ReadsAnswered` | cache/cache.go:103-112 | every read of a run is answered once, for the cloud asked for, in order |
| `CacheRuns.ReadGetsLastPublication` | cache/cache.go:103-123 | a read gets what was gathered for the cloud's last publication, under the time it was published |
| `CacheRuns.StepAged` | cache/cache.go:127-137 | every step keeps the age bounds, also between the checks of one flush |
| `CacheRuns.StalenessBound` | main.go:215-244 | no read is older than the TTL plus the time since the last completed flush, or the service, began, nor than the time since its cloud was published |
| `CacheRuns.LateRead` | cache/cache.go:103-112 | for every two times a run whose read is exactly as old as the smaller bound |
| `CacheRuns.AgeBoundIff` | main.go:215-244 | an age is never exceeded over all runs iff it is at least the smaller bound |
| `CacheRuns.NeverExpiredIff` | README.md:284-287 | expired data is never returned, over all runs, iff reads come within the TTL of their cloud's last publication or at the very start of a flush |
| `CacheRuns.RefreshedNeverFlushed` | main.go:215-244 | a cloud re-published at intervals of at most the TTL stays in the store over every run |
| `CacheRefinement.FlushRun` | cache/cache.go:127-137 | every outcome the contract of the flush allows is reached by a flush of the state machine |
| `CacheRefinement.PublishRun` | cache/utils.go:63-101 | building and publishing one cloud, as the contracts describe it, is a run of the state machine |
| `ErrGroups.StepInv` | exporters/exporter.go:138-165 | every event keeps the limit, the failure counter, and the count of samples sent |
| `ErrGroups.ReachableInv` | exporters/exporter.go:138-165 | the same for every schedule |
| `ErrGroups.ChannelInterleaves` | exporters/designate.go:99-126 | the channel is an interleaving of what each task sends, in the task's own order |
| `ErrGroups.LimitIsReached` | exporters/designate.go:95-97 | as many tasks as the limit allows can all be in flight at once |
| `ErrGroups.RunsAreBounded` | exporters/designate.go:95-131 | no schedule is longer than the work there was |
| `ErrGroups.StuckOnlyWhenDone` | exporters/designate.go:95-131 | with a non-zero limit a schedule ends only when all tasks have |
| `ErrGroups.AlwaysFinishesIff` | exporters/designate.go:95-96 | all maximal schedules finish iff the limit is not zero or there is no task |
| `ErrGroups.RunToEnd` | exporters/designate.go:95-131 | every schedule can be continued until nothing more can happen |
| `ErrGroups.DoneOutcome` | exporters/exporter.go:151-172 | the counter ends at the number of failed tasks; without cancellation every sample is sent once; `Wait` fails iff a task does |
| `Collection.BaseOpenStackExporter.MetricIsDisabled` | exporters/exporter.go:101-108 | true iff exporter and metric name, joined by a dash, are listed |
| `Collection.BaseOpenStackExporter.AddMetric` | exporters/exporter.go:187-227 | a disabled metric changes nothing, a first one creates the table with its two fixed metrics, a known name is kept |
| `Collection.BaseOpenStackExporter.RegisterMetrics` | exporters/designate.go:69-76 | registers exactly the metrics that pass the deprecated, slow and disabled filters |
| `Collection.RegisteredNames` | exporters/exporter.go:187-227 | a table exists iff a metric passed, and always holds `up` and the timing metric, neither with a handler |
| `Collection.TableMeaning` | exporters/exporter.go:101-227 | in terms of the options alone: which names the table has after the disable, slow and deprecated filters, and whose handler runs |
| `Collection.FirstRegistrationWins` | exporters/exporter.go:218-226 | of several metrics of one name the first one's handler runs |
| `Collection.CollectEverySchedule` | exporters/exporter.go:116-177 | for every map order and schedule: completes iff there is a table and all handlers keep to metrics in it; each reading is sent as often as the handlers, run once each, send it, one duration per success when timed, `up` once and last, 1 iff a handler succeeded |
| `Collection.CollectInterleaves` | exporters/exporter.go:116-163 | the channel interleaves the handlers' outputs: readings in order, then the duration |
| `Collection.CollectSafeIff` | exporters/exporter.go:116-177 | no nil dereference over all orders, behaviours and schedules iff some metric is kept and every metric that a kept handler may look up is kept |
| `Designate.DesignateSafeIff` | exporters/designate.go:50-76 | collecting designate is safe iff some metric is kept and, if "zones" is, the other three are |
| `Designate.DisabledRecordsets` | exporters/designate.go:112-112 | with only "designate-recordsets" disabled some metrics are kept and a nil dereference is possible |
| `Designate.SafeMeansZonesSafe` | exporters/designate.go:69-92 | when "zones" is kept, safety of the exporter is registration of the four metrics its handler needs |
| `Zones.ZonesEverySchedule` | exporters/designate.go:81-133 | at most N workers at any time and bounded runs; with the four metrics registered failure iff a fetch fails, otherwise the same samples in every schedule; without a failure a nil dereference iff a metric that the answers call for is missing |
| `Zones.ListingOutcome` | exporters/designate.go:81-133 | a failed listing is an error with nothing sent; with the four metrics registered the call succeeds iff the listing and every fetch do, the total comes first, and each sample is sent as often as zones and answers say |
| `Zones.CompleteCounts` | exporters/designate.go:92-123 | how often each sample occurs in the complete output, counted over zones and answers |
| `Zones.ZonesInterleave` | exporters/designate.go:99-126 | in every schedule the channel interleaves parts of the outputs of listed zones, whole ones when done; a zone whose fetch fails sends nothing |
| `Zones.CutShort` | exporters/designate.go:95-131 | a failing fetch can keep another zone's samples from being sent |
| `Zones.ZonesSafeIff` | exporters/designate.go:92-123 | no listing, fetch or schedule dereferences nil iff the four metrics are registered |
| `Zones.ZonesFinishIff` | exporters/designate.go:95-97 | all schedules finish iff the limit is not zero or there are no zones |
| `Zones.ExpectedCounts` | exporters/designate.go:92-123 | the complete output is the total once, one recordset count and one status per zone, and one status per recordset, as often as they are listed |
| `Zones.ZonesAllOrNothing` | exporters/designate.go:101-126 | also after a failure a zone's samples are sent as a group or not at all |
| `LabelNames.IsLabelNameMatches` | utils/kingpin_parser.go:24-24 | the predicate holds of exactly the strings the regular expression matches |
| `LabelNames.DocumentedRuleIff` | utils/kingpin_parser.go:18-24 | where expression and comment differ; accepted names never start with a digit or a double underscore |
| `LabelFlag.LabelMappingFlag.Set` | utils/kingpin_parser.go:39-69 | items before the first bad one stay, the error names it |
| `LabelFlag.SetMeaning` | utils/kingpin_parser.go:39-69 | in terms of the comma-separated items: each is cut at its first "=" or is its own key; taken in order up to the first whose label is there already or is no name, which the error tells apart |
| `LabelFlag.LabelMappingFlag.String` | utils/kingpin_parser.go:71-84 | items joined by commas, the key left out when it is the label |
| `LabelFlag.PrintedItems` | utils/kingpin_parser.go:71-84 | the printed form has one piece per label, with its key unless they are equal |
| `LabelFlag.LabelMappingFlag.Extract` | utils/kingpin_parser.go:90-97 | the value of each key in order, empty for a missing one |
| `LabelFlag.SetKeeps` | utils/kingpin_parser.go:51-66 | every call, failing or not, only appends and keeps lengths equal and labels distinct and well formed |
| `LabelFlag.PrintedParses` | utils/kingpin_parser.go:39-84 | after any sequence of calls, setting a fresh flag to the printed form succeeds and rebuilds labels and keys |
| `LabelFlag.SetIsCumulative` | utils/kingpin_parser.go:51-66 | two calls equal one call with the values joined by a comma |
| `LabelFlag.AddAllOkIff` | utils/kingpin_parser.go:57-62 | a call succeeds iff all labels are names and distinct, from each other and from earlier ones |
| `Slices.RemoveElements` | utils/slices.go:6-15 | the elements outside the drop list, none lost, repeated or moved |
| `Slices.UniqueElements` | utils/slices.go:18-29 | exactly the first occurrences, in place |
| `Slices.UniqueInFirstOrder` | utils/slices.go:17-29 | results are distinct and ordered by first occurrence |
| `Slices.UniqueWithoutCommute` | utils/slices.go:6-29 | removal and de-duplication commute |
| `Slices.Idempotent` | utils/slices.go:6-29 | doing either twice changes nothing |
| `Services.SetAutoServicesState` | main.go:176-182 | supported services in the automatic state, listed in the map or not, take the given one; nothing else changes |
| `Services.ApplyAutodetection` | main.go:184-191 | automatic services become enabled if detected, disabled otherwise; explicit ones stay |
| `Services.ResolveServiceConfig` | main.go:140-174 | in terms of the states map before: explicit choices kept, every other supported service enabled in strict mode or if detected and disabled otherwise; the enabled ones in supported order, an error if there are none or detection failed |
| `Services.EnabledOnceInOrder` | main.go:193-201 | the enabled list follows the supported order without duplicates |
| `Services.ResolvedEmptyIff` | main.go:152-171 | resolution ends without services iff the table chooses none |
| `Services.DetectionMonotone` | main.go:184-201 | detecting more never disables a service |
| `Services.SupportedIsCatalog` | exporters/utils.go:327-330 | the catalog accepts exactly the supported names |
| `Services.ParseServiceList` | main.go:433-448 | the pieces between commas, trimmed, without the empty ones, none lost, repeated or moved |
| `Services.TrimSpaceBetween` | main.go:440-440 | trimming removes white space at both ends and nothing else |
| `Services.SelectServicesForRequest` | main.go:402-421 | in terms of the query text: a service is selected iff the excludes do not list it and the includes do or, without includes, it is configured; each once, in order of first occurrence; an error names all unsupported items, includes first |
| `Services.AnswerMeaning` | main.go:402-421 | the same of the selection function |
| `Services.RequestMeaning` | main.go:402-421 | the result is duplicate-free and is exactly base minus excludes; refused iff some comma-separated piece of either list, once trimmed, is neither empty nor supported |

## Left out

- OpenStack calls, authentication, TLS, Vault, YAML, HTTP handlers and logging: a listing is an input, a fetch an arbitrary success or failure.
- CIDR and address text: prefixes arrive parsed, a text that does not parse is an absent value. An error from the set builder cannot occur on parsed prefixes, so `calculateFreeSubnets` has no error result here.
- Prefix lengths longer than an address: the loops and the rounded sum are modelled for them, their meaning as a number of blocks is not stated because there are no such blocks.
- Float64 values of 2^1024 and above, reached only by prefix lengths more than a thousand bits past the pool's: they would become infinite.
- Metric descriptors, constant labels, registry checks and text encoding: a metric is a name, label values and a number, and whether a family encodes is an arbitrary predicate.
- The wrap-around of the 32-bit failure counter, which would need 2^31 metrics in one exporter.
- Ticker scheduling: collections and flushes start at any time; how late they may be is a hypothesis of the staleness results.
- The unwinding after a nil dereference: a schedule or a report sends nothing more from there on, and what other goroutines still send before the process ends is not told apart.
- Goroutine panics other than the nil dereferences named here, and a second `CollectCache` running at the same time, which the background service never starts.
- Text that is not valid UTF-8, and the difference between a nil and an empty slice or map where the code treats them alike.
- The other collectors (nova, glance, keystone, cinder, heat, manila, trove, ironic, placement), status tables and microversions: field copying and finite tables.
