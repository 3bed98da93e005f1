# The verified core of the functional tests and the version tool

The functional tests of the Splunk OpenTelemetry Collector chart compare live telemetry with
golden snapshots. This project models that engine, and the smaller algorithms beside it, in
Dafny, and proves what they promise. Run `dafny verify dfyconfig.toml`.

**The snapshot engine.** `Selection` picks a payload from a sink that keeps receiving. What has
arrived by each read and how much time passes at each use of the clock are given from outside,
so a run of a retry loop is fully determined, and what is proved holds for every such
environment. `Preparation` says what a prepared payload is, and proves preparation idempotent,
conservative and, without the other stages, stable; `PreparationInPlace` runs the stages over a
tree of mutable metric objects and meets that specification. `PreparationMeaning` writes out,
metric by metric, what is left and what stays, and `StageStability` says what the order of the
stages costs. `Marking` gives the closed form of the two attribute loops, `AssertionDocument` and
`Rewriting` lift it to the whole document, the latter over a tree of mutable map objects that
stops at the first malformed node. `DocumentMeaning` says what that does at every node of the
document, in terms of the options alone, and which documents are refused. `Acceptance` and `DocumentAcceptance` state what a document
accepts and prove that rewriting only weakens it; `DocumentNames` follows the attribute names;
`GoldenUpdate` puts the pieces together for a refresh, and `RewriteMeaning` says exactly which
later payloads a refreshed document lets pass.

**Telemetry trees.** `LogBodies` and `LogBodiesInPlace` write one string along a path through
nested maps and slices; `LogGrouping` and `LogGroupingInPlace` collapse records into one group
per resource and scope, and `GroupingMeaning` says which records those are, where they end up and
in what order.

**Smaller algorithms.** `PodsReady` (a polling state machine), `VolumeMounts` and `PathCleaning` (the deepest
mount, on cleaned paths), `EntityKeys` (core and union keys), `KindImages` (version search and order), `LogLines`
(distinct messages with counts). `Pdata`, `Text` and `Ordering` hold the payload tree, the
string functions and the sorting that the others use.

Where a promise does not hold of the code, the code is modelled as it is, and the exact
condition under which the promise holds is proved:

- The path update passes over one segment when two or more follow a slice index
  (`PutGetExactly`, `MisroutedExample`).
- The datapoint that survives is stable only while the least digest belongs to one mask
  (`StableExactlyWithoutLeastCollision`); truncation runs before the sort, so arrival order
  decides once it can drop every copy of that mask (`StableThroughCutExactly`,
  `TruncationExample`, `CollisionExample`). A filter on a flexible attribute makes it come and go
  (`StableThroughStagesExactly`, `FlexibleFilterExample`).
- The two-pass retry loop makes no exact attempt after its deadline (`LateArrivalIsMissed`,
  `LateArrivalRun`).
- A scope pattern adds the name `version` to a scope without one (`NamesKeptExactly`,
  `VersionlessExample`), and such a rewrite is no weakening (`RewritingWeakensExactly`,
  `MissingVersionExample`).
- Attribute names that end in `/exists` or `/regex` make the written document mean something else:
  a payload with such a name fails its own assertion (`WrittenAcceptsOwnExactly`).
- Entity records that are all empty so far can still turn a pass into a failure
  (`MonotoneExactly`).
- The comment on the mount search speaks of a mount path that contains the file; a mount of the
  root contains every file but backs none below it (`BacksExactly`, `RootMountBacksOnlyTheRoot`).
- Versions sort as strings, part by part: v1.9.0 comes before v1.10.0 (`WidthsMatter`,
  `TagOrderIsNumericExactly`).

## Model

| member | source | states |
|---|---|---|
| `Preparation.DatapointOrderIsWeak` | functional_tests/internal/metricassert.go:633-637 | The comparison handed to `Sort` is a strict weak order for every hash, so sorting by it is well defined. |
| `Preparation.TiesAreEqualMasks` | functional_tests/internal/metricassert.go:633-654 | Without a digest collision, two datapoints tie if and only if their masked attributes are equal. |
| `Preparation.MaskIdentifies` | functional_tests/internal/metricassert.go:640-667 | Masked attributes are equal if and only if the names agree and the values differ only under flexible names, within one of the four scalar kinds. |
| `Preparation.SortedHeadIsFirstLeast` | functional_tests/internal/metricassert.go:578-631 | Sort then keep-one leaves the first datapoint that no other is below. |
| `Preparation.SurvivorIsLeast` | functional_tests/internal/metricassert.go:578-637 | The survivor's mask occurs in the batch and no other mask of the batch has a smaller digest. |
| `Preparation.SurvivorIsStable` | functional_tests/internal/metricassert.go:551-667 | Two batches that are permutations of each other up to flexible values leave survivors with equal masked attributes, when no two masks collide. |
| `Preparation.StableExactlyWithoutLeastCollision` | functional_tests/internal/metricassert.go:551-667 | The same as an equivalence: the survivor of a batch is stable under all such changes if and only if its least digest belongs to a single mask. |
| `StageStability.PreparedSurvivor` | functional_tests/internal/metricassert.go:509-518 | The prepared datapoints of a first-datapoint-only metric of any kind are the survivor of the filtered and truncated batch, in that order of stages. |
| `StageStability.StableThroughCutExactly` | functional_tests/internal/metricassert.go:513-517 | Truncation comes before the sort. The survivor stays stable if and only if its least digest belongs to one mask and, with a maximum, the copies of that mask outnumber the datapoints truncation drops. |
| `StageStability.StableThroughStagesExactly` | functional_tests/internal/metricassert.go:509-518 | Through filter, truncation and sort, over the unfiltered input: the prepared survivor is stable if and only if no datapoint can be wanted, or the filter looks at no flexible attribute and what it leaves has one least mask that truncation cannot drop. |
| `StageStability.FlexibleFilterIsUnstable` | functional_tests/internal/metricassert.go:525-533 | When a wanted attribute is flexible and some datapoint can be wanted, other flexible values leave nothing or something. |
| `StageStability.InflexibleFilterIsTransparent` | functional_tests/internal/metricassert.go:525-539 | Otherwise a filter that leaves something changes nothing about stability: the input is stable exactly when what is left is. |
| `StageStability.RareIsDropped` | functional_tests/internal/metricassert.go:513-517 | When truncation drops as many datapoints as have a mask, some order of the same datapoints leaves another survivor. |
| `StageStability.TruncationExample` | functional_tests/internal/metricassert.go:513-517 | Two different datapoints and a maximum of one: unstable whatever the hash. |
| `StageStability.CollisionExample` | functional_tests/internal/metricassert.go:633-637 | Two different datapoints under a hash that cannot tell them apart: unstable without truncation. |
| `StageStability.FlexibleFilterExample` | functional_tests/internal/metricassert.go:525-533 | One datapoint, filtered by a flexible attribute: unstable. |
| `Preparation.PreparationConserves` | functional_tests/internal/metricassert.go:509-631 | Every metric keeps its place, name, kind and fields, and its prepared datapoints are a sub-multiset of its input datapoints. |
| `Preparation.PreparingTwice` | functional_tests/internal/metricassert.go:509-631 | Preparing prepared metrics changes nothing, for every configuration: filter, truncation and keep-first settle together. |
| `Preparation.PreparationIsIdempotent` | functional_tests/internal/metricassert.go:337-340 | The same for whole payload trees, which is what the update path relies on when it prepares a prepared payload. |
| `Preparation.FilterKeepsExactly` | functional_tests/internal/metricassert.go:525-539 | Each datapoint stays as often as it occurs when all wanted attributes are there as strings with those values, and goes otherwise. |
| `PreparationMeaning.DigestOrderExactly` | functional_tests/internal/metricassert.go:633-637 | Digests compare as byte strings: by the first byte that differs, and a proper prefix comes first. |
| `PreparationMeaning.MaskedExactly` | functional_tests/internal/metricassert.go:640-667 | The mask has the same names; under a flexible name a string, boolean, integer or double is zeroed, and every other value stays. |
| `PreparationMeaning.SurvivorExactly` | functional_tests/internal/metricassert.go:578-637 | The one datapoint kept is the first of those whose masked digest no other one is below. |
| `PreparationMeaning.PreparedMetricExactly` | functional_tests/internal/metricassert.go:509-576 | Every metric, with the stages written out: a listed one keeps its first least datapoint under the volatile and patterned names, any other exactly what filter and maximum leave; name, kind and fields stay. |
| `PreparationMeaning.UnlistedExactly` | functional_tests/internal/metricassert.go:565-573 | A metric that is not listed holds exactly what filter and maximum leave of it. |
| `PreparationMeaning.UntouchedMetric` | functional_tests/internal/metricassert.go:509-518 | A metric that is not listed, not selected and not above the maximum is unchanged. |
| `PreparationMeaning.PreparedShape` | functional_tests/internal/metricassert.go:509-518 | Everything around the metrics stays: resources, scopes, their attributes and fields, and how many metrics each scope holds. |
| `PreparationMeaning.PreparedTreeExactly` | functional_tests/internal/metricassert.go:509-518 | Each metric of the tree is prepared in its own place. |
| `PreparationInPlace.ViewExactly` | functional_tests/internal/metricassert.go:509-518 | What a tree of metric objects holds is read off the object in each place. |
| `PreparationInPlace.CopyTo` | functional_tests/internal/metricassert.go:510-511 | The copy holds the same tree in new metric objects, all distinct; the original is unchanged. |
| `PreparationInPlace.GetMetric` | functional_tests/internal/data_processing.go:145-157 | Finds the first metric with the name in traversal order, or none. |
| `PreparationInPlace.ShouldRemove` | functional_tests/internal/metricassert.go:525-533 | True exactly for attributes that lack a wanted key or hold another value or kind there, in any key order. |
| `PreparationInPlace.RemoveUnwanted` | functional_tests/internal/metricassert.go:525-539 | Keeps exactly the wanted datapoints, in order. |
| `PreparationInPlace.RetainSelectedNumberDatapoint` | functional_tests/internal/metricassert.go:520-540 | Filters the first metric with the name if it is a gauge or sum, and no other metric. |
| `PreparationInPlace.ReduceMetric` | functional_tests/internal/data_processing.go:18-69 | Emptying and refilling the slice leaves the prefix of the maximal length; exponential histograms and other metrics stay. |
| `PreparationInPlace.ReduceScope` | functional_tests/internal/data_processing.go:15-72 | The innermost loop truncates every metric of one scope. |
| `PreparationInPlace.ReduceDatapoints` | functional_tests/internal/data_processing.go:12-75 | The nested loops truncate every metric of the tree once. |
| `PreparationInPlace.SortableAttrs` | functional_tests/internal/metricassert.go:640-654 | Zeroing flexible values one by one, in any order, gives the closed-form mask. |
| `PreparationInPlace.KeepFirstDatapoint` | functional_tests/internal/metricassert.go:578-631 | Sort and the counting closure leave exactly the first least datapoint. |
| `PreparationInPlace.KeepFirstIfNamed` | functional_tests/internal/metricassert.go:569-573 | Touches the metric only when it is named, and no other metric of the tree. |
| `PreparationInPlace.KeepFirstInScope` | functional_tests/internal/metricassert.go:566-574 | The innermost loop reduces the named metrics of one scope. |
| `PreparationInPlace.KeepFirstDatapointOnly` | functional_tests/internal/metricassert.go:551-576 | The nested loops reduce exactly the named metrics. |
| `PreparationInPlace.PrepareInPlace` | functional_tests/internal/metricassert.go:509-518 | The three stages on the copy compute the prepared metrics. |
| `PreparationInPlace.PrepareMetricsAssertion` | functional_tests/internal/metricassert.go:509-518 | Returns a fresh tree holding the prepared payload, and the payload it was given is unmodified. |
| `Selection.ContainsMetric` | functional_tests/internal/common.go:648-659 | True if and only if some metric of the tree has the name. |
| `Selection.ExactExactly` | functional_tests/internal/metricassert.go:248-252 | An exact batch has the target somewhere in its tree of resources, scopes and metrics, and both counts are those asked for. |
| `Selection.MetricsSink.AllMetrics` | functional_tests/internal/metricassert.go:245 | One read, counted: it returns what the sink holds at that read in the given interleaving. |
| `Selection.SelectMetricSet` | functional_tests/internal/common.go:616-646 | Re-reading the growing sink at each index, in every interleaving the result is the one for its first read, made at loop start; it reads once more for every index it scans. |
| `Selection.SelectMetricSetByCounts` | functional_tests/internal/metricassert.go:244-256 | The newest batch with the target and the exact counts, or none. |
| `Selection.RichestMetricSet` | functional_tests/internal/metricassert.go:258-276 | The batch with the target and the most metrics, the newest of them, or none. |
| `Selection.SelectionIsDetermined` | functional_tests/internal/common.go:616-646 | The fused selector and the two passes agree on every snapshot: exact when the first pass finds a batch, otherwise the second pass's batch. |
| `Selection.SelectMetricSetWithTimeout` | functional_tests/internal/common.go:664-686 | The run is the one the arrivals and the clock determine: every earlier attempt was made in time and missed, the last one decides, and reads and clock steps are accounted for one by one. |
| `Selection.AttemptInTime` | functional_tests/internal/common.go:669-675 | The attempts before the deadline: all but the last missed, and the last was made in time exactly when it found an exact batch. |
| `Selection.StartLoop` | functional_tests/internal/common.go:665-669 | The deadline and the first test, from two readings of the clock. |
| `Selection.NextTest` | functional_tests/internal/common.go:669-674 | One sleep and one reading: the next test, strictly later. |
| `Selection.TestsApart` | functional_tests/internal/common.go:669-674 | Two tests are at least an interval apart, and never at the same time. |
| `Selection.RoundsFitTimeout` | functional_tests/internal/metricassert.go:227-235 | A loop makes no more rounds in time than its intervals fit into the timeout. |
| `Selection.AllMissedOne` | functional_tests/internal/common.go:669-675 | Every round before the last was made in time and missed. |
| `Selection.TimedSelectionIsHonest` | functional_tests/internal/common.go:664-686 | Over every run: exact is reported if and only if the deciding snapshot holds an exact batch; no match means that the deadline passed, that no read before, not even in mid-scan, held one, and that the fallback is the richest. |
| `Selection.TimedSelectionIsDetermined` | functional_tests/internal/common.go:664-686 | Arrivals and clock admit one number of attempts and one outcome. |
| `Selection.SelectMetricSetByCountsWithTimeout` | functional_tests/internal/metricassert.go:226-242 | The run is the one the arrivals and the clock determine: polls made in time, one read each, until one finds an exact batch or a test comes after the deadline. |
| `Selection.PollByCounts` | functional_tests/internal/metricassert.go:228-234 | The polls before the deadline: all but the last missed, and the last was made in time exactly when it found an exact batch. |
| `Selection.TimedByCountsIsHonest` | functional_tests/internal/metricassert.go:226-242 | Over every run: exact only in time and with an exact batch; a fallback only after the deadline, when none of the reads before held one, with at least as many metrics as any exact batch of the final snapshot. |
| `Selection.TimedByCountsIsDetermined` | functional_tests/internal/metricassert.go:226-242 | Arrivals and clock admit one number of polls and one outcome. |
| `Selection.LateArrivalIsMissed` | functional_tests/internal/metricassert.go:236-241 | After a fallback, the final snapshot holds an exact batch if and only if one arrived after the last poll. |
| `Selection.LateArrivalExample` | functional_tests/internal/metricassert.go:236-241 | A sink and a clock for which the only possible run returns the larger batch although an exact one has arrived. |
| `Selection.LateArrivalRun` | functional_tests/internal/metricassert.go:236-241 | The loop, started with them, does so. |
| `Selection.PollAssertion` | functional_tests/internal/metricassert.go:205-213 | One read: passes exactly with the newest exact batch when the assertion accepts it. |
| `Selection.SelectMetricSetByAssertionWithTimeout` | functional_tests/internal/metricassert.go:202-224 | The run is the one the arrivals and the clock determine: polls made in time, one read each, until the newest exact batch is accepted or a test comes after the deadline; then the richest is judged. |
| `Selection.PollByAssertion` | functional_tests/internal/metricassert.go:203-213 | The polls before the deadline: all but the last rejected, and the last was made in time exactly when it passed. |
| `Selection.TimedByAssertionIsHonest` | functional_tests/internal/metricassert.go:202-224 | Over every run: a pass by polling means an exact, accepted batch, in time; the fallback, after the deadline, passes exactly when the assertion accepts it or there is none, and every exact batch a poll saw either failed the assertion or had a newer exact one after it. |
| `Marking.MarkEntry` | functional_tests/internal/metricassert.go:482-497 | One visit deletes and inserts exactly one key's entries. |
| `Marking.MarkAttrs` | functional_tests/internal/metricassert.go:471-499 | The in-place loop computes the closed-form map, in whatever order the keys are visited. |
| `Marking.MarkNonIdentityAttrs` | functional_tests/internal/metricassert.go:445-469 | The same for the second loop and its rule. |
| `Marking.MarkedEntry` | functional_tests/internal/metricassert.go:445-499 | Membership and value of every entry of the closed form; a moved entry wins over one already at its place. |
| `Marking.MarkedByPriority` | functional_tests/internal/metricassert.go:421-428 | Per unsuffixed key: regex beats volatile, volatile beats non-identity, otherwise the entry is kept. |
| `Marking.MarkingKeepsBaseNames` | functional_tests/internal/metricassert.go:445-499 | Marking never changes which attributes a map names. |
| `Marking.MarkingTwice` | functional_tests/internal/metricassert.go:445-499 | Marking a marked map with the same rule changes nothing. |
| `Marking.TwoPasses` | functional_tests/internal/metricassert.go:421-428 | The two passes over a datapoint equal one pass with the combined rule. |
| `AssertionDocument.RewritingTwice` | functional_tests/internal/metricassert.go:355-443 | Rewriting a whole rewritten document with the same options changes nothing. |
| `AssertionDocument.NothingToDoDocument` | functional_tests/internal/metricassert.go:356-358 | Without options the rewrite of a whole document changes nothing, so the early return agrees with it. |
| `AssertionDocument.AssertionExpectedCounts` | functional_tests/internal/metricassert.go:278-318 | Returns the resource and metric totals, or tells a malformed document from an empty one. |
| `AssertionDocument.RewritingKeepsCounts` | functional_tests/internal/metricassert.go:278-318 | Rewriting keeps the counts read back, and whether they can be read. |
| `AssertionDocument.RewritableIsReadable` | functional_tests/internal/metricassert.go:377-432 | Every document the rewrite gets through is well-formed for the counts. |
| `DocumentMeaning.MarkedExactly` | functional_tests/internal/metricassert.go:421-428 | A datapoint map after the rewrite, with suffixes and priorities written out: a patterned entry becomes `/regex`, else a volatile or unlisted one `/exists`, else it stays; matcher entries stay unless one of these takes their place, and there is nothing else. |
| `DocumentMeaning.ResourceMarkedExactly` | functional_tests/internal/metricassert.go:382-384 | The same for resource attributes, where a list of exact attributes has no say. |
| `DocumentMeaning.VersionedExactly` | functional_tests/internal/metricassert.go:394-397 | With a scope pattern `version` gives way to `version/regex` and all other fields stay; without one nothing changes. |
| `DocumentMeaning.RewrittenExactly` | functional_tests/internal/metricassert.go:377-432 | The rewritten document at every resource, scope, metric and datapoint, in terms of the four options alone. |
| `DocumentMeaning.RefreshedExactly` | functional_tests/internal/metricassert.go:337-349 | What a refresh leaves in the file, in terms of the fields of the configuration: the prepared payload, written, and rewritten in that sense. |
| `DocumentMeaning.RefusedExactly` | functional_tests/internal/metricassert.go:377-432 | The rewrite refuses exactly the documents with a node of the wrong type on the way; only attributes and datapoints may be missing. |
| `DocumentMeaning.UncountableExactly` | functional_tests/internal/metricassert.go:284-312 | The count reader refuses exactly the documents in which a resource or scope is no map, or their lists are no lists. |
| `DocumentMeaning.NothingExpectedExactly` | functional_tests/internal/metricassert.go:313-316 | Nothing is expected exactly when every scope of every resource can be read and has no metrics. |
| `DocumentNames.VersionNames` | functional_tests/internal/metricassert.go:394-397 | The scope pattern adds the name `version` and changes no other name. |
| `DocumentNames.NamesKeptExactly` | functional_tests/internal/metricassert.go:377-432 | For the whole tree: the base names at every node are unchanged if and only if there is no scope pattern or every scope names its version. |
| `DocumentNames.VersionlessExample` | functional_tests/internal/metricassert.go:394-397 | A document whose names a scope pattern changes. |
| `Rewriting.RewriteDatapoint` | functional_tests/internal/metricassert.go:415-429 | Both passes in place; fails exactly on a datapoint of the wrong shape. |
| `Rewriting.RewriteDatapoints` | functional_tests/internal/metricassert.go:415-430 | All datapoints of a list, each map object rewritten once. |
| `Rewriting.RewriteMetric` | functional_tests/internal/metricassert.go:402-430 | A missing datapoint list is fine, one of another type is an error. |
| `Rewriting.RewriteMetrics` | functional_tests/internal/metricassert.go:402-431 | All metrics of a scope. |
| `Rewriting.RewriteScope` | functional_tests/internal/metricassert.go:389-431 | Replaces the version entry, then rewrites the metrics. |
| `Rewriting.RewriteScopes` | functional_tests/internal/metricassert.go:389-432 | All scopes of a resource. |
| `Rewriting.RewriteAttrs` | functional_tests/internal/metricassert.go:382-384 | Marks the resource attributes if there are any; fails exactly when they are no map. |
| `Rewriting.RewriteResource` | functional_tests/internal/metricassert.go:378-432 | Marks the resource attributes, then rewrites the scopes. |
| `Rewriting.MarkFlexibleAttrs` | functional_tests/internal/metricassert.go:355-443 | Succeeds if and only if nothing is asked for or the whole document is well-shaped, and then the tree of map objects holds the rewritten document, each map visited once. |
| `Rewriting.ResourceRead` | functional_tests/internal/metricassert.go:378-388 | What the tree of map objects holds at a resource is read off its nodes. |
| `Rewriting.ScopeRead` | functional_tests/internal/metricassert.go:389-401 | The same at a scope. |
| `Rewriting.MetricRead` | functional_tests/internal/metricassert.go:402-414 | The same at a metric. |
| `Rewriting.DatapointRead` | functional_tests/internal/metricassert.go:415-429 | The same at a datapoint. |
| `Acceptance.MarkingWeakens` | functional_tests/internal/metricassert.go:445-499 | Whatever a map accepts, the marked map accepts, when every pattern matches the value it replaces. |
| `Acceptance.MarkedAcceptsExactly` | functional_tests/internal/metricassert.go:445-499 | Only where asked, for every map: a marked map accepts exactly the same names, equal unmarked values, matching patterned values, and what the matcher entries it keeps ask. |
| `Acceptance.PlainMarkedAcceptsExactly` | functional_tests/internal/metricassert.go:445-499 | For a map without matcher entries: the same names, equal unmarked values, matching patterned ones. |
| `Acceptance.MarkingWeakensExactly` | functional_tests/internal/metricassert.go:445-499 | Marking any map weakens it if and only if every pattern matches the value it replaces, or the map accepted nothing. |
| `Acceptance.AcceptsItselfExactly` | functional_tests/internal/metricassert.go:337-349 | A map of exact entries accepts the attributes it was written from if and only if no name looks like a matcher key. |
| `DocumentAcceptance.VersionWeakens` | functional_tests/internal/metricassert.go:394-397 | The version rewrite weakens a scope whose version is present and matches. |
| `DocumentAcceptance.RewritingWeakens` | functional_tests/internal/metricassert.go:355-443 | Every payload accepted by a document is accepted by the rewritten one, over the whole tree, when patterns fit. |
| `RewriteMeaning.WrittenAcceptsOwnExactly` | functional_tests/internal/metricassert.go:337-349 | The exact document written for a payload accepts that payload if and only if no attribute name looks like a matcher key. |
| `GoldenUpdate.RewritingWeakensExactly` | functional_tests/internal/metricassert.go:355-443 | For the document of a payload: the rewrite only weakens it if and only if every pattern matches and, with a scope pattern, every version is present and matches. |
| `GoldenUpdate.MissingVersionExample` | functional_tests/internal/metricassert.go:394-397 | A payload without a version and a scope pattern, for which the rewrite does not only weaken. |
| `GoldenUpdate.WrittenCounts` | functional_tests/internal/metricassert.go:278-318 | The counts read back from the document of a payload are the payload's own. |
| `RewriteMeaning.RefreshPassesExactly` | functional_tests/internal/metricassert.go:188-190 | After a refresh the payload passes its new assertion if and only if the patterns fit it and no name looks like a matcher key, though it was prepared twice. |
| `GoldenUpdate.PreparationKeepsSelection` | functional_tests/internal/metricassert.go:509-518 | Preparing changes neither the counts nor whether a batch is an exact match. |
| `GoldenUpdate.RefreshedBatchIsExact` | functional_tests/internal/metricassert.go:171-200 | The counts in a refreshed file make the selected batch an exact match for the next run. |
| `RewriteMeaning.FieldsAcceptExactly` | functional_tests/internal/metricassert.go:394-397 | A rewritten scope accepts exactly the scopes whose version is there and matches and whose other entries hold. |
| `RewriteMeaning.PlainAttrsAgree` | functional_tests/internal/metricassert.go:445-499 | Agreement of attributes in plain words, where no name looks like a matcher key. |
| `RewriteMeaning.PlainFieldsAgree` | functional_tests/internal/metricassert.go:394-397 | Agreement of scope fields in plain words, where no name looks like a matcher key. |
| `RewriteMeaning.RewrittenAcceptsExactly` | functional_tests/internal/metricassert.go:355-443 | Only where asked, for the whole tree: the rewritten document of a payload accepts exactly the payloads with the same tree up to order, the same names, equal unmarked values and matching patterned ones. |
| `RewriteMeaning.RefreshedAcceptsExactly` | functional_tests/internal/metricassert.go:171-200 | End to end: after a refresh from one batch, a later batch passes if and only if both, once prepared, agree in that sense. |
| `LogBodies.RoutedPutGet` | functional_tests/k8sevents/k8sevents_test.go:282-323 | A write that lands is read back at the place it went to. |
| `LogBodies.PutGetExactly` | functional_tests/k8sevents/k8sevents_test.go:282-323 | Every text written along a path is read back along it, without a panic, if and only if the intermediate nodes exist and no slice index is followed by two or more segments. |
| `LogBodies.WritableIsRouted` | functional_tests/k8sevents/k8sevents_test.go:282-323 | Those are exactly the paths that land where they point. |
| `LogBodies.MisroutedExample` | functional_tests/k8sevents/k8sevents_test.go:310-323 | A concrete path whose write goes past the segment after the index: the named place keeps its old text and another place changes. |
| `LogBodies.PutPut` | functional_tests/k8sevents/k8sevents_test.go:282-323 | A second write along a path overrides the first, for every path. |
| `LogBodies.ChangesNothingExactly` | functional_tests/k8sevents/k8sevents_test.go:282-323 | A path has no effect for any text if and only if its walk neither lands nor panics on a negative index: empty, missing or mistyped on the way, or ending at a slice element. |
| `LogBodies.LandsIsSafe` | functional_tests/k8sevents/k8sevents_test.go:282-323 | A walk that lands never panics. |
| `LogBodies.StopsExactly` | functional_tests/k8sevents/k8sevents_test.go:282-323 | The program panics exactly when the walk comes to a negative slice index with something left to write. |
| `LogBodies.PutStep` | functional_tests/k8sevents/k8sevents_test.go:290-307 | The write below the first key is the switch on its value, and nothing else changes. |
| `LogBodies.ElsewhereUntouched` | functional_tests/k8sevents/k8sevents_test.go:282-323 | Every place whose path parts from the place of the write, with slice indices compared as numbers, reads as before. |
| `LogBodiesInPlace.PutStr` | functional_tests/k8sevents/k8sevents_test.go:288 | Sets one key of a map object; the tree stays a tree. |
| `LogBodiesInPlace.UpdateMap` | functional_tests/k8sevents/k8sevents_test.go:282-308 | The mutually recursive update of the object tree computes the specified value, ends, and keeps the tree disjoint. |
| `LogBodiesInPlace.UpdateNested` | functional_tests/k8sevents/k8sevents_test.go:291-306 | The switch on the value under the first key, in place. |
| `LogBodiesInPlace.UpdateSlice` | functional_tests/k8sevents/k8sevents_test.go:310-323 | The same for an element of a slice object. |
| `LogBodiesInPlace.NodeKept` | functional_tests/k8sevents/k8sevents_test.go:282-323 | A subtree none of whose nodes was written still holds the same value. |
| `LogBodiesInPlace.UpdateRecord` | functional_tests/k8sevents/k8sevents_test.go:271-275 | Writes to a map body, skips any other, and leaves all other records alone. |
| `LogBodiesInPlace.UpdateScope` | functional_tests/k8sevents/k8sevents_test.go:270-276 | Every record of one scope, once. |
| `LogBodiesInPlace.UpdateLogRecordBody` | functional_tests/k8sevents/k8sevents_test.go:265-280 | The nested loops over resources, scopes and records update every map body once: where the path lands the new text is read at its route, and any other body is as before. |
| `LogBodiesInPlace.PutBodyExactly` | functional_tests/k8sevents/k8sevents_test.go:271-275 | A map body whose path lands reads the new text at its route; any other body is as before. |
| `LogBodiesInPlace.UpdatedIsWritten` | functional_tests/k8sevents/k8sevents_test.go:265-280 | The same for every record of a payload after the loops. |
| `LogBodiesInPlace.ViewExactly` | functional_tests/k8sevents/k8sevents_test.go:282-323 | What a node holds is read off it: the same keys or as many places, with the scalars and subtrees under them. |
| `LogGrouping.CompareAttributes` | functional_tests/k8sevents/k8sevents_test.go:253-263 | Where no key order meets two values that cannot be compared, the length test and the one-sided loop decide map equality. |
| `LogGrouping.GroupingConserves` | functional_tests/k8sevents/k8sevents_test.go:206-251 | Groups and scopes are pairwise distinct, and each (resource, scope) pair holds exactly the matching input records, modified, in input order. |
| `LogGrouping.GroupingConservesRecords` | functional_tests/k8sevents/k8sevents_test.go:206-251 | The multiset of (resource attributes, scope attributes, modified record) equals that of the matching input. |
| `LogGrouping.GroupsAreTheInputs` | functional_tests/k8sevents/k8sevents_test.go:206-240 | There is a group for each input resource and a scope for each input scope, with or without matching records, and no other. |
| `LogGrouping.MergeScopeAdds` | functional_tests/k8sevents/k8sevents_test.go:224-248 | Merging one scope appends its picked records to its own group and to no other. |
| `LogGrouping.MergeGroupAdds` | functional_tests/k8sevents/k8sevents_test.go:209-249 | The same for one resource. |
| `GroupingMeaning.PickedMembers` | functional_tests/k8sevents/k8sevents_test.go:239-247 | A record is picked exactly when it is what becomes of a record that has the attribute with the text asked for. |
| `GroupingMeaning.InGroupsExactly` | functional_tests/k8sevents/k8sevents_test.go:206-251 | The records filed under a pair of attributes are those that stand under it. |
| `GroupingMeaning.OutputExactly` | functional_tests/k8sevents/k8sevents_test.go:206-251 | The output holds, under each pair of attributes, exactly the rewritten records asked for that the input holds there. |
| `GroupingMeaning.TouchedExactly` | functional_tests/k8sevents/k8sevents_test.go:239-247 | The input afterwards: records asked for have the text of their body modified, all others and all attributes are as before. |
| `GroupingMeaning.SelectedExactly` | functional_tests/k8sevents/k8sevents_test.go:206-251 | Both, with the condition and the rewrite written out. |
| `GroupingMeaning.OrderExactly` | functional_tests/k8sevents/k8sevents_test.go:209-238 | Groups come in the order in which their resources first come, and the scopes of a group in the order in which they first come under such resources. |
| `GroupingMeaning.FirstsExactly` | functional_tests/k8sevents/k8sevents_test.go:209-238 | What that order is: the same entries, none twice, by where they first come. |
| `LogGroupingInPlace.RecordRead` | functional_tests/k8sevents/k8sevents_test.go:239-247 | What the input holds is read off the record object in each place. |
| `LogGroupingInPlace.PickRecords` | functional_tests/k8sevents/k8sevents_test.go:239-247 | Rewrites exactly the matching input bodies in place and copies those records. |
| `LogGroupingInPlace.SearchScope` | functional_tests/k8sevents/k8sevents_test.go:227-234 | The first output scope with equal attributes, or none. |
| `LogGroupingInPlace.SelectScopeAt` | functional_tests/k8sevents/k8sevents_test.go:224-248 | One input scope merged into the output, other input scopes untouched. |
| `LogGroupingInPlace.SelectScopes` | functional_tests/k8sevents/k8sevents_test.go:224-248 | All scopes of a resource. |
| `LogGroupingInPlace.SearchGroup` | functional_tests/k8sevents/k8sevents_test.go:212-219 | The first output resource with equal attributes, or none. |
| `LogGroupingInPlace.SelectResourceAt` | functional_tests/k8sevents/k8sevents_test.go:209-249 | One input resource merged into the output. |
| `LogGroupingInPlace.SelectResources` | functional_tests/k8sevents/k8sevents_test.go:209-249 | All resources, in order. |
| `LogGroupingInPlace.ScalarsAreSafe` | functional_tests/k8sevents/k8sevents_test.go:253-263 | With strings, booleans, numbers and empty values as resource and scope attributes, the call meets no comparison that can panic. |
| `LogGroupingInPlace.SelectLogs` | functional_tests/k8sevents/k8sevents_test.go:206-251 | The output holds exactly the records that have the attribute with the text asked for, their body text modified, each under its own attributes; in the input these bodies are modified and all else is unchanged. |
| `EntityKeys.Intersect` | functional_tests/k8sentities/k8sentities_test.go:368-376 | The set intersection, in any iteration order. |
| `EntityKeys.IntersectAll` | functional_tests/k8sentities/k8sentities_test.go:311-327 | The keys in every non-empty set; none when all are empty. |
| `EntityKeys.UnionAll` | functional_tests/k8sentities/k8sentities_test.go:329-337 | The keys in some set. |
| `EntityKeys.AggregateExactly` | functional_tests/k8sentities/k8sentities_test.go:291-337 | Membership in each of the four sets: unions have the keys of some record, cores those of every record that has any. |
| `EntityKeys.AggregateEntityKeys` | functional_tests/k8sentities/k8sentities_test.go:291-307 | Core and union per entity type, for exactly the types of the input. |
| `EntityKeys.DiffKeys` | functional_tests/k8sentities/k8sentities_test.go:379-388 | The sorted keys of one set that the other lacks, each once. |
| `EntityKeys.AssertEntityKeys` | functional_tests/k8sentities/k8sentities_test.go:394-404 | Passes if and only if each core is within the other side's union. |
| `EntityKeys.DifferencesAreCanonical` | functional_tests/k8sentities/k8sentities_test.go:379-388 | The sorted differences do not depend on map iteration order. |
| `EntityKeys.OrderIndependent` | functional_tests/k8sentities/k8sentities_test.go:291-337 | Core and union do not depend on the order of the records. |
| `EntityKeys.VerdictLaws` | functional_tests/k8sentities/k8sentities_test.go:390-404 | The verdict is reflexive, symmetric and independent of record order. |
| `EntityKeys.MonotoneExactly` | functional_tests/k8sentities/k8sentities_test.go:390-404 | A further record never turns a pass into a failure if and only if some actual record is non-empty already. |
| `EntityKeys.NormalizingTwice` | functional_tests/k8sentities/k8sentities_test.go:339-351 | Normalizing a normalized key changes nothing. |
| `EntityKeys.PassthroughNamesCollapse` | functional_tests/k8sentities/k8sentities_test.go:339-351 | Keys that differ only after their last passthrough segment normalize to one key. |
| `EntityKeys.NormalizeExactly` | functional_tests/k8sentities/k8sentities_test.go:339-351 | What follows the last `.label`, `.annotation` or `.selector` segment is cut, dots and all. |
| `EntityKeys.NormalizeKeeps` | functional_tests/k8sentities/k8sentities_test.go:346-351 | A key without such a segment stays. |
| `EntityKeys.MapKeys` | functional_tests/k8sentities/k8sentities_test.go:355-366 | The normalized keys of a map-valued attribute; none when it is missing or no map. |
| `PodsReady.ReadyWatch.constructor` | functional_tests/internal/common.go:459 | No poll has been made. |
| `PodsReady.ReadyWatch.Check` | functional_tests/internal/common.go:460-493 | One poll reports success exactly when the whole history so far ends in a long enough good run. |
| `PodsReady.CheckPodsReady` | functional_tests/internal/common.go:456-494 | Stops at the first poll whose history succeeds, and at no earlier one. |
| `PodsReady.SucceedsExactly` | functional_tests/internal/common.go:459-494 | Success means some stretch of consecutive non-empty, all-ready polls ending now spans the minimum time. |
| `PodsReady.GoodExactly` | functional_tests/internal/common.go:464-485 | A good poll saw at least one pod, and every pod running with a "Ready" condition that is "True". |
| `PodsReady.SuccessMeans` | functional_tests/internal/common.go:464-493 | A successful poll saw that, and so did every poll of the minimum time before it. |
| `PodsReady.BadPollRestarts` | functional_tests/internal/common.go:464-486 | After any bad poll, success depends on the later polls only. |
| `VolumeMounts.BacksExactly` | functional_tests/internal/common.go:338-340 | On clean paths, rooted or not, the string test is the component-wise prefix test, except that the top backs only itself. |
| `VolumeMounts.LongerIsDeeper` | functional_tests/internal/common.go:341-344 | Among mounts of one path, longer strings are exactly deeper mounts, and equal strings equal mounts. |
| `VolumeMounts.EligibleExactly` | functional_tests/internal/common.go:334-340 | The mounts that count are exactly those without sub-path that are rooted as the path is and whose components it starts with. |
| `VolumeMounts.Consider` | functional_tests/internal/common.go:333-345 | One mount replaces the best only when eligible and strictly longer. |
| `VolumeMounts.FindVolumeMountForPath` | functional_tests/internal/common.go:325-350 | The loops compute the running maximum over the mounts of all containers with the name. |
| `VolumeMounts.BestIsFirstLongest` | functional_tests/internal/common.go:341-344 | The running maximum is the first longest offer, or nothing when there is none. |
| `VolumeMounts.FindsTheDeepest` | functional_tests/internal/common.go:322-350 | The result is the deepest eligible mount in path components, the first of duplicates, and nothing exactly when none is eligible. |
| `VolumeMounts.RootMountBacksOnlyTheRoot` | functional_tests/internal/common.go:338-340 | A mount at the root counts for the root and for no other path. |
| `VolumeMounts.MountsOfPlus` | functional_tests/internal/common.go:327-332 | The mounts looked at are those of the containers with the name, in order. |
| `VolumeMounts.MountsOfOne` | functional_tests/internal/common.go:327-332 | A container gives all its mounts when it has the name, and none otherwise. |
| `PathCleaning.CleanAbsolute` | functional_tests/internal/common.go:326-337 | A rooted path of proper components without ".." has these components and is clean. |
| `PathCleaning.CleanIgnores` | functional_tests/internal/common.go:326-337 | A doubled slash, a "." and a trailing slash make no difference. |
| `PathCleaning.CleanTakesBack` | functional_tests/internal/common.go:326-337 | ".." takes back the component before it. |
| `PathCleaning.CleanUpFromTop` | functional_tests/internal/common.go:326-337 | At the root there is nothing to take back, and ".." alone stays. |
| `PathCleaning.CleaningTwice` | functional_tests/internal/common.go:326-337 | Cleaning a clean path changes nothing. |
| `PathCleaning.MountBacksFilesBelow` | functional_tests/internal/common.go:333-345 | A mount at a path of proper components counts for every file below it. |
| `KindImages.DecrementPatchVersion` | tools/k8s_versions/update_k8s_versions.go:154-171 | Which versions decrement, to what in 64 bits, and which error the others give, with what it quotes. |
| `KindImages.PatchRoundTrip` | tools/k8s_versions/update_k8s_versions.go:155-170 | Splitting a joined version gives the parts back with the new patch, for every 64-bit patch. |
| `KindImages.WrittenExactly` | tools/k8s_versions/update_k8s_versions.go:154-171 | The patch of a version as it is written is the number after the second dot, and changing it changes nothing else. |
| `KindImages.DecrementWraps` | tools/k8s_versions/update_k8s_versions.go:169 | One less, modulo 2 to the 64th. |
| `KindImages.DecrementGoesDown` | tools/k8s_versions/update_k8s_versions.go:113-132 | Each step looks up a strictly smaller measure, also through the wrap-around of a negative patch. |
| `KindImages.FindKindImage` | tools/k8s_versions/update_k8s_versions.go:112-132 | The inner loop ends for every tag, and goes on or stops by the text of the error. |
| `KindImages.AfterExactly` | tools/k8s_versions/update_k8s_versions.go:123-131 | An error lets the search go on to the next cycle exactly when it is the one about going below 0 or quotes text that holds that phrase. |
| `KindImages.SearchFindsGreatest` | tools/k8s_versions/update_k8s_versions.go:112-132 | From a canonical tag: exactly the greatest existing patch at or below it, nothing exactly when all are missing. |
| `KindImages.SearchExactly` | tools/k8s_versions/update_k8s_versions.go:112-132 | From a version as it is written: the greatest patch at or below it that exists. |
| `KindImages.GetLatestSupportedKindImages` | tools/k8s_versions/update_k8s_versions.go:109-135 | The images collected up to the first error. |
| `KindImages.ImagesExactly` | tools/k8s_versions/update_k8s_versions.go:107-135 | In cycle order, "v" plus the greatest existing patch of each cycle, and nothing for a cycle with none. |
| `KindImages.ImagesUntilFailure` | tools/k8s_versions/update_k8s_versions.go:113-117 | At the first cycle whose lookup fails, the images so far and that error, whatever follows. |
| `KindImages.CompareTags` | tools/k8s_versions/update_k8s_versions.go:207-217 | The comparison loop decides the descending lexicographic order on parts. |
| `KindImages.TagOrderIsTotal` | tools/k8s_versions/update_k8s_versions.go:206-218 | The comparator is a strict total order on "v"-prefixed strings. |
| `KindImages.TagOrderExactly` | tools/k8s_versions/update_k8s_versions.go:206-218 | The first part that differs decides, the greater string first; where one tag goes on after the other ends, the longer comes first. |
| `KindImages.SortVersions` | tools/k8s_versions/update_k8s_versions.go:206-218 | The slice ends up with the tags it had, sorted, in place; together with SortingIsCanonical this determines it. |
| `KindImages.SortingIsCanonical` | tools/k8s_versions/update_k8s_versions.go:270-271 | Any two sorted arrangements of the same tags are the same sequence: no false differences. |
| `KindImages.EqualWidthIsNumeric` | tools/k8s_versions/update_k8s_versions.go:212-214 | Decimals of equal width compare as numbers. |
| `KindImages.StringOrderIsNumericExactly` | tools/k8s_versions/update_k8s_versions.go:212-214 | For unequal plain decimals, when the string order agrees with the numeric one, exactly. |
| `KindImages.TagOrderIsNumeric` | tools/k8s_versions/update_k8s_versions.go:206-218 | Tags with equal-width decimal parts sort in numeric descending order. |
| `KindImages.TagOrderIsNumericExactly` | tools/k8s_versions/update_k8s_versions.go:206-218 | For all tags with plain decimal parts, when the order of two of them is numeric, exactly: by the first parts that differ. |
| `KindImages.WidthsAgreeExactly` | tools/k8s_versions/update_k8s_versions.go:212-214 | Different plain decimals are different numbers, and compare as numbers exactly when their widths agree. |
| `KindImages.WidthsMatter` | tools/k8s_versions/update_k8s_versions.go:206-218 | Without equal widths it is not numeric: v1.9.0 sorts before v1.10.0. |
| `LogLines.MessageKey` | functional_tests/internal/component_health.go:115-121 | What follows the first tab, or the whole line. |
| `LogLines.KeyExactly` | functional_tests/internal/component_health.go:115-121 | The key is what follows the first tab, and the whole line when there is none. |
| `LogLines.MatchesExactly` | functional_tests/internal/component_health.go:98-113 | The lines taken: not blank, with an error or a warning between tabs, and with the component somewhere, all in lower case. |
| `LogLines.MatchingOne` | functional_tests/internal/component_health.go:96-113 | A line on its own is taken or not. |
| `LogLines.MatchingPlus` | functional_tests/internal/component_health.go:96-113 | Lines are taken one by one, in order. |
| `LogLines.KeysAreCounted` | functional_tests/internal/component_health.go:123-130 | The keys listed are distinct and are exactly those that occur. |
| `LogLines.CountsAddUp` | functional_tests/internal/component_health.go:123-130 | The counts of the distinct keys sum to the number of matching lines. |
| `LogLines.SummaryIsCanonical` | functional_tests/internal/component_health.go:133-142 | Rendering the keys in any order and sorting gives the same summary. |
| `LogLines.CountExactly` | functional_tests/internal/component_health.go:123-130 | The count of a key is the number of places at which it occurs. |
| `LogLines.FirstIs` | functional_tests/internal/component_health.go:126-129 | The first line of a key is the first line that has it. |
| `LogLines.SummaryExactly` | functional_tests/internal/component_health.go:123-142 | A line is in the summary exactly when it is the first line of its key, with the number of occurrences if there are more than one; there is one for every key, and they are sorted. |
| `LogLines.OneMessage` | functional_tests/internal/component_health.go:115-136 | Two lines that differ only before their first tab give one line, repeated two times. |
| `LogLines.TwoOfOneKey` | functional_tests/internal/component_health.go:115-136 | Two lines of one key give one line. |
| `LogLines.Record` | functional_tests/internal/component_health.go:123-130 | Updating the map of mutable entries keeps counts and first lines right. |
| `LogLines.RenderEntries` | functional_tests/internal/component_health.go:133-140 | The loop over the map, in any order, sorts to the summary. |
| `LogLines.FindMatchingLogLines` | functional_tests/internal/component_health.go:88-145 | One line per distinct key of the matching lines, with its first line and its count, sorted. |
| `Ordering.StableSortIsStable` | functional_tests/internal/metricassert.go:578-582 | What is assumed of the library sort: elements the comparison cannot tell apart keep their order. |
| `Ordering.SortedIsUnique` | tools/k8s_versions/update_k8s_versions.go:206-218 | Under a strict total order a sorted arrangement is unique. |
| `Ordering.LexExactly` | tools/k8s_versions/update_k8s_versions.go:206-218 | Lexicographic order: a proper prefix comes first, otherwise the first place that differs decides. |
| `Ordering.StringOrderExactly` | tools/k8s_versions/update_k8s_versions.go:212-214 | The same for strings and their characters. |
| `Text.HasSuffixExactly` | functional_tests/internal/metricassert.go:453-480 | A string has a suffix exactly when it is something followed by it. |
| `Text.ContainsExactly` | functional_tests/internal/component_health.go:104-113 | A string contains a part exactly when the part stands somewhere in it. |
| `Text.SplitFirst` | functional_tests/internal/component_health.go:115-121 | Splitting at a separator: the first part ends at the first one. |
| `Text.JoinSplit` | tools/k8s_versions/update_k8s_versions.go:155-170 | Joining what was split gives the string back. |
| `Text.SplitJoin` | tools/k8s_versions/update_k8s_versions.go:155-170 | Splitting what was joined gives the parts back, when no part holds the separator. |
| `Text.AtoiItoa` | tools/k8s_versions/update_k8s_versions.go:160-169 | Reading a printed 64-bit number gives it back. |
| `Text.AtoiForms` | functional_tests/k8sevents/k8sevents_test.go:295-299 | Leading zeros and a sign are read as in decimal notation. |
| `Text.AtoiRefuses` | functional_tests/k8sevents/k8sevents_test.go:295-299 | Nothing but an optional sign and digits is a number. |

## Left out

- Helm releases, Kubernetes calls, pod exec, receivers, HTTP and file access: I/O. A registry lookup is a fixed function of the tag, a pod list is part of a poll, a log is a string.
- YAML and JSON parsing and printing: documents start as parsed trees. When the rewrite fails the file is not written, so what it left in the tree is not stated.
- pmetricassert: the meaning of exact, `/exists` and `/regex` entries, matching list items in some order, and the document written for a payload (`Written`) are assumptions stated in Dafny. The written document of a metric without datapoints lists none rather than lacking the list.
- Regular expressions: any relation between a pattern and a value. The one pattern of the entity keys is written out.
- The attribute digest: any function into byte strings; where collisions matter, they are a condition in the statement.
- Floating point: doubles are reals, so NaN and negative zero, which differ from themselves or tie with zero, do not occur.
- The order of entries inside an attribute map, and the sorting of keys before the marking loops: those loops are proved for every order.
- `strings.ToLower` and `strings.TrimSpace` are parameters of the log summary.
- Error texts, except those the version search looks into; wrapped errors are told apart by kind. Log output and failure messages are not modelled.
- A stop of the test by `require` where nothing was selected shows as index -1, or as an empty mount.
- RemoveFlakyMetrics, RetainNumberMetricDatapointsForPod, selectResLogs, histogram comparison, the Minikube list and the configuration options: they would only add easy members.
- `Selection.MetricsSink.AllMetrics`: batches are values, not references into the sink, and what the sink holds at each read is given from outside; where the order of batches matters the sink only grows, so its reset is not modelled.
- `Selection.SelectMetricSetWithTimeout`: real time is a clock that never goes back and advances over every sleep, by a given amount at each use; the same holds for the other two retry loops. Past the given amounts no further delay occurs, which leaves out no finite run.
- `PodsReady.CheckPodsReady`: the clock is non-zero and does not go back, and polls are a finite sequence; the timeout that ends polling is its length.
- `LogBodiesInPlace.UpdateMap`: requires that no negative slice index is used to reach an element, because the program stops with a panic there; `StopsExactly` says where that is.
- `LogBodies.ElsewhereUntouched`: places are compared with the place the write goes to, which differs from the path given where a segment is passed over.
- `LogGrouping.CompareAttributes`: requires that no key order meets two maps, two slices or two byte slices, because the program may panic there, depending on the order of iteration.
- `LogGroupingInPlace.SelectLogs`: requires the same of every comparison its searches make, which `ScalarsAreSafe` meets for scalar attributes. The output is a value; only the input records are objects. Numbers of different raw Go types are different values.
- `GoldenUpdate.RewritingWeakensExactly`: payloads with attribute names that end in `/exists` or `/regex` are excluded. `DocumentAcceptance.RewritingWeakens` has no such condition, and `Acceptance.MarkingWeakensExactly` has none for one map.
- `VolumeMounts.FindsTheDeepest`: `path.Clean` is written out on components.
- `KindImages.SortVersions`: tags begin with "v", as the search produces them; on the empty string the program panics.
- `KindImages.ImagesExactly`: patches are written without leading zeros or signs.
- `KindImages.TagOrderIsNumericExactly`: parts are decimals without leading zeros; other parts are not numbers to compare.
