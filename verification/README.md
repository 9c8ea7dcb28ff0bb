# Proofs about the instrumentation agent's algorithms

This project models the self-contained algorithms inside the eBPF auto-instrumentation agent and proves what
they guarantee. Each module follows one or two files of the repository. Code that works in place is written as
methods and classes; every such method is tied to a function or relation on values, and what the code
promises is proved about those for all inputs and all runs.

| module | models |
|---|---|
| `XskRing`, `RingInUse` | the single-producer/single-consumer ring of `internal/include/libbpf/xsk.h`, its runs, and both ends in place |
| `Alloc`, `AllocRuns` | the per-CPU bump allocator of `internal/include/alloc.h`, one call and whole runs |
| `GoSlice` | appending to a Go slice in the traced process, `internal/include/go_types.h` |
| `EventHeap`, `DelayQueue`, `QueueProgress` | the delayed event queue of `pkg/instrumentors/utils/priority_queue.go` |
| `Text`, `Version`, `VersionRegexp`, `VersionOrder`, `VersionCoherence`, `Constraint` | parsing, printing, comparing and constraining versions, `LICENSES/github.com/hashicorp/go-version` |
| `OffsetTable`, `OffsetWriter`, `OffsetCache` | writing, compressing and reading the table of field offsets |
| `GoroutineMap` | goroutine ancestry and trace inheritance, `pkg/instrumentors/gmap/gmap.go` |
| `SpanContextCodec` | the hexadecimal and traceparent codecs, `internal/include/utils.h` and `span_context.h` |
| `BuildInfo` | the Go build-information decoder of `pkg/process/module.go` |
| `Machine`, `UserMemory` | fixed-width arithmetic and the memory of the traced process |

Main results, in the system's terms:

- **Ring.** In every interleaving of the two ends, from any start value of the counters and across their
  wrap-around, what the consumer releases is a prefix of what the producer submitted, held entries read as
  they were submitted, and a writable slot never holds an unreleased entry. Although both cached indices are
  stale, a reservation succeeds exactly when there is room and a peek is empty exactly when nothing is left.
  `RingInUse.Ring` puts the two objects to work in place and shows that each call is a step of those runs.
- **Allocator.** Requests of nonzero size stay inside the calling CPU's partition in every run *if and only
  if* every partition ends at a multiple of 8; with requests of size 0 no area at all is safe. A block keeps its bytes until another CPU starts over or its own
  CPU has allocated more than the partition size less 1024 and less the largest request there, which for requests
  up to 1024 is partition size - 2048. The map is a per-CPU hash, and deleting
  an element of it deletes the values of all CPUs, so one CPU starting over makes every other CPU start over
  with its next call; counting only a block's own CPU is therefore enough exactly when there is one CPU (or
  the partition is too small for the count to matter), which is proved as an equivalence.
- **Slice append.** With all writes let through, an append adds the item or changes nothing. With some refused,
  the header is right exactly under the conditions of `InPlaceRightIff` and `MovedRightIff`; otherwise it
  describes memory that was not written, at address 0 when the new block is refused and its address is not.
- **Queue.** If events arrive with a lateness between c and c + jitter, every run dispatches in order of
  priority *if and only if* the delay is at least the jitter. Nothing is lost or duplicated, the bound is
  kept, and nothing is dispatched early. An event waits at most for the delay and the jitter, and then for as many
  turns as there are events before it. All of this is for a clock that shows at least one delay since its
  epoch; below that the unsigned threshold wraps, as `DispatchAfterDelay` says.
- **Versions.** The parser accepts exactly the texts that match the expression, printing and parsing undo
  each other, and `Compare` is the padded lexicographic order on releases. For pre-releases it agrees with
  section 11 of Semantic Versioning 2.0.0 *if and only if* neither pre-release continues the other with a
  textual identifier; there the code orders `alpha.beta` below `alpha`, against item 11.4.4. `Compare` is a
  total preorder on a set of versions *if and only if* three patterns are absent: two spellings of a number, or a
  number out of range before a text, where pre-releases first differ (1.0.0-1 and 1.0.0-01 are each below the
  other); a pre-release with one continuation that is a number and one that is not (`alpha` < `alpha.1` <
  `alpha.beta` < `alpha`); and two pre-releases next to a version that differs from them in trailing zeros
  (1.0.0.0 equals both 1.0.0-alpha and 1.0.0-beta). Each of them is shown to occur.
- **Offset table.** Searching the compressed table is searching the full one, whatever the offsets, *if and only
  if* the recorded versions not above the one looked up are the oldest ones. Every version is like that among
  releases, and every version that makes none of the three patterns with the recorded ones. It is not so in
  general: with 1.0.0-alpha and 1.0.0-alpha.1 recorded at one offset, 1.0.0-alpha.beta finds it in the full table
  and nothing in the compressed one. For such versions both readers give the answer of the full table, and the
  cache returns exactly what was recorded. When `Between` holds the search succeeds for any version at all.
- **Ancestry.** The walk ends *if and only if* the nearest tracked proper ancestor is not goroutine 1. In
  every legal run all tracked goroutines on a chain share one trace. Server probes replace the context of a
  tracked goroutine; that keeps the traces inherited *if and only if* the new context is in the trace of the
  nearest tracked ancestor and of the tracked goroutines right below, and a run in which it is not is given.
- **Build information.** Framed text comes back as it was written, and the search for the header goes round
  forever *if and only if* it comes to a hit that is unaligned in an even block of 16 bytes.

Where the code and its comments disagree, the code is followed. The comment in `offsets-tracker/schema/schema.go`
that offsets are sorted in descending order is not what the writer does: it stores them in ascending order, and
the readers search from the end.

## Model

| member | source | states |
|---|---|---|
| XskRing.ReleasedIsPrefixOfSubmitted | internal/include/libbpf/xsk.h:183-226 | In every legal run the entries released are a prefix, in order, of the entries submitted, and at most `size` entries are reserved or submitted but not released |
| XskRing.HeldEntriesAreSubmitted | internal/include/libbpf/xsk.h:138-144 | Every entry the consumer holds after peeks and cancels reads as the entry submitted at that position, never an unsubmitted one |
| XskRing.WritableSlotsAreFree | internal/include/libbpf/xsk.h:130-136 | A slot the producer may write is no slot of an unreleased entry nor of another entry it may write, whatever the counters have wrapped to |
| XskRing.SubmitsWhatWasWritten | internal/include/libbpf/xsk.h:130-200 | In every reachable state a write replaces exactly its own entry among those reserved, a submission hands on the first of them as they were written, and no other call touches them |
| XskRing.ReserveIsExact | internal/include/libbpf/xsk.h:151-192 | Despite the stale consumer index a reservation succeeds exactly when the ring has room for it, and hands out the entries right after those still owed |
| XskRing.PeekIsExact | internal/include/libbpf/xsk.h:171-212 | Despite the stale producer index a peek is empty exactly when nothing is asked for or no submitted entry is left; it hands out submitted entries right after those held, as many of those seen before as asked for, or of all that are left once these are used up |
| XskRing.InvStep | internal/include/libbpf/xsk.h:151-226 | Every call of either end keeps the wrapped counters equal to unbounded positions with released <= peeked <= last seen <= submitted <= reserved <= last seen released + size |
| XskRing.SlotIsRemainder | internal/include/libbpf/xsk.h:130-144 | For a power-of-two size, masking a counter that wrapped at 32 bits gives the position modulo the size |
| XskRing.XskRingProd.NbFree | internal/include/libbpf/xsk.h:151-169 | In place: the free count and the refreshed consumer index of the specification |
| XskRing.XskRingProd.Reserve | internal/include/libbpf/xsk.h:183-192 | In place: counters, count and index of the specification whose runs are proved |
| RingInUse.Ring.Reserve | internal/include/libbpf/xsk.h:183-192 | In place, in any use of the ring: a step of the runs; the whole batch if the ring has room for it, and nothing otherwise |
| RingInUse.Ring.Write | internal/include/libbpf/xsk.h:130-136 | In place: a step of the runs, after which the k-th entry reserved and not submitted holds the value and the others what they held |
| RingInUse.Ring.Submit | internal/include/libbpf/xsk.h:194-200 | In place: a step of the runs; what was written into the first entries is what has been submitted |
| XskRing.XskRingCons.NbAvail | internal/include/libbpf/xsk.h:171-181 | In place: the available count and the refreshed producer index of the specification |
| XskRing.XskRingCons.Peek | internal/include/libbpf/xsk.h:202-212 | In place: counters, count and index of the specification whose runs are proved |
| RingInUse.Ring.Peek | internal/include/libbpf/xsk.h:202-212 | In place: a step of the runs; only submitted entries, and some whenever one is left |
| RingInUse.Ring.Cancel | internal/include/libbpf/xsk.h:214-217 | In place: a step of the runs |
| RingInUse.Ring.Release | internal/include/libbpf/xsk.h:219-226 | In place: a step of the runs; what has been released grows by the next submitted entries, in order |
| RingInUse.Ring.Read | internal/include/libbpf/xsk.h:138-144 | The k-th peeked entry reads as the entry submitted at that position |
| AllocRuns.InsideIffAligned | internal/include/alloc.h:38-124 | Over all runs of calls with nonzero sizes on all CPUs, every block lies in the partition of the calling CPU, if and only if all partitions end at multiples of 8 |
| AllocRuns.BlocksOfCpusDisjoint | internal/include/alloc.h:38-71 | Blocks inside the partitions of two CPUs share no byte |
| AllocRuns.PartitionsTile | internal/include/alloc.h:40-63 | The partitions start at the start of the area, follow each other without gaps, are as long as the area divided by the number of CPUs, and leave fewer bytes over than there are CPUs |
| AllocRuns.PartitionSizeIs | internal/include/alloc.h:40 | That length for every configuration, also where the unsigned difference of the bounds wraps |
| AllocRuns.ClampedIs | internal/include/alloc.h:103-105 | A request stores as many bytes as it asks for, but at least 1 and at most 1024 |
| AllocRuns.ZeroSizeInsideIffRoom | internal/include/alloc.h:93-105 | A request of size 0 passes the test for room but stores one byte, which is inside the partition exactly when the partition is not full |
| AllocRuns.ZeroSizesNeverInside | internal/include/alloc.h:93-105 | In every area, aligned or not, some run stores a byte outside the caller's partition: where partitions are aligned, a request of size 0 after the partition has been filled |
| AllocRuns.BlockUntouched | internal/include/alloc.h:86-124 | A stored block of any requested size keeps its bytes, whatever all CPUs do, while no other CPU starts over and its own has allocated at most partition size - 1024 - limit rounded bytes, where limit is the largest request there as an unsigned number |
| AllocRuns.KeptForOwnBytesIff | internal/include/alloc.h:93-101 | Without the proviso about other CPUs this holds in all runs if and only if there is a single CPU or the partition is smaller than 1024 + limit + 8 bytes, for every limit |
| AllocRuns.ForeignWrapOverwrites | internal/include/alloc.h:93-101 | Otherwise a run in which another CPU starts over and the next call overwrites a block at once |
| AllocRuns.NoWrapAscending | internal/include/alloc.h:103-117 | While no CPU starts over, each CPU's blocks are pairwise disjoint and ascending |
| AllocRuns.CallEffect | internal/include/alloc.h:86-124 | One call in terms of the CPU's position: when it starts over, where it stores how much, what it returns, and that other CPUs keep their end and lose their position only if it starts over |
| AllocRuns.TargetFits | internal/include/alloc.h:95-105 | The signed size compared as unsigned: any nonzero request, negative or oversized, ends up with a clamped block that fits the partition |
| Alloc.Allocator.AreaStart | internal/include/alloc.h:38-54 | In place: the start address and the map of the specification |
| Alloc.Allocator.AreaEnd | internal/include/alloc.h:56-71 | In place: the end address and the map of the specification |
| Alloc.Allocator.Write | internal/include/alloc.h:86-124 | In place: map, memory and returned pointer of the specification whose runs are proved |
| GoSlice.AppendAppendsOrNothing | internal/include/go_types.h:76-127 | With all writes let through, the header and memory either hold the old items and the new one, in the old array with the same capacity or in the block the allocator returned with a capacity larger by one, or nothing at all changed; which it is follows from length, capacity and item size alone |
| GoSlice.InPlaceEffect | internal/include/go_types.h:78-82 | With room, for any writes and any memory: base and capacity stay in both copies of the header, nothing is allocated, and no byte outside the item's place changes |
| GoSlice.MovedEffect | internal/include/go_types.h:91-127 | Without room and within 400 bytes, for any writes and any memory: exactly the old items and the new one go to the allocator, and both copies of the header get its address and a length and capacity larger by one as far as they are written |
| GoSlice.NoRoomNoEffect | internal/include/go_types.h:83-111 | Without room and with a length outside 1 to 400, no buffer, or more than 400 bytes to copy, nothing changes |
| GoSlice.TruncationNotObservable | internal/include/go_types.h:91-111 | The cut to 400 bytes and the 32-bit product never show: whenever either changes the size, nothing is appended |
| GoSlice.InPlaceRightIff | internal/include/go_types.h:76-127 | With room and any writes refused, the header describes the old items or those and the new one, if and only if no new length was written without the item (or the item already stood there) |
| GoSlice.MovedRightIff | internal/include/go_types.h:91-127 | When the array moves and any writes are refused, the exact condition on the writes, and where needed on the memory, under which the header is right; a refused block leaves address 0 in it |
| GoSlice.AppendItemToSlice | internal/include/go_types.h:76-127 | In place: slice, header and allocator as in the specification, for every combination of refused writes |
| EventHeap.PriorityQueue.Swap | pkg/instrumentors/utils/priority_queue.go:31-35 | Exchanges two items, keeps every item's recorded position right and loses no event |
| EventHeap.PriorityQueue.Append | pkg/instrumentors/utils/priority_queue.go:37-42 | Puts the item at the end with its position recorded |
| EventHeap.PriorityQueue.TakeLast | pkg/instrumentors/utils/priority_queue.go:44-52 | Takes the last item off, marks it as out of the queue, keeps the other positions |
| EventHeap.PriorityQueue.HeapPush | pkg/instrumentors/utils/priority_queue.go:97-102 | Keeps heap order and positions and adds exactly this event |
| EventHeap.PriorityQueue.HeapPop | pkg/instrumentors/utils/priority_queue.go:138 | Returns an event of least priority number, keeps heap order and positions of the rest, removes exactly that event |
| EventHeap.RootIsLeast | pkg/instrumentors/utils/priority_queue.go:27-29 | Under the heap order the first item comes before all others |
| DelayQueue.InOrderIffDelayCoversJitter | pkg/instrumentors/utils/priority_queue.go:88-103 | Over all runs whose events have a lateness between c and c + jitter, no event is dispatched after one of higher priority number, if and only if the delay is at least the jitter |
| DelayQueue.InOrderRun | pkg/instrumentors/utils/priority_queue.go:130-147 | In such runs dispatched priorities never decrease, the error branch is never taken, and nothing queued belongs before what was dispatched |
| DelayQueue.LateEventOvertaken | pkg/instrumentors/utils/priority_queue.go:139-147 | With a smaller delay, a run that dispatches out of order |
| DelayQueue.LoggedAreInversions | pkg/instrumentors/utils/priority_queue.go:139-147 | In every run the error is logged once for each event dispatched right after one of higher priority number |
| DelayQueue.Conservation | pkg/instrumentors/utils/priority_queue.go:130-156 | After any run the accepted events are, as a multiset, the handled, the dropped and the queued ones |
| DelayQueue.SizeBounded | pkg/instrumentors/utils/priority_queue.go:92-95 | A nonzero bound is never exceeded, although a turn pops and pushes back |
| DelayQueue.AcceptedIffRoom | pkg/instrumentors/utils/priority_queue.go:88-103 | An event is accepted exactly when there is room; bounds from 2^63 on accept nothing |
| DelayQueue.DispatchAfterDelay | pkg/instrumentors/utils/priority_queue.go:130-156 | A turn dispatches at most one event, a head of the queue, not before its delay is over, to its handler if it has one; and dispatches one once all queued events are due |
| DelayQueue.HandlersIff | pkg/instrumentors/utils/priority_queue.go:105-117 | After any run exactly those types have a handler that were registered and not unregistered since |
| DelayQueue.DispatchedToHandler | pkg/instrumentors/utils/priority_queue.go:148-156 | In any run an event is handed to a handler, and not dropped, exactly when its type is registered at that moment |
| QueueProgress.DueTurnsDrain | pkg/instrumentors/utils/priority_queue.go:130-156 | Once everything queued is due, k turns dispatch k events or empty the queue |
| QueueProgress.GoneAfterThoseAhead | pkg/instrumentors/utils/priority_queue.go:130-156 | Once delay and jitter have passed since it arrived, an event is gone after as many turns as there are events that belong before it, whatever else is pushed |
| QueueProgress.WaitIsBounded | pkg/instrumentors/utils/priority_queue.go:130-156 | So in every run with bounded lateness such an event has by then been dispatched |
| DelayQueue.EventPriorityQueue.Push | pkg/instrumentors/utils/priority_queue.go:88-103 | In place: a step of the specification, with the heap kept valid |
| DelayQueue.EventPriorityQueue.Register | pkg/instrumentors/utils/priority_queue.go:105-110 | In place: a step of the specification |
| DelayQueue.EventPriorityQueue.Unregister | pkg/instrumentors/utils/priority_queue.go:112-117 | In place: a step of the specification |
| DelayQueue.EventPriorityQueue.Turn | pkg/instrumentors/utils/priority_queue.go:130-156 | In place: a step of the specification, also when the event is popped and pushed back |
| Version.MalformedIffNoMatch | LICENSES/github.com/hashicorp/go-version/version.go:20-64 | A text is rejected as malformed exactly when it does not split in any way into optional v, segments, pre-release and metadata |
| VersionRegexp.MalformedIffRegexpFails | LICENSES/github.com/hashicorp/go-version/version.go:20-64 | A text is rejected as malformed exactly when the regular expression, written out as an expression with its own meaning, does not match it |
| Version.CutFindsMatch | LICENSES/github.com/hashicorp/go-version/version.go:20-30 | There is at most one such split, the one the parser cuts |
| Version.ParsedIsValid | LICENSES/github.com/hashicorp/go-version/version.go:65-96 | A parsed version has at least three segments, all within 64 bits, zeros where none were written, and well-formed pre-release and metadata |
| Version.ParsedSegments | LICENSES/github.com/hashicorp/go-version/version.go:65-96 | The segments are the numbers written, in order, and zeros up to three of them; the text is out of range exactly when a number exceeds 64 bits |
| Version.ParsedTexts | LICENSES/github.com/hashicorp/go-version/version.go:84-96 | The pre-release is what was written, without its dash wherever it can do without; the metadata is what follows the plus; the text itself is kept |
| Version.PrintParseRoundTrip | LICENSES/github.com/hashicorp/go-version/version.go:367-384 | For every accepted text, the printed form is accepted and parses to the same segments, pre-release and metadata; printing again changes nothing |
| Version.PrintInjective | LICENSES/github.com/hashicorp/go-version/version.go:114-118 | Versions that print alike agree in segments, pre-release and metadata, so the shortcut of Compare is sound |
| Version.NewVersion | LICENSES/github.com/hashicorp/go-version/version.go:60-96 | The loops over the segments compute the parse the other results are about, errors included |
| Version.Print | LICENSES/github.com/hashicorp/go-version/version.go:367-384 | The buffer ends up with the printed form the other results are about |
| Text.ParseOfFormat | LICENSES/github.com/hashicorp/go-version/version.go:368-374 | Parsing a formatted segment gives the segment back |
| Text.ParseSigned | LICENSES/github.com/hashicorp/go-version/version.go:192-206 | A number behind an optional sign and zero is read as itself within 64 bits, and otherwise as the nearest bound with an error |
| Text.FormatCanonical | LICENSES/github.com/hashicorp/go-version/version.go:368-374 | Segments are printed without leading zeros |
| VersionOrder.ReleaseOrder | LICENSES/github.com/hashicorp/go-version/version.go:114-181 | Releases compare in the lexicographic order of their segments, of any lengths, padded with zeros, whatever the metadata |
| VersionOrder.OtherSegmentsOrder | LICENSES/github.com/hashicorp/go-version/version.go:140-181 | Versions with different segment lists compare by segments alone, even if only trailing zeros differ and the pre-releases do too |
| VersionOrder.CompareIsSemverIff | LICENSES/github.com/hashicorp/go-version/version.go:123-138 | With equally many segments and well-formed identifiers, Compare is the precedence of section 11 of Semantic Versioning 2.0.0 if and only if neither pre-release continues the other with a textual identifier |
| VersionOrder.CompareIsSemverForEqualCounts | LICENSES/github.com/hashicorp/go-version/version.go:239-277 | In particular it is that precedence for equally many identifiers |
| VersionOrder.ComparePartsMeaning | LICENSES/github.com/hashicorp/go-version/version.go:239-277 | What the loop over identifiers decides, including the case it gets wrong |
| VersionOrder.ComparePartGood | LICENSES/github.com/hashicorp/go-version/version.go:192-237 | On well-formed identifiers comparePart decides items 11.4.1 to 11.4.3, and exactly one of two different ones is less |
| VersionOrder.SemverStrictOrder | LICENSES/github.com/hashicorp/go-version/version.go:108-181 | The precedence Compare is held against is a strict order on comparable versions, total up to metadata |
| VersionCoherence.CoherentIff | LICENSES/github.com/hashicorp/go-version/version.go:108-277 | On any set of versions, Compare is a total preorder if and only if no two pre-releases first differ in identifiers that are misread, none is continued both by a number and by something else, and none of two different ones differs from a third version in trailing zeros only |
| VersionCoherence.ReleasesCoherent | LICENSES/github.com/hashicorp/go-version/version.go:108-181 | In particular it is one on any set of releases |
| VersionCoherence.ComparableCoherentIff | LICENSES/github.com/hashicorp/go-version/version.go:239-277 | With equally many segments and well-formed identifiers only the second pattern can occur |
| VersionCoherence.SemverCoherent | LICENSES/github.com/hashicorp/go-version/version.go:108-181 | So Compare is a total preorder where it is the precedence of Semantic Versioning on every pair |
| VersionCoherence.PartSigns | LICENSES/github.com/hashicorp/go-version/version.go:192-237 | comparePart answers both orders of two identifiers consistently exactly when they are not misread |
| VersionCoherence.PartMeaning | LICENSES/github.com/hashicorp/go-version/version.go:192-237 | What comparePart decides about any two different identifiers, well-formed or not: numbers by value and before texts, texts as strings; of misread ones each is less if they are numbers and greater if not |
| VersionCoherence.PartTransitive | LICENSES/github.com/hashicorp/go-version/version.go:192-237 | Apart from misread identifiers it cycles only through a missing one, a number and a text |
| VersionCoherence.MisreadPairBreaks | LICENSES/github.com/hashicorp/go-version/version.go:192-237 | Versions that first differ in misread identifiers are each below, or each above, the other |
| VersionCoherence.MisreadOccurs | LICENSES/github.com/hashicorp/go-version/version.go:192-237 | As are 1.0.0-1 and 1.0.0-01 |
| VersionCoherence.CompareCycles | LICENSES/github.com/hashicorp/go-version/version.go:211-237 | A pre-release of any length, its continuation by a number and its continuation by a text are each less than the next, and the last less than the first |
| VersionCoherence.CompareCanCycle | LICENSES/github.com/hashicorp/go-version/version.go:211-237 | As are 1.0.0-alpha, 1.0.0-alpha.1 and 1.0.0-alpha.beta |
| VersionCoherence.ZeroTwinBreaks | LICENSES/github.com/hashicorp/go-version/version.go:140-181 | A version that differs from two different pre-releases in trailing zeros only is equal to both, which are not equal to each other |
| VersionCoherence.ZeroTwinOccurs | LICENSES/github.com/hashicorp/go-version/version.go:140-181 | As is 1.0.0.0 to 1.0.0-alpha and 1.0.0-beta |
| VersionOrder.CompareVersions | LICENSES/github.com/hashicorp/go-version/version.go:114-181 | The method, with its loops, computes the comparison the other results are about |
| VersionOrder.CompareSegmentsLoop | LICENSES/github.com/hashicorp/go-version/version.go:140-181 | The loop over segments of two lengths computes the specification |
| VersionOrder.ComparePrereleasesLoop | LICENSES/github.com/hashicorp/go-version/version.go:239-277 | The loop over identifiers computes the specification |
| Constraint.PessimisticIsInterval | LICENSES/github.com/hashicorp/go-version/constraint.go:251-290 | Among releases "~> c" accepts v exactly when v has at least as many segments and lies from c up to, but not including, c's prefix bumped at the last but one written segment; unbounded when one is written |
| Constraint.PessimisticMeaning | LICENSES/github.com/hashicorp/go-version/constraint.go:191-209 | Over all versions: that interval of releases for a release, and later pre-releases of the same segments for a pre-release |
| Constraint.LastTestRedundant | LICENSES/github.com/hashicorp/go-version/constraint.go:281-286 | The final test on the last segment never rejects what the earlier tests let through |
| Constraint.ReleaseConstraint | LICENSES/github.com/hashicorp/go-version/constraint.go:227-249 | Among releases the other operators are those of the padded lexicographic order |
| Constraint.PrereleaseConstraint | LICENSES/github.com/hashicorp/go-version/constraint.go:191-249 | With a pre-release on either side: a constraint without one accepts none in order comparisons; one with one accepts pre-releases of its own segments only, and releases by their segments; equality and inequality for all of them |
| Constraint.CheckPessimistic | LICENSES/github.com/hashicorp/go-version/constraint.go:251-290 | The function with its loop decides the predicate the other results are about |
| Constraint.Check | LICENSES/github.com/hashicorp/go-version/constraint.go:91-99 | A list of constraints accepts exactly what each of them accepts |
| OffsetTable.CompressionPreservesSearch | offsets-tracker/writer/writer.go:68-94 | Dropping entries that repeat the offset before them changes no search result, found or not, for a version such that the entries not above it are the first ones |
| OffsetTable.CompressionIff | offsets-tracker/writer/writer.go:68-94 | For any list of versions, in any order: compression is safe for a version, whatever the offsets, if and only if the entries not above it are the first ones |
| OffsetTable.CompressionLosesAnswer | offsets-tracker/writer/writer.go:68-94 | 1.0.0-alpha and 1.0.0-alpha.1 at offset 8, in order and without the three patterns: the full list answers 8 for 1.0.0-alpha.beta, the compressed one has no answer |
| OffsetTable.SearchAnswers | offsets-tracker/cache/cache.go:96-115 | Searching an ascending list from the end finds, for any version, the greatest recorded version not above it, or that there is none |
| OffsetTable.SearchLoop | pkg/inject/injector.go:151-167 | The downward loop computes the search the other results are about, malformed versions included |
| OffsetTable.MalformedEntryStops | offsets-tracker/cache/cache.go:96-115 | The first entry from the end that is malformed stops the search: the cache finds nothing, the injector panics |
| OffsetTable.KeptChanges | offsets-tracker/writer/writer.go:87-90 | Neighbours among the kept entries differ in their offset, and the last of them has the offset of the newest version |
| OffsetTable.PrintedComparesAlike | offsets-tracker/writer/writer.go:107-110 | The bounds stored as text compare like the versions they were printed from |
| OffsetTable.OrderedIffSortable | offsets-tracker/versions/tools.go:21-26 | Compare orders version texts if and only if they parse and their versions have none of the three patterns |
| OffsetTable.ReleaseTextsSortable | offsets-tracker/versions/tools.go:21-26 | Texts of releases always are ordered |
| OffsetWriter.TrackedOffsets.ConvertResult | offsets-tracker/writer/writer.go:56-113 | Under every pair of names that a recorded key splits into stand the compressed entries and bounds of an arrangement of what was recorded for such a key, in order whenever Compare orders the versions; every other field is as before |
| OffsetWriter.ConvertedWithoutCommas | offsets-tracker/writer/writer.go:96-113 | For names without commas this is each recorded member's own entries, and nothing else changes |
| OffsetWriter.CollectOffsets | offsets-tracker/writer/writer.go:57-66 | The map holds under every key all entries recorded for it, in order |
| OffsetWriter.Normalize | offsets-tracker/writer/writer.go:81-94 | The loop keeps exactly the entries at which the offset changes, and the lowest and highest version |
| OffsetWriter.SortSlice | offsets-tracker/writer/writer.go:75-79 | The entries rearranged, and in order of versions whenever Compare orders them |
| OffsetWriter.KeySplits | offsets-tracker/writer/writer.go:97-105 | Splitting a key gives back the struct and field names exactly when neither contains a comma |
| OffsetWriter.WriteResults | offsets-tracker/writer/writer.go:34-40 | After all results, each field holds what the last result that stored anything under its names recorded, and no other field exists |
| OffsetCache.ReadersAnswerFromFullTable | pkg/inject/injector.go:136-168 | For recorded versions that are pairwise distinct and make none of the three patterns, and any version such that those not above it are the oldest ones, the injector and the cache give the offset of the greatest recorded version not above it, or none |
| OffsetCache.InjectorAnswers | pkg/inject/injector.go:136-168 | For a member and a version asked for, the injector answers from what was recorded for that member, and finds nothing for a field that is not stored |
| OffsetCache.CacheAnswers | offsets-tracker/cache/cache.go:65-92 | So does the cache up to the newest recorded version; beyond it, and for a field that is not stored, it finds nothing |
| OffsetCache.IsAllInCacheMeaning | offsets-tracker/cache/cache.go:65-92 | All members in order with their offsets exactly when each is found, and otherwise a miss or a panic as the first one not found decides |
| OffsetCache.CutsIffCutsVersions | offsets-tracker/writer/writer.go:75-79 | That condition on the recorded versions is the one on the sorted list under which compression is safe |
| OffsetCache.CacheRoundTrip | offsets-tracker/cache/cache.go:63-92 | Asked for any members found in a recorded version, the cache returns exactly the offsets found in it |
| OffsetCache.ReleasesReadFromFullTable | pkg/inject/injector.go:136-168 | For recorded releases and any version asked for, pre-releases included, both readers answer from the full table, and find something exactly from the stored oldest version on |
| OffsetCache.ReleasesRoundTrip | offsets-tracker/cache/cache.go:63-92 | Asked for any members found in a recorded release, the cache returns exactly the offsets found in it |
| OffsetCache.FoundFromOldest | offsets-tracker/cache/cache.go:78-85 | For those versions a search succeeds exactly when the version is not below the stored oldest one |
| OffsetCache.BetweenImpliesFound | offsets-tracker/cache/cache.go:78-85 | For recorded versions without the three patterns, ties allowed, and any version at all, the search never fails once Between holds, nor from the stored oldest version on |
| OffsetCache.IsAllInCacheLoop | offsets-tracker/cache/cache.go:65-92 | The loop with its early returns computes the answer the other results are about |
| OffsetCache.GetFieldOffsetLoop | pkg/inject/injector.go:136-168 | The lookup with its loop computes the answer the other results are about |
| GoroutineMap.TerminatesIff | pkg/instrumentors/gmap/gmap.go:39-60 | With parents numbered below their children, the walk ends if and only if the nearest tracked proper ancestor is not goroutine 1 |
| GoroutineMap.WalkCanSpin | pkg/instrumentors/gmap/gmap.go:39-60 | From empty maps, a link from 2 to 1 and the registration of 1 lead to a walk from 2 that never ends |
| GoroutineMap.WalkReturnsExpected | pkg/instrumentors/gmap/gmap.go:39-60 | Whenever the walk ends it returns the nearest tracked ancestor's span, or none with a retry exactly when the chain ends at goroutine 1 |
| GoroutineMap.Maps.WalkToAncestor | pkg/instrumentors/gmap/gmap.go:39-60 | The loop in place returns that |
| GoroutineMap.Maps.GetAncestorSc | pkg/instrumentors/gmap/gmap.go:62-72 | The nearest tracked ancestor's span, or none when there is none; after 100 walks when the chain ends at goroutine 1 without one, and after a single walk otherwise |
| GoroutineMap.Maps.RegisterSpan | pkg/instrumentors/gmap/gmap.go:130-154 | In place, with and without replacing: the goroutine's context in terms of its nearest tracked ancestor and the new span id, both span contexts of the event, and that nothing else changes |
| GoroutineMap.Maps.SetGoId2PGoId | pkg/instrumentors/gmap/gmap.go:87-89 | In place: a step of the runs |
| GoroutineMap.Maps.MustEnrichSpan | pkg/instrumentors/gmap/gmap.go:156-173 | An event with a different span id gets the goroutine's trace id and its span as parent; any other event is unchanged |
| GoroutineMap.RunInv | pkg/instrumentors/gmap/gmap.go:130-154 | In every legal run, with and without replacing, each tracked goroutine is in the trace of its nearest tracked proper ancestor, and every walk ends |
| GoroutineMap.RegistrationEffect | pkg/instrumentors/gmap/gmap.go:130-154 | A step of the runs gives an untracked goroutine the trace of its nearest tracked ancestor with the new span id, or else the context it came with, and replaces or keeps the context of a tracked one |
| GoroutineMap.ChainSharesTrace | pkg/instrumentors/gmap/gmap.go:144-152 | So all tracked goroutines along a chain of ancestors are in one trace |
| GoroutineMap.RegistrationKeepsTracesIff | pkg/instrumentors/gmap/gmap.go:143-152 | In any order of registration, a registration keeps this exactly when the tracked goroutines that now have it as nearest ancestor are already in the trace it was given |
| GoroutineMap.ReplacementKeepsTracesIff | pkg/instrumentors/gmap/gmap.go:137-142 | Replacing the context of a tracked goroutine keeps this exactly when the new one is in the trace of its nearest tracked ancestor and of the tracked goroutines whose nearest ancestor it is |
| GoroutineMap.ReplacementBreaksTraces | pkg/instrumentors/gmap/gmap.go:137-142 | A run from empty maps after which a replacement takes a goroutine out of its parent's trace |
| SpanContextCodec.HexRoundTrip | internal/include/utils.h:47-69 | Decoding undoes encoding for byte strings of any length |
| SpanContextCodec.HexRoundTripBack | internal/include/utils.h:47-69 | Encoding undoes decoding on even-length texts of lower-case digits |
| SpanContextCodec.HexIgnoresCase | internal/include/utils.h:59-69 | Changing the case of any digits does not change what is decoded |
| SpanContextCodec.HexDigitsOf | internal/include/utils.h:47-57 | Each byte is written as its two digits in base 16, 0 to 9 and a to f, the higher first |
| SpanContextCodec.BytesToHexString | internal/include/utils.h:47-57 | In place: the encoding at the position and nothing else |
| SpanContextCodec.HexStringToBytes | internal/include/utils.h:59-69 | In place: the decoding at the start and nothing else |
| SpanContextCodec.W3cRoundTrip | internal/include/span_context.h:37-68 | What is written is 55 characters in the form of section 3.2.2 of W3C Trace Context and reads back as the context |
| SpanContextCodec.W3cRoundTripBack | internal/include/span_context.h:37-68 | Reading a traceparent and writing it again reproduces all of it except the flags, which become 01 |
| SpanContextCodec.SpanContextToW3cString | internal/include/span_context.h:37-60 | In place: the first 55 characters are that text and the rest of the buffer is untouched |
| SpanContextCodec.W3cStringToSpanContext | internal/include/span_context.h:62-68 | In place: both ids as decoded from the text |
| BuildInfo.DetailsRoundTrip | pkg/process/module.go:61-128 | A blob with an aligned first hit, a version and framed module text, followed by at least one byte, is decoded to the version and the unframed text |
| BuildInfo.DetailsMeaning | pkg/process/module.go:61-128 | Any data whose search ends: the error exits, the flag in byte 15 that tells strings from pointers, and the version with the unframed text |
| BuildInfo.UnframedIff | pkg/process/module.go:118-126 | Framed text loses its frames and any other text is dropped |
| BuildInfo.DecodeEncoded | pkg/process/module.go:199-205 | A length-prefixed string is decoded to itself and what follows exactly when something follows |
| BuildInfo.UvarintRoundTrip | pkg/process/module.go:199-203 | Reading a written number below 2^64 gives back the number and its length, whatever follows |
| BuildInfo.UvarintMeaning | pkg/process/module.go:199-203 | Any bytes: the number in base 128 and its length where it ends within ten bytes and 64 bits, and a failure otherwise |
| BuildInfo.DecodeMeaning | pkg/process/module.go:199-205 | Any bytes: the string and what follows it when the length reads and more bytes follow than it says, and nothing otherwise |
| BuildInfo.UnalignedFirstHit | pkg/process/module.go:72-82 | A first hit that is not aligned makes the search go round forever in an even block of 16 bytes, and skip 15 bytes behind the hit in an odd one |
| BuildInfo.NoHeader | pkg/process/module.go:72-77 | Without the magic, or with less than a header behind it, there is no Go executable |
| BuildInfo.AlignedFirstHit | pkg/process/module.go:78-80 | An aligned first hit with a whole header behind it is the header |
| BuildInfo.SpinsIff | pkg/process/module.go:72-82 | The search goes round forever if and only if it comes to a hit with a whole header behind it that is unaligned in an even block |
| BuildInfo.SpinningData | pkg/process/module.go:72-82 | As it does when one byte other than 0xff stands before the first magic and a header's length follows |
| BuildInfo.FindHeaderLoop | pkg/process/module.go:72-82 | Wherever the search ends, the loop finds the header the other results are about, or that there is none |
| BuildInfo.GetGoDetailsLoop | pkg/process/module.go:84-127 | Decoding and unframing in place, with both error exits |

## Left out

- BlockUntouched: stated while no other CPU starts over; the guarantee on the CPU's own bytes alone is false for several CPUs, as KeptForOwnBytesIff shows.
- AppendAppendsOrNothing: states the runs in which the kernel lets all writes through; the others are InPlaceRightIff and MovedRightIff.
- WalkToAncestor: its precondition excludes exactly the case in which the source's loop never ends, as TerminatesIff shows; so do those of GetAncestorSc and RegisterSpan, which call it.
- GetAncestorSc: see WalkToAncestor.
- RegisterSpan: see WalkToAncestor.
- FindHeaderLoop: its precondition excludes exactly the case in which the source's loop never ends, as SpinsIff shows.
- GetGoDetailsLoop: see FindHeaderLoop.
- ConvertResult: requires that the recorded versions parse, since the source panics on others.
- WriteResults: as ConvertResult.
- SortSlice, Position and Insert stand for Go's sort.Slice, and Up and Down for the algorithms of Go's container/heap; neither package is part of the repository.
- Calls on different CPUs, and the calls of the two ends of the ring, interleave as whole calls; memory ordering is that of the acquire and release operations the source uses.
- The position of the slice header in user memory is kept apart from the allocator's area, so aliasing between the two is not modelled.
- Timed expiry of the goroutine caches, random identifiers, JSON, files and the network; clock readings and kernel answers are parameters.
- Shutting the event queue down: the channel it waits on is never made.
- The pointer-based format of old build information: what its pointers lead to is a parameter; ELF reading and module lists are not modelled.
- Parsing of constraint texts, sorting and equality of constraint lists.
- write_user_go_string, which only calls the allocator twice.
- Process discovery, ptrace, DWARF scanning, instruction decoding, exporters, instrumentor wiring and the command line.
