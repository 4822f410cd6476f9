# Range partition assignment (Kafka consumer-group leader)

This project models `RangeAssignmentStrategy` from `assign.go` of a Go Kafka
client. During a consumer-group rebalance, the group leader runs it to split
each topic's partitions among the group's members. The model has one module,
`RangeAssignment`, in `range_assignment.dfy`. It covers four parts.

- **`assignPartitions`** is modelled as `AssignPartitions`. It is a method
  over a local array, with the source's descending loop and its running
  remainder. It is proved equal to an independent closed form,
  `RangeCounts(M, P)`: every member gets `P / M` partitions, and the first
  `P % M` members get one more. The properties are then proved about
  `RangeCounts`:
  - the counts sum to `P`;
  - they are non-negative, non-increasing and differ by at most one;
  - it is the only split with these properties;
  - the doc-comment examples hold;
  - the one-member and zero-partition cases behave as expected.
- **`ByPartitionID`** provides `Less` and `Swap`. `SortByPartitionID` is an
  in-place insertion sort that uses only these two. It stands in for
  `sort.Sort` on the topic's shared slice. It is proved to leave the slice
  sorted by partition id and a permutation of its old contents.
- **The per-topic fill** is the nested loop with the running `idx`. It is
  modelled as `FillPartitionAssignments`. The result is proved to be
  `TopicSlots`: slot `k` holds the topic name and the `int32` cast of the
  `k`-th sorted partition id for every `k < Sum(counts)`, and the remaining
  slots stay nil. A ghost record of the member that wrote each slot shows
  that member `i` writes exactly the slots `[Start(i), Start(i + 1))`. The
  lemmas about `Shares` then prove three things: the shares are contiguous,
  they cover the sorted list in order, and with unique ids they are disjoint
  and ordered.
- **`Assign`** sorts every topic's slice in place and runs the fill. It
  returns an empty `GroupAssignment`, just as the source does. A ghost
  out-parameter records each per-topic array that the source discards.
  Topics may share a slice. This is safe because re-sorting an already
  sorted slice leaves it unchanged (`SortedPermutationUnique`). Two topic
  slices are either the same array or separate arrays; partially
  overlapping slices are not modelled (see "Left out").

Go's `/` truncates toward zero. It is modelled by `GoDiv`, so
`AssignPartitions` also accepts a negative partition count, which the source
does not exclude. Its counts still sum to that count. The `int32(...)`
conversion of a `uint32` partition id is written out in `Int32Of`.

`assign.go` sorts the caller's partition slices in place, discards each
topic's array of assignments and always returns an empty result. Building a
`MemberAssignment` per member and calling `Encode()` appear only as comments
(`assign.go:65-70` and `assign.go:88-92`). The model follows the code.

## Model

| member | source | states |
|---|---|---|
| RangeAssignment.AssignPartitions | assign.go:46-54 | exactly `memberCount` counts; with at least one member they sum to `partitionCount` (any sign); for `partitionCount >= 0` they equal the reference split `RangeCounts` |
| RangeAssignment.RangeCountsPrefixSum | assign.go:48-51 | the first `k` members together get `Q*k + min(R, k)` partitions (`Q = P / M`, `R = P % M`), the amount the loop leaves for indices below `k` |
| RangeAssignment.AssignStep | assign.go:48-51 | one iteration of the descending loop keeps the running total at `partitionCount` for any sign, empties the remainder at index 0, and for `partitionCount >= 0` gives index `i` its reference count and leaves the reference share of indices `0..i-1` |
| RangeAssignment.CountAtIndex | assign.go:49-50 | one loop step: dividing what is left for indices `0..i` by `i + 1` yields exactly member `i`'s reference count, and subtracting it leaves what indices `0..i-1` need |
| RangeAssignment.RangeCountsSum | assign.go:48-51 | with at least one member the counts sum to `P`: no partition is lost or duplicated |
| RangeAssignment.RangeCountsBalanced | assign.go:48-51 | counts are non-negative, non-increasing by index and differ by at most one; a count is `P / M + 1` exactly for the indices below `P % M` (the remainder goes to the lowest indices) |
| RangeAssignment.BalancedSplitIsRangeCounts | assign.go:44-51 | any non-increasing split of `P` over the members whose counts differ by at most one is the reference split, so the reference split is the only one with these properties |
| RangeAssignment.DocCommentExamples | assign.go:45 | `(3,5) => [2,2,1]` and `(5,10) => [2,2,2,2,2]` |
| RangeAssignment.RangeCountsEdgeCases | assign.go:47-51 | one member receives all `P` partitions; with no partitions every count is 0 |
| RangeAssignment.GoDiv | assign.go:49 | Go's truncating division: the quotient lies between 0 and the dividend, and division by 1 is the identity |
| RangeAssignment.Int32Of | assign.go:81 | the `int32` conversion keeps the value modulo 2^32 and is negative exactly for ids from 2^31 up |
| RangeAssignment.Less | assign.go:60 | true only for distinct entries, and then entry `i`'s `uint32` id is below entry `j`'s; when false, entry `j`'s id is at most entry `i`'s |
| RangeAssignment.LessIsStrictOrder | assign.go:60 | `Less` is irreflexive, asymmetric and transitive, and any two entries with different ids are ordered one way or the other, the order `sort.Sort` needs |
| RangeAssignment.Swap | assign.go:59 | the slice afterwards is the old one with entries `i` and `j` exchanged, as a permutation |
| RangeAssignment.SortByPartitionID | assign.go:56-60 | sorting with `Less`/`Swap` leaves the slice ascending by partition id and a permutation of its old contents, changing nothing else |
| RangeAssignment.SortedPermutationUnique | assign.go:73 | two id-sorted orderings of the same partitions are equal, so sorting is deterministic and re-sorting a sorted slice changes nothing |
| RangeAssignment.FillPartitionAssignments | assign.go:75-85 | `idx` ends at `Sum(counts)`; slot `k < idx` holds the topic name and the `k`-th sorted partition id, later slots stay nil; the member whose iteration wrote slot `k` is the one whose range `[Start(i), Start(i+1))` contains `k`, every member range lies inside the filled slots, and every slot of member `i`'s range was written by member `i` |
| RangeAssignment.OwnerRanges | assign.go:77-85 | when every filled slot records a member whose range contains it, every member range lies inside the filled slots and every slot of member `i`'s range was written by member `i` |
| RangeAssignment.MemberWritesItsShare | assign.go:77-85 | member `i`'s iteration writes its own share, `counts[i]` partitions in order, into slots `Start(i)` to `Start(i+1)`; `Start(i+1) = Start(i) + counts[i]` |
| RangeAssignment.MemberOfSlot | assign.go:77-85 | every slot below the total lies in some member's range |
| RangeAssignment.SlotOwnerUnique | assign.go:77-85 | no slot lies in two members' ranges, so each slot is written by exactly one member |
| RangeAssignment.ShareIsContiguous | assign.go:77-85 | member `i`'s share is the contiguous run of sorted partitions from `Start(i)` to `Start(i+1)`, `counts[i]` of them |
| RangeAssignment.SharesCoverSorted | assign.go:77-85 | the shares read member after member are exactly the first `Sum(counts)` sorted partitions in order |
| RangeAssignment.SharesDisjoint | assign.go:77-85 | with unique, sorted ids every partition of a lower member has a smaller id than every partition of a higher member, so shares are disjoint |
| RangeAssignment.PositionInShare | assign.go:77-85 | a partition of member `i`'s share sits at a position of the sorted list inside member `i`'s range |
| RangeAssignment.TopicSlotsComplete | assign.go:74-85 | with at least one member every slot `0..P-1` of the topic's array is filled, slot `k` with the `k`-th sorted partition; with no members every slot stays nil |
| RangeAssignment.AssignTopic | assign.go:72-86 | one topic: its slice ends up sorted and a permutation of what it was, and the fill equals `TopicSlots` of the sorted slice under the reference counts |
| RangeAssignment.Assign | assign.go:62-95 | returns an empty `GroupAssignment`; every topic's slice is sorted and a permutation of its old contents and nothing else changes; each topic's discarded array equals `TopicSlots` of its sorted slice under `RangeCounts(len(members), P)` |

## Left out

- `AssignmentStrategy` interface and the empty `RangeAssignmentStrategy` receiver: modelled as module-level members, because the receiver carries no state.
- `ByPartitionID.Len`: the sort reads the array's `Length` directly.
- `sort.Sort`'s own algorithm: replaced by an insertion sort over `Less`/`Swap`. Only "sorted and a permutation" is claimed, so stability and the exact sequence of swaps are not modelled.
- Fields of `PartitionMetadataInfo` other than `PartitionId` (error code, leader, replicas, in-sync replicas), the topic error code and the `Member` fields: the core does not read them. `PartitionId` is taken as `uint32`, as in the declaration shown commented out in `assign.go`; the live declaration is not part of this model.
- Go's 64-bit `int`: counts, `idx`, `i`, `j` and the remainder are unbounded integers. The counts, `idx`, `j` and the remainder never exceed the partition count in magnitude, and `i + 1` never exceeds the member count. Both are lengths of Go slices, so wrap-around cannot occur.
- Nil entries: a nil topic entry (`assign.go:73`) or a nil partition entry (`assign.go:60`, `assign.go:81`) makes the source panic; this is not modelled. Member entries are only counted (`assign.go:74`, `assign.go:77`), so a nil member does no harm and is modelled like any other. Partition entries are values, so two slice entries pointing to the same struct cannot be told apart.
- Partially overlapping partition slices: in Go two topics' slices can share part of one backing array, and sorting a later topic can then unsort the shared part of an earlier one. The model gives each topic either the same array as another topic or a separate one. `Assign`'s promise that every topic ends sorted covers only those two cases.
- Per-member `MemberAssignment` construction, wire encoding and filling the `GroupAssignment`: these exist only as comments in `assign.go`, and the model returns the empty result the code returns.
- Error handling: the code has no error returns. With zero members every slot stays nil, and duplicate partition ids are sorted and handed out like any other; only the disjointness lemma `SharesDisjoint` assumes unique ids.
- `tools/get-pending/get-pending.go` (consumer-lag report: flag parsing, broker RPCs, printing) and `produce_request.go` (a struct declaration only) are not part of this model.
