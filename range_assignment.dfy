/**
 * The range partition assignment strategy of a Kafka consumer-group leader
 * (assign.go): how many partitions of a topic each member gets, the ordering
 * of a topic's partitions by id, and the per-topic walk that hands the sorted
 * partitions out member by member.
 */
module RangeAssignment {

  // ---------------------------------------------------------------------------
  // Fixed-width integers of the source
  // ---------------------------------------------------------------------------

  newtype uint32 = x: int | 0 <= x < 0x1_0000_0000
  newtype int32 = x: int | -0x8000_0000 <= x < 0x8000_0000

  /** Go's `int32(x)` conversion of a `uint32`: keeps the low 32 bits, so ids
      from 2^31 on come out negative. */
  function Int32Of(x: uint32): (r: int32)
    ensures (x as int - r as int) % 0x1_0000_0000 == 0
    ensures x < 0x8000_0000 <==> r >= 0
  {
    if x < 0x8000_0000 then x as int as int32 else (x as int - 0x1_0000_0000) as int32
  }

  /** Go's integer `/` for a positive divisor: truncates toward zero. */
  function GoDiv(a: int, b: int): (q: int)
    requires b > 0
    ensures 0 <= a ==> 0 <= q <= a
    ensures a <= 0 ==> a <= q <= 0
    ensures b == 1 ==> q == a
  {
    if a >= 0 then DivBounds(a, b); a / b else DivBounds(-a, b); -((-a) / b)
  }

  // ---------------------------------------------------------------------------
  // Data model (only the fields the core reads)
  // ---------------------------------------------------------------------------

  datatype Option<T> = None | Some(value: T)

  /** A group member; the core only uses how many there are. */
  datatype Member = Member(memberId: string)

  /** One partition of a topic as reported by the cluster. */
  datatype PartitionMetadataInfo = PartitionMetadataInfo(partitionId: uint32)

  /** A topic and the slice of its partitions; the slice is shared with the
      caller, so sorting it is visible outside. */
  datatype TopicMetadata = TopicMetadata(topicName: string, partitionMetadatas: array<PartitionMetadataInfo>)

  /** One partition handed to one member. */
  datatype PartitionAssignment = PartitionAssignment(topic: string, partition: int32)

  datatype GroupAssignmentEntry = GroupAssignmentEntry(memberId: string, memberAssignment: seq<bv8>)

  /** The leader's output: one encoded member assignment per member. */
  type GroupAssignment = seq<GroupAssignmentEntry>

  // ---------------------------------------------------------------------------
  // Sums of counts
  // ---------------------------------------------------------------------------

  function Sum(s: seq<int>): (total: int)
  {
    if s == [] then 0 else s[0] + Sum(s[1..])
  }

  predicate NonNegative(s: seq<int>)
  {
    forall i :: 0 <= i < |s| ==> s[i] >= 0
  }

  lemma {:induction false} SumAppend(a: seq<int>, b: seq<int>)
    ensures Sum(a + b) == Sum(a) + Sum(b)
  {
    if a == [] {
      assert a + b == b;
    } else {
      assert (a + b)[1..] == a[1..] + b;
      SumAppend(a[1..], b);
    }
  }

  lemma {:induction false} SumNonNegative(s: seq<int>)
    requires NonNegative(s)
    ensures Sum(s) >= 0
  {
    if s != [] {
      SumNonNegative(s[1..]);
    }
  }

  // ---------------------------------------------------------------------------
  // assignPartitions: how many partitions each member gets
  // ---------------------------------------------------------------------------

  /** Reference definition of the split: every member gets P / M partitions
      and the first P % M members get one more. */
  function ExpectedCount(memberCount: nat, partitionCount: nat, i: int): (count: int)
    requires 0 <= i < memberCount
  {
    partitionCount / memberCount + (if i < partitionCount % memberCount then 1 else 0)
  }

  function RangeCounts(memberCount: nat, partitionCount: nat): (counts: seq<int>)
    ensures |counts| == memberCount
  {
    seq(memberCount, i requires 0 <= i < memberCount => ExpectedCount(memberCount, partitionCount, i))
  }

  lemma MulMono(x: int, y: int, d: int)
    requires d >= 0 && x <= y
    ensures x * d <= y * d
  {
  }

  lemma DivUnique(a: int, d: int, q: int, r: int)
    requires d > 0 && 0 <= r < d && a == q * d + r
    ensures a / d == q && a % d == r
  {
    var q', r' := a / d, a % d;
    assert a == q' * d + r';
    if q > q' {
      assert q' * d + d == (q' + 1) * d;
      MulMono(q' + 1, q, d);
    } else if q < q' {
      assert q * d + d == (q + 1) * d;
      MulMono(q + 1, q', d);
    }
  }

  lemma DivBounds(a: int, b: int)
    requires a >= 0 && b > 0
    ensures 0 <= a / b <= a
    ensures b == 1 ==> a / b == a
  {
    var q, r := a / b, a % b;
    assert a == q * b + r;
    if q < 0 {
      MulMono(q, -1, b);
    }
    if q > a {
      MulMono(1, b, q);
    }
    if b == 1 {
      DivUnique(a, 1, a, 0);
    }
  }

  /** What the first k members get together under the reference split. */
  lemma {:induction false} RangeCountsPrefixSum(memberCount: nat, partitionCount: nat, k: nat)
    requires 0 < memberCount && k <= memberCount
    ensures Sum(RangeCounts(memberCount, partitionCount)[..k])
         == partitionCount / memberCount * k + Min(partitionCount % memberCount, k)
  {
    var c, q, r := RangeCounts(memberCount, partitionCount), partitionCount / memberCount, partitionCount % memberCount;
    if k > 0 {
      RangeCountsPrefixSum(memberCount, partitionCount, k - 1);
      assert c[..k] == c[..k - 1] + [c[k - 1]];
      SumAppend(c[..k - 1], [c[k - 1]]);
      assert q * k == q * (k - 1) + q;
    }
  }

  /** The reference split hands out every partition. */
  lemma RangeCountsSum(memberCount: nat, partitionCount: nat)
    requires memberCount > 0
    ensures Sum(RangeCounts(memberCount, partitionCount)) == partitionCount
  {
    var c := RangeCounts(memberCount, partitionCount);
    RangeCountsPrefixSum(memberCount, partitionCount, memberCount);
    assert c[..memberCount] == c;
    assert partitionCount == partitionCount / memberCount * memberCount + partitionCount % memberCount;
  }

  /** The arithmetic of one step of the descending loop: with
      Q*(i+1) + min(R, i+1) partitions left, index i gets Q, plus one exactly
      when it lies below R. */
  lemma DivideRemaining(q: nat, r: nat, i: nat)
    ensures q * (i + 1) + Min(r, i + 1) >= 0
    ensures (q * (i + 1) + Min(r, i + 1)) / (i + 1) == q + (if i < r then 1 else 0)
  {
    MulMono(0, q, i + 1);
    if i < r {
      assert q * (i + 1) + (i + 1) == (q + 1) * (i + 1);
      DivUnique(q * (i + 1) + (i + 1), i + 1, q + 1, 0);
    } else {
      DivUnique(q * (i + 1) + r, i + 1, q, r);
    }
  }

  /** With the share of indices 0..i still undistributed, the loop body gives
      index i exactly its reference count and leaves the share of 0..i-1. */
  lemma CountAtIndex(memberCount: nat, partitionCount: nat, i: nat)
    requires i < memberCount
    ensures GoDiv(Sum(RangeCounts(memberCount, partitionCount)[..i + 1]), i + 1)
         == RangeCounts(memberCount, partitionCount)[i]
    ensures Sum(RangeCounts(memberCount, partitionCount)[..i + 1]) - RangeCounts(memberCount, partitionCount)[i]
         == Sum(RangeCounts(memberCount, partitionCount)[..i])
  {
    var c := RangeCounts(memberCount, partitionCount);
    var q, r := partitionCount / memberCount, partitionCount % memberCount;
    RangeCountsPrefixSum(memberCount, partitionCount, i + 1);
    DivideRemaining(q, r, i);
    assert c[i] == q + (if i < r then 1 else 0);
    assert c[..i + 1] == c[..i] + [c[i]];
    SumAppend(c[..i], [c[i]]);
  }

  function Min(a: int, b: int): (m: int)
  {
    if a <= b then a else b
  }

  /** One iteration of the descending loop of assignPartitions: index i takes
      `remaining / (i + 1)`, the running total stays `partitionCount`, and for a
      non-negative count index i receives its reference count and what is left
      is the reference share of the indices below i. */
  lemma AssignStep(memberCount: nat, partitionCount: int, i: nat, remaining: int, rest: seq<int>)
    requires i < memberCount
    requires Sum(rest) + remaining == partitionCount
    requires partitionCount >= 0 ==> remaining == Sum(RangeCounts(memberCount, partitionCount)[..i + 1])
    requires partitionCount >= 0 ==> rest == RangeCounts(memberCount, partitionCount)[i + 1..]
    ensures Sum([GoDiv(remaining, i + 1)] + rest) + (remaining - GoDiv(remaining, i + 1)) == partitionCount
    ensures i == 0 ==> remaining - GoDiv(remaining, i + 1) == 0
    ensures partitionCount >= 0 ==>
      remaining - GoDiv(remaining, i + 1) == Sum(RangeCounts(memberCount, partitionCount)[..i])
    ensures partitionCount >= 0 ==> [GoDiv(remaining, i + 1)] + rest == RangeCounts(memberCount, partitionCount)[i..]
  {
    var share := GoDiv(remaining, i + 1);
    assert ([share] + rest)[1..] == rest;
    if partitionCount >= 0 {
      var c := RangeCounts(memberCount, partitionCount);
      CountAtIndex(memberCount, partitionCount, i);
      assert c[i..] == [c[i]] + c[i + 1..];
    }
  }

  /** assignPartitions: walks the member indices from the highest down and
      gives each `remaining / (i + 1)`, so index 0 takes what is left. */
  method AssignPartitions(memberCount: nat, partitionCount: int) returns (counts: seq<int>)
    ensures |counts| == memberCount
    ensures memberCount > 0 ==> Sum(counts) == partitionCount
    ensures partitionCount >= 0 ==> counts == RangeCounts(memberCount, partitionCount)
  {
    var rst := new int[memberCount];
    ghost var expected: seq<int> := if partitionCount >= 0 then RangeCounts(memberCount, partitionCount) else [];
    if partitionCount >= 0 && memberCount > 0 {
      RangeCountsSum(memberCount, partitionCount);
      assert expected[..memberCount] == expected;
    }
    var remaining := partitionCount;
    var i := memberCount - 1;
    while i >= 0
      invariant -1 <= i < memberCount
      invariant Sum(rst[i + 1..]) + remaining == partitionCount
      invariant i < 0 && memberCount > 0 ==> remaining == 0
      invariant partitionCount >= 0 && memberCount > 0 ==> remaining == Sum(expected[..i + 1])
      invariant partitionCount >= 0 ==> rst[i + 1..] == expected[i + 1..]
    {
      ghost var rest := rst[i + 1..];
      AssignStep(memberCount, partitionCount, i, remaining, rest);
      rst[i] := GoDiv(remaining, i + 1);
      assert rst[i..] == [rst[i]] + rest;
      remaining := remaining - rst[i];
      i := i - 1;
    }
    counts := rst[..];
    assert rst[0..] == counts;
  }

  /** Every count of the reference split is P / M or P / M + 1, the larger
      ones come first, and exactly the first P % M members get the larger. */
  lemma RangeCountsBalanced(memberCount: nat, partitionCount: nat)
    ensures forall i :: 0 <= i < memberCount ==> RangeCounts(memberCount, partitionCount)[i] >= 0
    ensures forall i, j :: 0 <= i <= j < memberCount ==>
      RangeCounts(memberCount, partitionCount)[j] <= RangeCounts(memberCount, partitionCount)[i]
        <= RangeCounts(memberCount, partitionCount)[j] + 1
    ensures forall i :: 0 <= i < memberCount ==>
      (RangeCounts(memberCount, partitionCount)[i] == partitionCount / memberCount + 1 <==> i < partitionCount % memberCount)
  {
  }

  predicate NonIncreasing(c: seq<int>)
  {
    forall i, j :: 0 <= i <= j < |c| ==> c[j] <= c[i]
  }

  /** How many entries of c exceed q (by one, for a split whose entries are q or q + 1). */
  function Larger(c: seq<int>, q: int): (n: nat)
    ensures n <= |c|
  {
    if c == [] then 0 else (if c[0] > q then 1 else 0) + Larger(c[1..], q)
  }

  lemma {:induction false} LargerArePrefix(c: seq<int>, q: int)
    requires NonIncreasing(c)
    requires forall i :: 0 <= i < |c| ==> q <= c[i] <= q + 1
    ensures forall i :: 0 <= i < |c| ==> (c[i] == q + 1 <==> i < Larger(c, q))
    ensures Sum(c) == q * |c| + Larger(c, q)
  {
    if c != [] {
      var rest := c[1..];
      LargerArePrefix(rest, q);
      assert q * |c| == q + q * |rest|;
      forall i | 0 <= i < |c|
        ensures c[i] == q + 1 <==> i < Larger(c, q)
      {
        if i > 0 {
          assert c[i] == rest[i - 1];
        }
      }
    }
  }

  /** The reference split is the only way to give M members P partitions in
      non-increasing counts that differ by at most one. */
  lemma BalancedSplitIsRangeCounts(c: seq<int>, partitionCount: nat)
    requires |c| > 0 && Sum(c) == partitionCount
    requires NonIncreasing(c) && c[0] <= c[|c| - 1] + 1
    ensures c == RangeCounts(|c|, partitionCount)
  {
    var m, q := |c|, c[|c| - 1];
    LargerArePrefix(c, q);
    var k := Larger(c, q);
    assert k < m by {
      assert c[m - 1] != q + 1;
    }
    DivUnique(partitionCount, m, q, k);
    forall i | 0 <= i < m
      ensures c[i] == RangeCounts(m, partitionCount)[i]
    {
    }
  }

  /** The examples in the doc comment of assignPartitions. */
  lemma DocCommentExamples()
    ensures RangeCounts(3, 5) == [2, 2, 1]
    ensures RangeCounts(5, 10) == [2, 2, 2, 2, 2]
  {
  }

  /** A single member takes every partition; no partitions means every count is zero. */
  lemma RangeCountsEdgeCases(memberCount: nat, partitionCount: nat)
    ensures RangeCounts(1, partitionCount) == [partitionCount]
    ensures forall i :: 0 <= i < memberCount ==> RangeCounts(memberCount, 0)[i] == 0
  {
  }

  method AssignPartitionsExamples()
  {
    DocCommentExamples();
    var a := AssignPartitions(3, 5);
    assert a == [2, 2, 1];
    var b := AssignPartitions(5, 10);
    assert b == [2, 2, 2, 2, 2];
  }

  // ---------------------------------------------------------------------------
  // ByPartitionID and the in-place sort of a topic's partitions
  // ---------------------------------------------------------------------------

  predicate SortedByPartitionID(s: seq<PartitionMetadataInfo>)
  {
    forall k, l :: 0 <= k < l < |s| ==> s[k].partitionId <= s[l].partitionId
  }

  /** ByPartitionID.Less: entry i sorts before entry j. Only distinct
      partitions are ordered; when i is before j its uint32 id is the smaller
      one, and when it is not, entry j's id is at most entry i's. */
  function Less(a: array<PartitionMetadataInfo>, i: int, j: int): (less: bool)
    requires 0 <= i < a.Length && 0 <= j < a.Length
    reads a
    ensures less ==> a[i] != a[j]
    ensures less ==> a[i].partitionId < a[j].partitionId
    ensures !less ==> a[j].partitionId <= a[i].partitionId
  {
    a[i].partitionId < a[j].partitionId
  }

  /** Less is a strict order on the entries of a slice, as sort.Sort needs:
      irreflexive, asymmetric and transitive, and any two entries with
      different ids are ordered one way or the other. */
  lemma LessIsStrictOrder(a: array<PartitionMetadataInfo>)
    ensures forall i :: 0 <= i < a.Length ==> !Less(a, i, i)
    ensures forall i, j :: 0 <= i < a.Length && 0 <= j < a.Length && Less(a, i, j) ==> !Less(a, j, i)
    ensures forall i, j, k ::
      0 <= i < a.Length && 0 <= j < a.Length && 0 <= k < a.Length && Less(a, i, j) && Less(a, j, k)
      ==> Less(a, i, k)
    ensures forall i, j ::
      0 <= i < a.Length && 0 <= j < a.Length && a[i].partitionId != a[j].partitionId
      ==> Less(a, i, j) || Less(a, j, i)
  {
  }

  /** ByPartitionID.Swap: exchanges two entries of the shared slice. */
  method Swap(a: array<PartitionMetadataInfo>, i: int, j: int)
    requires 0 <= i < a.Length && 0 <= j < a.Length
    modifies a
    ensures a[..] == old(a[..])[i := old(a[j])][j := old(a[i])]
    ensures multiset(a[..]) == old(multiset(a[..]))
  {
    a[i], a[j] := a[j], a[i];
  }

  /** sort.Sort(ByPartitionID(...)): rearranges the slice in place into
      ascending partition-id order, using only Less and Swap. */
  method SortByPartitionID(a: array<PartitionMetadataInfo>)
    modifies a
    ensures SortedByPartitionID(a[..])
    ensures multiset(a[..]) == old(multiset(a[..]))
  {
    var i := 0;
    while i < a.Length
      invariant 0 <= i <= a.Length
      invariant forall k, l :: 0 <= k < l < i ==> a[k].partitionId <= a[l].partitionId
      invariant multiset(a[..]) == old(multiset(a[..]))
    {
      var j := i;
      while j > 0 && Less(a, j, j - 1)
        invariant 0 <= j <= i
        invariant forall k, l :: 0 <= k < l <= i && k != j && l != j ==> a[k].partitionId <= a[l].partitionId
        invariant forall l :: j < l <= i ==> a[j].partitionId < a[l].partitionId
        invariant multiset(a[..]) == old(multiset(a[..]))
      {
        Swap(a, j, j - 1);
        j := j - 1;
      }
      i := i + 1;
    }
  }

  /** The first entry of an id-sorted sequence has the least id of all. */
  lemma SortedHeadIsLeast(s: seq<PartitionMetadataInfo>, p: PartitionMetadataInfo)
    requires SortedByPartitionID(s) && p in multiset(s)
    ensures s[0].partitionId <= p.partitionId
  {
  }

  /** Two id-sorted orderings of the same partitions are the same sequence,
      so sorting an already sorted slice leaves it as it is. */
  lemma {:induction false} SortedPermutationUnique(s: seq<PartitionMetadataInfo>, t: seq<PartitionMetadataInfo>)
    requires SortedByPartitionID(s) && SortedByPartitionID(t)
    requires multiset(s) == multiset(t)
    ensures s == t
  {
    if s == [] {
      assert |multiset(t)| == 0;
    } else {
      assert |t| == |multiset(t)| == |multiset(s)| == |s|;
      assert s == [s[0]] + s[1..];
      assert t == [t[0]] + t[1..];
      SortedHeadIsLeast(t, s[0]);
      SortedHeadIsLeast(s, t[0]);
      assert s[0] == t[0];
      assert multiset(s) == multiset{s[0]} + multiset(s[1..]);
      assert multiset(t) == multiset{t[0]} + multiset(t[1..]);
      assert multiset(s[1..]) == multiset(s) - multiset{s[0]};
      assert multiset(t[1..]) == multiset(t) - multiset{t[0]};
      SortedPermutationUnique(s[1..], t[1..]);
    }
  }

  // ---------------------------------------------------------------------------
  // The per-topic fill: member 0 takes the first counts[0] sorted partitions,
  // member 1 the next counts[1], and so on
  // ---------------------------------------------------------------------------

  /** The PartitionAssignment the fill builds for one sorted partition. */
  function AssignmentOf(topicName: string, p: PartitionMetadataInfo): (assignment: PartitionAssignment)
  {
    PartitionAssignment(topicName, Int32Of(p.partitionId))
  }

  /** Index of the first sorted partition that member i takes. */
  function Start(counts: seq<int>, i: nat): (start: int)
    requires i <= |counts|
  {
    Sum(counts[..i])
  }

  lemma StartStep(counts: seq<int>, i: nat)
    requires i < |counts|
    ensures Start(counts, i + 1) == Start(counts, i) + counts[i]
  {
    assert counts[..i + 1] == counts[..i] + [counts[i]];
    SumAppend(counts[..i], [counts[i]]);
  }

  /** With non-negative counts the members' start indices never decrease and
      stay within the total. */
  lemma StartMonotone(counts: seq<int>, i: nat, j: nat)
    requires NonNegative(counts) && i <= j <= |counts|
    ensures Start(counts, i) <= Start(counts, j) <= Sum(counts)
  {
    assert counts[..j] == counts[..i] + counts[i..j];
    SumAppend(counts[..i], counts[i..j]);
    SumNonNegative(counts[i..j]);
    assert counts == counts[..j] + counts[j..];
    SumAppend(counts[..j], counts[j..]);
    SumNonNegative(counts[j..]);
  }

  /** What one topic's partitionAssignments holds once the fill is done: the
      first Sum(counts) slots carry the sorted partitions in order, the rest
      stay nil. */
  function TopicSlots(topicName: string, sorted: seq<PartitionMetadataInfo>, counts: seq<int>): (slots: seq<Option<PartitionAssignment>>)
    ensures |slots| == |sorted|
  {
    seq(|sorted|, k requires 0 <= k < |sorted| =>
      if k < Sum(counts) then Some(AssignmentOf(topicName, sorted[k])) else None)
  }

  /** The nested loops of Assign for one topic. The ghost owner[k] is the
      member whose iteration wrote slot k. */
  method FillPartitionAssignments(topicName: string, partitions: array<PartitionMetadataInfo>, counts: seq<int>)
    returns (partitionAssignments: seq<Option<PartitionAssignment>>, idx: int, ghost owner: seq<nat>)
    requires NonNegative(counts) && Sum(counts) <= partitions.Length
    ensures idx == Sum(counts)
    ensures partitionAssignments == TopicSlots(topicName, partitions[..], counts)
    ensures |owner| == idx
    ensures forall k :: 0 <= k < idx ==>
      owner[k] < |counts| && Start(counts, owner[k]) <= k < Start(counts, owner[k] + 1)
    ensures forall i :: 0 <= i <= |counts| ==> 0 <= Start(counts, i) <= idx
    ensures forall i, k :: 0 <= i < |counts| && Start(counts, i) <= k < Start(counts, i + 1) ==> owner[k] == i
  {
    var slots := new Option<PartitionAssignment>[partitions.Length](_ => None);
    idx := 0;
    owner := [];
    var i := 0;
    while i < |counts|
      invariant 0 <= i <= |counts|
      invariant idx == Start(counts, i) <= partitions.Length
      invariant forall k :: 0 <= k < idx ==> slots[k] == Some(AssignmentOf(topicName, partitions[k]))
      invariant forall k :: idx <= k < slots.Length ==> slots[k] == None
      invariant |owner| == idx
      invariant forall k :: 0 <= k < idx ==>
        owner[k] < i && Start(counts, owner[k]) <= k < Start(counts, owner[k] + 1)
    {
      StartStep(counts, i);
      StartMonotone(counts, i + 1, |counts|);
      var j := 0;
      while j < counts[i]
        invariant 0 <= j <= counts[i]
        invariant idx == Start(counts, i) + j
        invariant forall k :: 0 <= k < idx ==> slots[k] == Some(AssignmentOf(topicName, partitions[k]))
        invariant forall k :: idx <= k < slots.Length ==> slots[k] == None
        invariant |owner| == idx
        invariant forall k :: 0 <= k < idx ==>
          owner[k] <= i && Start(counts, owner[k]) <= k < Start(counts, owner[k] + 1)
      {
        assert Start(counts, i) <= idx < Start(counts, i + 1);
        slots[idx] := Some(PartitionAssignment(topicName, Int32Of(partitions[idx].partitionId)));
        owner := owner + [i];
        idx := idx + 1;
        j := j + 1;
      }
      i := i + 1;
    }
    assert counts[..|counts|] == counts;
    partitionAssignments := slots[..];
    OwnerRanges(counts, owner);
  }

  /** When every filled slot records a member whose range contains it, the
      member ranges lie inside the filled slots and each slot of member i's
      range records member i. */
  lemma OwnerRanges(counts: seq<int>, owner: seq<nat>)
    requires NonNegative(counts) && |owner| == Sum(counts)
    requires forall k :: 0 <= k < |owner| ==>
      owner[k] < |counts| && Start(counts, owner[k]) <= k < Start(counts, owner[k] + 1)
    ensures forall i :: 0 <= i <= |counts| ==> 0 <= Start(counts, i) <= |owner|
    ensures forall i, k :: 0 <= i < |counts| && Start(counts, i) <= k < Start(counts, i + 1) ==> owner[k] == i
  {
    forall i | 0 <= i <= |counts|
      ensures 0 <= Start(counts, i) <= |owner|
    {
      StartMonotone(counts, 0, i);
      StartMonotone(counts, i, |counts|);
    }
    forall i, k | 0 <= i < |counts| && Start(counts, i) <= k < Start(counts, i + 1)
      ensures owner[k] == i
    {
      StartMonotone(counts, i + 1, |counts|);
      StartMonotone(counts, 0, i);
      SlotOwnerUnique(counts, k, i, owner[k]);
    }
  }

  /** Each filled slot belongs to exactly one member: the member ranges
      [Start(i), Start(i + 1)) do not overlap. */
  lemma SlotOwnerUnique(counts: seq<int>, k: int, i: nat, i': nat)
    requires NonNegative(counts) && i < |counts| && i' < |counts|
    requires Start(counts, i) <= k < Start(counts, i + 1)
    requires Start(counts, i') <= k < Start(counts, i' + 1)
    ensures i == i'
  {
    if i < i' {
      StartMonotone(counts, i + 1, i');
    } else if i' < i {
      StartMonotone(counts, i' + 1, i);
    }
  }

  /** The member whose range holds slot k; every slot below the total has one. */
  function MemberOfSlot(counts: seq<int>, k: int): (i: nat)
    requires NonNegative(counts) && 0 <= k < Sum(counts)
    ensures i < |counts| && Start(counts, i) <= k < Start(counts, i + 1)
  {
    StartStep(counts, 0);
    if k < counts[0] then
      0
    else
      var i' := MemberOfSlot(counts[1..], k - counts[0]);
      StartTail(counts, i');
      StartTail(counts, i' + 1);
      i' + 1
  }

  lemma StartTail(counts: seq<int>, i: nat)
    requires 0 < |counts| && i < |counts|
    ensures Start(counts, i + 1) == counts[0] + Start(counts[1..], i)
  {
    assert counts[..i + 1][1..] == counts[1..][..i];
  }

  // ---------------------------------------------------------------------------
  // Member shares
  // ---------------------------------------------------------------------------

  /** Walking the sorted partitions once, member 0 takes the first counts[0],
      member 1 the next counts[1], and so on. */
  function Shares(sorted: seq<PartitionMetadataInfo>, counts: seq<int>): (shares: seq<seq<PartitionMetadataInfo>>)
    requires NonNegative(counts) && Sum(counts) <= |sorted|
    ensures |shares| == |counts|
  {
    if counts == [] then
      []
    else
      SumNonNegative(counts[1..]);
      [sorted[..counts[0]]] + Shares(sorted[counts[0]..], counts[1..])
  }

  function Concat<T>(ss: seq<seq<T>>): (flat: seq<T>)
  {
    if ss == [] then [] else ss[0] + Concat(ss[1..])
  }

  /** Member i's share is the contiguous run of sorted partitions from
      Start(i) up to Start(i + 1), counts[i] of them. */
  lemma {:induction false} ShareIsContiguous(sorted: seq<PartitionMetadataInfo>, counts: seq<int>, i: nat)
    requires NonNegative(counts) && Sum(counts) <= |sorted| && i < |counts|
    ensures 0 <= Start(counts, i) <= Start(counts, i + 1) <= |sorted|
    ensures Shares(sorted, counts)[i] == sorted[Start(counts, i)..Start(counts, i + 1)]
    ensures |Shares(sorted, counts)[i]| == counts[i]
  {
    StartMonotone(counts, 0, i);
    StartMonotone(counts, i, i + 1);
    StartMonotone(counts, i + 1, |counts|);
    SumNonNegative(counts[1..]);
    StartStep(counts, 0);
    if i > 0 {
      var rest, counts' := sorted[counts[0]..], counts[1..];
      ShareIsContiguous(rest, counts', i - 1);
      StartTail(counts, i - 1);
      StartTail(counts, i);
      assert Shares(sorted, counts)[i] == Shares(rest, counts')[i - 1];
      assert rest[Start(counts', i - 1)..Start(counts', i)] == sorted[Start(counts, i)..Start(counts, i + 1)];
    }
  }

  /** The shares, read member after member, are the sorted partitions in
      order: nothing is left out, nothing appears twice. */
  lemma {:induction false} SharesCoverSorted(sorted: seq<PartitionMetadataInfo>, counts: seq<int>)
    requires NonNegative(counts) && Sum(counts) <= |sorted|
    ensures 0 <= Sum(counts)
    ensures Concat(Shares(sorted, counts)) == sorted[..Sum(counts)]
  {
    SumNonNegative(counts);
    if counts != [] {
      SumNonNegative(counts[1..]);
      var rest := sorted[counts[0]..];
      SharesCoverSorted(rest, counts[1..]);
      assert Shares(sorted, counts)[1..] == Shares(rest, counts[1..]);
      assert sorted[..Sum(counts)] == sorted[..counts[0]] + rest[..Sum(counts[1..])];
    }
  }

  /** Member i's iteration of the fill writes its own share, in order, into
      the slots from Start(i) to Start(i + 1). */
  lemma MemberWritesItsShare(topicName: string, sorted: seq<PartitionMetadataInfo>, counts: seq<int>, i: nat)
    requires NonNegative(counts) && Sum(counts) <= |sorted| && i < |counts|
    ensures 0 <= Start(counts, i) <= Start(counts, i + 1) <= |sorted|
    ensures Start(counts, i + 1) == Start(counts, i) + counts[i]
    ensures |Shares(sorted, counts)[i]| == counts[i]
    ensures forall j :: 0 <= j < counts[i] ==>
      TopicSlots(topicName, sorted, counts)[Start(counts, i) + j]
        == Some(AssignmentOf(topicName, Shares(sorted, counts)[i][j]))
  {
    ShareIsContiguous(sorted, counts, i);
    StartMonotone(counts, i + 1, |counts|);
    StartStep(counts, i);
  }

  predicate UniquePartitionIds(s: seq<PartitionMetadataInfo>)
  {
    forall k, l :: 0 <= k < l < |s| ==> s[k].partitionId != s[l].partitionId
  }

  /** With unique partition ids, two members never share a partition, and on
      sorted partitions every id of a lower member is below every id of a
      higher member. */
  lemma SharesDisjoint(sorted: seq<PartitionMetadataInfo>, counts: seq<int>, i: nat, i': nat, p: PartitionMetadataInfo, p': PartitionMetadataInfo)
    requires NonNegative(counts) && Sum(counts) <= |sorted|
    requires SortedByPartitionID(sorted) && UniquePartitionIds(sorted)
    requires i < i' < |counts|
    requires p in Shares(sorted, counts)[i] && p' in Shares(sorted, counts)[i']
    ensures p.partitionId < p'.partitionId
  {
    var a := PositionInShare(sorted, counts, i, p);
    var b := PositionInShare(sorted, counts, i', p');
    StartMonotone(counts, i + 1, i');
    assert a < b;
  }

  /** Where a partition of member i's share sits in the sorted list. */
  lemma PositionInShare(sorted: seq<PartitionMetadataInfo>, counts: seq<int>, i: nat, p: PartitionMetadataInfo)
    returns (a: nat)
    requires NonNegative(counts) && Sum(counts) <= |sorted| && i < |counts|
    requires p in Shares(sorted, counts)[i]
    ensures Start(counts, i) <= a < Start(counts, i + 1) <= |sorted| && sorted[a] == p
  {
    ShareIsContiguous(sorted, counts, i);
    var share := Shares(sorted, counts)[i];
    var k :| 0 <= k < |share| && share[k] == p;
    a := Start(counts, i) + k;
  }

  /** With at least one member the fill of a topic leaves no slot nil and
      slot k holds the k-th sorted partition; with no members every slot
      stays nil. */
  lemma TopicSlotsComplete(topicName: string, sorted: seq<PartitionMetadataInfo>, memberCount: nat)
    ensures memberCount > 0 ==> forall k :: 0 <= k < |sorted| ==>
      TopicSlots(topicName, sorted, RangeCounts(memberCount, |sorted|))[k] == Some(AssignmentOf(topicName, sorted[k]))
    ensures memberCount == 0 ==> forall k :: 0 <= k < |sorted| ==>
      TopicSlots(topicName, sorted, RangeCounts(memberCount, |sorted|))[k] == None
  {
    if memberCount > 0 {
      RangeCountsSum(memberCount, |sorted|);
    } else {
      assert RangeCounts(memberCount, |sorted|) == [];
    }
  }

  // ---------------------------------------------------------------------------
  // RangeAssignmentStrategy.Assign
  // ---------------------------------------------------------------------------

  /** One iteration of Assign's topic loop: sort the topic's partitions in
      place, compute the counts and run the fill. */
  method AssignTopic(memberCount: nat, topicMetadata: TopicMetadata)
    returns (partitionAssignments: seq<Option<PartitionAssignment>>)
    modifies topicMetadata.partitionMetadatas
    ensures SortedByPartitionID(topicMetadata.partitionMetadatas[..])
    ensures multiset(topicMetadata.partitionMetadatas[..]) == old(multiset(topicMetadata.partitionMetadatas[..]))
    ensures partitionAssignments == TopicSlots(topicMetadata.topicName, topicMetadata.partitionMetadatas[..],
                                               RangeCounts(memberCount, topicMetadata.partitionMetadatas.Length))
  {
    SortByPartitionID(topicMetadata.partitionMetadatas);
    var partitions := AssignPartitions(memberCount, topicMetadata.partitionMetadatas.Length);
    RangeCountsBalanced(memberCount, topicMetadata.partitionMetadatas.Length);
    var idx;
    ghost var owner;
    partitionAssignments, idx, owner := FillPartitionAssignments(topicMetadata.topicName, topicMetadata.partitionMetadatas, partitions);
  }

  /** Sorts every topic's partitions in place and runs the per-topic fill,
      whose result is discarded; the returned GroupAssignment is always
      empty. The ghost topicAssignments records each discarded fill. */
  method Assign(members: seq<Member>, topicMetadatas: seq<TopicMetadata>)
    returns (groupAssignment: GroupAssignment, ghost topicAssignments: seq<seq<Option<PartitionAssignment>>>)
    modifies set t | t in topicMetadatas :: t.partitionMetadatas
    ensures groupAssignment == []
    ensures forall t :: t in topicMetadatas ==>
      SortedByPartitionID(t.partitionMetadatas[..]) &&
      multiset(t.partitionMetadatas[..]) == old(multiset(t.partitionMetadatas[..]))
    ensures |topicAssignments| == |topicMetadatas|
    ensures forall n :: 0 <= n < |topicMetadatas| ==>
      topicAssignments[n] == TopicSlots(topicMetadatas[n].topicName, topicMetadatas[n].partitionMetadatas[..],
                                        RangeCounts(|members|, topicMetadatas[n].partitionMetadatas.Length))
  {
    groupAssignment := [];
    topicAssignments := [];
    for n := 0 to |topicMetadatas|
      invariant |topicAssignments| == n
      invariant forall t :: t in topicMetadatas ==>
        multiset(t.partitionMetadatas[..]) == old(multiset(t.partitionMetadatas[..]))
      invariant forall m :: 0 <= m < n ==> SortedByPartitionID(topicMetadatas[m].partitionMetadatas[..])
      invariant forall m :: 0 <= m < n ==>
        topicAssignments[m] == TopicSlots(topicMetadatas[m].topicName, topicMetadatas[m].partitionMetadatas[..],
                                          RangeCounts(|members|, topicMetadatas[m].partitionMetadatas.Length))
    {
      var topicMetadata := topicMetadatas[n];
      var slice := topicMetadata.partitionMetadatas;
      ghost var before := slice[..];
      label Head:
      var partitionAssignments := AssignTopic(|members|, topicMetadata);
      forall m | 0 <= m < n
        ensures topicMetadatas[m].partitionMetadatas[..] == old@Head(topicMetadatas[m].partitionMetadatas[..])
      {
        if topicMetadatas[m].partitionMetadatas == slice {
          // an earlier topic shares this slice: it was sorted already, so the sort left it as it was
          SortedPermutationUnique(before, slice[..]);
        }
      }
      topicAssignments := topicAssignments + [partitionAssignments];
    }
  }
}
