/** Greedy batching of the file list under a count limit and two byte budgets. */
module Batching {
  import opened Bytes

  const INDEX_BUILD_BATCH_SIZE := 1024
  const MAPPED_BATCH_BYTES: u64 := 256 * 1024 * 1024

  /** The bytes a file adds to a batch: allocated, or borrowed from a map. */
  datatype Charge = Charge(heap: u64, mapped: u64)

  function SaturatingAdd(a: u64, b: u64): u64 { Min(a + b, U64_MAX) }

  /** Exact sums of a block. */
  function HeapSum(cs: seq<Charge>): nat {
    if cs == [] then 0 else HeapSum(cs[..|cs| - 1]) + cs[|cs| - 1].heap
  }

  function MappedSum(cs: seq<Charge>): nat {
    if cs == [] then 0 else MappedSum(cs[..|cs| - 1]) + cs[|cs| - 1].mapped
  }

  /**
   * A block the limits allow: a single file, or one within the count and both budgets. `heapLimit`
   * bounds the exact sum; `None` bounds nothing.
   */
  predicate Fits(block: seq<Charge>, heapLimit: Option<u64>) {
    && 1 <= |block| <= INDEX_BUILD_BATCH_SIZE
    && (|block| == 1 ||
        ((heapLimit.Some? ==> HeapSum(block) <= heapLimit.value) && MappedSum(block) <= MAPPED_BATCH_BYTES))
  }

  /** The sums count every file of a block once. */
  lemma {:induction false} SumsAdd(a: seq<Charge>, b: seq<Charge>)
    ensures HeapSum(a + b) == HeapSum(a) + HeapSum(b) && MappedSum(a + b) == MappedSum(a) + MappedSum(b)
    ensures |b| == 1 ==> HeapSum(b) == b[0].heap && MappedSum(b) == b[0].mapped
  {
    if b == [] {
      assert a + b == a;
    } else {
      var n := |b| - 1;
      SumsAdd(a, b[..n]);
      assert (a + b)[..|a + b| - 1] == a + b[..n];
    }
  }

  /** The limits: 1024 files, the heap budget, and 256 MiB of mapped bytes, but for a single file. */
  lemma LimitsAre(block: seq<Charge>, budget: u64)
    ensures Fits(block, Some(budget))
       <==> |block| == 1
            || (2 <= |block| <= 1024 && HeapSum(block) <= budget && MappedSum(block) <= 268435456)
    ensures Fits(block, None) <==> |block| == 1 || (2 <= |block| <= 1024 && MappedSum(block) <= 268435456)
  {
    hide HeapSum, MappedSum;
  }

  /** The heap bound that saturating sums enforce: a saturated sum never exceeds the greatest budget. */
  function Enforced(budget: u64): Option<u64> {
    if budget < U64_MAX then Some(budget) else None
  }

  /** The end of the last block, which is where the next one starts. */
  function LastEnd(ends: seq<nat>): nat {
    if ends == [] then 0 else ends[|ends| - 1]
  }

  /** `ends` splits the first `n` files into contiguous blocks, all of which fit. */
  ghost predicate Partition(cs: seq<Charge>, heapLimit: Option<u64>, ends: seq<nat>, n: nat) {
    && n <= |cs| && LastEnd(ends) == n
    && (ends == [] ||
        var init := ends[..|ends| - 1];
        && LastEnd(init) < n
        && Fits(cs[LastEnd(init)..n], heapLimit)
        && Partition(cs, heapLimit, init, LastEnd(init)))
  }

  lemma {:induction false} SumsGrow(cs: seq<Charge>, i: nat, j: nat)
    requires i <= j <= |cs|
    ensures HeapSum(cs[i..j]) <= HeapSum(cs) && MappedSum(cs[i..j]) <= MappedSum(cs)
    decreases |cs|
  {
    if j < |cs| {
      var n := |cs| - 1;
      SumsGrow(cs[..n], i, j);
      assert cs[..n][i..j] == cs[i..j];
    } else if i > 0 {
      DropFirst(cs);
      SumsGrow(cs[1..], i - 1, j - 1);
      assert cs[1..][i - 1..j - 1] == cs[i..j];
    } else {
      assert cs[i..j] == cs;
    }
  }

  lemma {:induction false} DropFirst(cs: seq<Charge>)
    requires cs != []
    ensures HeapSum(cs) == cs[0].heap + HeapSum(cs[1..])
    ensures MappedSum(cs) == cs[0].mapped + MappedSum(cs[1..])
  {
    var n := |cs| - 1;
    if n > 0 {
      DropFirst(cs[..n]);
      assert cs[..n][1..] == cs[1..][..n - 1];
    }
  }

  /** Cutting a block down leaves it within the limits. */
  lemma FitsShrinks(block: seq<Charge>, i: nat, j: nat, heapLimit: Option<u64>)
    requires Fits(block, heapLimit) && i < j <= |block|
    ensures Fits(block[i..j], heapLimit)
  {
    SumsGrow(block, i, j);
  }

  /** No partition of more than the first `start` files has fewer than `count + 1` blocks. */
  ghost predicate NeedsMoreThan(cs: seq<Charge>, heapLimit: Option<u64>, start: nat, count: nat) {
    forall ends: seq<nat>, n: nat :: Partition(cs, heapLimit, ends, n) && n > start ==> |ends| > count
  }

  /**
   * The exchange step: if files past `start` need more than `count` blocks and the files
   * `start..=i` cannot share a block, then files past `i` need more than `count + 1`.
   */
  lemma GreedyStep(cs: seq<Charge>, heapLimit: Option<u64>, start: nat, i: nat, count: nat)
    requires start < i < |cs| && NeedsMoreThan(cs, heapLimit, start, count)
    requires !Fits(cs[start..i + 1], heapLimit)
    ensures NeedsMoreThan(cs, heapLimit, i, count + 1)
  {
    hide Fits;
    forall ends: seq<nat>, n: nat | Partition(cs, heapLimit, ends, n) && n > i
      ensures |ends| > count + 1
    {
      var init := ends[..|ends| - 1];
      var s := LastEnd(init);
      var block := cs[s..n];
      assert s > start by {
        if s <= start {
          SliceOfSlice(cs, s, n, start - s, i + 1 - s);
          FitsShrinks(block, start - s, i + 1 - s, heapLimit);
        }
      }
      assert Partition(cs, heapLimit, init, s);
    }
  }

  lemma OneMore(cs: seq<Charge>, start: nat, i: nat)
    requires start <= i < |cs|
    ensures HeapSum(cs[start..i + 1]) == HeapSum(cs[start..i]) + cs[i].heap
    ensures MappedSum(cs[start..i + 1]) == MappedSum(cs[start..i]) + cs[i].mapped
  {
    assert cs[start..i + 1][..i - start] == cs[start..i];
  }

  /** The running totals of the block `start..i`. */
  ghost predicate Totals(cs: seq<Charge>, start: nat, i: nat, heap: u64, mapped: u64)
    requires start <= i <= |cs|
  {
    heap == Min(HeapSum(cs[start..i]), U64_MAX) && mapped == Min(MappedSum(cs[start..i]), U64_MAX)
  }

  /** Whether adding `c` to the running totals would break a limit. */
  predicate Full(c: Charge, size: nat, heap: u64, mapped: u64, budget: u64) {
    || size >= INDEX_BUILD_BATCH_SIZE
    || SaturatingAdd(heap, c.heap) > budget
    || SaturatingAdd(mapped, c.mapped) > MAPPED_BATCH_BYTES
  }

  /** The saturating test decides exactly whether file `i` fits the block, and totals stay exact. */
  lemma TestIsExact(cs: seq<Charge>, budget: u64, start: nat, i: nat, heap: u64, mapped: u64)
    requires start <= i < |cs| && Totals(cs, start, i, heap, mapped)
    ensures i > start ==> (Full(cs[i], i - start, heap, mapped, budget) <==> !Fits(cs[start..i + 1], Enforced(budget)))
    ensures Fits(cs[i..i + 1], Enforced(budget))
    ensures Totals(cs, start, i + 1, SaturatingAdd(heap, cs[i].heap), SaturatingAdd(mapped, cs[i].mapped))
    ensures Totals(cs, i, i, 0, 0)
    ensures Totals(cs, i, i + 1, cs[i].heap, cs[i].mapped)
  {
    OneMore(cs, start, i);
    OneMore(cs, i, i);
  }

  /**
   * Batch ranges, as the ends of the half-open blocks; block `k` starts where block `k - 1` ends. These
   * are the ends found from file `i` on, in the block that began at `start`.
   */
  function EndsFrom(cs: seq<Charge>, budget: u64, start: nat, i: nat, heap: u64, mapped: u64): seq<nat>
    requires start <= i <= |cs|
    decreases |cs| - i
  {
    if i == |cs| then if start < i then [i] else []
    else
      var c := cs[i];
      if i > start && Full(c, i - start, heap, mapped, budget)
      then [i] + EndsFrom(cs, budget, i, i + 1, c.heap, c.mapped)
      else EndsFrom(cs, budget, start, i + 1, SaturatingAdd(heap, c.heap), SaturatingAdd(mapped, c.mapped))
  }

  /** The batches the loop returns. */
  function Batches(cs: seq<Charge>, budget: u64): seq<nat> {
    EndsFrom(cs, budget, 0, 0, 0, 0)
  }

  /**
   * Below the greatest budget the heap bound of every block is the exact one; at any budget no
   * partition within the exact bounds has fewer blocks.
   */
  method BatchRanges(cs: seq<Charge>, budget: u64) returns (ends: seq<nat>)
    ensures ends == Batches(cs, budget)
    ensures Partition(cs, Enforced(budget), ends, |cs|)
    ensures forall other: seq<nat> :: Partition(cs, Enforced(budget), other, |cs|) ==> |ends| <= |other|
    ensures budget < U64_MAX ==> Partition(cs, Some(budget), ends, |cs|)
    ensures forall other: seq<nat> :: Partition(cs, Some(budget), other, |cs|) ==> |ends| <= |other|
  {
    hide Full, Enforced, Partition;
    ends := [];
    var start := 0;
    var heap: u64, mapped: u64 := 0, 0;
    for i := 0 to |cs|
      invariant start <= i && (start == i ==> heap == mapped == 0)
      invariant Batches(cs, budget) == ends + EndsFrom(cs, budget, start, i, heap, mapped)
    {
      if i > start && Full(cs[i], i - start, heap, mapped, budget) {
        ends := ends + [i];
        start := i;
        heap, mapped := 0, 0;
      }
      heap := SaturatingAdd(heap, cs[i].heap);
      mapped := SaturatingAdd(mapped, cs[i].mapped);
    }
    if start < |cs| {
      ends := ends + [|cs|];
    }
    BatchesAreGood(cs, budget);
    EnforcedIsExact(budget);
    forall other: seq<nat> | Partition(cs, Some(budget), other, |cs|)
      ensures Partition(cs, Enforced(budget), other, |cs|)
    {
      ExactIsEnforced(cs, budget, other, |cs|);
    }
  }

  /** The blocks are within the enforced bounds, and no other partition within them has fewer. */
  lemma BatchesAreGood(cs: seq<Charge>, budget: u64)
    ensures Partition(cs, Enforced(budget), Batches(cs, budget), |cs|)
    ensures forall other: seq<nat> :: Partition(cs, Enforced(budget), other, |cs|) ==> |Batches(cs, budget)| <= |other|
  {
    hide EndsFrom, Partition, Totals;
    NoBlocks(cs, Enforced(budget));
    EndsFromGood(cs, budget, [], 0, 0, 0, 0);
    assert [] + Batches(cs, budget) == Batches(cs, budget);
  }

  /** From any state the loop reaches: `done` are the ends so far, and no partition could do with fewer. */
  lemma {:induction false} EndsFromGood(cs: seq<Charge>, budget: u64, done: seq<nat>, start: nat, i: nat,
                                        heap: u64, mapped: u64)
    requires start <= i <= |cs| && (start == i ==> i == 0) && Totals(cs, start, i, heap, mapped)
    requires Partition(cs, Enforced(budget), done, start) && NeedsMoreThan(cs, Enforced(budget), start, |done|)
    requires i > start ==> Fits(cs[start..i], Enforced(budget))
    ensures var ends := done + EndsFrom(cs, budget, start, i, heap, mapped);
            && Partition(cs, Enforced(budget), ends, |cs|)
            && forall other: seq<nat> :: Partition(cs, Enforced(budget), other, |cs|) ==> |ends| <= |other|
    decreases |cs| - i
  {
    hide HeapSum, MappedSum, Fits, Totals, Enforced, Full, Partition, EndsFrom;
    var limit := Enforced(budget);
    EndsFromStep(cs, budget, start, i, heap, mapped);
    if i == |cs| {
      if start < i {
        OneMoreBlock(cs, limit, done, start, i);
      } else {
        assert done + [] == done;
        NoBlocks(cs, limit);
        PartitionOfNothing(cs, limit, done);
      }
    } else {
      TestIsExact(cs, budget, start, i, heap, mapped);
      if i > start && Full(cs[i], i - start, heap, mapped, budget) {
        GreedyStep(cs, limit, start, i, |done|);
        OneMoreBlock(cs, limit, done, start, i);
        EndsFromGood(cs, budget, done + [i], i, i + 1, cs[i].heap, cs[i].mapped);
        ConcatAssoc(done, [i], EndsFrom(cs, budget, i, i + 1, cs[i].heap, cs[i].mapped));
      } else {
        EndsFromGood(cs, budget, done, start, i + 1,
                     SaturatingAdd(heap, cs[i].heap), SaturatingAdd(mapped, cs[i].mapped));
      }
    }
  }

  lemma EndsFromStep(cs: seq<Charge>, budget: u64, start: nat, i: nat, heap: u64, mapped: u64)
    requires start <= i <= |cs|
    ensures EndsFrom(cs, budget, start, i, heap, mapped)
         == if i == |cs| then if start < i then [i] else []
            else if i > start && Full(cs[i], i - start, heap, mapped, budget)
            then [i] + EndsFrom(cs, budget, i, i + 1, cs[i].heap, cs[i].mapped)
            else EndsFrom(cs, budget, start, i + 1,
                          SaturatingAdd(heap, cs[i].heap), SaturatingAdd(mapped, cs[i].mapped))
  {
    hide Full;
  }

  lemma PartitionOfNothing(cs: seq<Charge>, heapLimit: Option<u64>, ends: seq<nat>)
    requires Partition(cs, heapLimit, ends, 0)
    ensures ends == []
  {
  }

  lemma NoBlocks(cs: seq<Charge>, heapLimit: Option<u64>)
    ensures Partition(cs, heapLimit, [], 0) && NeedsMoreThan(cs, heapLimit, 0, 0)
    ensures Totals(cs, 0, 0, 0, 0)
  {
  }

  lemma OneMoreBlock(cs: seq<Charge>, heapLimit: Option<u64>, ends: seq<nat>, start: nat, i: nat)
    requires Partition(cs, heapLimit, ends, start) && start < i <= |cs| && Fits(cs[start..i], heapLimit)
    ensures Partition(cs, heapLimit, ends + [i], i)
  {
    hide Fits;
    assert (ends + [i])[..|ends|] == ends;
  }

  // ---- what saturation changes ----

  lemma EnforcedIsExact(budget: u64)
    ensures budget < U64_MAX ==> Enforced(budget) == Some(budget)
  {
  }

  /** A partition within the exact bound is within the enforced one. */
  lemma {:induction false} ExactIsEnforced(cs: seq<Charge>, budget: u64, ends: seq<nat>, n: nat)
    requires Partition(cs, Some(budget), ends, n)
    ensures Partition(cs, Enforced(budget), ends, n)
    decreases |ends|
  {
    if ends != [] {
      var init := ends[..|ends| - 1];
      ExactIsEnforced(cs, budget, init, LastEnd(init));
    }
  }

  /** What the saturating test decides about file `i` after the block `start..i`, from any totals of it. */
  ghost predicate Refused(cs: seq<Charge>, start: nat, i: nat, budget: u64)
    requires start <= i < |cs|
  {
    Full(cs[i], i - start, Min(HeapSum(cs[start..i]), U64_MAX), Min(MappedSum(cs[start..i]), U64_MAX), budget)
  }

  /** `U64_MAX` bytes and one more. */
  function Overflowing(): seq<Charge> { [Charge(U64_MAX, 0), Charge(1, 0)] }

  lemma OverflowingSums()
    ensures var cs := Overflowing();
            HeapSum(cs) == U64_MAX + 1 && MappedSum(cs) == 0 && cs[0..2] == cs
            && HeapSum(cs[0..1]) == U64_MAX && MappedSum(cs[0..1]) == 0
  {
    var cs := Overflowing();
    OneMore(cs, 0, 0);
    OneMore(cs, 0, 1);
    assert cs[0..2] == cs;
  }

  /**
   * Saturation never changes a decision, of any file after any block, if and only if the budget is
   * below the greatest one.
   */
  lemma SaturationIsHarmless(budget: u64)
    ensures budget < U64_MAX
       <==> forall cs: seq<Charge>, start: nat, i: nat :: start < i < |cs| ==>
              (Refused(cs, start, i, budget) <==> !Fits(cs[start..i + 1], Some(budget)))
  {
    hide HeapSum, MappedSum, Fits, Full;
    if budget < U64_MAX {
      forall cs: seq<Charge>, start: nat, i: nat | start < i < |cs|
        ensures Refused(cs, start, i, budget) <==> !Fits(cs[start..i + 1], Some(budget))
      {
        var heap, mapped := Min(HeapSum(cs[start..i]), U64_MAX), Min(MappedSum(cs[start..i]), U64_MAX);
        TestIsExact(cs, budget, start, i, heap, mapped);
      }
    } else {
      OverflowingIsAccepted();
    }
  }

  lemma OverflowingIsAccepted()
    ensures !Refused(Overflowing(), 0, 1, U64_MAX) && !Fits(Overflowing()[0..2], Some(U64_MAX))
  {
    OverflowingSums();
  }

  /**
   * So the loop's batches are within the exact bound, for every file list, if and only if the budget is
   * below the greatest one; at that one two files end up in one batch beyond it.
   */
  lemma BoundIsExact(budget: u64)
    ensures budget < U64_MAX
       <==> forall cs: seq<Charge> :: Partition(cs, Some(budget), Batches(cs, budget), |cs|)
  {
    hide HeapSum, MappedSum, Fits, Partition, Batches;
    if budget < U64_MAX {
      EnforcedIsExact(budget);
      forall cs: seq<Charge>
        ensures Partition(cs, Some(budget), Batches(cs, budget), |cs|)
      {
        BatchesAreGood(cs, budget);
      }
    } else {
      OverflowingBatch();
    }
  }

  lemma OverflowingBatch()
    ensures Batches(Overflowing(), U64_MAX) == [2] && !Partition(Overflowing(), Some(U64_MAX), [2], 2)
  {
    OverflowingSums();
    var cs := Overflowing();
    assert !Fits(cs[0..2], Some(U64_MAX));
    assert [2][..0] == [];
    assert EndsFrom(cs, U64_MAX, 0, 2, U64_MAX, 0) == [2];
    assert EndsFrom(cs, U64_MAX, 0, 1, U64_MAX, 0) == [2];
  }

  // ---- the charges callers make ----

  const INDEX_BUILD_BATCH_BYTES: u64 := 64 * 1024 * 1024
  const MAPPED_BATCH_CHARGE: u64 := 2 * 1024 * 1024

  /** From this size on a file is mapped rather than read. */
  const MMAP_MIN_BYTES: u64 := 1024 * 1024

  /** A file too large to be read is mapped, and charged a fixed allowance of heap at most. */
  function BatchCharge(size: u64): Charge {
    if size >= MMAP_MIN_BYTES then Charge(Min(size, MAPPED_BATCH_CHARGE), size) else Charge(size, 0)
  }

  /** A file of unknown size fills a batch. */
  const UNKNOWN_SIZE_CHARGE := Charge(INDEX_BUILD_BATCH_BYTES, MAPPED_BATCH_BYTES)

  /** The charges of a file list, some of whose sizes are unknown. */
  function Charges(sizes: seq<Option<u64>>): (cs: seq<Charge>)
    ensures |cs| == |sizes|
  {
    seq(|sizes|, i requires 0 <= i < |sizes| =>
      match sizes[i] case Some(size) => BatchCharge(size) case None => UNKNOWN_SIZE_CHARGE)
  }

  /**
   * A file below 1 MiB is charged its size to the heap; a larger one its size to the maps and at most
   * 2 MiB to the heap, the allowance for what is extracted from it; one of unknown size a whole batch.
   */
  lemma ChargesAre(sizes: seq<Option<u64>>, i: nat)
    requires i < |sizes|
    ensures var c := Charges(sizes)[i];
            && (sizes[i].None? ==> c.heap == 67108864 && c.mapped == 268435456)
            && (sizes[i].Some? && sizes[i].value < 1048576 ==> c.heap == sizes[i].value && c.mapped == 0)
            && (sizes[i].Some? && sizes[i].value >= 1048576 ==> c.mapped == sizes[i].value && c.heap <= 2097152)
            && (sizes[i].Some? && sizes[i].value >= 2097152 ==> c.heap == 2097152)
            && (sizes[i].Some? && 1048576 <= sizes[i].value <= 2097152 ==> c.heap == sizes[i].value)
  {
  }

  lemma {:induction false} HeapSumAtMost(cs: seq<Charge>, most: nat)
    requires forall i :: 0 <= i < |cs| ==> cs[i].heap <= most
    ensures HeapSum(cs) <= |cs| * most
  {
    if cs != [] {
      HeapSumAtMost(cs[..|cs| - 1], most);
    }
  }

  /** No block of real charges, nor one file more, sums up to what would saturate. */
  lemma RealSumsAreSmall(sizes: seq<Option<u64>>, start: nat, end: nat)
    requires start <= end <= |sizes| && end - start <= INDEX_BUILD_BATCH_SIZE + 1
    ensures HeapSum(Charges(sizes)[start..end]) < U64_MAX
  {
    HeapSumAtMost(Charges(sizes)[start..end], INDEX_BUILD_BATCH_BYTES);
  }

  /** For real charges the batches keep the exact bound at every budget. */
  lemma RealBatchesAreExact(sizes: seq<Option<u64>>, budget: u64)
    ensures var cs := Charges(sizes); Partition(cs, Some(budget), Batches(cs, budget), |cs|)
  {
    hide Batches, Charges, Partition;
    BatchesAreGood(Charges(sizes), budget);
    RealPartitionIsExact(sizes, budget, Batches(Charges(sizes), budget), |sizes|);
  }

  lemma {:induction false} RealPartitionIsExact(sizes: seq<Option<u64>>, budget: u64, ends: seq<nat>, n: nat)
    requires Partition(Charges(sizes), Enforced(budget), ends, n)
    ensures Partition(Charges(sizes), Some(budget), ends, n)
    decreases |ends|
  {
    hide Charges, HeapSum, MappedSum;
    if ends != [] {
      var init := ends[..|ends| - 1];
      RealPartitionIsExact(sizes, budget, init, LastEnd(init));
      RealSumsAreSmall(sizes, LastEnd(init), n);
    }
  }

  /** Every smallest partition of the two files is the one block whose heap sum exceeds the budget. */
  lemma OverflowingBlock()
    ensures Partition(Overflowing(), None, [2], 2) && !Partition(Overflowing(), Some(U64_MAX), [2], 2)
    ensures forall ends: seq<nat> :: Partition(Overflowing(), None, ends, 2) && |ends| <= 1 ==> ends == [2]
  {
    OverflowingSums();
    var cs := Overflowing();
    assert Fits(cs[0..2], None) && !Fits(cs[0..2], Some(U64_MAX));
    assert [2][..0] == [];
    forall ends: seq<nat> | Partition(cs, None, ends, 2) && |ends| <= 1
      ensures ends == [2]
    {
      assert ends != [];
      assert ends == [ends[0]];
    }
  }
}
