/**
  The driver mdriver.c as a client of the mm package: it runs a trace of requests, keeps the list of payload ranges,
  fills every payload with the low byte of its id, and checks what the allocator returns.
 */
module MDriver {
  import opened RBTree
  import opened MemLib
  import opened AllocSpec
  import opened Segments
  import opened SegMem
  import opened MmState
  import Mm
  import opened Package
  import opened DriverState

  // add_range: 1 and a longer list, or 0 and the same list.
  method AddRange(ranges: seq<Range>, lo: nat, size: nat, heapBytes: nat) returns (r: int, ranges': seq<Range>)
    requires 1 <= size
    ensures r == 1 || r == 0
    ensures r == 1 <==> Acceptable(ranges, lo, size, heapBytes)
    ensures ranges' == if r == 1 then [Range(lo, lo + size - 1)] + ranges else ranges
  {
    var hi := lo + size - 1;
    if lo % 8 != 0 {
      return 0, ranges;
    }
    if lo > heapBytes - 1 || hi > heapBytes - 1 {
      return 0, ranges;
    }
    var i := 0;
    while i < |ranges|
      invariant 0 <= i <= |ranges|
      invariant forall k :: 0 <= k < i ==> !Hits(lo, hi, ranges[k])
    {
      if (lo >= ranges[i].lo && lo <= ranges[i].hi) || (hi >= ranges[i].lo && hi <= ranges[i].hi) {
        assert ranges[i] in ranges;
        return 0, ranges;
      }
      i := i + 1;
    }
    return 1, [Range(lo, hi)] + ranges;
  }

  // remove_range: the first record that starts at lo goes; without one the list stays.
  method RemoveRange(ranges: seq<Range>, lo: nat) returns (ranges': seq<Range>)
    ensures var at := RangeAt(ranges, lo, 0);
      ranges' == if at == |ranges| then ranges else ranges[..at] + ranges[at + 1..]
  {
    var i := 0;
    while i < |ranges|
      invariant 0 <= i <= |ranges| && RangeAt(ranges, lo, 0) == RangeAt(ranges, lo, i)
    {
      if ranges[i].lo == lo {
        return ranges[..i] + ranges[i + 1..];
      }
      i := i + 1;
    }
    ranges' := ranges;
  }

  // ----- requests -----

  // The test of eval_mm_valid that failed; both end the run with 0.
  datatype Test = RangeTest | DataTest

  // 1, 0, or a run that ended because mem_sbrk had no more memory to give.
  datatype Verdict = Passed | Failed(test: Test) | OutOfMemory

  // A char is signed on the machines the driver is built for.
  function SignedChar(b: Byte): int {
    if b < 128 then b else b - 256
  }

  class Driver {
    const heap: Heap
    const mm: MmPackage
    const blocks: array<nat>
    const sizes: array<nat>
    var ranges: seq<Range>

    ghost predicate Parts()
      reads this
    {
      mm.heap == heap && mm.Linked() && blocks != sizes && blocks.Length == sizes.Length
    }

    // The allocator is in order and the live ids own its live blocks.
    ghost predicate Owning(ids: set<nat>)
      reads this, mm.tree, mm.list, heap, heap.mem, blocks, sizes
    {
      Parts() && mm.Valid() && Owners(mm.Live(), blocks[..], sizes[..], ids)
    }

    // Payloads and range list are in order as well.
    ghost predicate Valid(ids: set<nat>)
      reads this, mm.tree, mm.list, heap, heap.mem, blocks, sizes
    {
      Parts() && mm.Valid() && InOrder(heap.mem[..], mm.Live(), ranges, blocks[..], sizes[..], ids)
    }

    // The present state is one after k requests, and the next one needs more memory than mem_sbrk can give.
    ghost predicate StuckAt(trace: seq<Op>, k: nat)
      requires k < |trace|
      reads this, mm.tree, mm.list, heap, heap.mem, blocks, sizes
    {
      var live := Requested(trace, k);
      && Owning(live.Keys)
      && match trace[k]
         case Alloc(_, size) => mm.Full(size)
         case Realloc(index, size) =>
           && index in live && index < blocks.Length && 2 <= blocks[index] && blocks[index] - 2 in mm.Segs()
           && mm.FullFor(blocks[index] - 2, size)
         case Free(_) => false
    }

    // trace->blocks and trace->block_sizes for numIds ids, and an empty range list
    constructor (numIds: nat, useTree: bool)
      ensures Parts() && blocks.Length == numIds && heap.Valid() && mm.useTree == useTree
      ensures fresh(heap) && fresh(heap.mem) && fresh(mm.tree) && fresh(mm.list) && fresh(blocks) && fresh(sizes)
    {
      var h := new Heap();
      heap := h;
      mm := new MmPackage(h, useTree);
      blocks := new nat[numIds];
      sizes := new nat[numIds];
      ranges := [];
    }

    // mem_reset_brk, clear_ranges, mm_init
    method Reset()
      requires Parts() && heap.Valid()
      modifies this, mm.tree, mm.list, heap, heap.mem
      ensures Valid({}) && mm.Segs() == map[] && 6 <= heap.brk <= 8
    {
      heap.ResetBrk();
      ranges := [];
      mm.Init();
    }

    // The end of the ALLOC and REALLOC cases: fill the payload and remember the region.
    method Remember(index: nat, p: nat, size: nat, ghost live: Live, ghost ids: set<nat>)
      requires Parts() && mm.Valid() && index < blocks.Length && index !in ids
      requires Owners(live, blocks[..], sizes[..], ids) && Filled(heap.mem[..], blocks[..], sizes[..], ids)
      requires Gained(live, mm.Live(), p, size)
      modifies heap.mem, blocks, sizes
      ensures Owning(ids + {index}) && Filled(heap.mem[..], blocks[..], sizes[..], ids + {index})
      ensures blocks[..] == old(blocks[..])[index := p] && sizes[..] == old(sizes[..])[index := size]
    {
      hide Owners, Filled, WellPlaced, Kept, BytesFilled, LiveOf, Tiled;
      ghost var m, b, z := heap.mem[..], blocks[..], sizes[..];
      mm.SegmentsFit();
      GainedInside(live, mm.Live(), p, size, heap.brk);
      mm.Fill(p, size, index % 256);
      blocks[index] := p;
      sizes[index] := size;
      SmallerWellPlaced(live, mm.Live(), heap.brk);
      FilledAdd(m, heap.mem[..], live, b, z, ids, index, p, size, heap.brk);
      OwnersAdd(live, mm.Live(), b, z, ids, index, p, size);
    }

    // case ALLOC of eval_mm_valid
    method DoAlloc(index: nat, size: nat, ghost ids: set<nat>) returns (v: Verdict)
      requires Valid(ids) && index < blocks.Length && index !in ids && 1 <= size <= Mm.MAX_REQUEST
      modifies this`ranges, mm.tree, mm.list, heap, heap.mem, blocks, sizes
      ensures v.OutOfMemory? <==> old(mm.Full(size))
      ensures v.OutOfMemory? ==> unchanged(this, mm.tree, mm.list, heap, heap.mem, blocks, sizes)
      ensures !v.Failed?
      ensures v.Passed? ==> Valid(ids + {index}) && heap.brk <= old(heap.brk) + Cost(mm.useTree, size)
      ensures v.Passed? ==> sizes[..] == old(sizes[..])[index := size]
      ensures v.Passed? && old(NoFreeNeighbours(mm.Segs())) ==> NoFreeNeighbours(mm.Segs())
    {
      hide InOrder, Acceptable, WellPlaced, NoFreeNeighbours, Kept, LiveOf, Tiled, MallocSpec, Gained;
      ghost var m, live := heap.mem[..], mm.Live();
      mm.SegmentsFit();
      var ok, p := mm.Malloc(size);
      if !ok { return OutOfMemory; }
      mm.SegmentsFit();
      MallocGained(m, live, heap.mem[..], mm.Live(), p, size);
      Survived(m, heap.mem[..], live, mm.Live(), ranges, blocks[..], sizes[..], ids, p, size, heap.brk);
      v := Enter(index, p, size, live, ids);
    }

    // add_range, and if it accepts, memset and the bookkeeping
    method Enter(index: nat, p: nat, size: nat, ghost live: Live, ghost ids: set<nat>) returns (v: Verdict)
      requires Parts() && mm.Valid() && index < blocks.Length && index !in ids
      requires InOrder(heap.mem[..], live, ranges, blocks[..], sizes[..], ids)
      requires Gained(live, mm.Live(), p, size) && Acceptable(ranges, 4 * p, size, 4 * heap.brk)
      modifies this`ranges, heap.mem, blocks, sizes
      ensures v.Passed? && Valid(ids + {index}) && sizes[..] == old(sizes[..])[index := size]
    {
      hide State, Filled, Owners, Ranges, LiveOf, Acceptable, Gained;
      mm.SegmentsFit();
      GainedInside(live, mm.Live(), p, size, heap.brk);
      ghost var b, z, old_ranges := blocks[..], sizes[..], ranges;
      var ok, ranges' := AddRange(ranges, 4 * p, size, 4 * heap.brk);
      if ok == 0 { return Failed(RangeTest); }
      ranges := ranges';
      Remember(index, p, size, live, ids);
      RangesAdd(old_ranges, live, b, z, ids, index, p, size);
      return Passed;
    }

    // case REALLOC of eval_mm_valid
    method DoRealloc(index: nat, size: nat, ghost ids: set<nat>) returns (v: Verdict)
      requires Valid(ids) && index in ids && 1 <= size <= Mm.MAX_REQUEST
      modifies this`ranges, mm.tree, mm.list, heap, heap.mem, blocks, sizes
      ensures index < blocks.Length && 2 <= old(blocks[index]) && old(blocks[index]) - 2 in old(mm.Segs())
      ensures v.OutOfMemory? <==> old(mm.FullFor(blocks[index] - 2, size))
      ensures v.OutOfMemory? ==> unchanged(this, mm.tree, mm.list, heap, heap.mem, blocks, sizes)
      ensures !v.OutOfMemory? ==> v == if index % 256 >= 128 then Failed(DataTest) else Passed
      ensures v.Passed? ==> Valid(ids) && heap.brk <= old(heap.brk) + Cost(mm.useTree, size)
      ensures v.Passed? ==> sizes[..] == old(sizes[..])[index := size]
      ensures !mm.useTree && v.Passed? ==> NoFreeNeighbours(mm.Segs())
    {
      hide InOrder, Acceptable, WellPlaced, NoFreeNeighbours, Kept, LiveOf, Tiled, ReallocSpec, Gained;
      ghost var m, live, b, z := heap.mem[..], mm.Live(), blocks[..], sizes[..];
      mm.SegmentsFit();
      Dropped(m, live, ranges, b, z, ids, index);
      var oldp := blocks[index];
      LiveMember(mm.Segs(), oldp - 2);
      var ok, newp := mm.Realloc(oldp, size);
      if !ok { return OutOfMemory; }
      mm.SegmentsFit();
      ghost var rest, ids0 := live - {oldp - 2}, ids - {index};
      ReallocFilled(m, live, heap.mem[..], mm.Live(), ranges, b, z, ids, index, oldp, newp, size);
      var ranges' := RemoveRange(ranges, 4 * oldp);
      ranges := ranges';
      Survived(m, heap.mem[..], rest, mm.Live(), ranges, b, z, ids0, newp, size, heap.brk);
      v := Reenter(index, newp, size, rest, ids0);
      assert ids0 + {index} == ids;
      if v.Passed? { mm.SegmentsFit(); }
    }

    // The rest of that case: add_range, the check of the old data, memset and the bookkeeping.
    method Reenter(index: nat, newp: nat, size: nat, ghost rest: Live, ghost ids: set<nat>) returns (v: Verdict)
      requires Parts() && mm.Valid() && index < blocks.Length && index !in ids
      requires InOrder(heap.mem[..], rest, ranges, blocks[..], sizes[..], ids)
      requires Gained(rest, mm.Live(), newp, size) && Acceptable(ranges, 4 * newp, size, 4 * heap.brk) && 1 <= sizes[index]
      requires DataKept(heap.mem[..], newp, index, Least(sizes[index], size))
      modifies this`ranges, heap.mem, blocks, sizes
      ensures v == if index % 256 >= 128 then Failed(DataTest) else Passed
      ensures v.Passed? ==> Valid(ids + {index}) && heap.brk == old(heap.brk) && sizes[..] == old(sizes[..])[index := size]
    {
      hide State, Filled, Owners, Ranges, LiveOf, Acceptable, Tiled, WellPlaced, DataKept, Gained;
      ghost var b, z, old_ranges := blocks[..], sizes[..], ranges;
      mm.SegmentsFit();
      GainedInside(rest, mm.Live(), newp, size, heap.brk);
      var ok, ranges' := AddRange(ranges, 4 * newp, size, 4 * heap.brk);
      if ok == 0 { return Failed(RangeTest); }
      ranges := ranges';
      var oldsize := sizes[index];
      if size < oldsize { oldsize := size; }
      var same := CheckData(newp, oldsize, index);
      if !same { return Failed(DataTest); }
      Remember(index, newp, size, rest, ids);
      RangesAdd(old_ranges, rest, b, z, ids, index, newp, size);
      return Passed;
    }

    // newp[j] != (index & 0xFF) for no j below count. A char above 127 is negative, so it equals no byte value.
    method CheckData(newp: nat, count: nat, index: nat) returns (same: bool)
      requires 4 * newp + count <= 4 * heap.mem.Length && 1 <= count && DataKept(heap.mem[..], newp, index, count)
      ensures same <==> index % 256 < 128
      ensures heap.mem[..] == old(heap.mem[..])
    {
      var j := 0;
      while j < count
        invariant 0 <= j <= count && (0 < j ==> index % 256 < 128)
      {
        assert FilledByte(heap.mem[..], newp, index, j);
        var b := LoadByte(heap.mem, 4 * newp + j);
        if SignedChar(b) != index % 256 {
          return false;
        }
        j := j + 1;
      }
      return true;
    }

    // case FREE of eval_mm_valid
    method DoFree(index: nat, ghost ids: set<nat>)
      requires Valid(ids) && index in ids
      modifies this`ranges, mm.tree, mm.list, heap.mem
      ensures Valid(ids - {index}) && heap.brk == old(heap.brk)
      ensures old(NoFreeNeighbours(mm.Segs())) ==> NoFreeNeighbours(mm.Segs())
    {
      hide Ranges, Owners, Filled, WellPlaced, Kept, LiveOf, NoFreeNeighbours;
      ghost var m, live, b, z := heap.mem[..], mm.Live(), blocks[..], sizes[..];
      mm.SegmentsFit();
      Dropped(m, live, ranges, b, z, ids, index);
      var p := blocks[index];
      var ranges' := RemoveRange(ranges, 4 * p);
      ranges := ranges';
      LiveMember(mm.Segs(), p - 2);
      mm.Free(p);
      SmallerWellPlaced(live - {p - 2}, live, heap.brk);
      FilledKept(m, heap.mem[..], live - {p - 2}, b, z, ids - {index}, heap.brk);
    }

    // The switch of eval_mm_valid on request i.
    method DoRequest(trace: seq<Op>, i: nat) returns (v: Verdict)
      requires i < |trace| && RequestOk(trace, i, blocks.Length, Mm.MAX_REQUEST)
      requires Valid(Requested(trace, i).Keys) && SizesAgree(sizes[..], Requested(trace, i))
      modifies this`ranges, mm.tree, mm.list, heap, heap.mem, blocks, sizes
      ensures v.Passed? ==> Valid(Requested(trace, i + 1).Keys) && heap.brk <= old(heap.brk) + CostOf(mm.useTree, trace[i])
      ensures v.Passed? ==> SizesAgree(sizes[..], Requested(trace, i + 1))
      ensures v.Failed? ==> v.test == DataTest
      ensures !v.OutOfMemory? ==> (v.Failed? <==> trace[i].Realloc? && trace[i].index % 256 >= 128)
      ensures v.OutOfMemory? ==> StuckAt(trace, i) && old(heap.brk) + CostOf(mm.useTree, trace[i]) > MAX_WORDS
      ensures v.Passed? && (!trace[i].Realloc? || !mm.useTree) && old(NoFreeNeighbours(mm.Segs())) ==> NoFreeNeighbours(mm.Segs())
    {
      hide InOrder, NoFreeNeighbours, Owners, SizesAgree, WellPlaced, Tiled, LiveOf, Cost, Mm.NoRoom, Mm.NoRoomToResize;
      ghost var requested, ids := Requested(trace, i), Requested(trace, i).Keys;
      OrderedOwners(heap.mem[..], mm.Live(), ranges, blocks[..], sizes[..], ids);
      mm.SegmentsFit();
      match trace[i] {
        case Alloc(index, size) =>
          FullCosts(mm, size);
          assert requested[index := size].Keys == ids + {index};
          SizesPut(sizes[..], requested, index, size);
          v := DoAlloc(index, size, ids);
        case Realloc(index, size) =>
          IdFacts(mm.Live(), blocks[..], sizes[..], ids, index);
          LiveMember(mm.Segs(), blocks[index] - 2);
          FullForCosts(mm, blocks[index] - 2, size);
          assert requested[index := size].Keys == ids;
          SizesPut(sizes[..], requested, index, size);
          v := DoRealloc(index, size, ids);
        case Free(index) =>
          assert (requested - {index}).Keys == ids - {index};
          SizesDrop(sizes[..], requested, index);
          DoFree(index, ids);
          v := Passed;
      }
    }

    // eval_mm_valid
    method EvalMmValid(trace: seq<Op>) returns (v: Verdict)
      requires Parts() && heap.Valid() && WellFormed(trace, blocks.Length, Mm.MAX_REQUEST)
      modifies this, mm.tree, mm.list, heap, heap.mem, blocks, sizes
      ensures v.Passed? ==> !HighRealloc(trace, |trace|) && Valid(Requested(trace, |trace|).Keys)
      ensures v.Passed? ==> Intact(heap.mem[..], blocks[..], Requested(trace, |trace|), heap.brk)
      ensures v.Failed? ==> v.test == DataTest && HighRealloc(trace, |trace|)
      ensures v.OutOfMemory? ==> exists k :: 0 <= k < |trace| && StuckAt(trace, k)
      ensures v.OutOfMemory? ==> 8 + Budget(mm.useTree, trace, |trace|) > MAX_WORDS
      ensures v.Passed? && (NoRealloc(trace, |trace|) || !mm.useTree) ==> NoFreeNeighbours(mm.Segs())
      ensures v.Passed? && (NoRealloc(trace, |trace|) || !mm.useTree) && Requested(trace, |trace|) == map[] ==>
        mm.Segs() == map[] || mm.Segs() == map[LO := Seg((mm.Hi() - LO) / 2, true)]
    {
      hide InOrder, NoFreeNeighbours, CostOf, Owners, StuckAt, Budget, HighRealloc, NoRealloc, Requested, RequestOk, Intact, WellPlaced;
      NoRequests(mm.useTree, trace);
      Reset();
      EmptyNoFreeNeighbours();
      var i := 0;
      while i < |trace|
        invariant 0 <= i <= |trace| && Valid(Requested(trace, i).Keys) && !HighRealloc(trace, i)
        invariant SizesAgree(sizes[..], Requested(trace, i))
        invariant heap.brk <= 8 + Budget(mm.useTree, trace, i)
        invariant NoRealloc(trace, i) || !mm.useTree ==> NoFreeNeighbours(mm.Segs())
        decreases |trace| - i
      {
        assert RequestOk(trace, i, blocks.Length, Mm.MAX_REQUEST);
        NextRequest(mm.useTree, trace, i);
        v := DoRequest(trace, i);
        if !v.Passed? {
          return;
        }
        i := i + 1;
      }
      mm.SegmentsFit();
      OrderMeans(heap.mem[..], mm.Live(), ranges, blocks[..], sizes[..], Requested(trace, |trace|), heap.brk);
      if Requested(trace, |trace|) == map[] && (NoRealloc(trace, |trace|) || !mm.useTree) {
        EverythingFreed(mm.Hi(), mm.Segs(), heap.mem[..], ranges, blocks[..], sizes[..], Requested(trace, |trace|).Keys);
      }
      return Passed;
    }

    // The switch of eval_mm_util on request i; total is the sum of the requested sizes.
    method UtilRequest(trace: seq<Op>, i: nat, total: nat) returns (ok: bool, total': nat)
      requires i < |trace| && RequestOk(trace, i, blocks.Length, Mm.MAX_REQUEST)
      requires var requested := Requested(trace, i);
        Owning(requested.Keys) && SizesAgree(sizes[..], requested) && total == SumSizes(requested, blocks.Length)
      modifies mm.tree, mm.list, heap, heap.mem, blocks, sizes
      ensures !ok ==> StuckAt(trace, i) && old(heap.brk) + CostOf(mm.useTree, trace[i]) > MAX_WORDS
      ensures ok ==> var requested := Requested(trace, i + 1);
        && Owning(requested.Keys) && SizesAgree(sizes[..], requested) && total' == SumSizes(requested, blocks.Length)
        && old(heap.brk) <= heap.brk <= old(heap.brk) + CostOf(mm.useTree, trace[i])
        && (total' <= 4 * heap.brk || total' <= total)
    {
      hide Owners, SizesAgree, WellPlaced, Tiled, LiveOf, Cost, SumSizes, Mm.NoRoom, Mm.NoRoomToResize;
      ghost var requested := Requested(trace, i);
      ok, total' := true, total;
      mm.SegmentsFit();
      match trace[i] {
        case Alloc(index, size) =>
          FullCosts(mm, size);
          SumSizesPut(requested, blocks.Length, index, size);
          SumSizesRemove(requested, blocks.Length, index);
          ok := UtilAlloc(index, size, requested);
          total' := total + size;
        case Realloc(index, size) =>
          SumSizesPut(requested, blocks.Length, index, size);
          SumSizesRemove(requested, blocks.Length, index);
          IdFacts(mm.Live(), blocks[..], sizes[..], requested.Keys, index);
          LiveMember(mm.Segs(), blocks[index] - 2);
          FullForCosts(mm, blocks[index] - 2, size);
          var oldsize;
          ok, oldsize := UtilRealloc(index, size, requested);
          total' := total + (size - oldsize);
        case Free(index) =>
          SumSizesRemove(requested, blocks.Length, index);
          var size := UtilFree(index, requested);
          total' := total - size;
      }
    }

    // eval_mm_util: the high-water mark of live requested bytes over the final heap size, or nothing if memory ran out.
    method EvalMmUtil(trace: seq<Op>) returns (util: Option<real>)
      requires Parts() && heap.Valid() && WellFormed(trace, blocks.Length, Mm.MAX_REQUEST)
      modifies this, mm.tree, mm.list, heap, heap.mem, blocks, sizes
      ensures util.Some? ==>
        && 24 <= 4 * heap.brk && util.value == HighWater(trace, |trace|, blocks.Length) as real / (4 * heap.brk) as real
        && 0.0 <= util.value <= 1.0
      ensures util.Some? ==> IsUtilization(trace, blocks.Length, 4 * heap.brk, util.value)
      ensures util.None? ==> exists k :: 0 <= k < |trace| && StuckAt(trace, k)
      ensures util.None? ==> 8 + Budget(mm.useTree, trace, |trace|) > MAX_WORDS
    {
      hide Owners, InOrder, CostOf, SizesAgree, Requested, SumSizes, StuckAt, Budget, RequestOk, IsUtilization;
      NoRequests(mm.useTree, trace);
      Reset();
      var i, total, maxTotal := 0, 0, 0;
      NothingRequested(heap.mem[..], mm.Live(), ranges, trace, blocks[..], sizes[..]);
      while i < |trace|
        invariant 0 <= i <= |trace|
        invariant Owning(Requested(trace, i).Keys) && SizesAgree(sizes[..], Requested(trace, i))
        invariant total == SumSizes(Requested(trace, i), blocks.Length) && total <= maxTotal
        invariant maxTotal == HighWater(trace, i, blocks.Length) && maxTotal <= 4 * heap.brk
        invariant 6 <= heap.brk <= 8 + Budget(mm.useTree, trace, i)
        decreases |trace| - i
      {
        assert RequestOk(trace, i, blocks.Length, Mm.MAX_REQUEST);
        NextRequest(mm.useTree, trace, i);
        var ok, total' := UtilRequest(trace, i, total);
        if !ok {
          return None;
        }
        total := total';
        maxTotal := if total > maxTotal then total else maxTotal;
        i := i + 1;
      }
      util := Some(maxTotal as real / (4 * heap.brk) as real);
      Utilization(trace, blocks.Length, 4 * heap.brk, util.value);
    }

    // case ALLOC of eval_mm_util
    method UtilAlloc(index: nat, size: nat, ghost requested: map<nat, nat>) returns (ok: bool)
      requires Owning(requested.Keys) && SizesAgree(sizes[..], requested)
      requires index < blocks.Length && index !in requested && 1 <= size <= Mm.MAX_REQUEST
      modifies mm.tree, mm.list, heap, heap.mem, blocks, sizes
      ensures ok <==> !old(mm.Full(size))
      ensures !ok ==> unchanged(mm.tree, mm.list, heap, heap.mem, blocks, sizes)
      ensures ok ==> Owning(requested[index := size].Keys) && SizesAgree(sizes[..], requested[index := size])
      ensures ok ==> old(heap.brk) <= heap.brk <= old(heap.brk) + Cost(mm.useTree, size)
      ensures ok ==> SumSizes(requested[index := size], blocks.Length) <= 4 * heap.brk
    {
      hide Owners, WellPlaced, Kept, LiveOf, Cost;
      ghost var live, b, z := mm.Live(), blocks[..], sizes[..];
      var p;
      ok, p := mm.Malloc(size);
      if !ok { return; }
      mm.SegmentsFit();
      blocks[index] := p;
      sizes[index] := size;
      OwnersAdd(live, mm.Live(), b, z, requested.Keys, index, p, size);
      assert requested[index := size].Keys == requested.Keys + {index};
      RequestedFit(mm.Live(), blocks[..], sizes[..], requested[index := size], heap.brk);
    }

    // case REALLOC of eval_mm_util
    method UtilRealloc(index: nat, size: nat, ghost requested: map<nat, nat>) returns (ok: bool, oldsize: nat)
      requires Owning(requested.Keys) && SizesAgree(sizes[..], requested)
      requires index in requested && 1 <= size <= Mm.MAX_REQUEST
      modifies mm.tree, mm.list, heap, heap.mem, blocks, sizes
      ensures oldsize == requested[index]
      ensures index < blocks.Length && 2 <= old(blocks[index]) && old(blocks[index]) - 2 in old(mm.Segs())
      ensures ok <==> !old(mm.FullFor(blocks[index] - 2, size))
      ensures !ok ==> unchanged(mm.tree, mm.list, heap, heap.mem, blocks, sizes)
      ensures ok ==> Owning(requested[index := size].Keys) && SizesAgree(sizes[..], requested[index := size])
      ensures ok ==> old(heap.brk) <= heap.brk <= old(heap.brk) + Cost(mm.useTree, size)
      ensures ok ==> SumSizes(requested[index := size], blocks.Length) <= 4 * heap.brk
    {
      hide Owners, WellPlaced, Kept, BytesMoved, LiveOf, Cost;
      ghost var live, b, z := mm.Live(), blocks[..], sizes[..];
      oldsize := sizes[index];
      OwnersDrop(live, b, z, requested.Keys, index);
      var oldp, newp := blocks[index], 0;
      LiveMember(mm.Segs(), oldp - 2);
      ok, newp := mm.Realloc(oldp, size);
      if !ok { return; }
      mm.SegmentsFit();
      blocks[index] := newp;
      sizes[index] := size;
      OwnersAdd(live - {oldp - 2}, mm.Live(), b, z, requested.Keys - {index}, index, newp, size);
      assert requested[index := size].Keys == requested.Keys - {index} + {index};
      RequestedFit(mm.Live(), blocks[..], sizes[..], requested[index := size], heap.brk);
    }

    // case FREE of eval_mm_util
    method UtilFree(index: nat, ghost requested: map<nat, nat>) returns (size: nat)
      requires Owning(requested.Keys) && SizesAgree(sizes[..], requested) && index in requested
      modifies mm.tree, mm.list, heap.mem
      ensures size == requested[index]
      ensures Owning((requested - {index}).Keys) && SizesAgree(sizes[..], requested - {index}) && heap.brk == old(heap.brk)
    {
      hide Owners, WellPlaced, Kept, LiveOf;
      OwnersDrop(mm.Live(), blocks[..], sizes[..], requested.Keys, index);
      LiveMember(mm.Segs(), blocks[index] - 2);
      size := sizes[index];
      mm.Free(blocks[index]);
      assert (requested - {index}).Keys == requested.Keys - {index};
    }
  }

  // Once every id is freed, what has been coalesced is one segment, if there is any.
  lemma EverythingFreed(hi: nat, s: SegMap, m: seq<Word>, ranges: seq<Range>, blocks: seq<nat>, sizes: seq<nat>, ids: set<nat>)
    requires Tiled(s, LO, hi) && NoFreeNeighbours(s) && InOrder(m, LiveOf(s), ranges, blocks, sizes, ids) && ids == {}
    ensures s == map[] || s == map[LO := Seg((hi - LO) / 2, true)]
  {
    forall p | p in s
      ensures s[p].free
    {
      assert HasOwner(LiveOf(s), p, blocks, ids);
    }
    if p :| p in s {
      AllFreeIsOne(s, LO, hi, p);
    }
  }

  lemma EmptyNoFreeNeighbours()
    ensures NoFreeNeighbours(map[])
  {
  }

  // ----- two inputs on which the driver does not keep what it is for -----

  // Two requests that any correct package serves, and that eval_mm_valid rejects all the same: the id 128 is a negative
  // char. Memory is no excuse.
  method RejectsCorrectPackage(useTree: bool) returns (v: Verdict)
    ensures v == Failed(DataTest)
  {
    var trace := [Alloc(128, 8), Realloc(128, 8)];
    HighTrace(useTree, trace);
    var driver := new Driver(129, useTree);
    v := driver.EvalMmValid(trace);
  }

  lemma HighTrace(useTree: bool, trace: seq<Op>)
    requires trace == [Alloc(128, 8), Realloc(128, 8)]
    ensures WellFormed(trace, 129, Mm.MAX_REQUEST) && HighRealloc(trace, 2) && 8 + Budget(useTree, trace, 2) <= MAX_WORDS
  {
    assert Requested(trace, 0) == map[] && Requested(trace, 1) == map[128 := 8];
    assert trace[1].Realloc?;
    assert CostOf(useTree, trace[0]) <= 36 && CostOf(useTree, trace[1]) <= 36;
    assert Budget(useTree, trace, 1) <= 36;
  }

  // add_range takes a range that covers a recorded one.
  method AcceptsOverlap() returns (r: int, ranges: seq<Range>)
    ensures r == 1 && ranges == [Range(8, 31), Range(16, 23)] && Overlap(8, 31, Range(16, 23))
  {
    r, ranges := AddRange([Range(16, 23)], 8, 24, 64);
  }

  // ----- whole traces -----

  // Among the first n requests there is a realloc of an id whose low byte is above 127.
  ghost predicate HighRealloc(trace: seq<Op>, n: nat)
    requires n <= |trace|
  {
    exists k :: 0 <= k < n && trace[k].Realloc? && trace[k].index % 256 >= 128
  }

  ghost predicate NoRealloc(trace: seq<Op>, n: nat)
    requires n <= |trace|
  {
    forall k :: 0 <= k < n ==> !trace[k].Realloc?
  }

  function CostOf(useTree: bool, op: Op): nat {
    if op.Free? then 0 else Cost(useTree, op.size)
  }

  // By how many words the first n requests move the break at most.
  function Budget(useTree: bool, trace: seq<Op>, n: nat): nat
    requires n <= |trace|
  {
    if n == 0 then 0
    else Budget(useTree, trace, n - 1) + CostOf(useTree, trace[n - 1])
  }

  lemma {:induction false} BudgetMonotone(useTree: bool, trace: seq<Op>, n: nat, k: nat)
    requires n <= k <= |trace|
    ensures Budget(useTree, trace, n) <= Budget(useTree, trace, k)
  {
    if n < k { BudgetMonotone(useTree, trace, n, k - 1); }
  }

  lemma NoRequests(useTree: bool, trace: seq<Op>)
    ensures Requested(trace, 0).Keys == {} && Budget(useTree, trace, 0) == 0 && !HighRealloc(trace, 0)
  {
  }

  // One more request.
  lemma NextRequest(useTree: bool, trace: seq<Op>, n: nat)
    requires n < |trace|
    ensures Budget(useTree, trace, n + 1) == Budget(useTree, trace, n) + CostOf(useTree, trace[n]) <= Budget(useTree, trace, |trace|)
    ensures HighRealloc(trace, n + 1) <==> HighRealloc(trace, n) || (trace[n].Realloc? && trace[n].index % 256 >= 128)
    ensures HighRealloc(trace, n + 1) ==> HighRealloc(trace, |trace|)
    ensures NoRealloc(trace, n + 1) <==> NoRealloc(trace, n) && !trace[n].Realloc?
  {
    BudgetMonotone(useTree, trace, n + 1, |trace|);
  }

  lemma NothingRequested(m: seq<Word>, live: Live, ranges: seq<Range>, trace: seq<Op>, blocks: seq<nat>, sizes: seq<nat>)
    requires InOrder(m, live, ranges, blocks, sizes, {})
    ensures var requested := Requested(trace, 0);
      Owners(live, blocks, sizes, requested.Keys) && SizesAgree(sizes, requested) && SumSizes(requested, |blocks|) == 0
    ensures HighWater(trace, 0, |blocks|) == 0
  {
    NoSizes(|blocks|);
    assert Requested(trace, 0).Keys == {};
  }

  // After any number of requests the requested bytes of the live ids are at most the share `util` of the heap, and at
  // some time they are that much.
  ghost predicate IsUtilization(trace: seq<Op>, numIds: nat, bytes: nat, util: real) {
    && (forall k :: 0 <= k <= |trace| ==> SumSizes(Requested(trace, k), numIds) as real <= util * bytes as real)
    && (exists k :: 0 <= k <= |trace| && SumSizes(Requested(trace, k), numIds) as real == util * bytes as real)
  }

  // The high-water mark over the heap size.
  lemma Utilization(trace: seq<Op>, numIds: nat, bytes: nat, util: real)
    requires 0 < bytes && HighWater(trace, |trace|, numIds) <= bytes
    requires util == HighWater(trace, |trace|, numIds) as real / bytes as real
    ensures 0.0 <= util <= 1.0
    ensures IsUtilization(trace, numIds, bytes, util)
  {
    hide HighWater, SumSizes, Requested;
    var high := HighWater(trace, |trace|, numIds);
    assert util * bytes as real == high as real;
    assert high as real <= bytes as real;
    HighWaterIsMost(trace, |trace|, numIds);
    var k :| 0 <= k <= |trace| && SumSizes(Requested(trace, k), numIds) == high;
    assert SumSizes(Requested(trace, k), numIds) as real == high as real;
  }
}
