/**
  The mm package that the driver is linked with: mm.c or mm_.c. Whatever a client learns here follows from AllocSpec and
  the segment list, and holds of both.
 */
module Package {
  import opened MemLib
  import opened AllocSpec
  import opened Segments
  import opened SegMem
  import opened MmState
  import Mm
  import FirstFit

  // By how many words a request moves the break at most.
  function Cost(useTree: bool, size: nat): nat {
    if useTree then Mm.Growth(8 * Mm.Units(size)) else 2 * FirstFit.UnitsFor(size)
  }

  class MmPackage {
    const heap: Heap
    const tree: Mm.Allocator
    const list: FirstFit.Allocator
    const useTree: bool

    constructor (heap: Heap, useTree: bool)
      ensures this.heap == heap && this.useTree == useTree && Linked() && fresh(tree) && fresh(list)
    {
      this.heap := heap;
      this.useTree := useTree;
      tree := new Mm.Allocator(heap);
      list := new FirstFit.Allocator(heap);
    }

    ghost predicate Linked() {
      tree.heap == heap && list.heap == heap
    }

    ghost predicate Valid()
      reads tree, list, heap, heap.mem
    {
      Linked() && if useTree then tree.Valid() else list.Valid()
    }

    ghost function Segs(): SegMap
      reads tree, list
    {
      if useTree then tree.segs else list.segs
    }

    // Where the last segment ends: mm.c keeps an epilogue behind it.
    ghost function Hi(): int
      reads heap
    {
      if useTree then heap.brk - 2 else heap.brk
    }

    ghost function Live(): AllocSpec.Live
      reads tree, list
    {
      LiveOf(Segs())
    }

    // mm_malloc of `size` bytes would need more memory than mem_sbrk can give.
    ghost predicate Full(size: nat)
      reads tree, list, heap
    {
      if useTree then Mm.NoRoom(tree.segs, heap.brk, Mm.Units(size))
      else FirstFit.NoRoom(list.segs, heap.brk, FirstFit.UnitsFor(size))
    }

    // So would mm_realloc of block p.
    ghost predicate FullFor(p: nat, size: nat)
      requires Valid() && p in Segs()
      reads tree, list, heap, heap.mem
    {
      if useTree then Mm.NoRoomToResize(tree.segs, heap.brk, p, Mm.Units(size))
      else FirstFit.NoRoom(list.segs, heap.brk, FirstFit.UnitsFor(size))
    }

    // mm_init
    method Init()
      requires Linked() && heap.Valid() && heap.brk == 0
      modifies tree, list, heap, heap.mem
      ensures Valid() && Segs() == map[] && 6 <= heap.brk <= 8
    {
      var r;
      if useTree {
        r := tree.Init();
      } else {
        r := list.Init();
      }
    }

    // mm_malloc
    method Malloc(size: nat) returns (ok: bool, ptr: nat)
      requires Valid() && 1 <= size <= Mm.MAX_REQUEST
      modifies tree, list, heap, heap.mem
      ensures ok <==> !old(Full(size))
      ensures !ok ==> unchanged(tree, list, heap, heap.mem)
      ensures ok ==>
        && Valid() && 2 <= ptr && MallocSpec(old(heap.mem[..]), old(Live()), heap.mem[..], Live(), ptr - 2, size)
        && old(heap.brk) <= heap.brk <= old(heap.brk) + Cost(useTree, size)
      ensures ok && old(NoFreeNeighbours(Segs())) ==> NoFreeNeighbours(Segs())
    {
      hide State, FirstFit.State, MallocSpec, LiveOf, NoFreeNeighbours, Mm.Placed, Mm.NoRoom, FirstFit.NoRoom;
      ghost var s, brk := Segs(), heap.brk;
      SegmentsFit();
      if useTree {
        ok, ptr := tree.Malloc(size);
        if ok { TreePlaced(s, brk, tree.segs, heap.brk, ptr - 2, Mm.Units(size)); }
      } else {
        ok, ptr := list.Malloc(size);
        if ok { SegmentsFit(); }
      }
    }

    // mm_free
    method Free(ptr: nat)
      requires Valid() && 2 <= ptr && ptr - 2 in Segs() && !Segs()[ptr - 2].free
      modifies tree, list, heap.mem
      ensures Valid() && FreeSpec(old(heap.mem[..]), old(Live()), heap.mem[..], Live(), ptr - 2)
      ensures old(NoFreeNeighbours(Segs())) ==> NoFreeNeighbours(Segs())
    {
      hide State, FirstFit.State, FreeSpec, LiveOf, NoFreeNeighbours;
      ghost var s := Segs();
      SegmentsFit();
      if useTree {
        tree.Free(ptr);
      } else {
        list.Free(ptr);
      }
      if NoFreeNeighbours(s) { CoalescedNoFreeNeighbours(s, ptr - 2, LO, Hi()); }
    }

    // mm_realloc
    method Realloc(ptr: nat, size: nat) returns (ok: bool, r: nat)
      requires Valid() && 2 <= ptr && ptr - 2 in Segs() && !Segs()[ptr - 2].free && 1 <= size <= Mm.MAX_REQUEST
      modifies tree, list, heap, heap.mem
      ensures ok <==> !old(FullFor(ptr - 2, size))
      ensures !ok ==> unchanged(tree, list, heap, heap.mem)
      ensures ok ==>
        && Valid() && 2 <= r && ReallocSpec(old(heap.mem[..]), old(Live()), heap.mem[..], Live(), ptr - 2, r - 2, size)
        && old(heap.brk) <= heap.brk <= old(heap.brk) + Cost(useTree, size)
    {
      hide State, FirstFit.State, ReallocSpec, LiveOf, Mm.Resized, Mm.NoRoomToResize, FirstFit.NoRoom;
      ghost var s, brk := Segs(), heap.brk;
      SegmentsFit();
      if useTree {
        ok, r := tree.Realloc(ptr, size);
        if ok { SegmentsFit(); TreeResized(s, brk, tree.segs, heap.brk, ptr - 2, r - 2, Mm.Units(size)); }
      } else {
        ok, r := list.Realloc(ptr, size);
      }
    }

    // In every state the segments fill the heap, and payloads are aligned, inside it and disjoint. The list allocator
    // never has free neighbours.
    lemma SegmentsFit()
      requires Valid()
      ensures LO <= Hi() <= heap.brk <= MAX_WORDS && MAX_WORDS <= heap.mem.Length
      ensures Tiled(Segs(), LO, Hi()) && WellPlaced(Live(), heap.brk)
      ensures !useTree ==> NoFreeNeighbours(Segs())
    {
      if useTree {
        MmState.StateTiled(heap.mem[..], heap.brk, tree.tree, tree.segs, {}, {});
      } else {
        FirstFit.StateTiled(heap.mem[..], heap.brk, list.segs, list.nodes);
      }
      LiveWellPlaced(Segs(), LO, Hi(), heap.brk);
    }

    // The memset of a client: its own payload changes and nothing else.
    method Fill(p: nat, size: nat, c: Byte)
      requires Valid() && 2 <= p && p - 2 in Live() && size <= Capacity(Live(), p - 2)
      modifies heap.mem
      ensures Valid() && Kept(old(heap.mem[..]), heap.mem[..], Live() - {p - 2})
      ensures BytesFilled(old(heap.mem[..]), heap.mem[..], 4 * p, size, c)
    {
      hide State, FirstFit.State;
      ghost var m := heap.mem[..];
      SegmentsFit();
      assert SegAt(Segs(), p - 2, LO, Hi());
      Memset(heap.mem, 4 * p, c, size);
      WrittenPayload(m, heap.mem[..], Segs(), p - 2, size);
      if useTree {
        MmState.StateAfterWrite(m, heap.mem[..], heap.brk, tree.tree, tree.segs, p - 2);
      } else {
        FirstFit.StateAfterWrite(m, heap.mem[..], heap.brk, list.segs, list.nodes, p - 2);
      }
    }
  }

  // A request is refused only if the break could move past the end of memory.
  lemma FullCosts(mm: MmPackage, size: nat)
    requires mm.Valid()
    ensures mm.Full(size) ==> mm.heap.brk + Cost(mm.useTree, size) > MAX_WORDS
  {
  }

  lemma FullForCosts(mm: MmPackage, p: nat, size: nat)
    requires mm.Valid() && p in mm.Segs()
    ensures mm.FullFor(p, size) ==> mm.heap.brk + Cost(mm.useTree, size) > MAX_WORDS
  {
  }

  // How far mm.c moves the break, and that its mm_malloc makes no free neighbours.
  lemma TreePlaced(s: SegMap, brk: nat, s': SegMap, brk': nat, p: nat, units: nat)
    requires 2 <= brk && Tiled(s, LO, brk - 2) && Mm.Placed(s, brk, s', brk', p, units) && 2 <= units
    ensures brk <= brk' <= brk + Mm.Growth(8 * units)
    ensures NoFreeNeighbours(s) ==> NoFreeNeighbours(s')
  {
    hide Frag, Grown, CutTo, Mm.AddedAt, NoFreeNeighbours;
    if NoFreeNeighbours(s) {
      if brk' == brk {
        FragIsCut(s, s', p, units, false, LO, brk - 2);
        ReuseNoFreeNeighbours(s, p, units, LO, brk - 2);
      } else {
        Mm.GrownIsAdded(s, s', p, units, false);
        Mm.GrownIsLive(s, p, units);
        GrownNoFreeNeighbours(s, units, MM_UNIT / 8, LO, brk - 2);
      }
    }
  }

  lemma TreeResized(s: SegMap, brk: nat, s': SegMap, brk': nat, p: nat, q: nat, units: nat)
    requires 2 <= brk && 2 <= brk' && Tiled(s, LO, brk - 2) && p in s && Mm.Resized(s, brk, s', brk', p, q, units)
    ensures brk <= brk' <= brk + Mm.Growth(8 * units)
  {
    hide CutTo, Mm.AddedAt, FreedTo, Stretched, Mm.RunFrom;
    assert SegAt(s, p, LO, brk - 2);
  }
}
