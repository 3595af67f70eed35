/**
  The allocator of mm_.c: blocks laid end to end behind the list head and tail, and the free ones in a doubly linked
  list that is searched for the first fit. It meets the same specification as the tree allocator of mm.c.
 */
module FirstFit {
  import opened MemLib
  import opened AllocSpec
  import opened Segments
  import opened FreeList
  import SegMem

  // The first block; below it are the list head and tail.
  const BASE: nat := 6

  ghost function LiveOf(s: SegMap): Live {
    SegMem.LiveOf(s)
  }

  ghost predicate SizeAt(m: seq<Word>, s: SegMap, p: nat) {
    p in s && p < |m| && m[p] == Num(8 * s[p].size)
  }

  // The blocks fill the heap, and each begins with its size in bytes.
  ghost predicate Blocks(m: seq<Word>, brk: nat, s: SegMap) {
    && BASE <= brk <= MAX_WORDS && |m| == MAX_WORDS + SLACK
    && Tiled(s, BASE, brk)
    && (forall p {:trigger SizeAt(m, s, p)} :: p in s ==> SizeAt(m, s, p))
    && m[HEAD] == Num(0) && m[TAIL] == Num(0)
  }

  ghost predicate Listed(s: SegMap, nodes: seq<nat>, p: nat) {
    p in nodes <==> p == HEAD || p == TAIL || (p in s && s[p].free)
  }

  // The list holds exactly the free blocks.
  ghost predicate FreeListed(s: SegMap, nodes: seq<nat>) {
    forall p {:trigger Listed(s, nodes, p)} :: Listed(s, nodes, p)
  }

  ghost predicate State(m: seq<Word>, brk: nat, s: SegMap, nodes: seq<nat>) {
    Blocks(m, brk, s) && NoFreeNeighbours(s) && Chain(m, nodes) && FreeListed(s, nodes)
  }

  // The block that mm_malloc cuts off the end of free block p.
  function Carved(s: SegMap, p: nat, units: nat): SegMap
    requires p in s && units <= s[p].size
  {
    var size := s[p].size - units;
    Retag(Split(s, p, size), p + 2 * size, false)
  }

  // The position of the first listed block of at least `units` units, or of the tail.
  ghost function FitIndex(s: SegMap, nodes: seq<nat>, units: nat, k: nat): (r: nat)
    requires k < |nodes|
    ensures k <= r < |nodes|
    decreases |nodes| - k
  {
    if k + 1 == |nodes| || (nodes[k] in s && units <= s[nodes[k]].size) then k
    else FitIndex(s, nodes, units, k + 1)
  }

  // What mm_malloc makes of the blocks and the list; p is the new block. It is new at the break if nothing fits, the end
  // of the first fit, which stays listed, if at least 2 units remain, or else the whole of it, which leaves the list.
  ghost predicate Placed(s: SegMap, nodes: seq<nat>, brk: nat, s': SegMap, nodes': seq<nat>, brk': nat, p: nat, units: nat) {
    && 2 <= |nodes|
    && var k := FitIndex(s, nodes, units, 1);
       if k == |nodes| - 1 then
         p == brk && s' == s[brk := Seg(units, false)] && nodes' == nodes && brk' == brk + 2 * units
       else
         var fit := nodes[k];
         && fit in s && brk' == brk
         && if units + 2 <= s[fit].size then
              var rest := s[fit].size - units;
              p == fit + 2 * rest && s' == s[fit := Seg(rest, true)][p := Seg(units, false)] && nodes' == nodes
            else
              p == fit && s' == s[p := Seg(s[p].size, false)] && nodes' == nodes[..k] + nodes[k + 1..]
  }

  // No free block is large enough, and there is no room for another one.
  ghost predicate NoRoom(s: SegMap, brk: nat, units: nat) {
    NoneFits(s, units) && brk + 2 * units > MAX_WORDS
  }

  // What freeing p makes of the list: a free block behind p leaves it, wherever it is, and p is appended before the
  // tail unless a free block ends at p.
  ghost predicate Relisted(s: SegMap, nodes: seq<nat>, nodes': seq<nat>, p: nat)
    requires p in s
  {
    var next := End(s, p);
    && 1 <= |nodes|
    && var last := |nodes| - 1;
       var added := if exists q :: q in s && End(s, q) == p && s[q].free then [] else [p];
       if next in s && s[next].free then
         exists at :: 1 <= at < last && nodes[at] == next && nodes' == nodes[..at] + nodes[at + 1..last] + added + [nodes[last]]
       else nodes' == nodes[..last] + added + [nodes[last]]
  }

  // The block p is allocated anew as q, then freed.
  ghost predicate Moved(s: SegMap, nodes: seq<nat>, brk: nat, s': SegMap, nodes': seq<nat>, brk': nat, p: nat, q: nat, units: nat) {
    && q != p
    && exists s1, n1 ::
         && Placed(s, nodes, brk, s1, n1, brk', q, units)
         && FreedTo(s1, s', p) && Relisted(s1, n1, nodes', p)
  }

  // ----- stores -----

  // Nodes of the list are free blocks or lie below the first block, so list work touches no size and no live payload.
  lemma LinksKeep(m: seq<Word>, n: seq<Word>, brk: nat, s: SegMap, nodes: seq<nat>)
    requires Blocks(m, brk, s) && OnlyLinks(m, n, nodes)
    requires forall a :: a in nodes ==> a == HEAD || a == TAIL || (a in s && s[a].free)
    ensures Blocks(n, brk, s) && Kept(m, n, LiveOf(s))
  {
    assert Same(m, n, HEAD) && Same(m, n, TAIL) by {
      forall a: nat | a in nodes ensures a == 0 || a == 3 || BASE <= a { assert a in s ==> SegAt(s, a, BASE, brk); }
    }
    forall p | p in s
      ensures SizeAt(n, s, p)
    {
      assert SegAt(s, p, BASE, brk) && SizeAt(m, s, p);
      forall a: nat | a in nodes
        ensures p - 1 != a && p - 2 != a
      {
        assert a in s ==> SegAt(s, a, BASE, brk) && Apart(s, a, p);
      }
      assert Same(m, n, p);
    }
    forall p: nat, w: nat
      ensures KeptAt(m, n, LiveOf(s), p, w)
    {
      if p in s && !s[p].free && p + 2 <= w < End(s, p) {
        assert SegAt(s, p, BASE, brk);
        forall a: nat | a in nodes
          ensures w - 1 != a && w - 2 != a
        {
          assert a in s ==> SegAt(s, a, BASE, brk) && Apart(s, a, p) && Apart(s, p, a);
        }
        assert Same(m, n, w);
      }
    }
  }

  // Word d is the size of block p, or lies deep in free block p, or past the break.
  ghost predicate Harmless(s: SegMap, brk: nat, p: nat, d: nat) {
    (p in s && (d == p || (s[p].free && p + 4 <= d < End(s, p)))) || brk <= d
  }

  // A store there leaves the list and the live payloads alone.
  lemma StoreKeeps(m: seq<Word>, n: seq<Word>, brk: nat, s: SegMap, nodes: seq<nat>, p: nat, d: nat, v: Word)
    requires Tiled(s, BASE, brk) && Chain(m, nodes) && Harmless(s, brk, p, d) && d < |m| && n == m[d := v]
    requires forall a :: a in nodes ==> a == HEAD || a == TAIL || (a in s && s[a].free)
    ensures Chain(n, nodes) && Kept(m, n, LiveOf(s))
  {
    assert p in s ==> SegAt(s, p, BASE, brk);
    forall a: nat | a in nodes ensures a + 1 != d && a + 2 != d {
      assert a in s ==> SegAt(s, a, BASE, brk) && Apart(s, a, p) && Apart(s, p, a);
    }
    ChainStays(m, n, nodes);
    forall q: nat, w: nat ensures KeptAt(m, n, LiveOf(s), q, w) {
      assert q in s ==> SegAt(s, q, BASE, brk);
      assert Apart(s, q, p) && Apart(s, p, q);
    }
  }

  lemma KeptSelf(m: seq<Word>, live: Live)
    ensures Kept(m, m, live)
  {
    forall p: nat, w: nat ensures KeptAt(m, m, live, p, w) {}
  }

  lemma NodesAreFree(s: SegMap, nodes: seq<nat>)
    requires FreeListed(s, nodes)
    ensures forall a :: a in nodes ==> a == HEAD || a == TAIL || (a in s && s[a].free)
  {
    forall a | a in nodes ensures a == HEAD || a == TAIL || (a in s && s[a].free) { assert Listed(s, nodes, a); }
  }

  // Block p grows by its successor.
  lemma MergeStore(m: seq<Word>, n: seq<Word>, brk: nat, s: SegMap, p: nat)
    requires Blocks(m, brk, s) && p in s && End(s, p) in s
    requires p < |m| && n == m[p := Num(8 * (s[p].size + s[End(s, p)].size))]
    ensures Blocks(n, brk, Merge(s, p))
  {
    MergeTiled(s, p, BASE, brk);
    assert SegAt(s, p, BASE, brk);
    forall q | q in Merge(s, p) ensures SizeAt(n, Merge(s, p), q) { assert SizeAt(m, s, q); }
  }

  lemma CarveStore(m: seq<Word>, n: seq<Word>, brk: nat, s: SegMap, p: nat, units: nat)
    requires Blocks(m, brk, s) && p in s && s[p].free && 2 <= units && units + 2 <= s[p].size
    requires var size := s[p].size - units; p + 2 * size < |m| && n == m[p := Num(8 * size)][p + 2 * size := Num(8 * units)]
    ensures Blocks(n, brk, Carved(s, p, units)) && p + 2 * (s[p].size - units) !in s
  {
    var size := s[p].size - units;
    SplitTiled(s, p, size, BASE, brk);
    RetagTiled(Split(s, p, size), p + 2 * size, false, BASE, brk);
    assert SegAt(s, p, BASE, brk);
    forall q | q in Carved(s, p, units) ensures SizeAt(n, Carved(s, p, units), q) {
      if q in s { assert SizeAt(m, s, q); }
    }
  }

  lemma ExtendStore(m: seq<Word>, n: seq<Word>, brk: nat, s: SegMap, units: nat)
    requires Blocks(m, brk, s) && 2 <= units && brk + 2 * units <= MAX_WORDS && n == m[brk := Num(8 * units)]
    ensures Blocks(n, brk + 2 * units, Extend(s, brk, units)) && brk !in s
  {
    ExtendTiled(s, brk, units, BASE);
    forall q | q in Extend(s, brk, units) ensures SizeAt(n, Extend(s, brk, units), q) {
      if q in s { assert SizeAt(m, s, q); }
    }
  }

  // ----- the list after a change to the blocks -----

  lemma CarveListed(s: SegMap, nodes: seq<nat>, brk: nat, p: nat, units: nat)
    requires Tiled(s, BASE, brk) && NoFreeNeighbours(s) && FreeListed(s, nodes)
    requires p in s && s[p].free && 2 <= units && units + 2 <= s[p].size
    ensures FreeListed(Carved(s, p, units), nodes) && NoFreeNeighbours(Carved(s, p, units))
    ensures LiveOf(Carved(s, p, units)) == LiveOf(s)[p + 2 * (s[p].size - units) := 2 * units]
    ensures p + 2 * (s[p].size - units) !in s
  {
    var r := Carved(s, p, units);
    SplitTiled(s, p, s[p].size - units, BASE, brk);
    assert SegAt(s, p, BASE, brk);
    forall q: nat ensures Listed(r, nodes, q) { assert Listed(s, nodes, q); }
    forall q: nat ensures NotBothFree(r, q) { assert NotBothFree(s, q) && Apart(s, q, p) && Apart(s, p, q); }
  }

  lemma TakenListed(s: SegMap, nodes: seq<nat>, brk: nat, k: nat)
    requires Tiled(s, BASE, brk) && NoFreeNeighbours(s) && FreeListed(s, nodes)
    requires 1 <= k < |nodes| && nodes[k] in s && s[nodes[k]].free && (forall i, j :: 0 <= i < j < |nodes| ==> nodes[i] != nodes[j])
    ensures FreeListed(Retag(s, nodes[k], false), Removed(nodes, k)) && NoFreeNeighbours(Retag(s, nodes[k], false))
    ensures LiveOf(Retag(s, nodes[k], false)) == LiveOf(s)[nodes[k] := 2 * s[nodes[k]].size]
  {
    var r, p := Retag(s, nodes[k], false), nodes[k];
    assert SegAt(s, p, BASE, brk);
    forall q: nat ensures Listed(r, Removed(nodes, k), q) {
      assert Listed(s, nodes, q);
      RemovedHas(nodes, k, q);
    }
    forall q: nat ensures NotBothFree(r, q) { assert NotBothFree(s, q); }
  }

  lemma RemovedHas(nodes: seq<nat>, k: nat, q: nat)
    requires k < |nodes| && (forall i, j :: 0 <= i < j < |nodes| ==> nodes[i] != nodes[j])
    ensures q in Removed(nodes, k) <==> q in nodes && q != nodes[k]
  {
    var r := Removed(nodes, k);
    if q in nodes && q != nodes[k] {
      var i :| 0 <= i < |nodes| && nodes[i] == q;
      assert r[if i < k then i else i - 1] == q;
    }
  }

  lemma ChainDistinct(m: seq<Word>, nodes: seq<nat>)
    requires Chain(m, nodes)
    ensures forall i, j :: 0 <= i < j < |nodes| ==> nodes[i] != nodes[j]
  {
    forall i: nat, j: nat | i < j < |nodes| ensures nodes[i] != nodes[j] { assert NodesClear(nodes, i, j); }
  }

  lemma GrownListed(s: SegMap, nodes: seq<nat>, brk: nat, units: nat)
    requires Tiled(s, BASE, brk) && NoFreeNeighbours(s) && FreeListed(s, nodes) && 2 <= units
    ensures FreeListed(Extend(s, brk, units), nodes) && NoFreeNeighbours(Extend(s, brk, units))
    ensures LiveOf(Extend(s, brk, units)) == LiveOf(s)[brk := 2 * units] && brk !in s
  {
    ExtendTiled(s, brk, units, BASE);
    var r := Extend(s, brk, units);
    forall q: nat ensures Listed(r, nodes, q) { assert Listed(s, nodes, q); }
    forall q: nat ensures NotBothFree(r, q) {
      assert NotBothFree(s, q);
      assert q in s ==> SegAt(s, q, BASE, brk);
      assert forall o :: o in s && brk <= o ==> SegAt(s, o, BASE, brk);
    }
  }

  // ALIGN(size) + ALIGN(sizeof(size_t)), at least ALIGN(sizeof(MM_Node)), in 8-byte units
  function UnitsFor(size: nat): (units: nat)
    ensures 2 <= units && size + 8 <= 8 * units
    ensures 8 * units < size + 16 || units == 2
  {
    var nsize := (size + 7) / 8 * 8 + 8;
    (if nsize < 16 then 16 else nsize) / 8
  }

  const MAX_REQUEST: nat := 0xFFFF_FFFF - 15

  class Allocator {
    const heap: Heap
    ghost var segs: SegMap
    ghost var nodes: seq<nat>

    constructor (heap: Heap)
      ensures this.heap == heap
    {
      this.heap := heap;
      segs, nodes := map[], [];
    }

    ghost predicate Valid()
      reads this, heap, heap.mem
    {
      heap.Valid() && State(heap.mem[..], heap.brk, segs, nodes)
    }

    // mm_init, on a heap whose break is at its start
    method Init() returns (r: int)
      requires heap.Valid() && heap.brk == 0
      modifies this, heap, heap.mem
      ensures Valid() && segs == map[] && nodes == [HEAD, TAIL] && r == 0
    {
      var mem := heap.mem;
      var ok, head := heap.Sbrk(24 / 4);
      mem[HEAD] := Num(0);
      mem[HEAD + 1] := Ptr(NULL);
      mem[HEAD + 2] := Ptr(TAIL);
      mem[TAIL] := Num(0);
      mem[TAIL + 1] := Ptr(HEAD);
      mem[TAIL + 2] := Ptr(NULL);
      segs, nodes := map[], [HEAD, TAIL];
      assert Linked(mem[..], nodes, 0);
      return 0;
    }

    // The search loop of mm_malloc.
    method FindFit(units: nat) returns (itr: nat, ghost k: nat)
      requires Valid() && 2 <= units
      ensures k == FitIndex(segs, nodes, units, 1) && nodes[k] == itr && 1 <= k
      ensures itr + 2 < heap.mem.Length && (if k == |nodes| - 1 then itr == TAIL && heap.mem[itr] == Num(0)
        else itr in segs && segs[itr].free && units <= segs[itr].size && heap.mem[itr] == Num(8 * segs[itr].size))
      ensures heap.mem[..] == old(heap.mem[..])
    {
      var mem := heap.mem;
      k := 1;
      assert Linked(mem[..], nodes, 0);
      itr := mem[HEAD + 2].addr;
      NodeSize(mem[..], heap.brk, segs, nodes, k);
      while itr != TAIL
        invariant 1 <= k < |nodes| && nodes[k] == itr && itr + 2 < mem.Length
        invariant FitIndex(segs, nodes, units, k) == FitIndex(segs, nodes, units, 1)
        invariant if k == |nodes| - 1 then itr == TAIL && mem[itr] == Num(0)
                  else itr != TAIL && itr in segs && segs[itr].free && mem[itr] == Num(8 * segs[itr].size)
        decreases |nodes| - k
      {
        if 8 * units <= mem[itr].n {
          break;
        }
        assert Linked(mem[..], nodes, k);
        itr := mem[itr + 2].addr;
        k := k + 1;
        NodeSize(mem[..], heap.brk, segs, nodes, k);
      }
    }

    // mm_malloc: ok is false when mem_sbrk reports that the heap cannot grow, which mm_.c does not look at.
    method Malloc(size: nat) returns (ok: bool, ptr: nat)
      requires Valid() && size <= MAX_REQUEST
      modifies this, heap, heap.mem
      ensures ok <==> !NoRoom(old(segs), old(heap.brk), UnitsFor(size))
      ensures !ok ==> unchanged(this, heap, heap.mem)
      ensures ok ==>
        && Valid() && 2 <= ptr && Placed(old(segs), old(nodes), old(heap.brk), segs, nodes, heap.brk, ptr - 2, UnitsFor(size))
        && MallocSpec(old(heap.mem[..]), LiveOf(old(segs)), heap.mem[..], LiveOf(segs), ptr - 2, size)
    {
      hide Blocks, Chain, FreeListed, NoFreeNeighbours, MallocSpec, Tiled;
      var nsize := (size + 7) / 8 * 8 + 8;
      if nsize < 16 {
        nsize := 16;
      }
      var units := nsize / 8;
      FitIsFirst(heap.mem[..], heap.brk, segs, nodes, units);
      var itr, k := FindFit(units);
      var p;
      ok := true;
      if 16 + nsize <= heap.mem[itr].n {
        p := Carve(itr, units, size);
      } else if nsize <= heap.mem[itr].n {
        Take(itr, k, size);
        p := itr;
      } else {
        ok, p := NewNode(units, size);
      }
      ptr := p + 2;
    }

    // The block shrinks and its end becomes the new block.
    method Carve(itr: nat, units: nat, ghost size: nat) returns (ntr: nat)
      requires Valid() && itr in segs && segs[itr].free && 2 <= units && units + 2 <= segs[itr].size && size + 8 <= 8 * units
      requires itr < heap.mem.Length && heap.mem[itr] == Num(8 * segs[itr].size)
      modifies this`segs, heap.mem
      ensures Valid() && segs == Carved(old(segs), itr, units) && ntr == itr + 2 * (old(segs[itr].size) - units)
      ensures MallocSpec(old(heap.mem[..]), LiveOf(old(segs)), heap.mem[..], LiveOf(segs), ntr, size)
    {
      var mem := heap.mem;
      ghost var m, s, brk := mem[..], segs, heap.brk;
      assert SegAt(s, itr, BASE, brk);
      NodesAreFree(s, nodes);
      mem[itr] := Num(mem[itr].n - 8 * units);
      ghost var m1 := mem[..];
      ntr := itr + 2 * (mem[itr].n / 8);
      mem[ntr] := Num(8 * units);
      StoreKeeps(m, m1, brk, s, nodes, itr, itr, m1[itr]);
      StoreKeeps(m1, mem[..], brk, s, nodes, itr, ntr, mem[ntr]);
      KeptTransitive(m, m1, mem[..], LiveOf(s), LiveOf(s), LiveOf(s));
      CarveStore(m, mem[..], brk, s, itr, units);
      CarveListed(s, nodes, brk, itr, units);
      segs := Carved(s, itr, units);
    }

    // The block leaves the list whole.
    method Take(itr: nat, ghost k: nat, ghost size: nat)
      requires Valid() && 1 <= k < |nodes| - 1 && nodes[k] == itr && itr in segs && segs[itr].free && size + 8 <= 8 * segs[itr].size
      modifies this, heap.mem
      ensures Valid() && segs == Retag(old(segs), itr, false) && nodes == Removed(old(nodes), k)
      ensures MallocSpec(old(heap.mem[..]), LiveOf(old(segs)), heap.mem[..], LiveOf(segs), itr, size)
    {
      ghost var m, s, brk := heap.mem[..], segs, heap.brk;
      NodesAreFree(s, nodes);
      ChainDistinct(m, nodes);
      FreeList.DeleteNode(heap.mem, itr, nodes, k);
      LinksKeep(m, heap.mem[..], brk, s, Removed(nodes, k));
      TakenListed(s, nodes, brk, k);
      RetagBlocks(heap.mem[..], brk, s, itr, false);
      segs, nodes := Retag(s, itr, false), Removed(nodes, k);
    }

    // mm_new_node
    method NewNode(units: nat, ghost size: nat) returns (ok: bool, ptr: nat)
      requires Valid() && 2 <= units && size + 8 <= 8 * units
      modifies this`segs, heap, heap.mem
      ensures ok == (old(heap.brk) + 2 * units <= MAX_WORDS)
      ensures !ok ==> unchanged(this, heap, heap.mem)
      ensures ok ==>
        && Valid() && ptr == old(heap.brk) && heap.brk == ptr + 2 * units && segs == Extend(old(segs), ptr, units)
        && MallocSpec(old(heap.mem[..]), LiveOf(old(segs)), heap.mem[..], LiveOf(segs), ptr, size)
    {
      ghost var m, s := heap.mem[..], segs;
      ok, ptr := heap.Sbrk(2 * units);
      if !ok { return; }
      heap.mem[ptr] := Num(8 * units);
      NodesAreFree(s, nodes);
      StoreKeeps(m, heap.mem[..], ptr, s, nodes, ptr, ptr, Num(8 * units));
      ExtendStore(m, heap.mem[..], ptr, s, units);
      GrownListed(s, nodes, ptr, units);
      segs := Extend(s, ptr, units);
    }

    // The search loop of mm_free: the free blocks that end where p begins and begin where p ends; 0 stands for NULL.
    method FindNeighbours(p: nat) returns (prev: nat, next: nat, ghost at: nat)
      requires Valid() && p in segs
      ensures prev == if PrevFree(segs, p) then PrevOf(segs, p) else 0
      ensures next == if End(segs, p) in segs && segs[End(segs, p)].free then End(segs, p) else 0
      ensures next != 0 ==> 1 <= at < |nodes| - 1 && nodes[at] == next
      ensures heap.mem[..] == old(heap.mem[..])
    {
      var mem := heap.mem;
      ghost var m, s, k := mem[..], segs, 1;
      assert SegAt(s, p, BASE, heap.brk) && SizeAt(m, s, p);
      prev, next, at := 0, 0, 0;
      assert Linked(m, nodes, 0);
      var itr := mem[HEAD + 2].addr;
      NodeSize(m, heap.brk, s, nodes, k);
      while itr != TAIL
        invariant 1 <= k < |nodes| && nodes[k] == itr && itr + 2 < mem.Length && (itr == TAIL <==> k == |nodes| - 1)
        invariant k < |nodes| - 1 ==> BASE <= itr && itr in s && s[itr].free && mem[itr] == Num(8 * s[itr].size)
        invariant if prev == 0 then NoneEnds(s, nodes, p, k) else prev in s && s[prev].free && End(s, prev) == p
        invariant if next == 0 then NoneBegins(s, nodes, p, k)
                  else next == End(s, p) && next in s && s[next].free && 1 <= at < k && nodes[at] == next
        decreases |nodes| - k
      {
        if itr + mem[itr].n / 4 == p {
          prev := itr;
        }
        if p + mem[p].n / 4 == itr {
          next, at := itr, k;
        }
        assert Linked(m, nodes, k);
        itr := mem[itr + 2].addr;
        k := k + 1;
        NodeSize(m, heap.brk, s, nodes, k);
      }
      Neighbours(m, heap.brk, s, nodes, p, prev, next);
    }

    // mm_free
    method Free(iptr: nat)
      requires Valid() && 2 <= iptr && iptr - 2 in segs && !segs[iptr - 2].free
      modifies this, heap.mem
      ensures Valid() && segs == Coalesced(old(segs), iptr - 2) && FreedTo(old(segs), segs, iptr - 2)
      ensures nodes == FreedNodes(old(segs), old(nodes), iptr - 2) && Relisted(old(segs), old(nodes), nodes, iptr - 2)
      ensures FreeSpec(old(heap.mem[..]), LiveOf(old(segs)), heap.mem[..], LiveOf(segs), iptr - 2)
    {
      hide Blocks, Chain, FreeListed, NoFreeNeighbours, Kept, Tiled, Coalesced, FreedTo, Relisted;
      var ptr := iptr - 2;
      ghost var m, s, brk, n0 := heap.mem[..], segs, heap.brk, nodes;
      var prev, next, at := FindNeighbours(ptr);
      FreeFacts(m, brk, s, n0, ptr, at);
      StateTiled(m, brk, s, n0);
      FreeOrder(s, ptr, BASE, brk);
      FreedIsRelisted(m, brk, s, n0, ptr);
      CoalescedIsFreed(s, Coalesced(s, ptr), ptr, BASE, brk);
      KeptSelf(m, LiveOf(s));
      if next != 0 {
        JoinNext(ptr, next, at);
      }
      ghost var m1, s1 := heap.mem[..], segs;
      assert s1 == Segments.JoinNext(s, ptr);
      if prev != 0 {
        JoinPrev(prev, ptr);
        KeptTransitive(m, m1, heap.mem[..], LiveOf(s), LiveOf(s1), LiveOf(s) - {ptr});
      } else {
        Append(ptr);
        KeptTransitive(m, m1, heap.mem[..], LiveOf(s), LiveOf(segs), LiveOf(s) - {ptr});
      }
    }

    // mm_realloc: always a new block, a copy and a free. The size field counts the header, so the copy may read
    // up to 8 bytes past the old payload.
    method Realloc(ptr: nat, size: nat) returns (ok: bool, r: nat)
      requires Valid() && 2 <= ptr && ptr - 2 in segs && !segs[ptr - 2].free && size <= MAX_REQUEST
      modifies this, heap, heap.mem
      ensures ok <==> !NoRoom(old(segs), old(heap.brk), UnitsFor(size))
      ensures !ok ==> unchanged(this, heap, heap.mem)
      ensures ok ==>
        && Valid() && 2 <= r && Moved(old(segs), old(nodes), old(heap.brk), segs, nodes, heap.brk, ptr - 2, r - 2, UnitsFor(size))
        && ReallocSpec(old(heap.mem[..]), LiveOf(old(segs)), heap.mem[..], LiveOf(segs), ptr - 2, r - 2, size)
    {
      hide Blocks, Chain, FreeListed, NoFreeNeighbours, Placed, FreedTo, Relisted;
      ghost var m, s, p := heap.mem[..], segs, ptr - 2;
      InHeap(m, heap.brk, s, nodes, p);
      ok, r := Malloc(size);
      if !ok { return; }
      ghost var m1, s1, q := heap.mem[..], segs, r - 2;
      SegMem.LiveSegment(LiveOf(s), LiveOf(s1), s, s1, p, q);
      InHeap(m1, heap.brk, s1, nodes, p);
      ghost var fits := if size < 8 * s[p].size - 8 then size else 8 * s[p].size - 8;
      CopyAndFree(ptr, r, size, fits);
      MoveIsRealloc(m, m1, heap.mem[..], LiveOf(s), LiveOf(s1), LiveOf(segs), p, q, size, fits);
    }

    // memcpy of the smaller of the sizes; mm_free of the old block
    method CopyAndFree(ptr: nat, nw: nat, size: nat, ghost fits: nat)
      requires Valid() && 2 <= ptr && 2 <= nw && ptr - 2 in segs && nw - 2 in segs && ptr != nw && !segs[ptr - 2].free
      requires !segs[nw - 2].free && size + 8 <= 8 * segs[nw - 2].size
      requires fits <= size && fits <= 8 * segs[ptr - 2].size
      modifies this, heap.mem
      ensures Valid() && FreedTo(old(segs), segs, ptr - 2) && Relisted(old(segs), old(nodes), nodes, ptr - 2)
      ensures LiveOf(segs) == LiveOf(old(segs)) - {ptr - 2}
      ensures Kept(old(heap.mem[..]), heap.mem[..], LiveOf(old(segs)) - {nw - 2} - {ptr - 2})
      ensures BytesMoved(old(heap.mem[..]), ptr - 2, heap.mem[..], nw - 2, fits)
    {
      hide Blocks, Chain, FreeListed, NoFreeNeighbours, Coalesced, FreedTo, FreedNodes, Relisted, Kept;
      ghost var m, s, nodes0, p, q := heap.mem[..], segs, nodes, ptr - 2, nw - 2;
      Copy(ptr, nw, size, fits);
      ghost var m1 := heap.mem[..];
      Free(ptr);
      InHeap(m1, heap.brk, s, nodes0, q);
      CopyThenFree(m, m1, heap.mem[..], LiveOf(s), LiveOf(segs), p, q, fits);
    }

    method Copy(ptr: nat, nw: nat, size: nat, ghost fits: nat)
      requires Valid() && 2 <= ptr && 2 <= nw && ptr - 2 in segs && nw - 2 in segs && ptr != nw
      requires !segs[nw - 2].free && size + 8 <= 8 * segs[nw - 2].size
      requires fits <= size && fits <= 8 * segs[ptr - 2].size
      modifies heap.mem
      ensures Valid() && Kept(old(heap.mem[..]), heap.mem[..], LiveOf(segs) - {nw - 2})
      ensures BytesMoved(old(heap.mem[..]), ptr - 2, heap.mem[..], nw - 2, fits)
    {
      hide NoFreeNeighbours, Chain, FreeListed;
      ghost var m := heap.mem[..];
      assert SizeAt(m, segs, ptr - 2);
      var copySize := heap.mem[ptr - 2].n;
      if size < copySize {
        copySize := size;
      }
      BlocksApart(segs, ptr - 2, nw - 2, BASE, heap.brk);
      SegMem.CopyPayload(heap.mem, ptr, nw, copySize, segs);
      StateAfterWrite(m, heap.mem[..], heap.brk, segs, nodes, nw - 2);
      assert forall j {:trigger ByteMoved(m, ptr - 2, heap.mem[..], nw - 2, j)} :: 0 <= j < fits ==> ByteMoved(m, ptr - 2, heap.mem[..], nw - 2, j);
    }

    // Everything but the promise that no two free blocks touch, which mm_free restores last.
    ghost predicate Linkable()
      reads this, heap, heap.mem
    {
      heap.Valid() && Blocks(heap.mem[..], heap.brk, segs) && Chain(heap.mem[..], nodes) && FreeListed(segs, nodes)
    }

    // mm_delete_node(next); ptr->size += next->size
    method JoinNext(ptr: nat, next: nat, ghost at: nat)
      requires Linkable() && ptr in segs && !segs[ptr].free && next == End(segs, ptr) && next in segs && segs[next].free
      requires 1 <= at < |nodes| - 1 && nodes[at] == next
      modifies this, heap.mem
      ensures Linkable() && segs == Merge(old(segs), ptr) && nodes == Removed(old(nodes), at)
      ensures Kept(old(heap.mem[..]), heap.mem[..], LiveOf(old(segs)))
    {
      var mem := heap.mem;
      ghost var m, s, brk := mem[..], segs, heap.brk;
      NodesAreFree(s, nodes);
      ChainDistinct(m, nodes);
      FreeList.DeleteNode(mem, next, nodes, at);
      ghost var m1 := mem[..];
      LinksKeep(m, m1, brk, s, Removed(nodes, at));
      assert SegAt(s, ptr, BASE, brk) && SizeAt(m1, s, ptr) && SizeAt(m1, s, next);
      mem[ptr] := Num(mem[ptr].n + mem[next].n);
      StoreKeeps(m1, mem[..], brk, s, Removed(nodes, at), ptr, ptr, mem[ptr]);
      MergeStore(m1, mem[..], brk, s, ptr);
      JoinedListed(s, nodes, brk, ptr, at);
      KeptTransitive(m, m1, mem[..], LiveOf(s), LiveOf(s), LiveOf(s));
      segs, nodes := Merge(s, ptr), Removed(nodes, at);
    }

    // prev->size += ptr->size
    method JoinPrev(prev: nat, ptr: nat)
      requires Linkable() && prev in segs && segs[prev].free && ptr == End(segs, prev) && ptr in segs && !segs[ptr].free
      modifies this`segs, heap.mem
      ensures Linkable() && segs == Merge(old(segs), prev)
      ensures Kept(old(heap.mem[..]), heap.mem[..], LiveOf(old(segs)))
    {
      var mem := heap.mem;
      ghost var m, s, brk := mem[..], segs, heap.brk;
      NodesAreFree(s, nodes);
      assert SegAt(s, prev, BASE, brk) && SizeAt(m, s, prev) && SizeAt(m, s, ptr);
      mem[prev] := Num(mem[prev].n + mem[ptr].n);
      StoreKeeps(m, mem[..], brk, s, nodes, prev, prev, mem[prev]);
      MergeStore(m, mem[..], brk, s, prev);
      forall q: nat ensures Listed(Merge(s, prev), nodes, q) { assert Listed(s, nodes, q); }
      segs := Merge(s, prev);
    }

    // mm_insert_node(&head->tail, ptr)
    method Append(ptr: nat)
      requires Linkable() && ptr in segs && !segs[ptr].free
      modifies this, heap.mem
      ensures Linkable() && segs == Retag(old(segs), ptr, true) && nodes == Inserted(old(nodes), |old(nodes)| - 1, ptr)
      ensures Kept(old(heap.mem[..]), heap.mem[..], LiveOf(segs))
    {
      ghost var m, s, brk, k := heap.mem[..], segs, heap.brk, |nodes| - 1;
      NodesAreFree(s, nodes);
      AppendClear(s, nodes, brk, ptr);
      FreeList.InsertNode(heap.mem, TAIL, ptr, nodes, k);
      RetagBlocks(m, brk, s, ptr, true);
      segs, nodes := Retag(s, ptr, true), Inserted(nodes, k, ptr);
      NodesAreFree(segs, nodes);
      LinksKeep(m, heap.mem[..], brk, segs, nodes);
    }
  }

  lemma InHeap(m: seq<Word>, brk: nat, s: SegMap, nodes: seq<nat>, p: nat)
    requires State(m, brk, s, nodes) && p in s
    ensures End(s, p) <= brk <= |m| && s[p].size >= 2 && 2 <= |nodes|
  {
    assert SegAt(s, p, BASE, brk);
  }

  // A store to the payload of live block p keeps everything but that payload.
  lemma StateAfterWrite(m: seq<Word>, n: seq<Word>, brk: nat, s: SegMap, nodes: seq<nat>, p: nat)
    requires State(m, brk, s, nodes) && SegMem.OnlyPayload(m, n, s, p)
    ensures State(n, brk, s, nodes) && Kept(m, n, LiveOf(s) - {p})
  {
    assert SegAt(s, p, BASE, brk);
    NodesAreFree(s, nodes);
    assert Same(m, n, HEAD) && Same(m, n, TAIL);
    forall q | q in s ensures SizeAt(n, s, q) {
      assert SizeAt(m, s, q) && SegAt(s, q, BASE, brk) && Apart(s, p, q) && Apart(s, q, p) && Same(m, n, q);
    }
    forall a: nat | a in nodes && a + 2 < |m| ensures n[a + 1] == m[a + 1] && n[a + 2] == m[a + 2] {
      assert a in s ==> SegAt(s, a, BASE, brk) && Apart(s, a, p) && Apart(s, p, a);
      assert Same(m, n, a + 1) && Same(m, n, a + 2);
    }
    ChainStays(m, n, nodes);
    forall q: nat, w: nat ensures KeptAt(m, n, LiveOf(s) - {p}, q, w) {
      assert q in s ==> SegAt(s, q, BASE, brk) && Apart(s, p, q) && Apart(s, q, p);
      assert Same(m, n, w) || p + 2 <= w < End(s, p);
    }
  }

  lemma NodeSize(m: seq<Word>, brk: nat, s: SegMap, nodes: seq<nat>, k: nat)
    requires State(m, brk, s, nodes) && 1 <= k < |nodes|
    ensures var p := nodes[k];
      && p + 2 < |m|
      && if k == |nodes| - 1 then p == TAIL && m[p] == Num(0)
         else p != TAIL && BASE <= p && p in s && s[p].free && m[p] == Num(8 * s[p].size)
  {
    assert Linked(m, nodes, k - 1) && Listed(s, nodes, nodes[k]);
    assert NodesClear(nodes, 0, k) && NodesClear(nodes, k, |nodes| - 1);
    if k != |nodes| - 1 { assert SizeAt(m, s, nodes[k]) && SegAt(s, nodes[k], BASE, brk); }
  }

  lemma RetagBlocks(m: seq<Word>, brk: nat, s: SegMap, p: nat, free: bool)
    requires Blocks(m, brk, s) && p in s
    ensures Blocks(m, brk, Retag(s, p, free))
  {
    RetagTiled(s, p, free, BASE, brk);
    forall q | q in Retag(s, p, free) ensures SizeAt(m, Retag(s, p, free), q) { assert SizeAt(m, s, q); }
  }

  // The search stops at the first block that fits, and at the tail only if no free block does.
  lemma FitIsFirst(m: seq<Word>, brk: nat, s: SegMap, nodes: seq<nat>, units: nat)
    requires State(m, brk, s, nodes)
    ensures var k := FitIndex(s, nodes, units, 1);
      && (k < |nodes| - 1 ==> nodes[k] in s && s[nodes[k]].free && units <= s[nodes[k]].size)
      && (forall j :: 1 <= j < k ==> nodes[j] in s && s[nodes[j]].size < units)
      && (k == |nodes| - 1 <==> NoneFits(s, units))
  {
    var k := FitIndex(s, nodes, units, 1);
    FitFrom(m, brk, s, nodes, units, 1);
    if k == |nodes| - 1 {
      forall q | q in s && s[q].free ensures s[q].size < units { FreeIsInside(m, brk, s, nodes, q); }
    }
  }

  lemma {:induction false} FitFrom(m: seq<Word>, brk: nat, s: SegMap, nodes: seq<nat>, units: nat, i: nat)
    requires State(m, brk, s, nodes) && 1 <= i < |nodes|
    ensures var k := FitIndex(s, nodes, units, i);
      && (k < |nodes| - 1 ==> nodes[k] in s && s[nodes[k]].free && units <= s[nodes[k]].size)
      && (forall j :: i <= j < k ==> nodes[j] in s && s[nodes[j]].size < units)
    decreases |nodes| - i
  {
    NodeSize(m, brk, s, nodes, i);
    if i + 1 < |nodes| && s[nodes[i]].size < units { FitFrom(m, brk, s, nodes, units, i + 1); }
  }

  lemma StateTiled(m: seq<Word>, brk: nat, s: SegMap, nodes: seq<nat>)
    requires State(m, brk, s, nodes)
    ensures BASE <= brk <= MAX_WORDS && Tiled(s, BASE, brk) && NoFreeNeighbours(s)
  {
  }

  // In every state payloads are aligned, inside the heap and disjoint; once all blocks are free there is one at most.
  lemma StateLayout(m: seq<Word>, brk: nat, s: SegMap, nodes: seq<nat>)
    requires State(m, brk, s, nodes)
    ensures WellPlaced(LiveOf(s), brk)
    ensures LiveOf(s) == map[] ==> s == map[] || s == map[BASE := Seg((brk - BASE) / 2, true)]
  {
    SegMem.LiveWellPlaced(s, BASE, brk, brk);
    if LiveOf(s) == map[] && s != map[] {
      forall q | q in s ensures s[q].free { assert q !in LiveOf(s); }
      var p :| p in s;
      AllFreeIsOne(s, BASE, brk, p);
    }
  }

  // ----- freeing -----

  ghost predicate NoneEnds(s: SegMap, nodes: seq<nat>, p: nat, k: nat) {
    forall j :: 1 <= j < k && j < |nodes| && nodes[j] in s ==> End(s, nodes[j]) != p
  }

  ghost predicate NoneBegins(s: SegMap, nodes: seq<nat>, p: nat, k: nat) {
    forall j :: 1 <= j < k && j < |nodes| && p in s ==> nodes[j] != End(s, p)
  }

  // The list after p is freed: its free successor has left it, and p is last unless it joined a free predecessor.
  ghost function FreedNodes(s: SegMap, nodes: seq<nat>, p: nat): seq<nat>
    requires p in s && 1 <= |nodes|
  {
    var rest := if End(s, p) in s && s[End(s, p)].free then Without(nodes, End(s, p)) else nodes;
    if PrevFree(s, p) || rest == [] then rest else Inserted(rest, |rest| - 1, p)
  }

  lemma PrevFreeMeans(s: SegMap, p: nat, lo: nat, hi: nat)
    requires Tiled(s, lo, hi)
    ensures PrevFree(s, p) <==> exists q :: q in s && End(s, q) == p && s[q].free
  {
    forall q | q in s && End(s, q) == p ensures PrevOf(s, p) == q { PrevUnique(s, q, p, lo, hi); }
  }

  lemma FreedIsRelisted(m: seq<Word>, brk: nat, s: SegMap, nodes: seq<nat>, p: nat)
    requires State(m, brk, s, nodes) && p in s && !s[p].free
    ensures 1 <= |nodes| && Relisted(s, nodes, FreedNodes(s, nodes, p), p)
  {
    var next, last := End(s, p), |nodes| - 1;
    PrevFreeMeans(s, p, BASE, brk);
    ChainDistinct(m, nodes);
    assert nodes == nodes[..last] + [nodes[last]];
    if next in s && s[next].free {
      FreeIsInside(m, brk, s, nodes, next);
      var at :| 1 <= at < last && nodes[at] == next;
      hide State, PrevFree, Inserted, Without;
      RemovedIsWithout(nodes, at);
      TakenOut(nodes, at);
      BeforeTail(nodes[..at] + nodes[at + 1..last], nodes[last], p);
    } else {
      hide State, PrevFree, Inserted;
      BeforeTail(nodes[..last], nodes[last], p);
    }
  }

  lemma TakenOut(nodes: seq<nat>, at: nat)
    requires at + 1 < |nodes|
    ensures Removed(nodes, at) == nodes[..at] + nodes[at + 1..|nodes| - 1] + [nodes[|nodes| - 1]]
  {
  }

  lemma BeforeTail(front: seq<nat>, tail: nat, p: nat)
    ensures Inserted(front + [tail], |front|, p) == front + [p] + [tail]
  {
  }

  lemma Neighbours(m: seq<Word>, brk: nat, s: SegMap, nodes: seq<nat>, p: nat, prev: nat, next: nat)
    requires State(m, brk, s, nodes) && p in s
    requires if prev == 0 then NoneEnds(s, nodes, p, |nodes| - 1) else prev in s && s[prev].free && End(s, prev) == p
    requires if next == 0 then NoneBegins(s, nodes, p, |nodes| - 1) else next == End(s, p) && next in s && s[next].free
    ensures prev == if PrevFree(s, p) then PrevOf(s, p) else 0
    ensures next == if End(s, p) in s && s[End(s, p)].free then End(s, p) else 0
  {
    if prev != 0 {
      PrevUnique(s, prev, p, BASE, brk);
    } else if PrevFree(s, p) {
      FreeIsInside(m, brk, s, nodes, PrevOf(s, p));
    }
    if next == 0 && End(s, p) in s && s[End(s, p)].free {
      FreeIsInside(m, brk, s, nodes, End(s, p));
    }
  }

  lemma FreeIsInside(m: seq<Word>, brk: nat, s: SegMap, nodes: seq<nat>, q: nat)
    requires State(m, brk, s, nodes) && q in s && s[q].free
    ensures exists j :: 1 <= j < |nodes| - 1 && nodes[j] == q
  {
    assert Listed(s, nodes, q) && SegAt(s, q, BASE, brk);
    var j :| 0 <= j < |nodes| && nodes[j] == q;
  }

  lemma JoinedListed(s: SegMap, nodes: seq<nat>, brk: nat, p: nat, at: nat)
    requires Tiled(s, BASE, brk) && FreeListed(s, nodes) && p in s && !s[p].free && End(s, p) in s
    requires at < |nodes| && nodes[at] == End(s, p) && (forall i, j :: 0 <= i < j < |nodes| ==> nodes[i] != nodes[j])
    ensures FreeListed(Merge(s, p), Removed(nodes, at))
  {
    assert SegAt(s, p, BASE, brk);
    forall q: nat ensures Listed(Merge(s, p), Removed(nodes, at), q) {
      assert Listed(s, nodes, q);
      RemovedHas(nodes, at, q);
    }
  }

  lemma AppendClear(s: SegMap, nodes: seq<nat>, brk: nat, p: nat)
    requires Tiled(s, BASE, brk) && FreeListed(s, nodes) && p in s && !s[p].free && 1 <= |nodes|
    ensures forall i :: 0 <= i < |nodes| ==> Clear(nodes[i], p)
    ensures FreeListed(Retag(s, p, true), Inserted(nodes, |nodes| - 1, p))
    ensures p + 2 < brk
  {
    NodesAreFree(s, nodes);
    assert SegAt(s, p, BASE, brk);
    forall i | 0 <= i < |nodes| ensures Clear(nodes[i], p) {
      assert nodes[i] in nodes;
      assert nodes[i] in s ==> SegAt(s, nodes[i], BASE, brk) && Apart(s, nodes[i], p) && Apart(s, p, nodes[i]);
    }
    var r := Inserted(nodes, |nodes| - 1, p);
    assert nodes == nodes[..|nodes| - 1] + nodes[|nodes| - 1..];
    forall q: nat ensures Listed(Retag(s, p, true), r, q) { assert Listed(s, nodes, q); }
  }

  // Joining the successor first and the predecessor second gives what mm.c computes in the other order.
  lemma FreeOrder(s: SegMap, p: nat, lo: nat, hi: nat)
    requires Tiled(s, lo, hi) && p in s && !s[p].free && 0 < lo
    ensures var s1 := Segments.JoinNext(s, p);
      && p in s1 && !s1[p].free
      && (PrevFree(s, p) ==> var prev := PrevOf(s, p);
            prev != 0 && prev in s1 && s1[prev].free && End(s1, prev) == p && Merge(s1, prev) == Coalesced(s, p))
      && (!PrevFree(s, p) ==> Retag(s1, p, true) == Coalesced(s, p))
  {
    assert SegAt(s, p, lo, hi);
    if PrevFree(s, p) {
      assert SegAt(s, PrevOf(s, p), lo, hi);
    }
  }

  // So mm_free leaves no free neighbours, and takes exactly p from the live blocks.
  lemma FreeFacts(m: seq<Word>, brk: nat, s: SegMap, nodes: seq<nat>, p: nat, at: nat)
    requires State(m, brk, s, nodes) && p in s && !s[p].free
    ensures 2 <= |nodes| && NoFreeNeighbours(Coalesced(s, p)) && LiveOf(Coalesced(s, p)) == LiveOf(s) - {p}
    ensures Within(LiveOf(s) - {p}, LiveOf(Segments.JoinNext(s, p)))
    ensures at < |nodes| && End(s, p) == nodes[at] ==> Removed(nodes, at) == Without(nodes, End(s, p))
  {
    CoalescedNoFreeNeighbours(s, p, BASE, brk);
    assert SegAt(s, p, BASE, brk);
    ChainDistinct(m, nodes);
    if at < |nodes| { RemovedIsWithout(nodes, at); }
  }
}
