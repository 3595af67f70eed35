/**
  The allocator of mm.c: mm_init, mm_malloc, mm_free, mm_realloc and mm_check over the tagged words of the heap.
  All its state is in the heap; `tree` and `segs` are ghost values that the invariant ties to memory.
 */
module Mm {
  import opened RBTree
  import opened MemLib
  import opened AllocSpec
  import opened TreeRep
  import opened Segments
  import opened SegMem
  import MmTree
  import opened MmState

  function Align(size: nat): nat {
    (size + 7) / 8 * 8
  }

  // The segment size for a request: header and rounded payload, in 8-byte units.
  function Units(size: nat): (units: nat)
    ensures size + 8 <= 8 * units < size + 16
  {
    (Align(size) + 8) / 8
  }

  // By how many words mm_sbrk moves the break.
  function Growth(size: nat): nat {
    if size < MM_UNIT then MM_UNIT / 4 else size / 4
  }

  lemma GrownKeeps(s: SegMap, hi: nat, units: nat)
    requires Tiled(s, LO, hi) && 1 <= units
    ensures Within(LiveOf(s), LiveOf(Grown(s, hi, units, MM_UNIT / 8)))
  {
    forall p | p in s ensures p < hi { assert SegAt(s, p, LO, hi); }
  }

  // The largest request whose rounded size does not wrap around in 32 bits.
  const MAX_REQUEST: nat := 0xFFFF_FFFF - 15

  // mm_sbrk for `units` units has added a segment at hi. From 144 bytes up it has just that size. Below, 144 bytes are
  // taken: the segment is one unit longer and what is left is free, or it has all 18 units if 1 or none is left.
  ghost predicate AddedAt(s: SegMap, s': SegMap, hi: nat, units: nat, free: bool) {
    && hi !in s && hi in s' && s'[hi].free == free
    && s'[hi].size == (if units < 16 then units + 1 else if units < 18 then 18 else units)
    && (units < 16 ==> hi + 2 * (units + 1) in s' && s'[hi + 2 * (units + 1)] == Seg(17 - units, true))
    && (forall q :: q in s ==> q in s' && s'[q] == s[q])
    && (forall q :: q in s' ==> q in s || q == hi || (units < 16 && q == hi + 2 * (units + 1)))
  }

  lemma GrownIsAdded(s: SegMap, s': SegMap, hi: nat, units: nat, free: bool)
    requires Tiled(s, LO, hi) && 1 <= units
    ensures hi in Grown(s, hi, units, MM_UNIT / 8)
    ensures AddedAt(s, s', hi, units, free) <==> s' == Retag(Grown(s, hi, units, MM_UNIT / 8), hi, free)
  {
    forall p | p in s ensures p < hi { assert SegAt(s, p, LO, hi); }
  }

  lemma GrownIsLive(s: SegMap, hi: nat, units: nat)
    requires Tiled(s, LO, hi) && 1 <= units
    ensures hi in Grown(s, hi, units, MM_UNIT / 8)
    ensures Retag(Grown(s, hi, units, MM_UNIT / 8), hi, false) == Grown(s, hi, units, MM_UNIT / 8)
  {
  }

  // Where mm_malloc puts a block: in the best fitting free segment, or, when none fits, at the end of the grown heap.
  ghost predicate Placed(s: SegMap, brk: nat, s': SegMap, brk': nat, p: nat, units: nat) {
    if brk' == brk then
      BestSegment(s, units, p) && CutTo(s, s', p, units, false)
    else
      && NoneFits(s, units)
      && p + 2 == brk && brk' == brk + Growth(8 * units) && AddedAt(s, s', p, units, false)
  }

  // Where the first loop of mm_realloc stops: the free segments behind p, up to p + 2 * units or just past it.
  ghost function RunFrom(s: SegMap, p: nat, units: nat, hi: nat): (r: nat)
    requires Tiled(s, LO, hi) && p in s
    ensures End(s, p) <= r <= hi && (r in s || r == hi) && AllFree(s, End(s, p), r)
    ensures r < p + 2 * units && r != hi ==> !s[r].free
    ensures forall q :: q in s && End(s, p) <= q < r ==> q < p + 2 * units
  {
    assert SegAt(s, p, LO, hi);
    RunEnd(s, End(s, p), p + 2 * units, LO, hi)
  }

  // The second loop of mm_realloc takes in what the first one counted.
  lemma AbsorbedIsRun(s: SegMap, p: nat, units: nat, hi: nat)
    requires Tiled(s, LO, hi) && p in s
    ensures Absorbed(s, p, units, LO, hi) == Stretched(s, p, RunFrom(s, p, units, hi))
  {
    assert SegAt(s, p, LO, hi);
    AbsorbedIsStretched(s, p, units, LO, hi);
  }

  // The list once the heap has grown by a free segment of at least `missing` units.
  function GrownFree(s: SegMap, hi: nat, missing: nat): SegMap {
    var g := Grown(s, hi, missing, MM_UNIT / 8);
    if hi in g then Retag(g, hi, true) else g
  }

  // The block moved: a new one was placed as mm_malloc does, and the old one freed.
  ghost predicate Moved(s: SegMap, brk: nat, s': SegMap, brk': nat, p: nat, q: nat, units: nat) {
    q != p && exists s1 :: Placed(s, brk, s1, brk', q, units) && FreedTo(s1, s', p)
  }

  // What a block at p lacks if it may take in everything up to hi.
  function Missing(p: nat, units: nat, hi: nat): (missing: int)
    ensures (hi - p) % 2 == 0 ==> p + 2 * units == hi + 2 * missing
  {
    units - (hi - p) / 2
  }

  // mm_malloc of `units` has to grow the heap and cannot.
  ghost predicate NoRoom(s: SegMap, brk: nat, units: nat) {
    NoneFits(s, units) && brk + Growth(8 * units) > MAX_WORDS
  }

  // mm_realloc of block p to `units` has to grow the heap and cannot: the block is too small, so is the free run
  // behind it, and there is no room for what is missing at the end of the heap or for another block.
  ghost predicate NoRoomToResize(s: SegMap, brk: nat, p: nat, units: nat)
    requires 2 <= brk && Tiled(s, LO, brk - 2) && p in s
  {
    var end := RunFrom(s, p, units, brk - 2);
    && s[p].size < units && end < p + 2 * units
    && if end == brk - 2 then brk + Growth(8 * Missing(p, units, end)) > MAX_WORDS else NoRoom(s, brk, units)
  }

  // What mm_realloc of block p to `units` makes of the list; q is the block afterwards. It takes in the free run that
  // the first loop counted, and if the heap had to grow, the fresh segment as well; nothing else.
  ghost predicate Resized(s: SegMap, brk: nat, s': SegMap, brk': nat, p: nat, q: nat, units: nat)
    requires 2 <= brk && 2 <= brk' && Tiled(s, LO, brk - 2) && p in s
  {
    var hi := brk - 2;
    var end := RunFrom(s, p, units, hi);
    if units <= s[p].size then
      q == p && brk' == brk && CutTo(s, s', p, units, s[p].free)
    else if p + 2 * units <= end then
      q == p && brk' == brk && s' == Stretched(s, p, end)
    else if end == hi then
      var missing := Missing(p, units, hi);
      && q == p && brk' == brk + Growth(8 * missing) && p <= hi && 0 <= missing
      && exists s1 :: AddedAt(s, s1, hi, missing, true) && p + 2 * units <= End(s1, hi) && s' == Stretched(s1, p, End(s1, hi))
    else
      Moved(s, brk, s', brk', p, q, units)
  }

  // The tree search answers the question about the segment list.
  lemma FitInSegments(m: seq<Word>, brk: nat, t: Tree, s: SegMap, units: nat)
    requires State(m, brk, t, s, {}, {})
    ensures match RBTree.Search(t, units) {
      case None => NoneFits(s, units)
      case Some(k) => k.addr != NULL && BestSegment(s, units, k.addr)
    }
  {
    SearchIsBestFit(t, units);
    forall q | q in s && s[q].free
      ensures Key(s[q].size, q) in Keys(t)
    {
    }
    match RBTree.Search(t, units)
    case None =>
    case Some(k) => assert SegAt(s, k.addr, LO, brk - 2);
  }

  lemma LiveAfterReuse(s: SegMap, hi: nat, p: nat, units: nat)
    requires Tiled(s, LO, hi) && p in s && s[p].free && 2 <= units
    ensures LiveOf(Frag(s, p, units)) == LiveOf(s) && p in Frag(s, p, units)
    ensures LiveOf(Retag(Frag(s, p, units), p, false)) == LiveOf(s)[p := 2 * Frag(s, p, units)[p].size]
    ensures p !in LiveOf(s)
  {
    if units + 2 <= s[p].size { SplitTiled(s, p, units, LO, hi); }
  }

  lemma LiveAfterGrown(s: SegMap, p: nat, units: nat)
    requires Tiled(s, LO, p) && 2 <= units
    ensures p !in LiveOf(s) && LiveOf(Grown(s, p, units, MM_UNIT / 8)) == LiveOf(s)[p := 2 * Grown(s, p, units, MM_UNIT / 8)[p].size]
    ensures Grown(s, p, units, MM_UNIT / 8)[p].size >= units
  {
    forall q | q in s ensures q < p { assert SegAt(s, q, LO, p); }
  }

  lemma LiveAfterFree(s: SegMap, lo: nat, hi: nat, p: nat)
    requires Tiled(s, lo, hi) && p in s && !s[p].free
    ensures LiveOf(Coalesced(s, p)) == LiveOf(s) - {p}
  {
    assert SegAt(s, p, lo, hi);
  }

  lemma LiveAfterMerge(s: SegMap, p: nat)
    requires p in s && !s[p].free && End(s, p) in s && s[End(s, p)].free
    ensures Within(LiveOf(s), LiveOf(Merge(s, p)))
  {
  }

  lemma LiveAfterAbsorb(s: SegMap, p: nat, units: nat, hi: nat)
    requires Tiled(s, LO, hi) && p in s && !s[p].free
    ensures var r := Absorbed(s, p, units, LO, hi); p in r && LiveOf(r) == LiveOf(s)[p := 2 * r[p].size]
  {
    AbsorbedKeeps(s, p, units, LO, hi);
  }

  lemma LiveAfterAdded(s: SegMap, hi: nat, missing: nat)
    requires Tiled(s, LO, hi) && 1 <= missing
    ensures var g := Grown(s, hi, missing, MM_UNIT / 8);
      hi in g && !g[hi].free && Within(LiveOf(s), LiveOf(g)) && LiveOf(GrownFree(s, hi, missing)) == LiveOf(s)
  {
    forall q | q in s ensures q < hi { assert SegAt(s, q, LO, hi); }
  }

  // After the heap has grown, everything old is as it was, and what is new at hi is free and long enough.
  lemma GrownParts(s: SegMap, hi: nat, missing: nat)
    requires Tiled(s, LO, hi) && 1 <= missing
    ensures var s1 := GrownFree(s, hi, missing);
      && (forall q :: q in s ==> q in s1 && s1[q] == s[q] && q < hi)
      && (forall q :: q in s1 ==> q in s || s1[q].free)
      && hi in s1 && s1[hi].size >= missing
  {
    forall q | q in s ensures q < hi { assert SegAt(s, q, LO, hi); }
  }

  // The free run behind p then reaches far enough.
  lemma GrownRun(s: SegMap, hi: nat, p: nat, units: nat, sum: nat, hi': nat)
    requires Tiled(s, LO, hi) && p in s && p + 2 * sum == hi && s[p].size <= sum < units && AllFree(s, End(s, p), hi)
    requires Tiled(GrownFree(s, hi, units - sum), LO, hi')
    ensures var s1 := GrownFree(s, hi, units - sum);
      && p in s1 && s1[p] == s[p] && hi in s1
      && LiveOf(s1) == LiveOf(s)
      && AllFree(s1, End(s1, p), End(s1, hi)) && (End(s1, hi) == hi' || End(s1, hi) in s1) && p + 2 * units <= End(s1, hi)
  {
    LiveAfterAdded(s, hi, units - sum);
    GrownParts(s, hi, units - sum);
    assert SegAt(GrownFree(s, hi, units - sum), hi, LO, hi');
  }

  lemma GrowthIsResize(s: SegMap, brk: nat, s1: SegMap, brk': nat, p: nat, units: nat, sum: nat)
    requires 2 <= brk && 2 <= brk' && Tiled(s, LO, brk - 2) && p in s && s[p].size < units && sum < units
    requires p + 2 * sum == brk - 2 == RunFrom(s, p, units, brk - 2)
    requires brk' == brk + Growth(8 * (units - sum)) && s1 == GrownFree(s, brk - 2, units - sum)
    requires p in s1 && s1[p] == s[p] && Tiled(s1, LO, brk' - 2)
    requires brk - 2 in s1 && AllFree(s1, End(s1, p), End(s1, brk - 2)) && p + 2 * units <= End(s1, brk - 2)
    ensures Resized(s, brk, Absorbed(s1, p, units, LO, brk' - 2), brk', p, p, units)
  {
    hide Stretched, Absorbed, RunFrom, AddedAt, Grown;
    assert SegAt(s1, p, LO, brk' - 2);
    GrownIsAdded(s, s1, brk - 2, units - sum, true);
    assert Missing(p, units, brk - 2) == units - sum;
    RunEndBehind(s1, End(s1, p), brk - 2, p + 2 * units, LO, brk' - 2);
    AbsorbedIsStretched(s1, p, units, LO, brk' - 2);
  }

  lemma MoveIsResize(s: SegMap, brk: nat, s': SegMap, brk': nat, p: nat, q: nat, units: nat)
    requires 2 <= brk && 2 <= brk' && Tiled(s, LO, brk - 2) && p in s && s[p].size < units
    requires RunFrom(s, p, units, brk - 2) < p + 2 * units && RunFrom(s, p, units, brk - 2) != brk - 2
    requires Moved(s, brk, s', brk', p, q, units)
    ensures Resized(s, brk, s', brk', p, q, units)
  {
  }

  // Absorbing what is free behind a block, in a list s1 with the same live blocks as s, resizes it in place.
  lemma AbsorbIsRealloc(m: seq<Word>, n: seq<Word>, s: SegMap, s1: SegMap, p: nat, units: nat, size: nat, hi: nat, hi': nat)
    requires Tiled(s, LO, hi) && Tiled(s1, LO, hi') && p in s && p in s1 && !s[p].free && s1[p] == s[p] && LiveOf(s1) == LiveOf(s)
    requires hi <= |m| && Kept(m, n, LiveOf(s)) && units == Units(size) && s[p].size < units && Absorbed(s1, p, units, LO, hi')[p].size >= units
    ensures ReallocSpec(m, LiveOf(s), n, LiveOf(Absorbed(s1, p, units, LO, hi')), p, p, size)
  {
    LiveAfterAbsorb(s1, p, units, hi');
    assert SegAt(s, p, LO, hi);
    KeptBytes(m, n, LiveOf(s), p, Capacity(LiveOf(s), p));
    KeptFewer(m, n, LiveOf(s), LiveOf(s) - {p});
  }

  lemma FinishKeeps(m: seq<Word>, m1: seq<Word>, m2: seq<Word>, m3: seq<Word>, n: seq<Word>,
                                       s: SegMap, s1: SegMap, r: SegMap, now: nat)
    requires now in s && s1 == JoinNext(s, now) && r == Retag(s1, now, true)
    requires Kept(m, m1, LiveOf(s)) && Kept(m1, m2, LiveOf(s1)) && Kept(m2, m3, LiveOf(r)) && Kept(m3, n, LiveOf(r))
    ensures Kept(m, n, LiveOf(r))
  {
    KeptTransitive(m, m1, m2, LiveOf(s), LiveOf(s1), LiveOf(r));
    KeptTransitive(m, m2, m3, LiveOf(r), LiveOf(r), LiveOf(r));
    KeptTransitive(m, m3, n, LiveOf(r), LiveOf(r), LiveOf(r));
  }

  // ----- what mm_check counts and compares -----

  lemma FreeCount(s: SegMap, lo: nat, hi: nat)
    requires Tiled(s, lo, hi)
    ensures FreeBelow(s, lo) == {} && FreeBelow(s, hi) == set p | p in s && s[p].free
    ensures forall p :: p in s ==> lo <= p < hi
  {
    forall p | p in s ensures lo <= p < hi { assert SegAt(s, p, lo, hi); }
  }

  // The back pointers to segments below w agree.
  ghost predicate LinkedBelow(m: seq<Word>, s: SegMap, w: nat) {
    forall p :: p in s && p < w ==> End(s, p) < |m| && m[End(s, p)] == Ptr(p)
  }

  lemma StartWalk(m: seq<Word>, s: SegMap, hi: nat)
    requires Tiled(s, LO, hi) && Headers(m, s, LO, hi, s.Keys)
    ensures |FreeBelow(s, LO)| == 0 && LinkedBelow(m, s, LO) && (LO in s || LO == hi) && hi + 1 < |m| && m[hi + 1] == EPILOGUE
    ensures LO in s ==> Header(m, LO, s[LO]) && 2 <= s[LO].size
    ensures LinkedBelow(m, s, hi) <==> forall p :: p in s ==> End(s, p) < |m| && m[End(s, p)] == Ptr(p)
  {
    FreeCount(s, LO, hi);
    assert LO in s ==> InMem(m, s, LO, s.Keys) && SegAt(s, LO, LO, hi);
  }

  // One step of the walk: the next header is in place, and one more back pointer has been looked at.
  lemma WalkStep(m: seq<Word>, s: SegMap, hi: nat, p: nat)
    requires Tiled(s, LO, hi) && Headers(m, s, LO, hi, s.Keys) && p in s
    ensures Header(m, p, s[p]) && p < End(s, p) <= hi < |m| - 1 && (End(s, p) in s || End(s, p) == hi) && 2 <= s[p].size
    ensures LinkedBelow(m, s, p) && m[End(s, p)] == Ptr(p) ==> LinkedBelow(m, s, End(s, p))
    ensures LinkedBelow(m, s, hi) ==> m[End(s, p)] == Ptr(p)
  {
    assert InMem(m, s, p, s.Keys) && SegAt(s, p, LO, hi);
    forall q | q in s && p < q ensures End(s, p) <= q { assert Apart(s, p, q); }
  }

  lemma BackPointersAgree(m: seq<Word>, brk: nat, t: Tree, s: SegMap)
    requires State(m, brk, t, s, {}, {})
    ensures Tiled(s, LO, brk - 2) && Headers(m, s, LO, brk - 2, s.Keys)
    ensures forall p :: p in s ==> End(s, p) < |m| && m[End(s, p)] == Ptr(p)
  {
    forall p | p in s ensures InMem(m, s, p, s.Keys) && End(s, p) < |m| && m[End(s, p)] == Ptr(p) { assert InMem(m, s, p, {}); }
  }

  class Allocator {
    const heap: Heap
    ghost var tree: Tree
    ghost var segs: SegMap

    constructor (heap: Heap)
      ensures this.heap == heap
    {
      this.heap := heap;
      tree, segs := Nil, map[];
    }

    // Everything fits together, except that the free segments in `pending` are not in the tree
    // and the back pointers to the segments in `loose` are out of date.
    ghost predicate ValidBut(pending: set<nat>, loose: set<nat>)
      reads this, heap, heap.mem
    {
      heap.Valid() && State(heap.mem[..], heap.brk, tree, segs, pending, loose)
    }

    ghost predicate Valid()
      reads this, heap, heap.mem
    {
      ValidBut({}, {})
    }

    // mm_clear_header: an all-zero header reads as a NULL back pointer and cleared flags.
    method ClearHeader(p: nat)
      requires p + 1 < heap.mem.Length
      modifies heap.mem
      ensures heap.mem[..] == old(heap.mem[..])[p := Ptr(NULL)][p + 1 := EPILOGUE]
    {
      heap.mem[p] := Ptr(NULL);
      heap.mem[p + 1] := Bits(0, false, Black, false);
    }

    // mm_init, on a heap whose break is at its start
    method Init() returns (r: int)
      requires heap.Valid() && heap.brk == 0
      modifies this, heap, heap.mem
      ensures Valid() && segs == map[] && tree == Nil && heap.brk == 8 && r == 0
    {
      var mem := heap.mem;
      var ok, data := heap.Sbrk(24 / 4);
      mem[data] := Ptr(NULL);
      mem[data + 1], mem[data + 2], mem[data + 3], mem[data + 4] := Ptr(NULL), Bits(0, false, Black, false), Ptr(NULL), Ptr(NULL);
      mem[data + 5] := Num(0);
      mem[data] := Ptr(SENTINEL);
      mem[data + 2] := mem[data + 2].(color := Black);
      mem[data + 2] := mem[data + 2].(nul := true);
      var header;
      ok, header := heap.Sbrk(8 / 4);
      ClearHeader(header);
      tree, segs := Nil, map[];
      assert Rep(mem[..], SENTINEL, Nil);
      return 0;
    }

    // mm_search
    method Search(size: nat) returns (r: nat)
      requires Valid()
      ensures r == match RBTree.Search(tree, size) { case None => NULL case Some(k) => k.addr }
      ensures heap.mem[..] == old(heap.mem[..])
    {
      TreeOnSegments(tree, segs, LO, heap.brk - 2, {});
      r := MmTree.SearchNode(heap.mem, heap.mem[0].addr, size, tree);
    }

    // mm_insert
    method Insert(nw: nat, ghost pending: set<nat>, ghost loose: set<nat>)
      requires ValidBut(pending, loose) && nw in segs && segs[nw].free && nw in pending
      modifies this`tree, heap.mem
      ensures ValidBut(pending - {nw}, loose)
      ensures tree == RBTree.Insert(old(tree), Key(segs[nw].size, nw))
      ensures Kept(old(heap.mem[..]), heap.mem[..], LiveOf(segs))
    {
      ghost var m, t, k := heap.mem[..], tree, Key(segs[nw].size, nw);
      StateRoot(m, heap.brk, t, segs, pending, loose);
      PendingNode(m, heap.brk, t, segs, pending, loose, nw);
      var r := MmTree.InsertNode(heap.mem, heap.mem[0].addr, nw, t, k);
      StoreRoot(heap.mem, r, m, InsertNode(t, k), Addrs(t) + {nw});
      InsertIsRedBlack(t, k);
      tree := RBTree.Insert(t, k);
      StateAfterTreeChange(m, heap.mem[..], heap.brk, t, tree, segs, pending, pending - {nw}, loose, Addrs(t) + {nw});
    }

    // mm_delete
    method Delete(del: nat, ghost pending: set<nat>, ghost loose: set<nat>)
      requires ValidBut(pending, loose) && del in segs && segs[del].free && del !in pending
      modifies this`tree, heap.mem
      ensures ValidBut(pending + {del}, loose)
      ensures OnPath(old(tree), Key(segs[del].size, del)) && tree == RBTree.Delete(old(tree), Key(segs[del].size, del))
      ensures Kept(old(heap.mem[..]), heap.mem[..], LiveOf(segs))
    {
      ghost var m, t, k := heap.mem[..], tree, Key(segs[del].size, del);
      StateRoot(m, heap.brk, t, segs, pending, loose);
      TreeNode(m, heap.brk, t, segs, pending, loose, del);
      var r, balance := MmTree.DeleteNode(heap.mem, heap.mem[0].addr, del, t, k);
      StoreRoot(heap.mem, r, m, DeleteNode(t, k).tree, Addrs(t));
      DeleteIsRedBlack(t, k);
      tree := RBTree.Delete(t, k);
      StateAfterTreeChange(m, heap.mem[..], heap.brk, t, tree, segs, pending, pending + {del}, loose, Addrs(t));
    }

    // mm_get_next(now)->prev = now
    method Link(now: nat, ghost pending: set<nat>, ghost loose: set<nat>)
      requires ValidBut(pending, loose) && now in segs && loose <= {now}
      modifies heap.mem
      ensures ValidBut(pending, {})
      ensures Kept(old(heap.mem[..]), heap.mem[..], LiveOf(segs))
    {
      var mem := heap.mem;
      ghost var m := mem[..];
      assert SegAt(segs, now, LO, heap.brk - 2) && InMem(m, segs, now, loose);
      mem[now + 2 * mem[now + 1].size] := Ptr(now);
      StateAfterLink(m, mem[..], heap.brk, tree, segs, pending, loose, now);
      assert loose - {now} == {};
    }

    // now->alloc = ...; a segment marked free is not in the tree yet.
    method SetFree(now: nat, free: bool, ghost pending: set<nat>, ghost loose: set<nat>)
      requires ValidBut(pending, loose) && now in segs && (segs[now].free ==> now in pending)
      modifies this`segs, heap.mem
      ensures ValidBut(if free then pending + {now} else pending - {now}, loose)
      ensures segs == Retag(old(segs), now, free)
      ensures Kept(old(heap.mem[..]), heap.mem[..], LiveOf(old(segs)))
    {
      var mem := heap.mem;
      ghost var m, s := mem[..], segs;
      assert SegAt(segs, now, LO, heap.brk - 2) && InMem(m, segs, now, loose);
      mem[now + 1] := mem[now + 1].(alloc := !free);
      StateAfterRetag(m, mem[..], heap.brk, tree, s, pending, loose, now, free);
      segs := Retag(s, now, free);
    }

    // mm_delete(next); now->size += next->size
    method TakeNext(now: nat, next: nat, ghost pending: set<nat>, ghost loose: set<nat>)
      requires ValidBut(pending, loose) && now in segs && next == End(segs, now) && next in segs
      requires (segs[now].free ==> now in pending) && segs[next].free && next !in pending && pending <= {now} && loose <= {now}
      modifies this`tree, this`segs, heap.mem
      ensures ValidBut(pending, {now}) && segs == Merge(old(segs), now)
      ensures Kept(old(heap.mem[..]), heap.mem[..], LiveOf(old(segs)))
      ensures next + 1 < heap.mem.Length && heap.mem[next + 1].Bits? && heap.mem[next + 1].size == old(segs[next].size)
    {
      var mem := heap.mem;
      ghost var m, s := mem[..], segs;
      Delete(next, pending, loose);
      ghost var m1 := mem[..];
      AddSize(now, next, pending + {next}, loose);
      assert pending + {next} - {next} == pending && loose + {now} == {now};
      KeptTransitive(m, m1, mem[..], LiveOf(s), LiveOf(s), LiveOf(s));
    }

    // now->size += next->size
    method AddSize(now: nat, next: nat, ghost pending: set<nat>, ghost loose: set<nat>)
      requires ValidBut(pending, loose) && now in segs && next == End(segs, now) && next in segs
      requires (segs[now].free ==> now in pending) && (segs[next].free ==> next in pending)
      modifies this`segs, heap.mem
      ensures ValidBut(pending - {next}, loose + {now}) && segs == Merge(old(segs), now)
      ensures Kept(old(heap.mem[..]), heap.mem[..], LiveOf(old(segs)))
      ensures next + 1 < heap.mem.Length && heap.mem[next + 1].Bits? && heap.mem[next + 1].size == old(segs[next].size)
    {
      var mem := heap.mem;
      ghost var m, s := mem[..], segs;
      assert SegAt(s, now, LO, heap.brk - 2) && InMem(m, s, now, loose) && InMem(m, s, next, loose);
      mem[now + 1] := mem[now + 1].(size := mem[now + 1].size + mem[next + 1].size);
      StateAfterMerge(m, mem[..], heap.brk, tree, s, pending, loose, now);
      segs := Merge(s, now);
    }

    // mm_frag_node: keep `size` units of segment now, if what is left over can be a segment of its own.
    method FragNode(now: nat, size: nat, ghost pending: set<nat>, ghost loose: set<nat>) returns (r: nat)
      requires ValidBut(pending, loose) && now in segs && 2 <= size
      requires pending <= {now} && loose <= {now} && (segs[now].free ==> now in pending)
      modifies this`tree, this`segs, heap.mem
      ensures ValidBut(pending, {}) && segs == Frag(old(segs), now, size) && r == now
      ensures CutTo(old(segs), segs, now, size, old(segs[now].free))
      ensures Kept(old(heap.mem[..]), heap.mem[..], LiveOf(segs))
    {
      ghost var s := segs;
      FragIsCut(s, Frag(s, now, size), now, size, s[now].free, LO, heap.brk - 2);
      assert SegAt(s, now, LO, heap.brk - 2) && InMem(heap.mem[..], s, now, loose);
      if heap.mem[now + 1].size < size + 2 {
        Link(now, pending, loose);
        return now;
      }
      var next := CutNode(now, size, pending, loose);
      ghost var m1 := heap.mem[..];
      Insert(next, pending + {next}, {});
      assert pending + {next} - {next} == pending;
      KeptTransitive(old(heap.mem[..]), m1, heap.mem[..], LiveOf(segs), LiveOf(segs), LiveOf(segs));
      return now;
    }

    // The second piece is a free segment that is not in the tree yet.
    method CutNode(now: nat, size: nat, ghost pending: set<nat>, ghost loose: set<nat>) returns (next: nat)
      requires ValidBut(pending, loose) && now in segs && 2 <= size && size + 2 <= segs[now].size
      requires loose <= {now} && (segs[now].free ==> now in pending)
      modifies this`segs, heap.mem
      ensures next == now + 2 * size && next !in old(segs) && segs == Split(old(segs), now, size)
      ensures ValidBut(pending + {next}, {})
      ensures Kept(old(heap.mem[..]), heap.mem[..], LiveOf(segs))
    {
      hide State, SplitStores, IsSplit, Kept, LiveOf;
      ghost var m, s := heap.mem[..], segs;
      SegmentHere(m, heap.brk, tree, s, pending, loose, now);
      next := Cut(now, size);
      SplitWords(m, now, size, s[now].size - size);
      StateAfterSplit(m, heap.mem[..], heap.brk, tree, s, pending, loose, now, size);
      segs := Split(s, now, size);
      assert loose - {now} == {};
    }

    // The stores of mm_frag_node: the shortened header, the header of the rest, and the two back pointers.
    method Cut(now: nat, size: nat) returns (next: nat)
      requires 2 <= size && now + 1 < heap.mem.Length && heap.mem[now + 1].Bits? && size + 2 <= heap.mem[now + 1].size
      requires now + 2 * heap.mem[now + 1].size < heap.mem.Length
      modifies heap.mem
      ensures next == now + 2 * size
      ensures heap.mem[..] == SplitStores(old(heap.mem[..]), now, size, old(heap.mem[now + 1].size) - size)
    {
      var mem := heap.mem;
      var tsize := mem[now + 1].size - size;
      mem[now + 1] := mem[now + 1].(size := size);
      next := now + 2 * mem[now + 1].size;
      ClearHeader(next);
      mem[next + 1] := mem[next + 1].(size := tsize);
      mem[next] := Ptr(now);
      mem[next + 2 * mem[next + 1].size] := Ptr(next);
      mem[next + 1] := mem[next + 1].(alloc := false);
    }

    // mm_sbrk: ok is false when mem_sbrk reports that the heap cannot grow, which mm.c does not look at.
    method Sbrk(size: nat) returns (ok: bool, ptr: nat)
      requires Valid() && size % 8 == 0 && 8 <= size
      modifies this`tree, this`segs, heap, heap.mem
      ensures ok == (old(heap.brk) + Growth(size) <= MAX_WORDS)
      ensures !ok ==> unchanged(this, heap, heap.mem)
      ensures ok ==>
        && Valid() && heap.brk == old(heap.brk) + Growth(size) && ptr == old(heap.brk) - 2
        && ptr !in old(segs) && segs == Grown(old(segs), ptr, size / 8, MM_UNIT / 8)
        && AddedAt(old(segs), segs, ptr, size / 8, false) && heap.brk - old(heap.brk) == (if size < 144 then 36 else size / 4)
        && Kept(old(heap.mem[..]), heap.mem[..], LiveOf(old(segs)))
    {
      hide TreeIn, Headers, Match, AddedAt, CutTo;
      ghost var m, s := heap.mem[..], segs;
      if size < MM_UNIT {
        ok, ptr := NewSegment(MM_UNIT / 8);
        if !ok { return; }
        ghost var m1 := heap.mem[..];
        ptr := FragNode(ptr, (size + 8) / 8, {}, {ptr});
        GrownKeeps(s, ptr, size / 8);
        GrownIsAdded(s, segs, ptr, size / 8, false);
        KeptTransitive(m, m1, heap.mem[..], LiveOf(s), LiveOf(segs), LiveOf(s));
      } else {
        ok, ptr := NewSegment(size / 8);
        if !ok { return; }
        ghost var m1 := heap.mem[..];
        Link(ptr, {}, {ptr});
        GrownKeeps(s, ptr, size / 8);
        GrownIsAdded(s, segs, ptr, size / 8, false);
        KeptTransitive(m, m1, heap.mem[..], LiveOf(s), LiveOf(segs), LiveOf(s));
      }
    }

    // The part of mm_sbrk before the split: the old epilogue becomes the header of a live segment, with a new epilogue behind it.
    method NewSegment(units: nat) returns (ok: bool, ptr: nat)
      requires Valid() && 2 <= units
      modifies this`segs, heap, heap.mem
      ensures ok == (old(heap.brk) + 2 * units <= MAX_WORDS)
      ensures !ok ==> unchanged(this, heap, heap.mem)
      ensures ok ==>
        && ptr == old(heap.brk) - 2 && ptr !in old(segs) && segs == Extend(old(segs), ptr, units)
        && ValidBut({}, {ptr}) && heap.brk == old(heap.brk) + 2 * units
        && Kept(old(heap.mem[..]), heap.mem[..], LiveOf(old(segs)))
    {
      var mem := heap.mem;
      ghost var m, s, brk := mem[..], segs, heap.brk;
      ok, ptr := heap.Sbrk(2 * units);
      if !ok { return; }
      ptr := ptr - 8 / 4;
      mem[ptr + 1] := mem[ptr + 1].(size := units);
      ClearHeader(ptr + 2 * units);
      mem[ptr + 1] := mem[ptr + 1].(alloc := true);
      StateAfterExtend(m, mem[..], brk, tree, s, {}, {}, units);
      segs := Extend(s, ptr, units);
      assert {} + {ptr} == {ptr};
    }

    // mm_malloc: the best fitting free segment, cut to size, or else a new segment at the end of the heap.
    method Malloc(size: nat) returns (ok: bool, ptr: nat)
      requires Valid() && 1 <= size <= MAX_REQUEST
      modifies this`tree, this`segs, heap, heap.mem
      ensures ok <==> !NoRoom(old(segs), old(heap.brk), Units(size))
      ensures !ok ==> unchanged(this, heap, heap.mem)
      ensures ok ==>
        && Valid() && 2 <= ptr && Placed(old(segs), old(heap.brk), segs, heap.brk, ptr - 2, Units(size))
        && MallocSpec(old(heap.mem[..]), LiveOf(old(segs)), heap.mem[..], LiveOf(segs), ptr - 2, size)
    {
      hide State, Kept;
      var units := (Align(size) + 8) / 8;
      FitInSegments(heap.mem[..], heap.brk, tree, segs, units);
      var p := Search(units);
      if p == NULL {
        ok, p := GrowFor(units);
      } else {
        ok := true;
        Reuse(p, units);
      }
      ptr := p + 2;
    }

    // The branch of mm_malloc that takes a free segment.
    method Reuse(p: nat, units: nat)
      requires Valid() && p in segs && segs[p].free && 2 <= units <= segs[p].size
      modifies this`tree, this`segs, heap.mem
      ensures Valid() && CutTo(old(segs), segs, p, units, false)
      ensures MallocSpec(old(heap.mem[..]), LiveOf(old(segs)), heap.mem[..], LiveOf(segs), p, 8 * units - 8)
    {
      hide TreeIn, Headers, Match;
      ghost var m, s := heap.mem[..], segs;
      Delete(p, {}, {});
      ghost var m1 := heap.mem[..];
      assert {} + {p} == {p};
      var q := FragNode(p, units, {p}, {});
      ghost var m2, s2 := heap.mem[..], segs;
      SetFree(p, false, {p}, {});
      assert {p} - {p} == {};
      FragIsCut(s, segs, p, units, false, LO, heap.brk - 2);
      LiveAfterReuse(s, heap.brk - 2, p, units);
      KeptTransitive(m, m1, m2, LiveOf(s), LiveOf(s2), LiveOf(s));
      KeptTransitive(m, m2, heap.mem[..], LiveOf(s), LiveOf(s2), LiveOf(s));
    }

    // The branch of mm_malloc that extends the heap.
    method GrowFor(units: nat) returns (ok: bool, p: nat)
      requires Valid() && 2 <= units
      modifies this`tree, this`segs, heap, heap.mem
      ensures ok == (old(heap.brk) + Growth(8 * units) <= MAX_WORDS)
      ensures !ok ==> unchanged(this, heap, heap.mem)
      ensures ok ==>
        && Valid() && heap.brk == old(heap.brk) + Growth(8 * units) && p + 2 == old(heap.brk)
        && AddedAt(old(segs), segs, p, units, false)
        && MallocSpec(old(heap.mem[..]), LiveOf(old(segs)), heap.mem[..], LiveOf(segs), p, 8 * units - 8)
    {
      hide TreeIn, Headers, Match;
      ghost var s, hi := segs, heap.brk - 2;
      ok, p := Sbrk(units * 8);
      LiveAfterGrown(s, hi, units);
    }

    // mm_free
    method Free(ptr: nat)
      requires Valid() && 2 <= ptr && ptr - 2 in segs && !segs[ptr - 2].free
      modifies this`tree, this`segs, heap.mem
      ensures Valid() && segs == Coalesced(old(segs), ptr - 2) && FreedTo(old(segs), segs, ptr - 2)
      ensures FreeSpec(old(heap.mem[..]), LiveOf(old(segs)), heap.mem[..], LiveOf(segs), ptr - 2)
    {
      ghost var m, s := heap.mem[..], segs;
      var now, next := JoinFreePrev(ptr - 2);
      ghost var joined: set<nat> := if PrevFree(s, ptr - 2) then {now} else {};
      ghost var m1, s1 := heap.mem[..], segs;
      FinishFree(now, next, joined, joined);
      LiveAfterFree(s, LO, heap.brk - 2, ptr - 2);
      CoalescedIsFreed(s, segs, ptr - 2, LO, heap.brk - 2);
      KeptTransitive(m, m1, heap.mem[..], LiveOf(s), LiveOf(segs), LiveOf(segs));
    }

    // The first half of mm_free: the segment to go on with, and the address behind the freed one.
    method JoinFreePrev(now: nat) returns (head: nat, next: nat)
      requires Valid() && now in segs && !segs[now].free
      modifies this`tree, this`segs, heap.mem
      ensures var s := old(segs);
        if PrevFree(s, now) then head == PrevOf(s, now) && segs == Merge(s, head) && ValidBut({head}, {head}) && segs[head].free
        else head == now && segs == s && Valid()
      ensures head in segs && next == End(segs, head)
      ensures Kept(old(heap.mem[..]), heap.mem[..], LiveOf(old(segs)))
    {
      ghost var m := heap.mem[..];
      BackPointer(m, segs, LO, heap.brk - 2, now);
      assert SegAt(segs, now, LO, heap.brk - 2) && InMem(m, segs, now, {});
      var prev := heap.mem[now].addr;
      next := now + 2 * heap.mem[now + 1].size;
      head := now;
      assert prev != NULL ==> InMem(m, segs, prev, {});
      assert 0 in segs ==> SegAt(segs, 0, LO, heap.brk - 2);
      if prev != NULL && !heap.mem[prev + 1].alloc {
        JoinPrev(prev, now);
        head := prev;
      }
    }

    // mm_delete(prev); prev->size += now->size
    method JoinPrev(prev: nat, now: nat)
      requires Valid() && prev in segs && segs[prev].free && now == End(segs, prev) && now in segs && !segs[now].free
      modifies this`tree, this`segs, heap.mem
      ensures ValidBut({prev}, {prev}) && segs == Merge(old(segs), prev)
      ensures Kept(old(heap.mem[..]), heap.mem[..], LiveOf(old(segs)))
    {
      ghost var m, s := heap.mem[..], segs;
      Delete(prev, {}, {});
      ghost var m1 := heap.mem[..];
      assert {} + {prev} == {prev} && {prev} - {now} == {prev};
      AddSize(prev, now, {prev}, {});
      KeptTransitive(m, m1, heap.mem[..], LiveOf(s), LiveOf(s), LiveOf(s));
    }

    // The rest of mm_free: join a free successor, set the flag and the back pointer, and enter the tree.
    method FinishFree(now: nat, next: nat, ghost pending: set<nat>, ghost loose: set<nat>)
      requires ValidBut(pending, loose) && now in segs && next == End(segs, now)
      requires pending <= {now} && loose <= {now} && (segs[now].free ==> now in pending)
      modifies this`tree, this`segs, heap.mem
      ensures Valid() && segs == Retag(JoinNext(old(segs), now), now, true)
      ensures Kept(old(heap.mem[..]), heap.mem[..], LiveOf(segs))
    {
      ghost var m, s, hi := heap.mem[..], segs, heap.brk - 2;
      assert SegAt(s, now, LO, hi);
      assert next in s ==> InMem(m, s, next, loose) && SegAt(s, next, LO, hi);
      ghost var loose' := loose;
      if heap.mem[next + 1].size != 0 && !heap.mem[next + 1].alloc {
        TakeNext(now, next, pending, loose);
        loose' := {now};
      }
      ghost var m1, s1 := heap.mem[..], segs;
      SetFree(now, true, pending, loose');
      ghost var m2 := heap.mem[..];
      assert pending + {now} == {now};
      Link(now, {now}, loose');
      ghost var m3 := heap.mem[..];
      Insert(now, {now}, {});
      assert {now} - {now} == {};
      FinishKeeps(m, m1, m2, m3, heap.mem[..], s, s1, segs, now);
    }

    // next->size != 0 && next->alloc == MM_ALLOC_FREE
    function IsFree(next: nat, ghost pending: set<nat>, ghost loose: set<nat>): (free: bool)
      requires ValidBut(pending, loose) && (next in segs || next == heap.brk - 2)
      reads this, heap, heap.mem
      ensures free <==> next in segs && segs[next].free
    {
      assert next in segs ==> SegAt(segs, next, LO, heap.brk - 2) && InMem(heap.mem[..], segs, next, loose);
      assert heap.brk - 2 in segs ==> SegAt(segs, heap.brk - 2, LO, heap.brk - 2);
      heap.mem[next + 1].size != 0 && !heap.mem[next + 1].alloc
    }

    // next->size == 0
    function IsEpilogue(next: nat): (end: bool)
      requires Valid() && (next in segs || next == heap.brk - 2)
      reads this, heap, heap.mem
      ensures end <==> next == heap.brk - 2
    {
      assert next in segs ==> SegAt(segs, next, LO, heap.brk - 2) && InMem(heap.mem[..], segs, next, {});
      heap.mem[next + 1].size == 0
    }

    // now->size
    function SizeOf(now: nat, ghost pending: set<nat>, ghost loose: set<nat>): (size: nat)
      requires ValidBut(pending, loose) && now in segs
      reads this, heap, heap.mem
      ensures size == segs[now].size && 2 <= size && (End(segs, now) in segs || End(segs, now) == heap.brk - 2)
      ensures now + 2 * size <= heap.brk - 2
    {
      assert SegAt(segs, now, LO, heap.brk - 2) && InMem(heap.mem[..], segs, now, loose);
      heap.mem[now + 1].size
    }

    // mm_realloc. Growing, it takes in the free segments behind the block, extends the heap if they reach its end,
    // and moves the block only if they are too few and stopped by a live segment.
    method Realloc(ptr: nat, size: nat) returns (ok: bool, r: nat)
      requires Valid() && size <= MAX_REQUEST
      requires if ptr == NULL then 1 <= size else 2 <= ptr && ptr - 2 in segs && !segs[ptr - 2].free
      modifies this`tree, this`segs, heap, heap.mem
      ensures ptr == NULL ==> (ok <==> !NoRoom(old(segs), old(heap.brk), Units(size)))
      ensures ptr != NULL && size != 0 ==> (ok <==> !NoRoomToResize(old(segs), old(heap.brk), ptr - 2, Units(size)))
      ensures ptr == NULL && ok ==>
        && Valid() && 2 <= r && Placed(old(segs), old(heap.brk), segs, heap.brk, r - 2, Units(size))
        && MallocSpec(old(heap.mem[..]), LiveOf(old(segs)), heap.mem[..], LiveOf(segs), r - 2, size)
      ensures ptr != NULL && size == 0 ==>
        && ok && r == ptr && Valid() && FreedTo(old(segs), segs, ptr - 2)
        && FreeSpec(old(heap.mem[..]), LiveOf(old(segs)), heap.mem[..], LiveOf(segs), ptr - 2)
      ensures ptr != NULL && size != 0 && ok ==>
        && Valid() && 2 <= r && Resized(old(segs), old(heap.brk), segs, heap.brk, ptr - 2, r - 2, Units(size))
        && ReallocSpec(old(heap.mem[..]), LiveOf(old(segs)), heap.mem[..], LiveOf(segs), ptr - 2, r - 2, size)
      ensures !ok ==> unchanged(this, heap, heap.mem)
    {
      hide TreeIn, Tiled, Headers, Match, ReallocSpec, Resized, MallocSpec, Placed, FreeSpec, FreedTo, NoRoom, NoRoomToResize;
      if ptr == NULL {
        ok, r := Malloc(size);
      } else if size == 0 {
        Free(ptr);
        ok, r := true, ptr;
      } else {
        ok, r := Resize(ptr, size);
      }
    }

    // mm_realloc of a block to a size that is not 0
    method Resize(ptr: nat, size: nat) returns (ok: bool, r: nat)
      requires Valid() && 1 <= size <= MAX_REQUEST && 2 <= ptr && ptr - 2 in segs && !segs[ptr - 2].free
      modifies this`tree, this`segs, heap, heap.mem
      ensures ok <==> !NoRoomToResize(old(segs), old(heap.brk), ptr - 2, Units(size))
      ensures ok ==>
        && Valid() && 2 <= r && Resized(old(segs), old(heap.brk), segs, heap.brk, ptr - 2, r - 2, Units(size))
        && ReallocSpec(old(heap.mem[..]), LiveOf(old(segs)), heap.mem[..], LiveOf(segs), ptr - 2, r - 2, size)
      ensures !ok ==> unchanged(this, heap, heap.mem)
    {
      hide TreeIn, Tiled, Headers, Match, ReallocSpec, Resized;
      var units := (Align(size) + 8) / 8;
      var now := ptr - 2;
      ok, r := true, ptr;
      var have := SizeOf(now, {}, {});
      if units <= have {
        Shrink(now, units, size);
        return;
      }
      ok, r := Expand(now, units, size);
    }

    // The cases of mm_realloc in which the block has to grow.
    method Expand(now: nat, units: nat, size: nat) returns (ok: bool, r: nat)
      requires Valid() && 1 <= size <= MAX_REQUEST && now in segs && !segs[now].free && units == Units(size) && segs[now].size < units
      modifies this`tree, this`segs, heap, heap.mem
      ensures ok <==> !NoRoomToResize(old(segs), old(heap.brk), now, units)
      ensures ok ==>
        && Valid() && 2 <= r && Resized(old(segs), old(heap.brk), segs, heap.brk, now, r - 2, units)
        && ReallocSpec(old(heap.mem[..]), LiveOf(old(segs)), heap.mem[..], LiveOf(segs), now, r - 2, size)
      ensures !ok ==> unchanged(this, heap, heap.mem)
    {
      hide TreeIn, Headers, Match, ReallocSpec, Resized, State, Tiled, LiveOf, RunFrom;
      StateTiled(heap.mem[..], heap.brk, tree, segs, {}, {});
      var sum, atEnd := CountRun(now, units);
      if sum < units && atEnd {
        ok := GrowInPlace(now, units, sum, size);
        return ok, now + 2;
      }
      if sum < units {
        ok, r := MoveBehindLive(now, units, size);
        return;
      }
      AbsorbInPlace(now, units, size);
      return true, now + 2;
    }

    // The shrink case.
    method Shrink(now: nat, units: nat, ghost size: nat)
      requires Valid() && now in segs && !segs[now].free && units == Units(size) && 1 <= size && units <= segs[now].size
      modifies this`tree, this`segs, heap.mem
      ensures Valid() && Resized(old(segs), heap.brk, segs, heap.brk, now, now, units)
      ensures ReallocSpec(old(heap.mem[..]), LiveOf(old(segs)), heap.mem[..], LiveOf(segs), now, now, size)
    {
      ghost var m, s, hi := heap.mem[..], segs, heap.brk - 2;
      var r := FragNode(now, units, {}, {});
      if units + 2 <= s[now].size { SplitTiled(s, now, units, LO, hi); }
      assert SegAt(segs, now, LO, hi);
      KeptBytes(m, heap.mem[..], LiveOf(segs), now, size);
      KeptFewer(m, heap.mem[..], LiveOf(segs), LiveOf(s) - {now});
    }

    // The first loop of mm_realloc.
    method CountRun(now: nat, units: nat) returns (sum: nat, atEnd: bool)
      requires Valid() && now in segs
      ensures now + 2 * sum == RunFrom(segs, now, units, heap.brk - 2)
      ensures atEnd <==> now + 2 * sum == heap.brk - 2
      ensures heap.mem[..] == old(heap.mem[..])
    {
      ghost var hi := heap.brk - 2;
      sum := SizeOf(now, {}, {});
      var next := now + 2 * sum;
      var free := IsFree(next, {}, {});
      while free && sum < units
        invariant next == now + 2 * sum && (next in segs || next == hi)
        invariant free <==> next in segs && segs[next].free
        invariant RunEnd(segs, next, now + 2 * units, LO, hi) == RunFrom(segs, now, units, hi)
        decreases hi - next
      {
        var size := SizeOf(next, {}, {});
        sum := sum + size;
        next := next + 2 * size;
        free := IsFree(next, {}, {});
      }
      atEnd := IsEpilogue(next);
    }

    // The second loop of mm_realloc, and the back pointer.
    method Absorb(now: nat, units: nat)
      requires Valid() && now in segs && !segs[now].free
      modifies this`tree, this`segs, heap.mem
      ensures Valid() && segs == Absorbed(old(segs), now, units, LO, heap.brk - 2)
      ensures segs == Stretched(old(segs), now, RunFrom(old(segs), now, units, heap.brk - 2))
      ensures Kept(old(heap.mem[..]), heap.mem[..], LiveOf(old(segs)))
    {
      hide State, Stretched, RunFrom, LiveOf;
      StateTiled(heap.mem[..], heap.brk, tree, segs, {}, {});
      ghost var m, s, hi := heap.mem[..], segs, heap.brk - 2;
      ghost var loose: set<nat> := {};
      var size := SizeOf(now, {}, loose);
      var next := now + 2 * size;
      var free := IsFree(next, {}, loose);
      while free && size < units
        invariant ValidBut({}, loose) && loose <= {now} && now in segs && !segs[now].free && size == segs[now].size
        invariant next == End(segs, now) && (next in segs || next == hi)
        invariant free <==> next in segs && segs[next].free
        invariant Tiled(segs, LO, hi) && Absorbed(segs, now, units, LO, hi) == Absorbed(s, now, units, LO, hi)
        invariant Kept(m, heap.mem[..], LiveOf(s)) && Within(LiveOf(s), LiveOf(segs))
        decreases hi - next
      {
        ghost var m1, s1 := heap.mem[..], segs;
        next := AbsorbNext(now, next, loose);
        loose := {now};
        StateTiled(heap.mem[..], heap.brk, tree, segs, {}, loose);
        LiveAfterMerge(s1, now);
        KeptTransitive(m, m1, heap.mem[..], LiveOf(s), LiveOf(s1), LiveOf(s));
        size := SizeOf(now, {}, loose);
        free := IsFree(next, {}, loose);
      }
      ghost var m1 := heap.mem[..];
      Link(now, {}, loose);
      KeptTransitive(m, m1, heap.mem[..], LiveOf(s), LiveOf(segs), LiveOf(s));
      AbsorbedIsRun(s, now, units, hi);
    }

    // mm_delete(next); now->size += next->size; next = mm_get_next(next)
    method AbsorbNext(now: nat, next: nat, ghost loose: set<nat>) returns (next': nat)
      requires ValidBut({}, loose) && loose <= {now} && now in segs && !segs[now].free
      requires next == End(segs, now) && next in segs && segs[next].free
      modifies this`tree, this`segs, heap.mem
      ensures ValidBut({}, {now}) && segs == Merge(old(segs), now)
      ensures next < next' <= heap.brk - 2 && next' == End(segs, now)
      ensures Kept(old(heap.mem[..]), heap.mem[..], LiveOf(old(segs)))
    {
      assert SegAt(segs, next, LO, heap.brk - 2);
      TakeNext(now, next, {}, loose);
      next' := next + 2 * heap.mem[next + 1].size;
    }

    // The expand case without growing the heap.
    method AbsorbInPlace(now: nat, units: nat, ghost size: nat)
      requires Valid() && now in segs && !segs[now].free && units == Units(size) && segs[now].size < units
      requires now + 2 * units <= RunFrom(segs, now, units, heap.brk - 2)
      modifies this`tree, this`segs, heap.mem
      ensures Valid() && Resized(old(segs), heap.brk, segs, heap.brk, now, now, units)
      ensures ReallocSpec(old(heap.mem[..]), LiveOf(old(segs)), heap.mem[..], LiveOf(segs), now, now, size)
    {
      hide TreeIn, Headers, Match, ReallocSpec;
      ghost var m, s, hi := heap.mem[..], segs, heap.brk - 2;
      ghost var end := RunFrom(s, now, units, hi);
      Absorb(now, units);
      AbsorbedEnough(s, now, units, LO, hi, end);
      AbsorbIsRealloc(m, heap.mem[..], s, s, now, units, size, hi, hi);
    }

    // The expand case at the end of the heap.
    method GrowInPlace(now: nat, units: nat, sum: nat, ghost size: nat) returns (ok: bool)
      requires Valid() && now in segs && !segs[now].free && units == Units(size) && segs[now].size < units && sum < units
      requires now + 2 * sum == heap.brk - 2 == RunFrom(segs, now, units, heap.brk - 2)
      modifies this`tree, this`segs, heap, heap.mem
      ensures ok == (old(heap.brk) + Growth(8 * (units - sum)) <= MAX_WORDS)
      ensures !ok ==> unchanged(this, heap, heap.mem)
      ensures ok ==>
        && Valid() && Resized(old(segs), old(heap.brk), segs, heap.brk, now, now, units)
        && ReallocSpec(old(heap.mem[..]), LiveOf(old(segs)), heap.mem[..], LiveOf(segs), now, now, size)
    {
      ghost var m, s, brk := heap.mem[..], segs, heap.brk;
      ok := AddFreeSegment(units - sum);
      if !ok { return; }
      GrownRun(s, brk - 2, now, units, sum, heap.brk - 2);
      AbsorbGrown(now, units, sum, size, s, brk, m);
    }

    // The second loop of mm_realloc, when the free segment at the end has just been added.
    method AbsorbGrown(now: nat, units: nat, ghost sum: nat, ghost size: nat, ghost s: SegMap, ghost brk: nat, ghost m: seq<Word>)
      requires Valid() && 8 <= brk && Tiled(s, LO, brk - 2) && now in s && !s[now].free && s[now].size < units && sum < units
      requires now + 2 * sum == brk - 2 == RunFrom(s, now, units, brk - 2) && units == Units(size)
      requires heap.brk == brk + Growth(8 * (units - sum)) && segs == GrownFree(s, brk - 2, units - sum)
      requires now in segs && segs[now] == s[now] && brk - 2 in segs && LiveOf(segs) == LiveOf(s)
      requires AllFree(segs, End(segs, now), End(segs, brk - 2)) && now + 2 * units <= End(segs, brk - 2)
      requires End(segs, brk - 2) == heap.brk - 2 || End(segs, brk - 2) in segs
      requires Kept(m, heap.mem[..], LiveOf(s)) && |m| == heap.mem.Length
      modifies this`tree, this`segs, heap.mem
      ensures Valid() && Resized(s, brk, segs, heap.brk, now, now, units)
      ensures ReallocSpec(m, LiveOf(s), heap.mem[..], LiveOf(segs), now, now, size)
    {
      hide State, Resized, ReallocSpec, Kept, Stretched, Absorbed;
      StateTiled(heap.mem[..], heap.brk, tree, segs, {}, {});
      ghost var m1, s1, hi' := heap.mem[..], segs, heap.brk - 2;
      assert SegAt(s, now, LO, brk - 2);
      Absorb(now, units);
      AbsorbedEnough(s1, now, units, LO, hi', End(s1, brk - 2));
      GrowthIsResize(s, brk, s1, heap.brk, now, units, sum);
      KeptTransitive(m, m1, heap.mem[..], LiveOf(s), LiveOf(s1), LiveOf(s));
      AbsorbIsRealloc(m, heap.mem[..], s, s1, now, units, size, brk - 2, hi');
    }

    // next = mm_sbrk(...); next->alloc = MM_ALLOC_FREE; mm_insert(next)
    method AddFreeSegment(missing: nat) returns (ok: bool)
      requires Valid() && 1 <= missing
      modifies this`tree, this`segs, heap, heap.mem
      ensures ok == (old(heap.brk) + Growth(8 * missing) <= MAX_WORDS)
      ensures !ok ==> unchanged(this, heap, heap.mem)
      ensures ok ==>
        && Valid() && heap.brk == old(heap.brk) + Growth(8 * missing)
        && segs == GrownFree(old(segs), old(heap.brk) - 2, missing)
        && Kept(old(heap.mem[..]), heap.mem[..], LiveOf(old(segs)))
    {
      hide State, Kept, LiveOf, Grown;
      StateTiled(heap.mem[..], heap.brk, tree, segs, {}, {});
      ghost var m, s, hi := heap.mem[..], segs, heap.brk - 2;
      var next;
      ok, next := Sbrk(missing * 8);
      if !ok { return; }
      ghost var m1, s1 := heap.mem[..], segs;
      LiveAfterAdded(s, hi, missing);
      SetFree(next, true, {}, {});
      ghost var m2 := heap.mem[..];
      assert {} + {next} == {next} && {next} - {next} == {};
      Insert(next, {next}, {});
      KeptTransitive(m, m1, m2, LiveOf(s), LiveOf(s1), LiveOf(s));
      KeptTransitive(m, m2, heap.mem[..], LiveOf(s), LiveOf(segs), LiveOf(s));
    }

    // The re-allocation case, as a case of mm_realloc.
    method MoveBehindLive(now: nat, units: nat, size: nat) returns (ok: bool, r: nat)
      requires Valid() && 1 <= size <= MAX_REQUEST && now in segs && !segs[now].free && units == Units(size) && segs[now].size < units
      requires var end := RunFrom(segs, now, units, heap.brk - 2); end < now + 2 * units && end != heap.brk - 2
      modifies this`tree, this`segs, heap, heap.mem
      ensures ok <==> !NoRoomToResize(old(segs), old(heap.brk), now, units)
      ensures ok ==>
        && Valid() && 2 <= r && Resized(old(segs), old(heap.brk), segs, heap.brk, now, r - 2, units)
        && ReallocSpec(old(heap.mem[..]), LiveOf(old(segs)), heap.mem[..], LiveOf(segs), now, r - 2, size)
      ensures !ok ==> unchanged(this, heap, heap.mem)
    {
      hide State, ReallocSpec, LiveOf, Moved, Resized, RunFrom, NoRoom;
      StateTiled(heap.mem[..], heap.brk, tree, segs, {}, {});
      ghost var s, brk := segs, heap.brk;
      ok, r := Move(now + 2, size);
      if ok {
        StateTiled(heap.mem[..], heap.brk, tree, segs, {}, {});
        MoveIsResize(s, brk, segs, heap.brk, now, r - 2, units);
      }
    }

    // The re-allocation case.
    method Move(ptr: nat, size: nat) returns (ok: bool, r: nat)
      requires Valid() && 2 <= ptr && ptr - 2 in segs && !segs[ptr - 2].free
      requires 1 <= size <= MAX_REQUEST && segs[ptr - 2].size < Units(size)
      modifies this`tree, this`segs, heap, heap.mem
      ensures ok <==> !NoRoom(old(segs), old(heap.brk), Units(size))
      ensures !ok ==> unchanged(this, heap, heap.mem)
      ensures ok ==>
        && Valid() && 2 <= r && Moved(old(segs), old(heap.brk), segs, heap.brk, ptr - 2, r - 2, Units(size))
        && ReallocSpec(old(heap.mem[..]), LiveOf(old(segs)), heap.mem[..], LiveOf(segs), ptr - 2, r - 2, size)
    {
      hide TreeIn, Headers, Match, Kept, BytesMoved, Placed, FreedTo;
      ghost var m, s, p := heap.mem[..], segs, ptr - 2;
      ok, r := Malloc(size);
      if !ok { return; }
      ghost var m1, s1 := heap.mem[..], segs;
      LiveSegment(LiveOf(s), LiveOf(s1), s, s1, p, r - 2);
      CopyAndFree(ptr, r);
      assert SegAt(s1, r - 2, LO, heap.brk - 2) && SegAt(s1, p, LO, heap.brk - 2);
      MoveIsRealloc(m, m1, heap.mem[..], LiveOf(s), LiveOf(s1), LiveOf(segs), p, r - 2, size, 8 * s[p].size - 8);
    }

    // mm_memcpy of the old payload to the new block; mm_free of the old block
    method CopyAndFree(ptr: nat, nw: nat)
      requires Valid() && 2 <= ptr && 2 <= nw && ptr - 2 in segs && nw - 2 in segs && ptr != nw && !segs[ptr - 2].free
      requires !segs[nw - 2].free && segs[ptr - 2].size <= segs[nw - 2].size
      modifies this`tree, this`segs, heap.mem
      ensures Valid() && FreedTo(old(segs), segs, ptr - 2) && LiveOf(segs) == LiveOf(old(segs)) - {ptr - 2}
      ensures Kept(old(heap.mem[..]), heap.mem[..], LiveOf(old(segs)) - {nw - 2} - {ptr - 2})
      ensures BytesMoved(old(heap.mem[..]), ptr - 2, heap.mem[..], nw - 2, 8 * old(segs[ptr - 2].size) - 8)
    {
      hide State, Kept, BytesMoved, Coalesced, FreedTo;
      StateTiled(heap.mem[..], heap.brk, tree, segs, {}, {});
      ghost var m, s := heap.mem[..], segs;
      Copy(ptr, nw);
      ghost var m1 := heap.mem[..];
      Free(ptr);
      assert SegAt(s, nw - 2, LO, heap.brk - 2) && SegAt(s, ptr - 2, LO, heap.brk - 2);
      CopyThenFree(m, m1, heap.mem[..], LiveOf(s), LiveOf(segs), ptr - 2, nw - 2, 8 * s[ptr - 2].size - 8);
    }

    // mm_memcpy(new, ptr, (now->size << MM_ALIGN) - MM_HEADER_SIZE)
    method Copy(ptr: nat, nw: nat)
      requires Valid() && 2 <= ptr && 2 <= nw && ptr - 2 in segs && nw - 2 in segs && ptr != nw
      requires !segs[nw - 2].free && segs[ptr - 2].size <= segs[nw - 2].size
      modifies heap.mem
      ensures Valid() && Kept(old(heap.mem[..]), heap.mem[..], LiveOf(segs) - {nw - 2})
      ensures BytesMoved(old(heap.mem[..]), ptr - 2, heap.mem[..], nw - 2, 8 * segs[ptr - 2].size - 8)
    {
      ghost var m := heap.mem[..];
      var size := SizeOf(ptr - 2, {}, {});
      BlocksApart(segs, ptr - 2, nw - 2, LO, heap.brk - 2);
      CopyPayload(heap.mem, ptr, nw, 8 * size - 8, segs);
      StateAfterWrite(m, heap.mem[..], heap.brk, tree, segs, nw - 2);
    }

    // Segments and tree can be walked; nothing is said about back pointers, nor about what the tree holds and in
    // which order.
    ghost predicate Walkable()
      reads this, heap, heap.mem
    {
      && heap.Valid() && 8 <= heap.brk && RootAt(heap.mem[..], tree)
      && Tiled(segs, LO, heap.brk - 2) && Headers(heap.mem[..], segs, LO, heap.brk - 2, segs.Keys)
    }

    // mm_check: 1 exactly if all back pointers agree, each tree node is in order with its children, and there are as
    // many nodes as free segments.
    method Check() returns (r: int)
      requires Walkable()
      ensures r == 1 || r == 0
      ensures r == 1 <==>
        && (forall p :: p in segs ==> End(segs, p) < heap.mem.Length && heap.mem[End(segs, p)] == Ptr(p))
        && LooksRight(tree) && Size(tree) == |set p | p in segs && segs[p].free|
      ensures heap.mem[..] == old(heap.mem[..])
    {
      hide Tiled, Headers, FreeBelow, LinkedBelow, LooksRight, MmTree.TreeAt;
      var mem := heap.mem;
      ghost var s, hi := segs, heap.brk - 2;
      StartWalk(mem[..], s, hi);
      var nfree := 0;
      var now := LO;
      while mem[now + 1].size != 0
        invariant LO <= now <= hi && (now in s || now == hi) && nfree == |FreeBelow(s, now)| && LinkedBelow(mem[..], s, now)
        invariant now in s ==> Header(mem[..], now, s[now]) && 2 <= s[now].size
        decreases hi - now
      {
        WalkStep(mem[..], s, hi, now);
        FreeBelowStep(s, now, LO, hi);
        var next := now + 2 * mem[now + 1].size;
        if mem[next] != Ptr(now) {
          return 0;
        }
        if !mem[now + 1].alloc {
          nfree := nfree + 1;
        }
        now := next;
        if now in s { WalkStep(mem[..], s, hi, now); }
      }
      FreeCount(s, LO, hi);
      var ok, nnode := MmTree.CheckNode(mem, mem[0].addr, 0, tree);
      if ok == 0 {
        return 0;
      }
      if nfree != nnode {
        return 0;
      }
      return 1;
    }

    // So the result is 1 in every state that the operations leave.
    lemma CheckPasses()
      requires Valid()
      ensures Walkable() && LooksRight(tree) && Size(tree) == |set p | p in segs && segs[p].free|
      ensures forall p :: p in segs ==> End(segs, p) < heap.mem.Length && heap.mem[End(segs, p)] == Ptr(p)
    {
      hide RootAt, FreeBelow, Tiled;
      ghost var m := heap.mem[..];
      StateRoot(m, heap.brk, tree, segs, {}, {});
      OrderedLooksRight(tree);
      BackPointersAgree(m, heap.brk, tree, segs);
      FreeCount(segs, LO, heap.brk - 2);
      TreeSizeIsFreeCount(tree, segs, LO, heap.brk - 2);
    }
  }
}
