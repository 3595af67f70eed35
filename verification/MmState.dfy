/**
  The invariant of mm.c over one memory value, and what each kind of store does to it.
 */
module MmState {
  import opened Powers
  import opened RBTree
  import opened MemLib
  import opened AllocSpec
  import opened TreeRep
  import opened Segments
  import opened SegMem
  import MmTree

  // The first segment's header; below it are the root pointer and the sentinel.
  const LO: nat := 6

  // mm_sbrk asks for at least this many bytes.
  const MM_UNIT: nat := 144

  // The root pointer leads to an ordered red-black tree with a black root.
  ghost predicate TreeIn(m: seq<Word>, t: Tree) {
    && SentinelAt(m) && m[0].Ptr? && Rep(m, m[0].addr, t) && Once(t)
    && Ordered(t) && RedBlack(t) && !IsRed(t)
  }

  ghost predicate State(m: seq<Word>, brk: nat, t: Tree, s: SegMap, pending: set<nat>, loose: set<nat>) {
    && 8 <= brk <= MAX_WORDS < |m|
    && TreeIn(m, t)
    && Tiled(s, LO, brk - 2)
    && Headers(m, s, LO, brk - 2, loose)
    && Match(t, s, pending)
  }

  // The root pointer leads to t, whose nodes are well placed.
  ghost predicate RootAt(m: seq<Word>, t: Tree) {
    0 < |m| && m[0].Ptr? && MmTree.TreeAt(m, m[0].addr, t)
  }

  // A tree built on the nodes at addrs becomes the tree of the heap, with a black root.
  method StoreRoot(mem: array<Word>, r: nat, ghost m: seq<Word>, ghost t: Tree, ghost addrs: set<nat>)
    requires MmTree.From(m, addrs, mem[..], r, t) && 0 !in addrs
    modifies mem
    ensures TreeChange(m, mem[..], addrs) && RootAt(mem[..], Paint(t, Black))
  {
    ghost var m1 := mem[..];
    mem[0] := Ptr(r);
    ghost var m2 := mem[..];
    RepFrame(m1, m2, r, t);
    MmTree.SetColor(mem, r, Black, t, m2, addrs);
    NewRoot(m, m1, m2, mem[..], addrs);
    assert Same(m2, mem[..], 0);
  }

  lemma NewRoot(m: seq<Word>, m1: seq<Word>, m2: seq<Word>, n: seq<Word>, addrs: set<nat>)
    requires OnlyNodes(m, m1, addrs) && OnlyNodes(m2, n, addrs)
    requires |m1| > 0 && 0 !in addrs
    requires |m2| == |m1| && m2 == m1[0 := m2[0]]
    ensures TreeChange(m, n, addrs)
  {
    forall w | w != 0 && !Touches(addrs, w)
      ensures Same(m, n, w)
    {
      assert Same(m, m1, w) && Same(m2, n, w);
    }
    forall a | a in addrs
      ensures Recoloured(m, n, a)
    {
      assert Recoloured(m, m1, a) && Recoloured(m2, n, a);
    }
  }

  lemma StateRoot(m: seq<Word>, brk: nat, t: Tree, s: SegMap, pending: set<nat>, loose: set<nat>)
    requires State(m, brk, t, s, pending, loose)
    ensures RootAt(m, t) && FreeSegments(s, Addrs(t)) && 0 !in Addrs(t)
  {
    TreeOnSegments(t, s, LO, brk - 2, pending);
    assert 0 in s ==> SegAt(s, 0, LO, brk - 2);
  }

  lemma PendingNode(m: seq<Word>, brk: nat, t: Tree, s: SegMap, pending: set<nat>, loose: set<nat>, p: nat)
    requires State(m, brk, t, s, pending, loose) && p in s && s[p].free && p in pending
    ensures MmTree.Detached(m, Key(s[p].size, p), Addrs(t))
    ensures FreeSegments(s, Addrs(t) + {p}) && 0 !in Addrs(t) + {p} && Key(s[p].size, p) !in Keys(t)
  {
    StateRoot(m, brk, t, s, pending, loose);
    TreeOnSegments(t, s, LO, brk - 2, pending);
    assert SegAt(s, p, LO, brk - 2) && InMem(m, s, p, loose);
  }

  lemma TreeNode(m: seq<Word>, brk: nat, t: Tree, s: SegMap, pending: set<nat>, loose: set<nat>, p: nat)
    requires State(m, brk, t, s, pending, loose) && p in s && s[p].free && p !in pending
    ensures Key(s[p].size, p) in Keys(t) && OnPath(t, Key(s[p].size, p))
    ensures p + 1 < |m| && m[p + 1].Bits? && m[p + 1].size == s[p].size
  {
    assert SegAt(s, p, LO, brk - 2) && InMem(m, s, p, loose);
    assert Key(s[p].size, p) in Keys(t);
    OrderedOnPath(t, Key(s[p].size, p));
  }

  lemma StateAfterTreeChange(m: seq<Word>, n: seq<Word>, brk: nat, t: Tree, t': Tree, s: SegMap,
                                                pending: set<nat>, pending': set<nat>, loose: set<nat>, addrs: set<nat>)
    requires State(m, brk, t, s, pending, loose)
    requires TreeChange(m, n, addrs) && FreeSegments(s, addrs) && RootAt(n, t')
    requires Ordered(t') && RedBlack(t') && !IsRed(t') && Match(t', s, pending')
    ensures State(n, brk, t', s, pending', loose) && Kept(m, n, LiveOf(s))
  {
    TreeChangeKeeps(m, n, s, LO, brk - 2, loose, addrs);
  }

  // ----- stores to headers -----

  // The tree is where it was: the root pointer, the sentinel's flags and the nodes are untouched.
  lemma TreeStays(m: seq<Word>, n: seq<Word>, t: Tree, s: SegMap, lo: nat, hi: nat, pending: set<nat>)
    requires TreeIn(m, t) && |n| == |m| && n[0] == m[0] && n[SENTINEL + 1] == m[SENTINEL + 1]
    requires Tiled(s, lo, hi) && Match(t, s, pending)
    requires forall a :: a in s && s[a].free && a !in pending && a + 3 < |m| ==>
      n[a + 1] == m[a + 1] && n[a + 2] == m[a + 2] && n[a + 3] == m[a + 3]
    ensures TreeIn(n, t)
  {
    forall a | a in Addrs(t)
      ensures a in s && s[a].free && a !in pending
    {
      AddrsOfKeys(t, a);
    }
    RepFrame(m, n, m[0].addr, t);
  }

  lemma StateAfterRetag(m: seq<Word>, n: seq<Word>, brk: nat, t: Tree, s: SegMap, pending: set<nat>, loose: set<nat>,
                                           p: nat, free: bool)
    requires State(m, brk, t, s, pending, loose) && p in s && (s[p].free ==> p in pending)
    requires p + 1 < |m| && m[p + 1].Bits? && n == m[p + 1 := m[p + 1].(alloc := !free)]
    ensures State(n, brk, t, Retag(s, p, free), if free then pending + {p} else pending - {p}, loose)
    ensures Kept(m, n, LiveOf(s))
  {
    RetagKeeps(m, n, s, LO, brk - 2, loose, p, free);
    assert SegAt(s, p, LO, brk - 2);
    forall a | a in s && s[a].free && a !in pending
      ensures a != p && !(a + 1 <= p + 1 <= a + 3)
    {
      assert SegAt(s, a, LO, brk - 2) && Apart(s, a, p);
    }
    TreeStays(m, n, t, s, LO, brk - 2, pending);
  }

  lemma StateAfterLink(m: seq<Word>, n: seq<Word>, brk: nat, t: Tree, s: SegMap, pending: set<nat>, loose: set<nat>, p: nat)
    requires State(m, brk, t, s, pending, loose) && p in s
    requires End(s, p) < |m| && n == m[End(s, p) := Ptr(p)]
    ensures State(n, brk, t, s, pending, loose - {p})
    ensures Kept(m, n, LiveOf(s))
  {
    LinkKeeps(m, n, s, LO, brk - 2, loose, p);
    assert SegAt(s, p, LO, brk - 2);
    forall a | a in s && s[a].free && a !in pending
      ensures !(a + 1 <= End(s, p) <= a + 3)
    {
      assert SegAt(s, a, LO, brk - 2) && Apart(s, a, p) && Apart(s, p, a) && Apart(s, a, End(s, p));
    }
    TreeStays(m, n, t, s, LO, brk - 2, pending);
  }

  lemma StateAfterMerge(m: seq<Word>, n: seq<Word>, brk: nat, t: Tree, s: SegMap, pending: set<nat>, loose: set<nat>, p: nat)
    requires State(m, brk, t, s, pending, loose) && p in s && End(s, p) in s
    requires (s[p].free ==> p in pending) && (s[End(s, p)].free ==> End(s, p) in pending)
    requires p + 1 < |m| && m[p + 1].Bits? && n == m[p + 1 := m[p + 1].(size := s[p].size + s[End(s, p)].size)]
    ensures State(n, brk, t, Merge(s, p), pending - {End(s, p)}, loose + {p})
    ensures Kept(m, n, LiveOf(s))
  {
    MergeKeeps(m, n, s, LO, brk - 2, loose, p);
    assert SegAt(s, p, LO, brk - 2);
    forall a | a in s && s[a].free && a !in pending
      ensures a != p && !(a + 1 <= p + 1 <= a + 3)
    {
      assert SegAt(s, a, LO, brk - 2) && Apart(s, a, p);
    }
    TreeStays(m, n, t, s, LO, brk - 2, pending);
  }

  lemma TreeStaysInSplit(m: seq<Word>, n: seq<Word>, brk: nat, t: Tree, s: SegMap, pending: set<nat>, loose: set<nat>,
                                            p: nat, size: nat)
    requires State(m, brk, t, s, pending, loose) && p in s && (s[p].free ==> p in pending)
    requires 2 <= size && size + 2 <= s[p].size && IsSplit(m, n, p, size, s[p].size - size)
    ensures TreeIn(n, t)
  {
    assert SegAt(s, p, LO, brk - 2);
    forall a | a in s && s[a].free && a !in pending && a + 3 < |m|
      ensures n[a + 1] == m[a + 1] && n[a + 2] == m[a + 2] && n[a + 3] == m[a + 3]
    {
      assert SegAt(s, a, LO, brk - 2) && Apart(s, a, p) && Apart(s, p, a);
    }
    TreeStays(m, n, t, s, LO, brk - 2, pending);
  }

  lemma SameLength(m: seq<Word>, n: seq<Word>, p: nat, size: nat, rest: nat)
    requires IsSplit(m, n, p, size, rest)
    ensures |n| == |m|
  {
  }

  lemma StateAfterSplit(m: seq<Word>, n: seq<Word>, brk: nat, t: Tree, s: SegMap, pending: set<nat>, loose: set<nat>,
                                           p: nat, size: nat)
    requires State(m, brk, t, s, pending, loose) && p in s && (s[p].free ==> p in pending)
    requires 2 <= size && size + 2 <= s[p].size && IsSplit(m, n, p, size, s[p].size - size)
    ensures State(n, brk, t, Split(s, p, size), pending + {p + 2 * size}, loose - {p})
    ensures Kept(m, n, LiveOf(Split(s, p, size))) && p + 2 * size !in s
  {
    hide TreeIn, Headers, Tiled, Kept, IsSplit, SegAt;
    TreeStaysInSplit(m, n, brk, t, s, pending, loose, p, size);
    SplitTiled(s, p, size, LO, brk - 2);
    SplitHeaders(m, n, s, LO, brk - 2, loose, p, size);
    SplitPayloads(m, n, s, LO, brk - 2, p, size);
    SameLength(m, n, p, size, s[p].size - size);
  }

  lemma StateAfterExtend(m: seq<Word>, n: seq<Word>, brk: nat, t: Tree, s: SegMap, pending: set<nat>, loose: set<nat>, size: nat)
    requires State(m, brk, t, s, pending, loose) && 2 <= size && brk + 2 * size <= MAX_WORDS
    requires n == m[brk - 1 := Bits(size, true, Black, false)][brk - 2 + 2 * size := Ptr(NULL)][brk - 1 + 2 * size := EPILOGUE]
    ensures State(n, brk + 2 * size, t, Extend(s, brk - 2, size), pending, loose + {brk - 2})
    ensures Kept(m, n, LiveOf(s)) && brk - 2 !in s
  {
    ExtendKeeps(m, n, s, LO, brk - 2, loose, size);
    forall a | a in s && s[a].free && a !in pending
      ensures a + 3 < brk - 2
    {
      assert SegAt(s, a, LO, brk - 2);
    }
    TreeStays(m, n, t, s, LO, brk - 2, pending);
  }

  // ----- stores to the payload of a live block -----

  lemma StateAfterWrite(m: seq<Word>, n: seq<Word>, brk: nat, t: Tree, s: SegMap, p: nat)
    requires State(m, brk, t, s, {}, {}) && OnlyPayload(m, n, s, p)
    ensures State(n, brk, t, s, {}, {}) && Kept(m, n, LiveOf(s) - {p})
  {
    var hi := brk - 2;
    assert SegAt(s, p, LO, hi);
    assert Same(m, n, hi) && Same(m, n, hi + 1) && Same(m, n, LO) && Same(m, n, 0) && Same(m, n, SENTINEL + 1);
    forall q | q in s
      ensures InMem(n, s, q, {})
    {
      assert InMem(m, s, q, {}) && SegAt(s, q, LO, hi) && Apart(s, p, q) && Apart(s, q, p);
      assert End(s, q) in s ==> Apart(s, p, End(s, q)) && Apart(s, End(s, q), p);
      assert Same(m, n, q) && Same(m, n, q + 1) && Same(m, n, End(s, q));
    }
    forall a | a in s && s[a].free
      ensures Same(m, n, a + 1) && Same(m, n, a + 2) && Same(m, n, a + 3)
    {
      assert SegAt(s, a, LO, hi) && Apart(s, a, p) && Apart(s, p, a);
    }
    TreeStays(m, n, t, s, LO, hi, {});
    forall q: nat, w: nat
      ensures KeptAt(m, n, LiveOf(s) - {p}, q, w)
    {
      assert Apart(s, q, p) && Apart(s, p, q);
      if q in s && q + 2 <= w < End(s, q) && q != p { assert Same(m, n, w); }
    }
  }

  lemma SegmentHere(m: seq<Word>, brk: nat, t: Tree, s: SegMap, pending: set<nat>, loose: set<nat>, p: nat)
    requires State(m, brk, t, s, pending, loose) && p in s
    ensures SegAt(s, p, LO, brk - 2) && InMem(m, s, p, loose) && brk <= MAX_WORDS < |m|
  {
  }

  lemma StateTiled(m: seq<Word>, brk: nat, t: Tree, s: SegMap, pending: set<nat>, loose: set<nat>)
    requires State(m, brk, t, s, pending, loose)
    ensures LO + 2 <= brk <= MAX_WORDS && Tiled(s, LO, brk - 2)
  {
  }

  // ----- what every state promises -----

  // Live payloads are 8-byte aligned, inside the heap and disjoint, and the segments take up all of it but 32 bytes.
  lemma StateLayout(m: seq<Word>, brk: nat, t: Tree, s: SegMap)
    requires State(m, brk, t, s, {}, {})
    ensures WellPlaced(LiveOf(s), brk - 2)
    ensures 8 * TotalSize(s, LO, LO, brk - 2) == 4 * brk - 32
    ensures forall p :: p in s ==> s[p].size < 0x2000_0000
  {
    LiveWellPlaced(s, LO, brk - 2, brk - 2);
    SizesFillHeap(s, LO, LO, brk - 2);
    forall p | p in s ensures s[p].size < 0x2000_0000 { assert SegAt(s, p, LO, brk - 2); }
  }

  // Search, insertion and deletion go at most 2 log2(n + 1) nodes deep when there are n free segments, whatever they
  // look for; stated without logarithms.
  lemma StateDepth(m: seq<Word>, brk: nat, t: Tree, s: SegMap, k: Key, size: nat)
    requires State(m, brk, t, s, {}, {})
    ensures var n := |FreeBelow(s, brk - 2)|;
      && Pow2(SearchDepth(t, size)) <= (n + 1) * (n + 1)
      && Pow2(InsertDepth(t, k)) <= (n + 1) * (n + 1)
      && Pow2(DeleteDepth(t, k)) <= (n + 1) * (n + 1)
  {
    TreeSizeIsFreeCount(t, s, LO, brk - 2);
    HeightIsLogarithmic(t);
    DepthsWithinHeight(t, k, size);
    Pow2Monotone(SearchDepth(t, size), Height(t));
    Pow2Monotone(InsertDepth(t, k), Height(t));
    Pow2Monotone(DeleteDepth(t, k), Height(t));
  }
}
