/**
  How the segment list of mm.c lies in memory: each header repeats the size and flag of its segment, and the first
  word of the header after a segment points back to it. `loose` are the segments whose back pointer is out of date.
 */
module SegMem {
  import opened RBTree
  import opened MemLib
  import opened AllocSpec
  import opened TreeRep
  import opened Segments

  ghost predicate Header(m: seq<Word>, p: nat, g: Seg) {
    && p + 1 < |m| && m[p].Ptr?
    && m[p + 1].Bits? && m[p + 1].size == g.size && m[p + 1].alloc == !g.free && !m[p + 1].nul
  }

  ghost predicate InMem(m: seq<Word>, s: SegMap, p: nat, loose: set<nat>) {
    && p in s && Header(m, p, s[p])
    && (p !in loose ==> End(s, p) < |m| && m[End(s, p)] == Ptr(p))
  }

  const EPILOGUE := Bits(0, false, Black, false)

  ghost predicate Headers(m: seq<Word>, s: SegMap, lo: nat, hi: nat, loose: set<nat>) {
    && hi + 1 < |m| && m[hi].Ptr? && m[hi + 1] == EPILOGUE
    && lo < |m| && m[lo] == Ptr(NULL)
    && (forall p {:trigger InMem(m, s, p, loose)} :: p in s ==> InMem(m, s, p, loose))
  }

  ghost function LiveOf(s: SegMap): Live {
    map p | p in s && !s[p].free :: 2 * s[p].size
  }

  lemma LiveMember(s: SegMap, p: nat)
    ensures p in LiveOf(s) <==> p in s && !s[p].free
  {
  }

  // ----- a change to the tree -----

  // Only the root pointer, and the colours and child pointers of the nodes at addrs, differ.
  ghost predicate TreeChange(m: seq<Word>, n: seq<Word>, addrs: set<nat>) {
    && |n| == |m|
    && (forall w {:trigger Same(m, n, w)} :: w != 0 && !Touches(addrs, w) ==> Same(m, n, w))
    && (forall a {:trigger Recoloured(m, n, a)} :: a in addrs ==> Recoloured(m, n, a))
  }

  ghost predicate FreeSegments(s: SegMap, addrs: set<nat>) {
    forall a :: a in addrs ==> a in s && s[a].free
  }

  // Nodes at free segments do not reach headers other than their own, nor payloads of live segments.
  lemma HeaderUntouched(s: SegMap, lo: nat, hi: nat, addrs: set<nat>, p: nat)
    requires Tiled(s, lo, hi) && FreeSegments(s, addrs) && (p in s || p == hi)
    ensures !Touches(addrs, p)
    ensures p !in addrs ==> !Touches(addrs, p + 1)
  {
    forall a: nat | a in addrs
      ensures a + 4 <= p || p <= a
    {
      assert SegAt(s, a, lo, hi) && Apart(s, a, p);
    }
  }

  lemma PayloadUntouched(s: SegMap, lo: nat, hi: nat, addrs: set<nat>, p: nat, w: nat)
    requires Tiled(s, lo, hi) && FreeSegments(s, addrs) && p in s && !s[p].free && p + 2 <= w < End(s, p)
    ensures !Touches(addrs, w)
  {
    forall a: nat | a in addrs
      ensures a + 4 <= w || w <= a
    {
      assert SegAt(s, a, lo, hi) && Apart(s, a, p) && Apart(s, p, a);
    }
  }

  lemma TreeChangeKeeps(m: seq<Word>, n: seq<Word>, s: SegMap, lo: nat, hi: nat, loose: set<nat>, addrs: set<nat>)
    requires Tiled(s, lo, hi) && Headers(m, s, lo, hi, loose) && 0 < lo
    requires TreeChange(m, n, addrs) && FreeSegments(s, addrs)
    ensures Headers(n, s, lo, hi, loose)
    ensures Kept(m, n, LiveOf(s))
  {
    HeaderUntouched(s, lo, hi, addrs, hi);
    assert hi in s ==> SegAt(s, hi, lo, hi);
    assert Same(m, n, hi) && Same(m, n, hi + 1);
    HeaderUntouched(s, lo, hi, addrs, lo);
    assert Same(m, n, lo);
    forall p | p in s
      ensures InMem(n, s, p, loose)
    {
      assert SegAt(s, p, lo, hi) && InMem(m, s, p, loose);
      HeaderUntouched(s, lo, hi, addrs, p);
      HeaderUntouched(s, lo, hi, addrs, End(s, p));
      assert Same(m, n, p) && Same(m, n, End(s, p));
      assert if p in addrs then Recoloured(m, n, p) else Same(m, n, p + 1);
    }
    var live := LiveOf(s);
    forall p: nat, w: nat
      ensures KeptAt(m, n, live, p, w)
    {
      if p in live && p + 2 <= w < p + live[p] {
        PayloadUntouched(s, lo, hi, addrs, p, w);
        assert Same(m, n, w);
      }
    }
  }

  // ----- changes to headers -----

  // Only the headers at heads differ.
  ghost predicate OnlyHeaders(m: seq<Word>, n: seq<Word>, heads: set<nat>) {
    |n| == |m| && forall w: int {:trigger n[w]} :: 0 <= w < |m| && w !in heads && w - 1 !in heads ==> n[w] == m[w]
  }

  lemma HeaderChangeKeeps(m: seq<Word>, n: seq<Word>, s: SegMap, lo: nat, hi: nat, heads: set<nat>)
    requires Tiled(s, lo, hi) && OnlyHeaders(m, n, heads)
    requires forall h :: h in heads ==> h in s || h == hi
    ensures Kept(m, n, LiveOf(s))
  {
    var live := LiveOf(s);
    forall p: nat, w: nat
      ensures KeptAt(m, n, live, p, w)
    {
      if p in live && p + 2 <= w < p + live[p] {
        assert SegAt(s, p, lo, hi);
        forall h: nat | h in heads
          ensures w != h && w != h + 1
        {
          assert Apart(s, p, h) && Apart(s, h, p);
        }
        assert w !in heads && w - 1 !in heads;
      }
    }
  }

  // The alloc bit of p is set or cleared.
  lemma RetagKeeps(m: seq<Word>, n: seq<Word>, s: SegMap, lo: nat, hi: nat, loose: set<nat>, p: nat, free: bool)
    requires Tiled(s, lo, hi) && Headers(m, s, lo, hi, loose) && p in s
    requires p + 1 < |m| && m[p + 1].Bits? && n == m[p + 1 := m[p + 1].(alloc := !free)]
    ensures Tiled(Retag(s, p, free), lo, hi) && Headers(n, Retag(s, p, free), lo, hi, loose)
    ensures Kept(m, n, LiveOf(s))
  {
    RetagTiled(s, p, free, lo, hi);
    var r := Retag(s, p, free);
    assert SegAt(s, p, lo, hi);
    forall q | q in r
      ensures InMem(n, r, q, loose)
    {
      assert InMem(m, s, q, loose) && SegAt(s, q, lo, hi) && Apart(s, p, q) && Apart(s, q, p);
    }
    HeaderChangeKeeps(m, n, s, lo, hi, {p});
  }

  // The back pointer to p is stored.
  lemma LinkKeeps(m: seq<Word>, n: seq<Word>, s: SegMap, lo: nat, hi: nat, loose: set<nat>, p: nat)
    requires Tiled(s, lo, hi) && Headers(m, s, lo, hi, loose) && p in s
    requires End(s, p) < |m| && n == m[End(s, p) := Ptr(p)]
    ensures Headers(n, s, lo, hi, loose - {p})
    ensures Kept(m, n, LiveOf(s))
  {
    assert SegAt(s, p, lo, hi);
    forall q | q in s
      ensures InMem(n, s, q, loose - {p})
    {
      assert InMem(m, s, q, loose) && SegAt(s, q, lo, hi) && Apart(s, p, q) && Apart(s, q, p);
    }
    HeaderChangeKeeps(m, n, s, lo, hi, {End(s, p)});
  }

  // The size of p grows by that of its successor, which stops being a header.
  lemma MergeKeeps(m: seq<Word>, n: seq<Word>, s: SegMap, lo: nat, hi: nat, loose: set<nat>, p: nat)
    requires Tiled(s, lo, hi) && Headers(m, s, lo, hi, loose) && p in s && End(s, p) in s
    requires p + 1 < |m| && m[p + 1].Bits? && n == m[p + 1 := m[p + 1].(size := s[p].size + s[End(s, p)].size)]
    ensures Tiled(Merge(s, p), lo, hi) && Headers(n, Merge(s, p), lo, hi, loose + {p})
    ensures Kept(m, n, LiveOf(s))
  {
    MergeTiled(s, p, lo, hi);
    var r := Merge(s, p);
    assert SegAt(s, p, lo, hi);
    forall q | q in r
      ensures InMem(n, r, q, loose + {p})
    {
      assert InMem(m, s, q, loose) && SegAt(s, q, lo, hi) && Apart(s, p, q) && Apart(s, q, p);
    }
    HeaderChangeKeeps(m, n, s, lo, hi, {p});
  }

  // Memory after segment p has been cut: both pieces have their headers, and both back pointers are stored.
  function SplitStores(m: seq<Word>, p: nat, size: nat, rest: nat): seq<Word>
    requires p + 2 * size + 2 * rest < |m| && 2 <= rest && m[p + 1].Bits?
  {
    var next := p + 2 * size;
    m[p + 1 := m[p + 1].(size := size)][next := Ptr(p)][next + 1 := Bits(rest, false, Black, false)][next + 2 * rest := Ptr(next)]
  }

  ghost predicate IsSplit(m: seq<Word>, n: seq<Word>, p: nat, size: nat, rest: nat) {
    var next, end := p + 2 * size, p + 2 * size + 2 * rest;
    && 2 <= size && 2 <= rest && end < |m| && OnlyHeaders(m, n, {p, next, end})
    && m[p + 1].Bits? && n[p] == m[p] && n[p + 1] == m[p + 1].(size := size)
    && n[next] == Ptr(p) && n[next + 1] == Bits(rest, false, Black, false)
    && n[end] == Ptr(next) && (end + 1 < |m| ==> n[end + 1] == m[end + 1])
  }

  lemma SplitWords(m: seq<Word>, p: nat, size: nat, rest: nat)
    requires p + 2 * size + 2 * rest < |m| && 2 <= rest && 2 <= size && m[p + 1].Bits?
    ensures IsSplit(m, SplitStores(m, p, size, rest), p, size, rest)
  {
  }

  lemma SplitInMem(m: seq<Word>, n: seq<Word>, s: SegMap, lo: nat, hi: nat, loose: set<nat>, p: nat, size: nat, q: nat)
    requires Tiled(s, lo, hi) && Headers(m, s, lo, hi, loose) && p in s && 2 <= size && size + 2 <= s[p].size
    requires IsSplit(m, n, p, size, s[p].size - size) && q in Split(s, p, size)
    ensures InMem(n, Split(s, p, size), q, loose - {p})
  {
    assert SegAt(s, p, lo, hi) && InMem(m, s, p, loose) && Apart(s, p, p + 2 * size);
    if q in s && q != p {
      assert InMem(m, s, q, loose) && SegAt(s, q, lo, hi) && Apart(s, p, q) && Apart(s, q, p);
    }
  }

  lemma SplitHeaders(m: seq<Word>, n: seq<Word>, s: SegMap, lo: nat, hi: nat, loose: set<nat>, p: nat, size: nat)
    requires Tiled(s, lo, hi) && Headers(m, s, lo, hi, loose) && p in s && 2 <= size && size + 2 <= s[p].size
    requires IsSplit(m, n, p, size, s[p].size - size)
    ensures Headers(n, Split(s, p, size), lo, hi, loose - {p})
  {
    forall q | q in Split(s, p, size)
      ensures InMem(n, Split(s, p, size), q, loose - {p})
    {
      SplitInMem(m, n, s, lo, hi, loose, p, size, q);
    }
    hide InMem, Split;
    assert SegAt(s, p, lo, hi);
    assert n[lo] == m[lo] && n[hi + 1] == m[hi + 1];
  }

  lemma SplitPayloads(m: seq<Word>, n: seq<Word>, s: SegMap, lo: nat, hi: nat, p: nat, size: nat)
    requires Tiled(s, lo, hi) && p in s && 2 <= size && size + 2 <= s[p].size
    requires IsSplit(m, n, p, size, s[p].size - size)
    ensures Tiled(Split(s, p, size), lo, hi) && Kept(m, n, LiveOf(Split(s, p, size)))
  {
    hide Kept, LiveOf;
    assert SegAt(s, p, lo, hi);
    SplitTiled(s, p, size, lo, hi);
    HeaderChangeKeeps(m, n, Split(s, p, size), lo, hi, {p, p + 2 * size, End(s, p)});
  }

  // The epilogue becomes the header of a new segment of `size` units, followed by a new epilogue.
  lemma ExtendKeeps(m: seq<Word>, n: seq<Word>, s: SegMap, lo: nat, hi: nat, loose: set<nat>, size: nat)
    requires Tiled(s, lo, hi) && Headers(m, s, lo, hi, loose) && 2 <= size && hi + 2 * size + 1 < |m|
    requires var end := hi + 2 * size;
      n == m[hi + 1 := Bits(size, true, Black, false)][end := Ptr(NULL)][end + 1 := EPILOGUE]
    ensures Tiled(Extend(s, hi, size), lo, hi + 2 * size) && Headers(n, Extend(s, hi, size), lo, hi + 2 * size, loose + {hi})
    ensures Kept(m, n, LiveOf(s)) && hi !in s
  {
    ExtendTiled(s, hi, size, lo);
    var r := Extend(s, hi, size);
    forall q | q in r
      ensures InMem(n, r, q, loose + {hi})
    {
      if q in s {
        assert InMem(m, s, q, loose) && SegAt(s, q, lo, hi);
      }
    }
    HeaderChangeKeeps(m, n, r, lo, hi + 2 * size, {hi, hi + 2 * size});
    KeptFewer(m, n, LiveOf(r), LiveOf(s));
  }

  // ----- going back -----

  // Every segment but the first has a predecessor.
  lemma {:induction false} Predecessor(s: SegMap, lo: nat, hi: nat, p: nat, from: nat) returns (q: nat)
    requires Tiled(s, lo, hi) && from in s && p in s && from < p
    ensures q in s && End(s, q) == p
    decreases p - from
  {
    assert SegAt(s, from, lo, hi) && Apart(s, from, p) && SegAt(s, p, lo, hi);
    if End(s, from) == p {
      q := from;
    } else {
      q := Predecessor(s, lo, hi, p, End(s, from));
    }
  }

  // The stored back pointer is NULL for the first segment and leads to the predecessor for any other.
  lemma BackPointer(m: seq<Word>, s: SegMap, lo: nat, hi: nat, p: nat)
    requires Tiled(s, lo, hi) && Headers(m, s, lo, hi, {}) && p in s && 0 < lo
    ensures p < |m| && m[p] == Ptr(PrevOf(s, p))
    ensures PrevOf(s, p) == NULL <==> p == lo
    ensures PrevOf(s, p) != NULL ==> PrevOf(s, p) in s && End(s, PrevOf(s, p)) == p
  {
    assert SegAt(s, p, lo, hi) && InMem(m, s, p, {});
    if p == lo {
      forall q | q in s ensures End(s, q) != lo { assert SegAt(s, q, lo, hi); }
    } else {
      assert SegAt(s, lo, lo, hi);
      var q := Predecessor(s, lo, hi, p, lo);
      var r := PrevOf(s, p);
      assert SegAt(s, r, lo, hi) && InMem(m, s, r, {});
    }
  }

  // ----- the tree beside the list -----

  // The tree holds exactly the free segments that are not pending.
  ghost predicate Match(t: Tree, s: SegMap, pending: set<nat>) {
    forall k :: k in Keys(t) <==> k.addr in s && s[k.addr] == Seg(k.size, true) && k.addr !in pending
  }

  lemma TreeOnSegments(t: Tree, s: SegMap, lo: nat, hi: nat, pending: set<nat>)
    requires Tiled(s, lo, hi) && Match(t, s, pending)
    ensures FreeSegments(s, Addrs(t)) && Spaced(Addrs(t))
    ensures forall p :: p in s && s[p].free && p in pending ==> p !in Addrs(t) && Spaced(Addrs(t) + {p})
  {
    forall a | a in Addrs(t)
      ensures a in s && s[a].free && a !in pending
    {
      AddrsOfKeys(t, a);
    }
    forall a, b | a in s && b in s && a < b
      ensures a + 4 <= b
    {
      assert SegAt(s, a, lo, hi) && Apart(s, a, b);
    }
  }

  // Live segments are aligned blocks inside the heap that do not overlap.
  lemma LiveWellPlaced(s: SegMap, lo: nat, hi: nat, brk: nat)
    requires Tiled(s, lo, hi) && hi <= brk
    ensures WellPlaced(LiveOf(s), brk)
  {
    var live := LiveOf(s);
    forall p | p in live ensures BlockAt(live, p, brk) { assert SegAt(s, p, lo, hi); }
    forall p, q ensures Disjoint(live, p, q) { assert Apart(s, p, q); }
  }

  lemma LiveSegment(live: Live, live1: Live, s: SegMap, s1: SegMap, p: nat, q: nat)
    requires live == LiveOf(s) && live1 == LiveOf(s1) && p in s && !s[p].free
    requires q !in live && q in live1 && live1 == live[q := live1[q]]
    ensures p in s1 && !s1[p].free && s1[p].size == s[p].size && q in s1 && !s1[q].free && p != q
  {
    assert p in live && live1[p] == live[p];
  }

  // ----- counting -----

  ghost function FreeBelow(s: SegMap, w: nat): set<nat> {
    set p | p in s && s[p].free && p < w
  }

  // Stepping over a segment adds it to the count if it is free.
  lemma FreeBelowStep(s: SegMap, p: nat, lo: nat, hi: nat)
    requires Tiled(s, lo, hi) && p in s
    ensures |FreeBelow(s, End(s, p))| == |FreeBelow(s, p)| + if s[p].free then 1 else 0
  {
    assert SegAt(s, p, lo, hi);
    forall q | q in s && p < q ensures End(s, p) <= q { assert Apart(s, p, q); }
    assert FreeBelow(s, End(s, p)) == FreeBelow(s, p) + if s[p].free then {p} else {};
  }

  // The tree has one node for each free segment.
  lemma TreeSizeIsFreeCount(t: Tree, s: SegMap, lo: nat, hi: nat)
    requires Tiled(s, lo, hi) && Match(t, s, {}) && Once(t)
    ensures Size(t) == |FreeBelow(s, hi)|
  {
    forall a {:trigger a in Addrs(t)} {:trigger a in FreeBelow(s, hi)}
      ensures a in Addrs(t) <==> a in FreeBelow(s, hi)
    {
      AddrsOfKeys(t, a);
      if a in s {
        assert SegAt(s, a, lo, hi);
        assert s[a].free ==> Key(s[a].size, a) in Keys(t);
      }
    }
    assert Addrs(t) == FreeBelow(s, hi);
    AddrsCount(t);
  }

  // ----- stores to the payload of a live block -----

  ghost predicate OnlyPayload(m: seq<Word>, n: seq<Word>, s: SegMap, p: nat) {
    && p in s && !s[p].free && |n| == |m|
    && forall w {:trigger Same(m, n, w)} :: !(p + 2 <= w < End(s, p)) ==> Same(m, n, w)
  }

  lemma WrittenPayload(m: seq<Word>, n: seq<Word>, s: SegMap, p: nat, size: nat)
    requires p in s && !s[p].free && size + 8 <= 8 * s[p].size && WordsKept(m, n, 4 * (p + 2), size)
    ensures OnlyPayload(m, n, s, p)
  {
  }

  lemma CopiedPayload(m: seq<Word>, n: seq<Word>, s: SegMap, p: nat, q: nat, count: nat)
    requires q in s && !s[q].free && 8 <= count + 8 <= 8 * s[q].size && 4 * (q + 2) + count <= 4 * |m|
    requires WordsKept(m, n, 4 * (q + 2), count)
    requires BytesCopied(m, n, 4 * (q + 2), 4 * (p + 2), count)
    ensures OnlyPayload(m, n, s, q) && BytesMoved(m, p, n, q, count)
  {
    forall j | 0 <= j < count
      ensures ByteMoved(m, p, n, q, j)
    {
    }
  }

  method CopyPayload(mem: array<Word>, ptr: nat, nw: nat, count: nat, ghost s: SegMap)
    requires 2 <= ptr && 2 <= nw && nw - 2 in s && !s[nw - 2].free && count + 8 <= 8 * s[nw - 2].size
    requires 4 * nw + count <= 4 * mem.Length && 4 * ptr + count <= 4 * mem.Length
    requires 4 * nw + count <= 4 * ptr || 4 * ptr + count <= 4 * nw
    modifies mem
    ensures OnlyPayload(old(mem[..]), mem[..], s, nw - 2) && BytesMoved(old(mem[..]), ptr - 2, mem[..], nw - 2, count)
  {
    hide BytesCopied, WordsKept, OnlyPayload, BytesMoved;
    ghost var m := mem[..];
    Memcpy(mem, 4 * nw, 4 * ptr, count);
    CopiedPayload(m, mem[..], s, ptr - 2, nw - 2, count);
  }
}
