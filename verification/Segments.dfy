/**
  The segment list of mm.c as a value. A segment is named by its header's address and sized in 8-byte units,
  that is 2 words; `SegMap` says for each header its size and whether its flag says free.
 */
module Segments {

  datatype Seg = Seg(size: nat, free: bool)

  type SegMap = map<nat, Seg>

  // The address just past segment p, where the next header is.
  function End(s: SegMap, p: nat): nat
    requires p in s
  {
    p + 2 * s[p].size
  }

  ghost predicate SegAt(s: SegMap, p: nat, lo: nat, hi: nat) {
    && p in s
    && lo <= p && p % 2 == 0
    && s[p].size >= 2
    && End(s, p) <= hi
    && (End(s, p) == hi || End(s, p) in s)
  }

  ghost predicate Apart(s: SegMap, p: nat, q: nat) {
    p in s && q in s && p < q ==> End(s, p) <= q
  }

  // The segments lie end to end from lo to hi, each at least 2 units long.
  ghost predicate Tiled(s: SegMap, lo: nat, hi: nat) {
    && lo <= hi && lo % 2 == 0 && hi % 2 == 0
    && (lo == hi || lo in s)
    && (forall p {:trigger SegAt(s, p, lo, hi)} :: p in s ==> SegAt(s, p, lo, hi))
    && (forall p, q {:trigger Apart(s, p, q)} :: Apart(s, p, q))
  }

  // ----- the changes the allocator makes -----

  function Retag(s: SegMap, p: nat, free: bool): SegMap
    requires p in s
  {
    s[p := s[p].(free := free)]
  }

  // Cut segment p after `size` units; the rest becomes a free segment.
  function Split(s: SegMap, p: nat, size: nat): SegMap
    requires p in s && size <= s[p].size
  {
    s[p := s[p].(size := size)][p + 2 * size := Seg(s[p].size - size, true)]
  }

  // Segment p takes in its successor.
  function Merge(s: SegMap, p: nat): SegMap
    requires p in s && End(s, p) in s
  {
    (s - {End(s, p)})[p := s[p].(size := s[p].size + s[End(s, p)].size)]
  }

  function Extend(s: SegMap, hi: nat, size: nat): SegMap {
    s[hi := Seg(size, false)]
  }

  lemma RetagTiled(s: SegMap, p: nat, free: bool, lo: nat, hi: nat)
    requires Tiled(s, lo, hi) && p in s
    ensures Tiled(Retag(s, p, free), lo, hi)
  {
    var r := Retag(s, p, free);
    forall q | q in r ensures SegAt(r, q, lo, hi) { assert SegAt(s, q, lo, hi); }
    forall q, o ensures Apart(r, q, o) { assert Apart(s, q, o); }
  }

  lemma SplitTiled(s: SegMap, p: nat, size: nat, lo: nat, hi: nat)
    requires Tiled(s, lo, hi) && p in s && 2 <= size && size + 2 <= s[p].size
    ensures Tiled(Split(s, p, size), lo, hi)
    ensures p + 2 * size !in s
  {
    var r, n := Split(s, p, size), p + 2 * size;
    assert SegAt(s, p, lo, hi) && Apart(s, p, n);
    forall q | q in r ensures SegAt(r, q, lo, hi) {
      if q != n && q != p { assert SegAt(s, q, lo, hi); }
    }
    forall q, o ensures Apart(r, q, o) { SplitApart(s, p, size, lo, hi, q, o); }
  }

  lemma SplitApart(s: SegMap, p: nat, size: nat, lo: nat, hi: nat, q: nat, o: nat)
    requires Tiled(s, lo, hi) && p in s && 2 <= size && size + 2 <= s[p].size
    ensures Apart(Split(s, p, size), q, o)
  {
    assert Apart(s, q, o) && Apart(s, p, o) && Apart(s, q, p) && Apart(s, p, q);
  }

  lemma MergeTiled(s: SegMap, p: nat, lo: nat, hi: nat)
    requires Tiled(s, lo, hi) && p in s && End(s, p) in s
    ensures Tiled(Merge(s, p), lo, hi)
  {
    var r, n := Merge(s, p), End(s, p);
    assert SegAt(s, p, lo, hi) && SegAt(s, n, lo, hi);
    forall q | q in r ensures SegAt(r, q, lo, hi) {
      assert SegAt(s, q, lo, hi) && Apart(s, p, q) && Apart(s, q, p);
    }
    forall q, o ensures Apart(r, q, o) {
      assert Apart(s, q, o) && Apart(s, n, o);
    }
  }

  lemma ExtendTiled(s: SegMap, hi: nat, size: nat, lo: nat)
    requires Tiled(s, lo, hi) && 2 <= size
    ensures Tiled(Extend(s, hi, size), lo, hi + 2 * size)
    ensures hi !in s
  {
    var r, end := Extend(s, hi, size), hi + 2 * size;
    assert end % 2 == 0;
    assert SegAt(s, hi, lo, hi) || hi !in s;
    forall q | q in r ensures SegAt(r, q, lo, end) {
      if q != hi { assert SegAt(s, q, lo, hi); }
    }
    forall q, o ensures Apart(r, q, o) {
      ExtendApart(s, hi, size, lo, q, o);
    }
  }

  lemma ExtendApart(s: SegMap, hi: nat, size: nat, lo: nat, p: nat, q: nat)
    requires Tiled(s, lo, hi)
    ensures Apart(Extend(s, hi, size), p, q)
  {
    assert Apart(s, p, q);
    assert p in s ==> SegAt(s, p, lo, hi);
    assert q in s ==> SegAt(s, q, lo, hi);
  }

  // ----- what tiling means -----

  // Word w belongs to segment p.
  ghost predicate Covers(s: SegMap, p: nat, w: nat) {
    p in s && p <= w < End(s, p)
  }

  // Every word from lo to hi belongs to some segment.
  lemma {:induction false} SegmentOf(s: SegMap, lo: nat, hi: nat, w: nat, from: nat) returns (p: nat)
    requires Tiled(s, lo, hi) && from in s && from <= w < hi
    ensures Covers(s, p, w)
    decreases hi - from
  {
    assert SegAt(s, from, lo, hi);
    if w < End(s, from) {
      p := from;
    } else {
      p := SegmentOf(s, lo, hi, w, End(s, from));
    }
  }

  // Tiling is a partition: every word from lo to hi belongs to exactly one segment.
  lemma TilingPartitions(s: SegMap, lo: nat, hi: nat, w: nat)
    requires Tiled(s, lo, hi) && lo <= w < hi
    ensures exists p :: Covers(s, p, w)
    ensures forall p, q :: Covers(s, p, w) && Covers(s, q, w) ==> p == q
  {
    var p := SegmentOf(s, lo, hi, w, lo);
    forall p, q | Covers(s, p, w) && Covers(s, q, w)
      ensures p == q
    {
      assert Apart(s, p, q) && Apart(s, q, p);
    }
  }

  // ----- neighbours -----

  // The segment that ends where p begins; 0 if there is none.
  ghost function PrevOf(s: SegMap, p: nat): nat {
    if q: nat :| q in s && End(s, q) == p then q else 0
  }

  // ----- what the allocator's operations make of the list -----

  // mm_frag_node: cut off what is beyond `size` units, if that is enough for a segment.
  function Frag(s: SegMap, p: nat, size: nat): SegMap
    requires p in s
  {
    if s[p].size < size + 2 then s else Split(s, p, size)
  }

  // mm_sbrk: the heap grows by a new live segment of at least `size` units; a small request is padded to `unit`.
  function Grown(s: SegMap, hi: nat, size: nat, unit: nat): SegMap {
    if size < unit then Frag(Extend(s, hi, unit), hi, size + 1) else Extend(s, hi, size)
  }

  // Among the free segments of at least `size` units, p is the smallest, and of those the first.
  ghost predicate BestSegment(s: SegMap, size: nat, p: nat) {
    && p in s && s[p].free && size <= s[p].size
    && forall q :: q in s && s[q].free && size <= s[q].size ==>
         s[p].size < s[q].size || (s[p].size == s[q].size && p <= q)
  }

  ghost predicate NoneFits(s: SegMap, size: nat) {
    forall q :: q in s && s[q].free ==> s[q].size < size
  }

  ghost predicate PrevFree(s: SegMap, p: nat) {
    var prev := PrevOf(s, p);
    prev in s && End(s, prev) == p && s[prev].free
  }

  // mm_free: segment p joins a free predecessor, then a free successor, and is marked free.
  ghost function Coalesced(s: SegMap, p: nat): SegMap
    requires p in s
  {
    if PrevFree(s, p) then Retag(JoinNext(Merge(s, PrevOf(s, p)), PrevOf(s, p)), PrevOf(s, p), true)
    else Retag(JoinNext(s, p), p, true)
  }

  function JoinNext(s: SegMap, p: nat): (r: SegMap)
    requires p in s
    ensures p in r
  {
    if End(s, p) in s && s[End(s, p)].free then Merge(s, p) else s
  }

  // The loop of mm_realloc: take in free successors until `need` units are reached.
  ghost function Absorbed(s: SegMap, p: nat, need: nat, lo: nat, hi: nat): (r: SegMap)
    requires Tiled(s, lo, hi) && p in s
    ensures Tiled(r, lo, hi) && p in r
    decreases hi - End(s, p)
  {
    if End(s, p) in s && s[End(s, p)].free && s[p].size < need then
      MergeTiled(s, p, lo, hi);
      assert SegAt(Merge(s, p), p, lo, hi) && SegAt(s, End(s, p), lo, hi);
      Absorbed(Merge(s, p), p, need, lo, hi)
    else s
  }

  // Everything from a up to b is free.
  ghost predicate AllFree(s: SegMap, a: nat, b: nat) {
    forall p :: p in s && a <= p < b ==> s[p].free
  }

  // Where a walk over free segments from `at` stops: at a live segment, at the end, or at the first one at or past the
  // limit.
  ghost function RunEnd(s: SegMap, at: nat, limit: nat, lo: nat, hi: nat): (r: nat)
    requires Tiled(s, lo, hi) && (at in s || at == hi)
    ensures at <= r <= hi && (r in s || r == hi) && AllFree(s, at, r)
    ensures r < limit && r != hi ==> !s[r].free
    ensures forall p :: p in s && at <= p < r ==> p < limit
    decreases hi - at
  {
    assert at in s ==> SegAt(s, at, lo, hi);
    if at in s && s[at].free && at < limit then
      var r := RunEnd(s, End(s, at), limit, lo, hi);
      assert forall p :: p in s && at <= p < r ==> Apart(s, at, p);
      r
    else at
  }

  // A free run that is long enough is absorbed far enough.
  lemma {:induction false} AbsorbedEnough(s: SegMap, p: nat, need: nat, lo: nat, hi: nat, b: nat)
    requires Tiled(s, lo, hi) && p in s && AllFree(s, End(s, p), b)
    requires (b == hi || b in s) && End(s, p) <= b && p + 2 * need <= b
    ensures Absorbed(s, p, need, lo, hi)[p].size >= need
    decreases hi - End(s, p)
  {
    assert SegAt(s, p, lo, hi);
    assert b in s ==> SegAt(s, b, lo, hi);
    if s[p].size < need {
      var q := End(s, p);
      assert q in s && s[q].free;
      assert SegAt(s, q, lo, hi) && Apart(s, q, b);
      MergeTiled(s, p, lo, hi);
      AbsorbedEnough(Merge(s, p), p, need, lo, hi, b);
    }
  }

  // Segment p reaches to `end`, and what began before `end` behind it is gone.
  function Stretched(s: SegMap, p: nat, end: nat): SegMap
    requires p in s && p <= end
  {
    map q | q in s && (q <= p || end <= q) :: if q == p then Seg((end - p) / 2, s[p].free) else s[q]
  }

  // The absorbing loop takes in exactly the segments that the counting walk passes, and nothing beyond.
  lemma {:induction false} AbsorbedIsStretched(s: SegMap, p: nat, need: nat, lo: nat, hi: nat)
    requires Tiled(s, lo, hi) && p in s && (End(s, p) in s || End(s, p) == hi)
    ensures Absorbed(s, p, need, lo, hi) == Stretched(s, p, RunEnd(s, End(s, p), p + 2 * need, lo, hi))
    decreases hi - End(s, p)
  {
    hide Stretched, AllFree, Apart;
    var n := End(s, p);
    assert SegAt(s, p, lo, hi);
    if n in s && s[n].free && s[p].size < need {
      var r := Merge(s, p);
      MergeTiled(s, p, lo, hi);
      assert SegAt(s, n, lo, hi) && SegAt(r, p, lo, hi);
      AbsorbedIsStretched(r, p, need, lo, hi);
      RunEndAfterMerge(s, p, End(s, n), p + 2 * need, lo, hi);
      StretchedAfterMerge(s, p, RunEnd(s, End(s, n), p + 2 * need, lo, hi), lo, hi);
    } else {
      StretchedToItsEnd(s, p, lo, hi);
    }
  }

  lemma StretchedAfterMerge(s: SegMap, p: nat, end: nat, lo: nat, hi: nat)
    requires Tiled(s, lo, hi) && p in s && End(s, p) in s && End(s, End(s, p)) <= end
    ensures p in Merge(s, p) && Stretched(Merge(s, p), p, end) == Stretched(s, p, end)
  {
    assert SegAt(s, p, lo, hi) && SegAt(s, End(s, p), lo, hi);
  }

  lemma StretchedToItsEnd(s: SegMap, p: nat, lo: nat, hi: nat)
    requires Tiled(s, lo, hi) && p in s
    ensures Stretched(s, p, End(s, p)) == s
  {
    forall q | q in s ensures q in Stretched(s, p, End(s, p)) { assert Apart(s, p, q); }
  }

  // Joining p with its successor does not change what lies behind.
  lemma {:induction false} RunEndAfterMerge(s: SegMap, p: nat, at: nat, limit: nat, lo: nat, hi: nat)
    requires Tiled(s, lo, hi) && p in s && End(s, p) in s && Tiled(Merge(s, p), lo, hi)
    requires End(s, p) < at && (at in s || at == hi)
    ensures RunEnd(Merge(s, p), at, limit, lo, hi) == RunEnd(s, at, limit, lo, hi)
    decreases hi - at
  {
    if at in s {
      assert SegAt(s, at, lo, hi) && SegAt(s, p, lo, hi);
      if s[at].free && at < limit { RunEndAfterMerge(s, p, End(s, at), limit, lo, hi); }
    }
  }

  // Over a free run to b and a free segment at b that passes the limit, the walk stops where that segment ends.
  lemma {:induction false} RunEndBehind(s: SegMap, at: nat, b: nat, limit: nat, lo: nat, hi: nat)
    requires Tiled(s, lo, hi) && (at in s || at == hi) && at <= b < limit && b in s
    requires AllFree(s, at, End(s, b)) && limit <= End(s, b)
    ensures RunEnd(s, at, limit, lo, hi) == End(s, b)
    decreases hi - at
  {
    assert SegAt(s, b, lo, hi);
    assert at in s ==> SegAt(s, at, lo, hi) && Apart(s, at, b);
    assert at in s;
    if at < b { RunEndBehind(s, End(s, at), b, limit, lo, hi); }
  }

  // Absorbing changes the size of p and nothing else about any segment that is live.
  lemma {:induction false} AbsorbedKeeps(s: SegMap, p: nat, need: nat, lo: nat, hi: nat)
    requires Tiled(s, lo, hi) && p in s && !s[p].free
    ensures var r := Absorbed(s, p, need, lo, hi);
      && !r[p].free && s[p].size <= r[p].size
      && (forall q :: q in s && !s[q].free && q != p ==> q in r && r[q] == s[q])
      && (forall q :: q in r && q != p ==> q in s && r[q] == s[q])
    decreases hi - End(s, p)
  {
    if End(s, p) in s && s[End(s, p)].free && s[p].size < need {
      MergeTiled(s, p, lo, hi);
      assert SegAt(Merge(s, p), p, lo, hi) && SegAt(s, End(s, p), lo, hi);
      AbsorbedKeeps(Merge(s, p), p, need, lo, hi);
    }
  }

  // ----- the outcomes, told without the steps that lead there -----

  // Segment p keeps `units` units if what is left over can be a segment of its own, which then is free, and keeps all
  // of its own otherwise. Its flag is as given, and no other segment differs.
  ghost predicate CutTo(s: SegMap, s': SegMap, p: nat, units: nat, free: bool) {
    && p in s && p in s' && s'[p].free == free
    && (forall q :: q in s && q != p ==> q in s' && s'[q] == s[q])
    && if s[p].size < units + 2 then
         s'[p].size == s[p].size && (forall q :: q in s' ==> q in s)
       else
         var rest := p + 2 * units;
         && s'[p].size == units && rest in s' && s'[rest] == Seg(s[p].size - units, true)
         && (forall q :: q in s' ==> q in s || q == rest)
  }

  lemma FragIsCut(s: SegMap, s': SegMap, p: nat, size: nat, free: bool, lo: nat, hi: nat)
    requires Tiled(s, lo, hi) && p in s && 2 <= size
    ensures p in Frag(s, p, size)
    ensures CutTo(s, s', p, size, free) <==> s' == Retag(Frag(s, p, size), p, free)
  {
    if size + 2 <= s[p].size { SplitTiled(s, p, size, lo, hi); }
  }

  // Where the joined segment begins when p is freed: at a free segment that ends at p, or else at p.
  ghost predicate JoinedFrom(s: SegMap, p: nat, a: nat) {
    || (a in s && End(s, a) == p && s[a].free)
    || (a == p && forall q :: q in s && End(s, q) == p ==> !s[q].free)
  }

  // Where it ends: with a free segment that begins where p ends, or else there.
  ghost predicate JoinedTo(s: SegMap, p: nat, b: nat)
    requires p in s
  {
    var n := End(s, p);
    if n in s && s[n].free then b == End(s, n) else b == n
  }

  // From a to b there is one free segment now, and outside all is as it was.
  ghost predicate JoinedInto(s: SegMap, s': SegMap, a: nat, b: nat) {
    && a <= b && a in s' && s'[a] == Seg((b - a) / 2, true)
    && (forall q :: q in s' ==> q == a || (q in s && (q < a || b <= q) && s'[q] == s[q]))
    && (forall q :: q in s && (q < a || b <= q) ==> q in s')
  }

  // Freeing p joins it with the free segments on either side, whatever lies beyond those.
  ghost predicate FreedTo(s: SegMap, s': SegMap, p: nat) {
    p in s && exists a, b :: JoinedFrom(s, p, a) && JoinedTo(s, p, b) && JoinedInto(s, s', a, b)
  }

  lemma CoalescedIsFreed(s: SegMap, s': SegMap, p: nat, lo: nat, hi: nat)
    requires Tiled(s, lo, hi) && p in s && !s[p].free
    ensures FreedTo(s, s', p) <==> s' == Coalesced(s, p)
  {
    var n := End(s, p);
    var a := if PrevFree(s, p) then PrevOf(s, p) else p;
    var b := if n in s && s[n].free then End(s, n) else n;
    forall q | q in s && End(s, q) == p ensures PrevOf(s, p) == q { PrevUnique(s, q, p, lo, hi); }
    assert JoinedFrom(s, p, a) && JoinedTo(s, p, b);
    forall a0, b0 | JoinedFrom(s, p, a0) && JoinedTo(s, p, b0) ensures a0 == a && b0 == b { }
    CoalescedIsOne(s, p, a, b, lo, hi);
    if FreedTo(s, s', p) { OneJoined(s, s', Coalesced(s, p), a, b); }
  }

  lemma OneJoined(s: SegMap, s1: SegMap, s2: SegMap, a: nat, b: nat)
    requires JoinedInto(s, s1, a, b) && JoinedInto(s, s2, a, b)
    ensures s1 == s2
  {
  }

  lemma CoalescedIsOne(s: SegMap, p: nat, a: nat, b: nat, lo: nat, hi: nat)
    requires Tiled(s, lo, hi) && p in s && !s[p].free
    requires a == if PrevFree(s, p) then PrevOf(s, p) else p
    requires JoinedTo(s, p, b)
    ensures JoinedInto(s, Coalesced(s, p), a, b)
  {
    var n, r := End(s, p), Coalesced(s, p);
    assert SegAt(s, p, lo, hi) && SegAt(s, a, lo, hi);
    assert n in s ==> SegAt(s, n, lo, hi);
    forall q | q in s ensures q < a || b <= q || q == a || q == p || q == n {
      assert Apart(s, q, a) && Apart(s, a, q) && Apart(s, p, q) && Apart(s, n, q);
    }
  }

  // ----- neighbours are never both free, while only malloc and free are used -----

  ghost predicate NotBothFree(s: SegMap, p: nat) {
    p in s && s[p].free && End(s, p) in s ==> !s[End(s, p)].free
  }

  ghost predicate NoFreeNeighbours(s: SegMap) {
    forall p {:trigger NotBothFree(s, p)} :: NotBothFree(s, p)
  }

  lemma ReuseNoFreeNeighbours(s: SegMap, p: nat, size: nat, lo: nat, hi: nat)
    requires Tiled(s, lo, hi) && NoFreeNeighbours(s) && p in s && s[p].free && 2 <= size
    ensures p in Frag(s, p, size) && NoFreeNeighbours(Retag(Frag(s, p, size), p, false))
  {
    if size + 2 <= s[p].size { SplitTiled(s, p, size, lo, hi); }
    var r := Retag(Frag(s, p, size), p, false);
    assert SegAt(s, p, lo, hi) && NotBothFree(s, p);
    forall q
      ensures NotBothFree(r, q)
    {
      assert NotBothFree(s, q) && Apart(s, q, p) && Apart(s, p, q);
    }
  }

  lemma GrownNoFreeNeighbours(s: SegMap, size: nat, unit: nat, lo: nat, hi: nat)
    requires Tiled(s, lo, hi) && NoFreeNeighbours(s) && 1 <= size
    ensures NoFreeNeighbours(Grown(s, hi, size, unit))
  {
    var r := Grown(s, hi, size, unit);
    forall q
      ensures NotBothFree(r, q)
    {
      assert NotBothFree(s, q);
      assert q in s ==> SegAt(s, q, lo, hi);
      assert forall o :: o in s && hi <= o ==> SegAt(s, o, lo, hi);
    }
  }

  // Freeing joins both neighbours, so what is left on either side is live.
  lemma CoalescedNoFreeNeighbours(s: SegMap, p: nat, lo: nat, hi: nat)
    requires Tiled(s, lo, hi) && NoFreeNeighbours(s) && p in s && !s[p].free
    ensures NoFreeNeighbours(Coalesced(s, p))
  {
    if PrevFree(s, p) {
      var prev := PrevOf(s, p);
      MergeTiled(s, prev, lo, hi);
      assert NotBothFree(s, prev);
      forall q ensures q in s && End(s, q) == prev ==> !s[q].free { assert NotBothFree(s, q); }
      forall q ensures q != prev ==> NotBothFree(Merge(s, prev), q) {
        assert NotBothFree(s, q) && Apart(s, prev, q) && Apart(s, q, prev);
        assert q in s ==> SegAt(s, q, lo, hi);
      }
      JoinedNoFreeNeighbours(Merge(s, prev), prev, lo, hi);
    } else {
      forall q | q in s && End(s, q) == p ensures !s[q].free { PrevUnique(s, q, p, lo, hi); }
      forall q ensures q != p ==> NotBothFree(s, q) { assert NotBothFree(s, q); }
      JoinedNoFreeNeighbours(s, p, lo, hi);
    }
  }

  lemma PrevUnique(s: SegMap, q: nat, p: nat, lo: nat, hi: nat)
    requires Tiled(s, lo, hi) && q in s && End(s, q) == p
    ensures PrevOf(s, p) == q
  {
    var r := PrevOf(s, p);
    assert SegAt(s, q, lo, hi) && SegAt(s, r, lo, hi) && Apart(s, q, r) && Apart(s, r, q);
  }

  lemma BlocksApart(s: SegMap, p: nat, q: nat, lo: nat, hi: nat)
    requires Tiled(s, lo, hi) && p in s && q in s && p != q
    ensures End(s, p) <= q || End(s, q) <= p
    ensures End(s, p) <= hi && End(s, q) <= hi
  {
    assert SegAt(s, p, lo, hi) && SegAt(s, q, lo, hi) && Apart(s, p, q) && Apart(s, q, p);
  }

  // Neighbours other than p are not both free, nor is p's predecessor: then joining p with its successor is enough.
  lemma JoinedNoFreeNeighbours(s: SegMap, p: nat, lo: nat, hi: nat)
    requires Tiled(s, lo, hi) && p in s
    requires forall q {:trigger NotBothFree(s, q)} :: q != p ==> NotBothFree(s, q)
    requires forall q :: q in s && End(s, q) == p ==> !s[q].free
    requires End(s, p) in s && s[End(s, p)].free ==> NotBothFree(s, End(s, p))
    ensures NoFreeNeighbours(Retag(JoinNext(s, p), p, true))
  {
    var r, n := Retag(JoinNext(s, p), p, true), End(s, p);
    assert SegAt(s, p, lo, hi);
    assert n in s ==> SegAt(s, n, lo, hi);
    forall q
      ensures NotBothFree(r, q)
    {
      assert q != p ==> NotBothFree(s, q);
      assert Apart(s, p, q) && Apart(s, q, p);
      assert q in s ==> SegAt(s, q, lo, hi);
    }
  }

  // With every segment free and no free neighbours, there is at most one segment.
  lemma AllFreeIsOne(s: SegMap, lo: nat, hi: nat, p: nat)
    requires Tiled(s, lo, hi) && NoFreeNeighbours(s) && (forall q :: q in s ==> s[q].free) && p in s
    ensures s == map[lo := Seg((hi - lo) / 2, true)]
  {
    assert SegAt(s, p, lo, hi) && SegAt(s, lo, lo, hi) && NotBothFree(s, lo);
    forall q | q in s
      ensures q == lo
    {
      assert SegAt(s, q, lo, hi) && Apart(s, lo, q);
    }
  }

  // ----- sizes -----

  // The sum of the sizes of the segments from `at` on.
  function TotalSize(s: SegMap, at: nat, lo: nat, hi: nat): nat
    requires Tiled(s, lo, hi) && (at in s || at == hi)
    decreases hi - at
  {
    if at in s then
      assert SegAt(s, at, lo, hi);
      s[at].size + TotalSize(s, End(s, at), lo, hi)
    else 0
  }

  lemma {:induction false} SizesFillHeap(s: SegMap, at: nat, lo: nat, hi: nat)
    requires Tiled(s, lo, hi) && (at in s || at == hi)
    ensures at + 2 * TotalSize(s, at, lo, hi) == hi
    decreases hi - at
  {
    if at in s {
      assert SegAt(s, at, lo, hi);
      SizesFillHeap(s, End(s, at), lo, hi);
    } else {
    }
  }
}
