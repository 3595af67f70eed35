/**
  What a client may expect of an allocator, whatever its representation. A live block is named by the address of
  its 2-word header and sized in words, header included; its payload is everything after the header.
 */
module AllocSpec {
  import opened MemLib

  type Live = map<nat, nat>

  ghost predicate Same(m: seq<Word>, n: seq<Word>, w: int) {
    0 <= w < |m| && w < |n| ==> n[w] == m[w]
  }

  ghost predicate KeptAt(m: seq<Word>, n: seq<Word>, live: Live, p: nat, w: nat) {
    p in live && p + 2 <= w < p + live[p] ==> Same(m, n, w)
  }

  // No payload word of a live block differs between m and n.
  ghost predicate Kept(m: seq<Word>, n: seq<Word>, live: Live) {
    |n| == |m| && forall p, w {:trigger KeptAt(m, n, live, p, w)} :: KeptAt(m, n, live, p, w)
  }

  ghost predicate Within(a: Live, b: Live) {
    forall p :: p in a ==> p in b && a[p] <= b[p]
  }

  lemma KeptTransitive(l: seq<Word>, m: seq<Word>, n: seq<Word>, a: Live, b: Live, c: Live)
    requires Kept(l, m, a) && Kept(m, n, b) && Within(c, a) && Within(c, b)
    ensures Kept(l, n, c)
  {
    forall p, w ensures KeptAt(l, n, c, p, w) {
      assert KeptAt(l, m, a, p, w) && KeptAt(m, n, b, p, w);
    }
  }

  function Capacity(live: Live, p: nat): int
    requires p in live
  {
    4 * (live[p] as int) - 8
  }

  ghost predicate BlockAt(live: Live, p: nat, brk: nat) {
    p in live && p % 2 == 0 && live[p] >= 2 && p + live[p] <= brk
  }

  ghost predicate Disjoint(live: Live, p: nat, q: nat) {
    p in live && q in live && p < q ==> p + live[p] <= q
  }

  // Every payload is 8-byte aligned and inside the heap, and no two blocks share a word.
  ghost predicate WellPlaced(live: Live, brk: nat) {
    && (forall p {:trigger BlockAt(live, p, brk)} :: p in live ==> BlockAt(live, p, brk))
    && (forall p, q {:trigger Disjoint(live, p, q)} :: Disjoint(live, p, q))
  }

  ghost predicate MallocSpec(m: seq<Word>, live: Live, n: seq<Word>, live': Live, p: nat, size: nat) {
    && p !in live && p in live' && live' == live[p := live'[p]]
    && Capacity(live', p) >= size
    && Kept(m, n, live)
  }

  ghost predicate FreeSpec(m: seq<Word>, live: Live, n: seq<Word>, live': Live, p: nat) {
    && p in live && live' == live - {p}
    && Kept(m, n, live')
  }

  ghost predicate ByteMoved(m: seq<Word>, p: nat, n: seq<Word>, q: nat, j: int) {
    ByteAt(n, 4 * (q + 2) + j) == ByteAt(m, 4 * (p + 2) + j)
  }

  // The first `count` payload bytes of block p in m are those of block q in n.
  ghost predicate BytesMoved(m: seq<Word>, p: nat, n: seq<Word>, q: nat, count: int) {
    forall j {:trigger ByteMoved(m, p, n, q, j)} :: 0 <= j < count ==> ByteMoved(m, p, n, q, j)
  }

  ghost predicate ReallocSpec(m: seq<Word>, live: Live, n: seq<Word>, live': Live, p: nat, q: nat, size: nat) {
    && p in live && (q == p || q !in live)
    && q in live' && live' == (live - {p})[q := live'[q]]
    && Capacity(live', q) >= size
    && Kept(m, n, live - {p})
    && BytesMoved(m, p, n, q, if size < Capacity(live, p) then size else Capacity(live, p))
  }

  lemma KeptBytes(m: seq<Word>, n: seq<Word>, live: Live, p: nat, count: nat)
    requires Kept(m, n, live) && p in live && p + live[p] <= |m| && count <= Capacity(live, p)
    ensures BytesMoved(m, p, n, p, count)
  {
    forall j | 0 <= j < count
      ensures ByteMoved(m, p, n, p, j)
    {
      var i := 4 * (p + 2) + j;
      assert KeptAt(m, n, live, p, i / 4);
    }
  }

  lemma KeptFewer(m: seq<Word>, n: seq<Word>, a: Live, c: Live)
    requires Kept(m, n, a) && Within(c, a)
    ensures Kept(m, n, c)
  {
    forall p, w ensures KeptAt(m, n, c, p, w) { assert KeptAt(m, n, a, p, w); }
  }

  // Copying `count` bytes of block p into block q and freeing p.
  lemma CopyThenFree(m: seq<Word>, m1: seq<Word>, n: seq<Word>, live: Live, live': Live, p: nat, q: nat, count: nat)
    requires p in live && q in live && p != q && q + live[q] <= |m| && count <= Capacity(live, q)
    requires Kept(m, m1, live - {q}) && BytesMoved(m, p, m1, q, count)
    requires FreeSpec(m1, live, n, live', p)
    ensures Kept(m, n, live - {q} - {p}) && BytesMoved(m, p, n, q, count)
  {
    KeptTransitive(m, m1, n, live - {q}, live', live - {q} - {p});
    KeptBytes(m1, n, live', q, count);
    forall j | 0 <= j < count
      ensures ByteMoved(m, p, n, q, j)
    {
      assert ByteMoved(m, p, m1, q, j) && ByteMoved(m1, q, n, q, j);
    }
  }

  // Allocating q, copying what fits and freeing p: what mm_realloc amounts to when the block moves.
  lemma MoveIsRealloc(m: seq<Word>, m1: seq<Word>, n: seq<Word>, live: Live, live1: Live, live2: Live,
                                         p: nat, q: nat, size: nat, count: nat)
    requires MallocSpec(m, live, m1, live1, q, size) && p in live && p + live[p] <= |m| && 0 <= Capacity(live, p)
    requires count == if size < Capacity(live, p) then size else Capacity(live, p)
    requires Kept(m1, n, live1 - {q} - {p}) && BytesMoved(m1, p, n, q, count) && live2 == live1 - {p}
    ensures ReallocSpec(m, live, n, live2, p, q, size)
  {
    KeptTransitive(m, m1, n, live, live1 - {q} - {p}, live - {p});
    KeptBytes(m, m1, live, p, count);
    forall j | 0 <= j < count
      ensures ByteMoved(m, p, n, q, j)
    {
      assert ByteMoved(m, p, m1, p, j) && ByteMoved(m1, p, n, q, j);
    }
  }
}
