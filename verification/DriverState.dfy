/**
  What the driver mdriver.c knows between two requests of a trace: which ids are live, which blocks they own,
  what their payloads hold, and what the range list records.
 */
module DriverState {
  import opened MemLib
  import opened AllocSpec

  datatype Op = Alloc(index: nat, size: nat) | Realloc(index: nat, size: nat) | Free(index: nat)

  // Request n allocates an id that has no block, or resizes or frees one that has, with a size the driver accepts.
  predicate RequestOk(trace: seq<Op>, n: nat, numIds: nat, maxSize: nat)
    requires n < |trace|
  {
    var live := Requested(trace, n);
    match trace[n]
    case Alloc(id, size) => id < numIds && id !in live && 1 <= size <= maxSize
    case Realloc(id, size) => id < numIds && id in live && 1 <= size <= maxSize
    case Free(id) => id < numIds && id in live
  }

  ghost predicate WellFormed(trace: seq<Op>, numIds: nat, maxSize: nat) {
    forall n :: 0 <= n < |trace| ==> RequestOk(trace, n, numIds, maxSize)
  }

  // The sizes requested for the ids that have a block after the first n requests.
  function Requested(trace: seq<Op>, n: nat): map<nat, nat>
    requires n <= |trace|
  {
    if n == 0 then map[]
    else
      match trace[n - 1]
      case Alloc(id, size) => Requested(trace, n - 1)[id := size]
      case Realloc(id, size) => Requested(trace, n - 1)[id := size]
      case Free(id) => Requested(trace, n - 1) - {id}
  }

  function SumSizes(sizes: map<nat, nat>, n: nat): nat {
    if n == 0 then 0 else SumSizes(sizes, n - 1) + if n - 1 in sizes then sizes[n - 1] else 0
  }

  // The most bytes requested and live at any one time during the first n requests.
  function HighWater(trace: seq<Op>, n: nat, numIds: nat): nat
    requires n <= |trace|
  {
    if n == 0 then 0
    else
      var before, now := HighWater(trace, n - 1, numIds), SumSizes(Requested(trace, n), numIds);
      if now > before then now else before
  }

  // It is the largest of the sums after each number of requests.
  lemma {:induction false} HighWaterIsMost(trace: seq<Op>, n: nat, numIds: nat)
    requires n <= |trace|
    ensures forall k :: 0 <= k <= n ==> SumSizes(Requested(trace, k), numIds) <= HighWater(trace, n, numIds)
    ensures exists k :: 0 <= k <= n && SumSizes(Requested(trace, k), numIds) == HighWater(trace, n, numIds)
  {
    if n == 0 {
      NoSizes(numIds);
      assert SumSizes(Requested(trace, 0), numIds) == 0;
    } else {
      HighWaterIsMost(trace, n - 1, numIds);
      var k :| 0 <= k <= n - 1 && SumSizes(Requested(trace, k), numIds) == HighWater(trace, n - 1, numIds);
    }
  }

  lemma {:induction false} NoSizes(n: nat)
    ensures SumSizes(map[], n) == 0
  {
    if n > 0 { NoSizes(n - 1); }
  }

  // Request k is the last one among the first n that names the id.
  ghost predicate LastOf(trace: seq<Op>, n: nat, id: nat, k: int) {
    0 <= k < n <= |trace| && trace[k].index == id && forall j :: k < j < n ==> trace[j].index != id
  }

  // An id has a block exactly if the last request for it was not a free, and then of the size asked for last.
  lemma {:induction false} RequestedLast(trace: seq<Op>, n: nat, id: nat)
    requires n <= |trace|
    ensures id in Requested(trace, n) <==> exists k :: LastOf(trace, n, id, k) && !trace[k].Free?
    ensures forall k :: LastOf(trace, n, id, k) && !trace[k].Free? ==> Requested(trace, n)[id] == trace[k].size
  {
    if n > 0 {
      RequestedLast(trace, n - 1, id);
      if trace[n - 1].index == id {
        assert LastOf(trace, n, id, n - 1);
        forall k | LastOf(trace, n, id, k) ensures k == n - 1 { }
      } else {
        forall k ensures LastOf(trace, n, id, k) <==> LastOf(trace, n - 1, id, k) { }
        assert id in Requested(trace, n) <==> id in Requested(trace, n - 1);
      }
    }
  }

  lemma {:induction false} SumSizesRemove(sizes: map<nat, nat>, n: nat, id: nat)
    ensures SumSizes(sizes, n) == SumSizes(sizes - {id}, n) + if id < n && id in sizes then sizes[id] else 0
  {
    if n > 0 { SumSizesRemove(sizes, n - 1, id); }
  }

  lemma SumSizesPut(sizes: map<nat, nat>, n: nat, id: nat, size: nat)
    requires id < n
    ensures SumSizes(sizes[id := size], n) == SumSizes(sizes - {id}, n) + size
  {
    SumSizesRemove(sizes[id := size], n, id);
    assert sizes[id := size] - {id} == sizes - {id};
  }

  // Byte offsets of the first and the last byte of a payload.
  datatype Range = Range(lo: nat, hi: nat)

  // ----- the range list -----

  // The first record from i on that starts at lo.
  function RangeAt(ranges: seq<Range>, lo: nat, i: nat): (r: nat)
    requires i <= |ranges|
    ensures i <= r <= |ranges| && (r < |ranges| ==> ranges[r].lo == lo)
    ensures forall k :: i <= k < r ==> ranges[k].lo != lo
    decreases |ranges| - i
  {
    if i == |ranges| || ranges[i].lo == lo then i else RangeAt(ranges, lo, i + 1)
  }

  // The test of add_range: one end of the new range lies in an old one.
  predicate Hits(lo: nat, hi: nat, p: Range) {
    (lo >= p.lo && lo <= p.hi) || (hi >= p.lo && hi <= p.hi)
  }

  predicate Overlap(lo: nat, hi: nat, p: Range) {
    lo <= p.hi && p.lo <= hi
  }

  // Every live id has an aligned payload of the requested size inside the heap, which holds the low byte of the id
  // throughout, and no two payloads share a byte.
  ghost predicate Intact(m: seq<Word>, blocks: seq<nat>, requested: map<nat, nat>, brk: nat) {
    && (forall id :: id in requested ==>
          && id < |blocks| && 4 * blocks[id] % 8 == 0 && 4 * blocks[id] + requested[id] <= 4 * brk
          && forall i {:trigger ByteAt(m, i)} :: 4 * blocks[id] <= i < 4 * blocks[id] + requested[id] ==> ByteAt(m, i) == id % 256)
    && (forall a, b :: a in requested && b in requested && a < |blocks| && b < |blocks| && a != b ==>
          4 * blocks[a] + requested[a] <= 4 * blocks[b] || 4 * blocks[b] + requested[b] <= 4 * blocks[a])
  }

  // What add_range tests: alignment, the extent of the heap, and every recorded range.
  ghost predicate Acceptable(ranges: seq<Range>, lo: nat, size: nat, heapBytes: nat) {
    1 <= size && lo % 8 == 0 && lo + size <= heapBytes && forall r :: r in ranges ==> !Hits(lo, lo + size - 1, r)
  }

  // The test sees an overlap unless the new range reaches beyond the old one on both sides.
  lemma HitsExactly(lo: nat, hi: nat, p: Range)
    requires lo <= hi && p.lo <= p.hi
    ensures Hits(lo, hi, p) <==> Overlap(lo, hi, p) && !(lo < p.lo && p.hi < hi)
  {
  }

  // ----- what the driver knows between requests -----

  // Block `id` is live and large enough for its request.
  ghost predicate OwnsBlock(live: Live, blocks: seq<nat>, sizes: seq<nat>, id: nat) {
    && id < |blocks| && id < |sizes|
    && 2 <= blocks[id] && blocks[id] - 2 in live && 1 <= sizes[id] <= Capacity(live, blocks[id] - 2)
  }

  ghost predicate HasOwner(live: Live, b: nat, blocks: seq<nat>, ids: set<nat>) {
    b in live ==> exists id :: id in ids && id < |blocks| && blocks[id] == b + 2
  }

  ghost predicate Distinct(blocks: seq<nat>, a: nat, b: nat) {
    a < |blocks| && b < |blocks| && blocks[a] == blocks[b] ==> a == b
  }

  // The live ids own the live blocks, one each.
  ghost predicate Owners(live: Live, blocks: seq<nat>, sizes: seq<nat>, ids: set<nat>) {
    && |blocks| == |sizes|
    && (forall id {:trigger OwnsBlock(live, blocks, sizes, id)} :: id in ids ==> OwnsBlock(live, blocks, sizes, id))
    && (forall a, b {:trigger Distinct(blocks, a, b)} :: a in ids && b in ids ==> Distinct(blocks, a, b))
    && (forall b {:trigger HasOwner(live, b, blocks, ids)} :: HasOwner(live, b, blocks, ids))
  }

  ghost predicate FilledByte(m: seq<Word>, p: nat, id: nat, j: int) {
    ByteAt(m, 4 * p + j) == id % 256
  }

  // The payload holds the low byte of its id throughout.
  ghost predicate FilledBlock(m: seq<Word>, blocks: seq<nat>, sizes: seq<nat>, id: nat) {
    id < |blocks| && id < |sizes| ==>
      forall j {:trigger FilledByte(m, blocks[id], id, j)} :: 0 <= j < sizes[id] ==> FilledByte(m, blocks[id], id, j)
  }

  ghost predicate Filled(m: seq<Word>, blocks: seq<nat>, sizes: seq<nat>, ids: set<nat>) {
    forall id {:trigger FilledBlock(m, blocks, sizes, id)} :: id in ids ==> FilledBlock(m, blocks, sizes, id)
  }

  ghost predicate RangeOf(r: Range, blocks: seq<nat>, sizes: seq<nat>, id: nat) {
    id < |blocks| && id < |sizes| && 1 <= sizes[id] && r == Range(4 * blocks[id], 4 * blocks[id] + sizes[id] - 1)
  }

  ghost predicate Recorded(ranges: seq<Range>, blocks: seq<nat>, sizes: seq<nat>, id: nat) {
    exists k :: 0 <= k < |ranges| && RangeOf(ranges[k], blocks, sizes, id)
  }

  ghost predicate RangeOwned(ranges: seq<Range>, k: nat, blocks: seq<nat>, sizes: seq<nat>, ids: set<nat>) {
    k < |ranges| ==> exists id :: id in ids && RangeOf(ranges[k], blocks, sizes, id)
  }

  // The range list has one record for each live id and no other.
  ghost predicate Ranges(ranges: seq<Range>, blocks: seq<nat>, sizes: seq<nat>, ids: set<nat>) {
    && (forall id {:trigger Recorded(ranges, blocks, sizes, id)} :: id in ids ==> Recorded(ranges, blocks, sizes, id))
    && (forall k {:trigger RangeOwned(ranges, k, blocks, sizes, ids)} :: RangeOwned(ranges, k, blocks, sizes, ids))
    && (forall k, l :: 0 <= k < l < |ranges| ==> ranges[k].lo != ranges[l].lo)
  }

  lemma IdFacts(live: Live, blocks: seq<nat>, sizes: seq<nat>, ids: set<nat>, id: nat)
    requires Owners(live, blocks, sizes, ids) && id in ids
    ensures id < |blocks| && 2 <= blocks[id] && blocks[id] - 2 in live
  {
    assert OwnsBlock(live, blocks, sizes, id);
  }

  // The driver's tables agree with the trace.
  ghost predicate SizesAgree(sizes: seq<nat>, requested: map<nat, nat>) {
    forall id :: id in requested ==> id < |sizes| && sizes[id] == requested[id]
  }

  lemma SizesPut(sizes: seq<nat>, requested: map<nat, nat>, id: nat, size: nat)
    requires SizesAgree(sizes, requested) && id < |sizes|
    ensures SizesAgree(sizes[id := size], requested[id := size])
  {
  }

  lemma SizesDrop(sizes: seq<nat>, requested: map<nat, nat>, id: nat)
    requires SizesAgree(sizes, requested)
    ensures SizesAgree(sizes, requested - {id})
  {
  }

  function Interval(a: int, b: int): (s: set<int>)
    requires a <= b
    ensures forall x :: x in s <==> a <= x < b
    ensures |s| == b - a
    decreases b - a
  {
    if a == b then {} else Interval(a, b - 1) + {b - 1}
  }

  lemma SubsetSize(a: set<int>, b: set<int>)
    requires a <= b
    ensures |a| <= |b|
  {
    assert b == a + (b - a);
  }

  ghost function PayloadBytes(blocks: seq<nat>, requested: map<nat, nat>, id: nat): set<int>
    requires id < |blocks|
  {
    if id in requested then Interval(4 * blocks[id], 4 * blocks[id] + requested[id]) else {}
  }

  ghost function AllPayloadBytes(blocks: seq<nat>, requested: map<nat, nat>, n: nat): set<int>
    requires n <= |blocks|
  {
    if n == 0 then {} else AllPayloadBytes(blocks, requested, n - 1) + PayloadBytes(blocks, requested, n - 1)
  }

  lemma PayloadsApart(live: Live, blocks: seq<nat>, sizes: seq<nat>, requested: map<nat, nat>, a: nat, b: nat, brk: nat)
    requires Owners(live, blocks, sizes, requested.Keys) && SizesAgree(sizes, requested) && WellPlaced(live, brk)
    requires a < b < |blocks|
    ensures PayloadBytes(blocks, requested, a) !! PayloadBytes(blocks, requested, b)
  {
    if a in requested {
      assert OwnsBlock(live, blocks, sizes, a) && BlockAt(live, blocks[a] - 2, brk);
      if b in requested {
        assert OwnsBlock(live, blocks, sizes, b) && Distinct(blocks, a, b);
        assert Disjoint(live, blocks[a] - 2, blocks[b] - 2) && Disjoint(live, blocks[b] - 2, blocks[a] - 2);
      }
    }
  }

  lemma {:induction false} AllPayloadsApart(live: Live, blocks: seq<nat>, sizes: seq<nat>, requested: map<nat, nat>, n: nat, id: nat, brk: nat)
    requires Owners(live, blocks, sizes, requested.Keys) && SizesAgree(sizes, requested) && WellPlaced(live, brk) && n <= id < |blocks|
    ensures AllPayloadBytes(blocks, requested, n) !! PayloadBytes(blocks, requested, id)
  {
    hide Owners, SizesAgree, WellPlaced, PayloadBytes;
    if n > 0 {
      AllPayloadsApart(live, blocks, sizes, requested, n - 1, id, brk);
      PayloadsApart(live, blocks, sizes, requested, n - 1, id, brk);
    }
  }

  // One more id, in terms of sets alone.
  lemma NextPayload(blocks: seq<nat>, requested: map<nat, nat>, n: nat, top: set<int>)
    requires 0 < n <= |blocks|
    requires var a, b := AllPayloadBytes(blocks, requested, n - 1), PayloadBytes(blocks, requested, n - 1);
      && a !! b && a <= top && b <= top && |a| == SumSizes(requested, n - 1)
      && |b| == if n - 1 in requested then requested[n - 1] else 0
    ensures |AllPayloadBytes(blocks, requested, n)| == SumSizes(requested, n) && AllPayloadBytes(blocks, requested, n) <= top
  {
    hide PayloadBytes;
  }

  // Disjoint payloads: as many bytes as were requested, all of them inside the heap.
  lemma {:induction false} PayloadBytesCount(live: Live, blocks: seq<nat>, sizes: seq<nat>, requested: map<nat, nat>, n: nat, brk: nat)
    requires Owners(live, blocks, sizes, requested.Keys) && SizesAgree(sizes, requested) && WellPlaced(live, brk) && n <= |blocks|
    ensures |AllPayloadBytes(blocks, requested, n)| == SumSizes(requested, n)
    ensures AllPayloadBytes(blocks, requested, n) <= Interval(0, 4 * brk)
  {
    hide Owners, SizesAgree, WellPlaced, PayloadBytes, Interval;
    if n > 0 {
      PayloadBytesCount(live, blocks, sizes, requested, n - 1, brk);
      AllPayloadsApart(live, blocks, sizes, requested, n - 1, n - 1, brk);
      PayloadInHeap(live, blocks, sizes, requested, n - 1, brk);
      hide AllPayloadBytes, SumSizes;
      NextPayload(blocks, requested, n, Interval(0, 4 * brk));
    }
  }

  lemma PayloadInHeap(live: Live, blocks: seq<nat>, sizes: seq<nat>, requested: map<nat, nat>, a: nat, brk: nat)
    requires Owners(live, blocks, sizes, requested.Keys) && SizesAgree(sizes, requested) && WellPlaced(live, brk) && a < |blocks|
    ensures PayloadBytes(blocks, requested, a) <= Interval(0, 4 * brk)
    ensures |PayloadBytes(blocks, requested, a)| == if a in requested then requested[a] else 0
  {
    if a in requested {
      assert OwnsBlock(live, blocks, sizes, a) && BlockAt(live, blocks[a] - 2, brk);
    }
  }

  // Live requested bytes never exceed the heap.
  lemma RequestedFit(live: Live, blocks: seq<nat>, sizes: seq<nat>, requested: map<nat, nat>, brk: nat)
    requires Owners(live, blocks, sizes, requested.Keys) && SizesAgree(sizes, requested) && WellPlaced(live, brk)
    ensures SumSizes(requested, |blocks|) <= 4 * brk
  {
    PayloadBytesCount(live, blocks, sizes, requested, |blocks|, brk);
    SubsetSize(AllPayloadBytes(blocks, requested, |blocks|), Interval(0, 4 * brk));
  }

  // ----- an id gives its block up -----

  lemma OwnersDrop(live: Live, blocks: seq<nat>, sizes: seq<nat>, ids: set<nat>, id: nat)
    requires Owners(live, blocks, sizes, ids) && id in ids
    ensures id < |blocks| && 2 <= blocks[id] && blocks[id] - 2 in live
    ensures Owners(live - {blocks[id] - 2}, blocks, sizes, ids - {id})
  {
    assert OwnsBlock(live, blocks, sizes, id);
    var live' := live - {blocks[id] - 2};
    forall a | a in ids - {id} ensures OwnsBlock(live', blocks, sizes, a) {
      assert OwnsBlock(live, blocks, sizes, a) && Distinct(blocks, a, id);
    }
    forall a, b | a in ids - {id} && b in ids - {id} ensures Distinct(blocks, a, b) { }
    forall b: nat ensures HasOwner(live', b, blocks, ids - {id}) { assert HasOwner(live, b, blocks, ids); }
  }

  lemma RangesDrop(ranges: seq<Range>, live: Live, blocks: seq<nat>, sizes: seq<nat>, ids: set<nat>, id: nat, at: nat)
    requires Ranges(ranges, blocks, sizes, ids) && Owners(live, blocks, sizes, ids) && id in ids && id < |blocks|
    requires at <= |ranges| && (forall k :: 0 <= k < at ==> ranges[k].lo != 4 * blocks[id])
    requires at < |ranges| ==> ranges[at].lo == 4 * blocks[id]
    ensures at < |ranges| && Ranges(ranges[..at] + ranges[at + 1..], blocks, sizes, ids - {id})
  {
    assert Recorded(ranges, blocks, sizes, id);
    var r := ranges[..at] + ranges[at + 1..];
    forall a | a in ids - {id} ensures Recorded(r, blocks, sizes, a) {
      assert Recorded(ranges, blocks, sizes, a) && Distinct(blocks, a, id);
      var k :| 0 <= k < |ranges| && RangeOf(ranges[k], blocks, sizes, a);
      assert ranges[k] == r[if k < at then k else k - 1];
    }
    forall k: nat ensures RangeOwned(r, k, blocks, sizes, ids - {id}) {
      if k < |r| {
        var j := if k < at then k else k + 1;
        assert RangeOwned(ranges, j, blocks, sizes, ids) && r[k] == ranges[j];
      }
    }
  }

  // ----- the allocator works on other blocks -----

  lemma FilledKept(m: seq<Word>, n: seq<Word>, live: Live, blocks: seq<nat>, sizes: seq<nat>, ids: set<nat>, brk: nat)
    requires Filled(m, blocks, sizes, ids) && Owners(live, blocks, sizes, ids) && WellPlaced(live, brk) && brk <= |m|
    requires Kept(m, n, live)
    ensures Filled(n, blocks, sizes, ids)
  {
    forall id | id in ids
      ensures FilledBlock(n, blocks, sizes, id)
    {
      assert OwnsBlock(live, blocks, sizes, id) && FilledBlock(m, blocks, sizes, id);
      var p := blocks[id] - 2;
      assert BlockAt(live, p, brk);
      KeptBytes(m, n, live, p, sizes[id]);
      forall j | 0 <= j < sizes[id]
        ensures FilledByte(n, blocks[id], id, j)
      {
        assert ByteMoved(m, p, n, p, j) && FilledByte(m, blocks[id], id, j);
      }
    }
  }

  // ----- an id receives a block -----

  lemma OwnersAdd(live: Live, live': Live, blocks: seq<nat>, sizes: seq<nat>, ids: set<nat>, id: nat, p: nat, size: nat)
    requires Owners(live, blocks, sizes, ids) && id !in ids && id < |blocks|
    requires 2 <= p && p - 2 !in live && p - 2 in live' && live' == live[p - 2 := live'[p - 2]] && 1 <= size <= Capacity(live', p - 2)
    ensures Owners(live', blocks[id := p], sizes[id := size], ids + {id})
  {
    var blocks', sizes' := blocks[id := p], sizes[id := size];
    forall a | a in ids + {id} ensures OwnsBlock(live', blocks', sizes', a) {
      if a != id { assert OwnsBlock(live, blocks, sizes, a); }
    }
    forall a, b | a in ids + {id} && b in ids + {id} ensures Distinct(blocks', a, b) {
      if a in ids && b in ids { assert Distinct(blocks, a, b); }
      if a in ids { assert OwnsBlock(live, blocks, sizes, a); }
      if b in ids { assert OwnsBlock(live, blocks, sizes, b); }
    }
    forall b: nat ensures HasOwner(live', b, blocks', ids + {id}) {
      assert HasOwner(live, b, blocks, ids);
      if b in live {
        var o :| o in ids && o < |blocks| && blocks[o] == b + 2;
        assert blocks'[o] == b + 2;
      } else if b == p - 2 {
        assert blocks'[id] == b + 2;
      }
    }
  }

  lemma RangesAdd(ranges: seq<Range>, live: Live, blocks: seq<nat>, sizes: seq<nat>, ids: set<nat>, id: nat, p: nat, size: nat)
    requires Ranges(ranges, blocks, sizes, ids) && Owners(live, blocks, sizes, ids) && id !in ids && id < |blocks|
    requires 2 <= p && p - 2 !in live && 1 <= size
    ensures Ranges([Range(4 * p, 4 * p + size - 1)] + ranges, blocks[id := p], sizes[id := size], ids + {id})
  {
    var r, blocks', sizes' := [Range(4 * p, 4 * p + size - 1)] + ranges, blocks[id := p], sizes[id := size];
    forall a | a in ids + {id} ensures Recorded(r, blocks', sizes', a) {
      if a == id {
        assert RangeOf(r[0], blocks', sizes', id);
      } else {
        assert Recorded(ranges, blocks, sizes, a);
        var k :| 0 <= k < |ranges| && RangeOf(ranges[k], blocks, sizes, a);
        assert RangeOf(r[k + 1], blocks', sizes', a);
      }
    }
    forall k: nat ensures RangeOwned(r, k, blocks', sizes', ids + {id}) {
      if k == 0 {
        assert RangeOf(r[0], blocks', sizes', id);
      } else if k < |r| {
        assert RangeOwned(ranges, k - 1, blocks, sizes, ids);
        var o :| o in ids && RangeOf(ranges[k - 1], blocks, sizes, o);
        assert RangeOf(r[k], blocks', sizes', o);
      }
    }
    forall k: nat | k < |ranges| ensures ranges[k].lo != 4 * p {
      assert RangeOwned(ranges, k, blocks, sizes, ids);
      var o :| o in ids && RangeOf(ranges[k], blocks, sizes, o);
      assert OwnsBlock(live, blocks, sizes, o);
    }
  }

  lemma FilledAdd(m: seq<Word>, n: seq<Word>, live: Live, blocks: seq<nat>, sizes: seq<nat>, ids: set<nat>, id: nat, p: nat, size: nat, brk: nat)
    requires Filled(m, blocks, sizes, ids) && Owners(live, blocks, sizes, ids) && WellPlaced(live, brk) && brk <= |m| && id !in ids && id < |blocks|
    requires Kept(m, n, live) && BytesFilled(m, n, 4 * p, size, id % 256) && 4 * p + size <= 4 * |m|
    ensures Filled(n, blocks[id := p], sizes[id := size], ids + {id})
  {
    FilledKept(m, n, live, blocks, sizes, ids, brk);
    forall a | a in ids + {id} ensures FilledBlock(n, blocks[id := p], sizes[id := size], a) {
      if a != id { assert FilledBlock(n, blocks, sizes, a); }
    }
  }

  // A new block passes every test of add_range.
  lemma FreshRange(ranges: seq<Range>, live: Live, live': Live, blocks: seq<nat>, sizes: seq<nat>, ids: set<nat>, q: nat, size: nat, brk: nat)
    requires Ranges(ranges, blocks, sizes, ids) && Owners(live, blocks, sizes, ids) && q !in live
    requires q in live' && live' == live[q := live'[q]] && 1 <= size <= Capacity(live', q) && WellPlaced(live', brk)
    ensures (4 * (q + 2)) % 8 == 0 && 4 * (q + 2) + size <= 4 * brk
    ensures forall p :: p in ranges ==> !Hits(4 * (q + 2), 4 * (q + 2) + size - 1, p)
  {
    assert BlockAt(live', q, brk);
    forall r | r in ranges
      ensures !Hits(4 * (q + 2), 4 * (q + 2) + size - 1, r)
    {
      var k :| 0 <= k < |ranges| && ranges[k] == r;
      assert RangeOwned(ranges, k, blocks, sizes, ids);
      var o :| o in ids && RangeOf(r, blocks, sizes, o);
      assert OwnsBlock(live, blocks, sizes, o);
      var b := blocks[o] - 2;
      assert b in live' && live'[b] == live[b] && b != q;
      assert Disjoint(live', b, q) && Disjoint(live', q, b);
    }
  }

  // ----- whole steps -----

  // The live ids own the live blocks, every payload holds its pattern, and the range list is right.
  ghost predicate InOrder(m: seq<Word>, live: Live, ranges: seq<Range>, blocks: seq<nat>, sizes: seq<nat>, ids: set<nat>) {
    Owners(live, blocks, sizes, ids) && Filled(m, blocks, sizes, ids) && Ranges(ranges, blocks, sizes, ids)
  }

  // What being in order means for a client.
  lemma OrderMeans(m: seq<Word>, live: Live, ranges: seq<Range>, blocks: seq<nat>, sizes: seq<nat>, requested: map<nat, nat>, brk: nat)
    requires InOrder(m, live, ranges, blocks, sizes, requested.Keys) && SizesAgree(sizes, requested) && WellPlaced(live, brk)
    ensures Intact(m, blocks, requested, brk)
  {
    forall id | id in requested
      ensures id < |blocks| && 4 * blocks[id] % 8 == 0 && 4 * blocks[id] + requested[id] <= 4 * brk
      ensures forall i {:trigger ByteAt(m, i)} :: 4 * blocks[id] <= i < 4 * blocks[id] + requested[id] ==> ByteAt(m, i) == id % 256
    {
      assert OwnsBlock(live, blocks, sizes, id) && BlockAt(live, blocks[id] - 2, brk) && FilledBlock(m, blocks, sizes, id);
      forall i {:trigger ByteAt(m, i)} | 4 * blocks[id] <= i < 4 * blocks[id] + requested[id] ensures ByteAt(m, i) == id % 256 {
        assert FilledByte(m, blocks[id], id, i - 4 * blocks[id]);
      }
    }
    forall a, b | a in requested && b in requested && a != b
      ensures 4 * blocks[a] + requested[a] <= 4 * blocks[b] || 4 * blocks[b] + requested[b] <= 4 * blocks[a]
    {
      assert OwnsBlock(live, blocks, sizes, a) && OwnsBlock(live, blocks, sizes, b) && Distinct(blocks, a, b);
      assert Disjoint(live, blocks[a] - 2, blocks[b] - 2) && Disjoint(live, blocks[b] - 2, blocks[a] - 2);
    }
  }

  lemma OrderedOwners(m: seq<Word>, live: Live, ranges: seq<Range>, blocks: seq<nat>, sizes: seq<nat>, ids: set<nat>)
    requires InOrder(m, live, ranges, blocks, sizes, ids)
    ensures Owners(live, blocks, sizes, ids)
  {
  }

  // The allocator has handed out p with at least `size` bytes.
  ghost predicate Gained(live: Live, live': Live, p: nat, size: nat) {
    && 2 <= p && p - 2 !in live && p - 2 in live' && live' == live[p - 2 := live'[p - 2]]
    && 1 <= size <= Capacity(live', p - 2)
  }

  // remove_range of the block that an id gives up.
  lemma Dropped(m: seq<Word>, live: Live, ranges: seq<Range>, blocks: seq<nat>, sizes: seq<nat>, ids: set<nat>, id: nat)
    requires InOrder(m, live, ranges, blocks, sizes, ids) && id in ids
    ensures id < |blocks| && 2 <= blocks[id] && blocks[id] - 2 in live
    ensures var at := RangeAt(ranges, 4 * blocks[id], 0);
      && at < |ranges|
      && InOrder(m, live - {blocks[id] - 2}, ranges[..at] + ranges[at + 1..], blocks, sizes, ids - {id})
  {
    hide HasOwner, Distinct, Ranges;
    assert OwnsBlock(live, blocks, sizes, id);
    OwnersDrop(live, blocks, sizes, ids, id);
    RangesDrop(ranges, live, blocks, sizes, ids, id, RangeAt(ranges, 4 * blocks[id], 0));
    forall a | a in ids - {id} ensures FilledBlock(m, blocks, sizes, a) { assert FilledBlock(m, blocks, sizes, a); }
  }

  // Work of the allocator on other blocks leaves all that in order, and add_range will take the new block.
  lemma Survived(m: seq<Word>, n: seq<Word>, live: Live, live': Live, ranges: seq<Range>, blocks: seq<nat>, sizes: seq<nat>,
                 ids: set<nat>, p: nat, size: nat, brk: nat)
    requires InOrder(m, live, ranges, blocks, sizes, ids) && Kept(m, n, live)
    requires Gained(live, live', p, size) && WellPlaced(live', brk) && brk <= |m|
    ensures InOrder(n, live, ranges, blocks, sizes, ids) && Acceptable(ranges, 4 * p, size, 4 * brk)
  {
    hide Owners, Filled, Ranges, WellPlaced, Kept;
    SmallerWellPlaced(live, live', brk);
    FilledKept(m, n, live, blocks, sizes, ids, brk);
    FreshRange(ranges, live, live', blocks, sizes, ids, p - 2, size, brk);
  }

  lemma SmallerWellPlaced(live: Live, live': Live, brk: nat)
    requires WellPlaced(live', brk) && (forall p :: p in live ==> p in live' && live'[p] == live[p])
    ensures WellPlaced(live, brk)
  {
    forall p | p in live ensures BlockAt(live, p, brk) { assert BlockAt(live', p, brk); }
    forall p, q ensures Disjoint(live, p, q) { assert Disjoint(live', p, q); }
  }

  // `count` payload bytes at p still hold what the driver wrote for the id.
  ghost predicate DataKept(m: seq<Word>, p: nat, id: nat, count: nat) {
    forall j {:trigger FilledByte(m, p, id, j)} :: 0 <= j < count ==> FilledByte(m, p, id, j)
  }

  function Least(a: nat, b: nat): nat {
    if b < a then b else a
  }

  // What mm_realloc preserved is what the driver had written.
  lemma ReallocFilled(m: seq<Word>, live: Live, n: seq<Word>, live': Live, ranges: seq<Range>, blocks: seq<nat>, sizes: seq<nat>,
                      ids: set<nat>, id: nat, oldp: nat, newp: nat, size: nat)
    requires InOrder(m, live, ranges, blocks, sizes, ids) && id in ids && id < |blocks| && blocks[id] == oldp
    requires 2 <= oldp && 2 <= newp && ReallocSpec(m, live, n, live', oldp - 2, newp - 2, size) && 1 <= size
    ensures id < |sizes| && 1 <= sizes[id] && DataKept(n, newp, id, Least(sizes[id], size))
    ensures Gained(live - {oldp - 2}, live', newp, size) && Kept(m, n, live - {oldp - 2})
  {
    hide Ranges, Kept;
    assert OwnsBlock(live, blocks, sizes, id) && FilledBlock(m, blocks, sizes, id);
    forall j {:trigger FilledByte(n, newp, id, j)} | 0 <= j < sizes[id] && j < size
      ensures FilledByte(n, newp, id, j)
    {
      assert ByteMoved(m, oldp - 2, n, newp - 2, j) && FilledByte(m, blocks[id], id, j);
    }
  }

  lemma MallocGained(m: seq<Word>, live: Live, n: seq<Word>, live': Live, p: nat, size: nat)
    requires 2 <= p && MallocSpec(m, live, n, live', p - 2, size) && 1 <= size
    ensures Gained(live, live', p, size) && Kept(m, n, live)
  {
    hide Kept;
  }

  lemma GainedInside(live: Live, live': Live, p: nat, size: nat, brk: nat)
    requires Gained(live, live', p, size) && WellPlaced(live', brk)
    ensures 1 <= size && 2 <= p && 4 * p + size <= 4 * brk && live' - {p - 2} == live
  {
    assert BlockAt(live', p - 2, brk);
  }
}
