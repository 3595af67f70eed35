/**
  The explicit free list of mm_.c in memory: a node at address a has its size at a, its back link at a + 1 and its
  forward link at a + 2. `nodes` is the whole chain, from the head at 0 to the tail at 3.
 */
module FreeList {
  import opened MemLib
  import opened AllocSpec

  const HEAD: nat := 0
  const TAIL: nat := 3

  ghost predicate Linked(m: seq<Word>, nodes: seq<nat>, i: nat) {
    i + 1 < |nodes| ==>
      && nodes[i] + 2 < |m| && m[nodes[i] + 2] == Ptr(nodes[i + 1])
      && nodes[i + 1] + 2 < |m| && m[nodes[i + 1] + 1] == Ptr(nodes[i])
  }

  ghost predicate Clear(a: nat, b: nat) {
    a + 3 <= b || b + 3 <= a
  }

  ghost predicate NodesClear(nodes: seq<nat>, i: nat, j: nat) {
    i < |nodes| && j < |nodes| && i != j ==> Clear(nodes[i], nodes[j])
  }

  // A doubly linked chain from head to tail through nodes that do not overlap.
  ghost predicate Chain(m: seq<Word>, nodes: seq<nat>) {
    && 2 <= |nodes| && nodes[0] == HEAD && nodes[|nodes| - 1] == TAIL
    && (forall i {:trigger Linked(m, nodes, i)} :: Linked(m, nodes, i))
    && (forall i, j {:trigger NodesClear(nodes, i, j)} :: NodesClear(nodes, i, j))
  }

  // Only link words of the given nodes differ.
  ghost predicate OnlyLinks(m: seq<Word>, n: seq<Word>, nodes: seq<nat>) {
    |n| == |m| && forall w {:trigger Same(m, n, w)} :: w - 1 !in nodes && w - 2 !in nodes ==> Same(m, n, w)
  }

  function Inserted(nodes: seq<nat>, k: nat, node: nat): seq<nat>
    requires k <= |nodes|
  {
    nodes[..k] + [node] + nodes[k..]
  }

  function Removed(nodes: seq<nat>, k: nat): seq<nat>
    requires k < |nodes|
  {
    nodes[..k] + nodes[k + 1..]
  }

  lemma InsertKeepsChain(m: seq<Word>, n: seq<Word>, nodes: seq<nat>, k: nat, tg: nat)
    requires Chain(m, nodes) && 1 <= k < |nodes| && tg + 2 < |m|
    requires forall i :: 0 <= i < |nodes| ==> Clear(nodes[i], tg)
    requires nodes[k - 1] + 2 < |m| && nodes[k] + 2 < |m|
    requires n == m[nodes[k - 1] + 2 := Ptr(tg)][tg + 1 := Ptr(nodes[k - 1])][tg + 2 := Ptr(nodes[k])][nodes[k] + 1 := Ptr(tg)]
    ensures Chain(n, Inserted(nodes, k, tg)) && OnlyLinks(m, n, Inserted(nodes, k, tg))
  {
    var r := Inserted(nodes, k, tg);
    assert NodesClear(nodes, k - 1, k);
    assert r[k] == tg && r[k - 1] == nodes[k - 1] && r[k + 1] == nodes[k];
    forall i: nat ensures Linked(n, r, i) {
      var j := if i < k then i else i - 1;
      if i + 1 < |r| && i != k && i + 1 != k {
        assert Linked(m, nodes, j) && r[i] == nodes[j] && r[i + 1] == nodes[j + 1];
        assert NodesClear(nodes, j, k - 1) && NodesClear(nodes, j, k) && NodesClear(nodes, j + 1, k - 1) && NodesClear(nodes, j + 1, k);
      }
    }
    forall i: nat, j: nat ensures NodesClear(r, i, j) {
      assert NodesClear(nodes, if i < k then i else i - 1, if j < k then j else j - 1) || i == k || j == k;
    }
    assert tg in r && nodes[k - 1] in r && nodes[k] in r;
  }

  lemma RemoveKeepsChain(m: seq<Word>, n: seq<Word>, nodes: seq<nat>, k: nat)
    requires Chain(m, nodes) && 1 <= k < |nodes| - 1
    requires nodes[k - 1] + 2 < |m| && nodes[k + 1] + 2 < |m|
    requires n == m[nodes[k - 1] + 2 := Ptr(nodes[k + 1])][nodes[k + 1] + 1 := Ptr(nodes[k - 1])]
    ensures Chain(n, Removed(nodes, k)) && OnlyLinks(m, n, Removed(nodes, k))
  {
    var r := Removed(nodes, k);
    assert NodesClear(nodes, k - 1, k + 1);
    assert r[k - 1] == nodes[k - 1] && r[k] == nodes[k + 1];
    forall i: nat ensures Linked(n, r, i) {
      var j := if i < k then i else i + 1;
      if i + 1 < |r| && i + 1 != k {
        assert Linked(m, nodes, j) && r[i] == nodes[j] && r[i + 1] == nodes[j + 1];
        assert NodesClear(nodes, j, k - 1) && NodesClear(nodes, j, k + 1) && NodesClear(nodes, j + 1, k - 1) && NodesClear(nodes, j + 1, k + 1);
      }
    }
    forall i: nat, j: nat ensures NodesClear(r, i, j) {
      assert NodesClear(nodes, if i < k then i else i + 1, if j < k then j else j + 1);
    }
    assert nodes[k - 1] in r && nodes[k + 1] in r;
  }

  // Changes away from the link words leave the chain in place.
  lemma ChainStays(m: seq<Word>, n: seq<Word>, nodes: seq<nat>)
    requires Chain(m, nodes) && |n| == |m|
    requires forall a :: a in nodes && a + 2 < |m| ==> n[a + 1] == m[a + 1] && n[a + 2] == m[a + 2]
    ensures Chain(n, nodes)
  {
    forall i: nat ensures Linked(n, nodes, i) {
      assert Linked(m, nodes, i);
      if i + 1 < |nodes| { assert nodes[i] in nodes && nodes[i + 1] in nodes; }
    }
  }

  // mm_insert_node: link tg in before the node at position k.
  method InsertNode(mem: array<Word>, at: nat, tg: nat, ghost nodes: seq<nat>, ghost k: nat)
    requires Chain(mem[..], nodes) && 1 <= k < |nodes| && nodes[k] == at && tg + 2 < mem.Length
    requires forall i :: 0 <= i < |nodes| ==> Clear(nodes[i], tg)
    modifies mem
    ensures Chain(mem[..], nodes[..k] + [tg] + nodes[k..])
    ensures OnlyLinks(old(mem[..]), mem[..], nodes[..k] + [tg] + nodes[k..])
  {
    ghost var m := mem[..];
    assert Linked(m, nodes, k - 1) && NodesClear(nodes, k - 1, k);
    var p := mem[at + 1].addr;
    mem[p + 2] := Ptr(tg);
    mem[tg + 1] := Ptr(p);
    mem[tg + 2] := Ptr(at);
    mem[at + 1] := Ptr(tg);
    InsertKeepsChain(m, mem[..], nodes, k, tg);
  }

  // mm_delete_node: link the neighbours of the node at position k to each other.
  method DeleteNode(mem: array<Word>, at: nat, ghost nodes: seq<nat>, ghost k: nat)
    requires Chain(mem[..], nodes) && 1 <= k < |nodes| - 1 && nodes[k] == at
    modifies mem
    ensures Chain(mem[..], nodes[..k] + nodes[k + 1..])
    ensures OnlyLinks(old(mem[..]), mem[..], nodes[..k] + nodes[k + 1..])
  {
    ghost var m := mem[..];
    assert Linked(m, nodes, k - 1) && Linked(m, nodes, k) && NodesClear(nodes, k - 1, k) && NodesClear(nodes, k, k + 1);
    var p := mem[at + 1].addr;
    var n := mem[at + 2].addr;
    mem[p + 2] := Ptr(n);
    mem[n + 1] := Ptr(p);
    RemoveKeepsChain(m, mem[..], nodes, k);
  }

  // ----- the list as a value -----

  function Without(nodes: seq<nat>, x: nat): seq<nat> {
    if nodes == [] then []
    else (if nodes[0] == x then [] else [nodes[0]]) + Without(nodes[1..], x)
  }

  lemma {:induction false} WithoutAbsent(nodes: seq<nat>, x: nat)
    requires x !in nodes
    ensures Without(nodes, x) == nodes
  {
    if nodes != [] { WithoutAbsent(nodes[1..], x); }
  }

  // In a list without repetitions, taking out a position is taking out its value.
  lemma {:induction false} RemovedIsWithout(nodes: seq<nat>, k: nat)
    requires k < |nodes| && (forall i, j :: 0 <= i < j < |nodes| ==> nodes[i] != nodes[j])
    ensures Removed(nodes, k) == Without(nodes, nodes[k])
  {
    if k == 0 {
      WithoutAbsent(nodes[1..], nodes[0]);
    } else {
      RemovedIsWithout(nodes[1..], k - 1);
      assert Removed(nodes, k) == [nodes[0]] + Removed(nodes[1..], k - 1);
    }
  }
}
