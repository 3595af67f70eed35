/**
  How a red-black tree lies in memory. A node at address p has its back pointer at p, its packed size and
  flags at p + 1, and its child pointers at p + 2 and p + 3, inside what is payload while the segment is live.
 */
module TreeRep {
  import opened RBTree
  import opened MemLib
  import opened AllocSpec

  const SENTINEL: nat := 1

  ghost predicate SentinelAt(m: seq<Word>) {
    SENTINEL + 3 < |m| && m[SENTINEL + 1].Bits? && m[SENTINEL + 1].color.Black? && m[SENTINEL + 1].nul
  }

  // A segment header with the size k.size lies at k.addr.
  ghost predicate HeaderAt(m: seq<Word>, k: Key) {
    SENTINEL + 3 < k.addr && k.addr + 3 < |m| && m[k.addr + 1].Bits? && m[k.addr + 1].size == k.size && !m[k.addr + 1].nul
  }

  ghost predicate NodeAt(m: seq<Word>, p: nat, k: Key, c: Color) {
    && p == k.addr && HeaderAt(m, k)
    && m[p + 1].color == c
    && m[p + 2].Ptr?
    && m[p + 3].Ptr?
  }

  // Pointer p leads to the tree t.
  ghost predicate Rep(m: seq<Word>, p: nat, t: Tree)
    decreases t
  {
    match t
    case Nil => p == SENTINEL
    case Node(l, k, c, r) => NodeAt(m, p, k, c) && Rep(m, m[p + 2].addr, l) && Rep(m, m[p + 3].addr, r)
  }

  ghost function Addrs(t: Tree): set<nat> {
    if t.Nil? then {} else Addrs(t.left) + {t.key.addr} + Addrs(t.right)
  }

  lemma {:induction false} AddrsOfKeys(t: Tree, a: nat)
    ensures a in Addrs(t) <==> exists k :: k in Keys(t) && k.addr == a
  {
    if t.Node? {
      AddrsOfKeys(t.left, a);
      AddrsOfKeys(t.right, a);
      assert t.key in Keys(t);
    }
  }

  // No address occurs twice.
  ghost predicate Once(t: Tree) {
    t.Node? ==>
      && Once(t.left) && Once(t.right)
      && t.key.addr !in Addrs(t.left) && t.key.addr !in Addrs(t.right)
      && Addrs(t.left) !! Addrs(t.right)
  }

  // Nodes do not overlap.
  ghost predicate Spaced(addrs: set<nat>) {
    forall a, b :: a in addrs && b in addrs && a < b ==> a + 4 <= b
  }

  ghost predicate Recoloured(m: seq<Word>, n: seq<Word>, a: nat) {
    a + 1 < |m| && a + 1 < |n| && m[a + 1].Bits? ==> n[a + 1].Bits? && n[a + 1] == m[a + 1].(color := n[a + 1].color)
  }

  // Word w holds the flags or a child pointer of a node at one of the addresses.
  ghost predicate Touches(addrs: set<nat>, w: int) {
    w - 1 in addrs || w - 2 in addrs || w - 3 in addrs
  }

  // From m to n, only the colours and child pointers of the nodes at `addrs` have changed.
  ghost predicate OnlyNodes(m: seq<Word>, n: seq<Word>, addrs: set<nat>) {
    && |n| == |m|
    && (forall w {:trigger Same(m, n, w)} :: !Touches(addrs, w) ==> Same(m, n, w))
    && (forall a {:trigger Recoloured(m, n, a)} :: a in addrs ==> Recoloured(m, n, a))
  }

  lemma SameKeysSameAddrs(t: Tree, r: Tree)
    requires Keys(t) == Keys(r)
    ensures Addrs(t) == Addrs(r)
  {
    forall a {:trigger a in Addrs(t)} {:trigger a in Addrs(r)}
      ensures a in Addrs(t) <==> a in Addrs(r)
    {
      AddrsOfKeys(t, a);
      AddrsOfKeys(r, a);
    }
  }

  lemma {:induction false} DeleteLeastAddrs(t: Tree)
    requires t.Node? && RedBlack(t) && Once(t)
    ensures LeastKey(t).addr in Addrs(t)
    ensures Addrs(DeleteLeast(t).tree) == Addrs(t) - {LeastKey(t).addr}
  {
    if t.left.Nil? {
      SameKeysSameAddrs(t.right, Paint(t.right, Black));
    } else {
      DeleteLeastAddrs(t.left);
      var d := DeleteLeast(t.left);
      if !d.balance {
        DeleteLeftReshapes(t.(left := d.tree));
        SameKeysSameAddrs(t.(left := d.tree), DeleteLeft(t.(left := d.tree)).tree);
      }
    }
  }

  // In a represented tree the address determines the key.
  lemma {:induction false} KeyInMemory(m: seq<Word>, p: nat, t: Tree, k: Key)
    requires Rep(m, p, t) && k in Keys(t)
    ensures HeaderAt(m, k)
    decreases t
  {
    if k in Keys(t.left) { KeyInMemory(m, m[p + 2].addr, t.left, k); }
    else if k in Keys(t.right) { KeyInMemory(m, m[p + 3].addr, t.right, k); }
  }

  lemma {:induction false} RepFrame(m: seq<Word>, n: seq<Word>, p: nat, t: Tree)
    requires Rep(m, p, t) && |n| == |m|
    requires forall a :: a in Addrs(t) && a + 3 < |m| ==> n[a + 1] == m[a + 1] && n[a + 2] == m[a + 2] && n[a + 3] == m[a + 3]
    ensures Rep(n, p, t)
    decreases t
  {
    if t.Node? {
      assert p in Addrs(t);
      RepFrame(m, n, m[p + 2].addr, t.left);
      RepFrame(m, n, m[p + 3].addr, t.right);
    }
  }

  // A change confined to other nodes leaves the tree in place.
  lemma RepApart(m: seq<Word>, n: seq<Word>, p: nat, t: Tree, addrs: set<nat>, all: set<nat>)
    requires Rep(m, p, t) && OnlyNodes(m, n, addrs)
    requires Addrs(t) !! addrs && Spaced(all) && Addrs(t) <= all && addrs <= all
    ensures Rep(n, p, t)
  {
    forall a | a in Addrs(t) && a + 3 < |m|
      ensures n[a + 1] == m[a + 1] && n[a + 2] == m[a + 2] && n[a + 3] == m[a + 3]
    {
      forall d: nat | d in addrs
        ensures d + 4 <= a || a + 4 <= d
      {
        assert d in all;
      }
      assert Same(m, n, a + 1) && Same(m, n, a + 2) && Same(m, n, a + 3);
    }
    RepFrame(m, n, p, t);
  }

  lemma OnlyNodesTransitive(l: seq<Word>, m: seq<Word>, n: seq<Word>, a: set<nat>, b: set<nat>, all: set<nat>)
    requires OnlyNodes(l, m, a) && OnlyNodes(m, n, b)
    requires Spaced(all) && a <= all && b <= all
    ensures OnlyNodes(l, n, a + b)
  {
    forall w | !Touches(a + b, w)
      ensures Same(l, n, w)
    {
      assert Same(l, m, w) && Same(m, n, w);
    }
    forall x | x in a + b
      ensures Recoloured(l, n, x)
    {
      assert a <= all && b <= all && x in all;
      assert forall y: nat :: y in a + b ==> y == x || y + 4 <= x || x + 4 <= y;
      assert Same(l, m, x + 1) || Recoloured(l, m, x);
      assert Same(m, n, x + 1) || Recoloured(m, n, x);
    }
  }

  // A tree without repetitions has as many addresses as nodes.
  lemma {:induction false} AddrsCount(t: Tree)
    requires Once(t)
    ensures |Addrs(t)| == Size(t)
  {
    if t.Node? {
      AddrsCount(t.left);
      AddrsCount(t.right);
    }
  }
}
