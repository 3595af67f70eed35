/**
  The red-black tree code of mm.c, working in place on the words of the heap. Each method is proved to compute
  the tree function of the same name, and to touch only colours and child pointers of the nodes it was given.
  `addrs` are the nodes a method may touch and `m0` the memory before the enclosing operation began.
 */
module MmTree {
  import opened RBTree
  import opened MemLib
  import opened AllocSpec
  import opened TreeRep

  // A well-placed tree.
  ghost predicate TreeAt(m: seq<Word>, p: nat, t: Tree) {
    SentinelAt(m) && Rep(m, p, t) && Once(t) && Spaced(Addrs(t))
  }

  // t lies at p, and memory differs from m0 only in the nodes at addrs.
  ghost predicate From(m0: seq<Word>, addrs: set<nat>, m: seq<Word>, p: nat, t: Tree) {
    && SentinelAt(m) && Rep(m, p, t) && Once(t)
    && Addrs(t) <= addrs && Spaced(addrs)
    && OnlyNodes(m0, m, addrs)
  }

  lemma Parts(m: seq<Word>, p: nat, t: Tree)
    requires TreeAt(m, p, t) && t.Node?
    ensures NodeAt(m, p, t.key, t.color)
    ensures TreeAt(m, m[p + 2].addr, t.left) && TreeAt(m, m[p + 3].addr, t.right)
  {
  }

  // ----- steps on a memory value -----

  // Rep one level at a time.
  lemma RepParts(m: seq<Word>, p: nat, t: Tree)
    requires Rep(m, p, t) && t.Node?
    ensures NodeAt(m, p, t.key, t.color) && Rep(m, m[p + 2].addr, t.left) && Rep(m, m[p + 3].addr, t.right)
  {
  }

  lemma RepNode(m: seq<Word>, p: nat, t: Tree)
    requires t.Node? && NodeAt(m, p, t.key, t.color) && Rep(m, m[p + 2].addr, t.left) && Rep(m, m[p + 3].addr, t.right)
    ensures Rep(m, p, t)
  {
  }

  // A node outside `inner` is as it was.
  lemma NodeUntouched(m: seq<Word>, m1: seq<Word>, inner: set<nat>, addrs: set<nat>, p: nat, k: Key, c: Color)
    requires NodeAt(m, p, k, c) && OnlyNodes(m, m1, inner) && Spaced(addrs) && inner <= addrs && p in addrs && p !in inner
    ensures NodeAt(m1, p, k, c) && m1[p + 2] == m[p + 2] && m1[p + 3] == m[p + 3]
  {
    NotTouched(addrs, inner, p);
    assert Same(m, m1, p + 1) && Same(m, m1, p + 2) && Same(m, m1, p + 3);
  }

  // Changes to some of the nodes, then a store to one of them.
  lemma StoreAfter(m0: seq<Word>, addrs: set<nat>, m: seq<Word>, inner: set<nat>, m1: seq<Word>, now: nat, n: seq<Word>)
    requires OnlyNodes(m0, m, addrs) && OnlyNodes(m, m1, inner) && OnlyNodes(m1, n, {now})
    requires Spaced(addrs) && inner <= addrs && now in addrs
    ensures OnlyNodes(m0, n, addrs)
  {
    hide OnlyNodes;
    OnlyNodesTransitive(m0, m, m1, addrs, inner, addrs);
    OnlyNodesTransitive(m0, m1, n, addrs + inner, {now}, addrs);
    assert addrs + inner + {now} == addrs;
  }

  // The left subtree has been replaced by work on the nodes `inner`, and its pointer stored.
  lemma ReplaceLeft(m0: seq<Word>, addrs: set<nat>, m: seq<Word>, now: nat, t: Tree,
                                       inner: set<nat>, m1: seq<Word>, l: nat, lt: Tree, n: seq<Word>)
    requires From(m0, addrs, m, now, t) && t.Node?
    requires From(m, inner, m1, l, lt)
    requires inner <= addrs && now !in inner && Addrs(t.right) !! inner
    requires now + 2 < |m1| && n == m1[now + 2 := Ptr(l)]
    ensures From(m0, addrs, n, now, t.(left := lt))
  {
    hide Rep, OnlyNodes;
    RepParts(m, now, t);
    NodeUntouched(m, m1, inner, addrs, now, t.key, t.color);
    StoreChild(m1, now, now + 2, l, n);
    StoreAfter(m0, addrs, m, inner, m1, now, n);
    RepApart(m, m1, m[now + 3].addr, t.right, inner, addrs);
    RepApart(m1, n, m[now + 3].addr, t.right, {now}, addrs);
    RepApart(m1, n, l, lt, {now}, addrs);
    RepNode(n, now, t.(left := lt));
  }

  lemma ReplaceRight(m0: seq<Word>, addrs: set<nat>, m: seq<Word>, now: nat, t: Tree,
                                        inner: set<nat>, m1: seq<Word>, r: nat, rt: Tree, n: seq<Word>)
    requires From(m0, addrs, m, now, t) && t.Node?
    requires From(m, inner, m1, r, rt)
    requires inner <= addrs && now !in inner && Addrs(t.left) !! inner
    requires now + 3 < |m1| && n == m1[now + 3 := Ptr(r)]
    ensures From(m0, addrs, n, now, t.(right := rt))
  {
    hide Rep, OnlyNodes;
    RepParts(m, now, t);
    NodeUntouched(m, m1, inner, addrs, now, t.key, t.color);
    StoreChild(m1, now, now + 3, r, n);
    StoreAfter(m0, addrs, m, inner, m1, now, n);
    RepApart(m, m1, m[now + 2].addr, t.left, inner, addrs);
    RepApart(m1, n, m[now + 2].addr, t.left, {now}, addrs);
    RepApart(m1, n, r, rt, {now}, addrs);
    RepNode(n, now, t.(right := rt));
  }

  lemma StoreChild(m: seq<Word>, now: nat, w: nat, p: nat, n: seq<Word>)
    requires w < |m| && n == m[w := Ptr(p)] && (w == now + 2 || w == now + 3)
    ensures OnlyNodes(m, n, {now})
  {
  }

  lemma StoreColor(m: seq<Word>, p: nat, c: Color, n: seq<Word>)
    requires p + 1 < |m| && m[p + 1].Bits? && n == m[p + 1 := m[p + 1].(color := c)]
    ensures OnlyNodes(m, n, {p})
  {
  }

  lemma PaintRep(addrs: set<nat>, m: seq<Word>, p: nat, t: Tree, c: Color, n: seq<Word>)
    requires Rep(m, p, t) && Once(t) && Addrs(t) <= addrs && Spaced(addrs) && t.Node?
    requires p + 1 < |m| && m[p + 1].Bits? && n == m[p + 1 := m[p + 1].(color := c)]
    ensures p in addrs && OnlyNodes(m, n, {p})
    ensures Rep(n, p, Paint(t, c))
  {
    StoreColor(m, p, c, n);
    assert p in addrs;
    RepApart(m, n, m[p + 2].addr, t.left, {p}, addrs);
    RepApart(m, n, m[p + 3].addr, t.right, {p}, addrs);
  }

  lemma PaintInMemory(m0: seq<Word>, addrs: set<nat>, m: seq<Word>, p: nat, t: Tree, c: Color, n: seq<Word>)
    requires From(m0, addrs, m, p, t) && (t.Nil? ==> c.Black?)
    requires p + 1 < |m| && m[p + 1].Bits? && n == m[p + 1 := m[p + 1].(color := c)]
    ensures From(m0, addrs, n, p, Paint(t, c))
  {
    if t.Nil? {
      assert n == m;
    } else {
      PaintRep(addrs, m, p, t, c, n);
      OnlyNodesTransitive(m0, m, n, addrs, {p}, addrs);
      assert addrs + {p} == addrs;
    }
  }

  // Two child pointers change in a rotation; the rest of both nodes stays.
  lemma TwoStores(m: seq<Word>, now: nat, a: nat, v: Word, tmp: nat, b: nat, u: Word, n: seq<Word>)
    requires now + 3 < |m| && tmp + 3 < |m| && (now + 4 <= tmp || tmp + 4 <= now)
    requires (a == now + 2 || a == now + 3) && (b == tmp + 2 || b == tmp + 3)
    requires n == m[a := v][b := u]
    ensures OnlyNodes(m, n, {now, tmp})
    ensures n[now + 1] == m[now + 1] && n[tmp + 1] == m[tmp + 1] && n[a] == v && n[b] == u
    ensures a == now + 2 ==> n[now + 3] == m[now + 3]
    ensures a == now + 3 ==> n[now + 2] == m[now + 2]
    ensures b == tmp + 2 ==> n[tmp + 3] == m[tmp + 3]
    ensures b == tmp + 3 ==> n[tmp + 2] == m[tmp + 2]
  {
  }

  // The parts that a rotation rearranges are disjoint.
  lemma RotateLeftOnce(t: Tree)
    requires Once(t) && t.Node? && t.right.Node?
    ensures var both := {t.key.addr, t.right.key.addr};
      && t.key.addr != t.right.key.addr && both <= Addrs(t)
      && Addrs(t.left) !! both && Addrs(t.right.left) !! both && Addrs(t.right.right) !! both
      && Addrs(t.left) <= Addrs(t) && Addrs(t.right.left) <= Addrs(t) && Addrs(t.right.right) <= Addrs(t)
    ensures Once(RBTree.RotateLeft(t))
  {
  }

  lemma RotateRightOnce(t: Tree)
    requires Once(t) && t.Node? && t.left.Node?
    ensures var both := {t.key.addr, t.left.key.addr};
      && t.key.addr != t.left.key.addr && both <= Addrs(t)
      && Addrs(t.right) !! both && Addrs(t.left.left) !! both && Addrs(t.left.right) !! both
      && Addrs(t.right) <= Addrs(t) && Addrs(t.left.left) <= Addrs(t) && Addrs(t.left.right) <= Addrs(t)
    ensures Once(RBTree.RotateRight(t))
  {
  }

  lemma RotateLeftRep(addrs: set<nat>, m: seq<Word>, now: nat, t: Tree, tmp: nat, n: seq<Word>)
    requires Rep(m, now, t) && Once(t) && Addrs(t) <= addrs && Spaced(addrs) && t.Node? && t.right.Node?
    requires m[now + 3] == Ptr(tmp) && tmp + 3 < |m| && n == m[now + 3 := m[tmp + 2]][tmp + 2 := Ptr(now)]
    ensures now in addrs && tmp in addrs && OnlyNodes(m, n, {now, tmp})
    ensures Rep(n, tmp, RBTree.RotateLeft(t)) && Once(RBTree.RotateLeft(t)) && now > SENTINEL + 3
  {
    hide Once, Addrs, Rep;
    RepParts(m, now, t);
    RepParts(m, tmp, t.right);
    RotateLeftOnce(t);
    assert now in addrs && tmp in addrs && now != tmp;
    TwoStores(m, now, now + 3, m[tmp + 2], tmp, tmp + 2, Ptr(now), n);
    assert NodeAt(n, now, t.key, t.color) && NodeAt(n, tmp, t.right.key, t.right.color);
    RepApart(m, n, m[now + 2].addr, t.left, {now, tmp}, addrs);
    RepApart(m, n, m[tmp + 2].addr, t.right.left, {now, tmp}, addrs);
    RepApart(m, n, m[tmp + 3].addr, t.right.right, {now, tmp}, addrs);
    RepNode(n, now, RBTree.RotateLeft(t).left);
    RepNode(n, tmp, RBTree.RotateLeft(t));
  }

  lemma RotateLeftInMemory(m0: seq<Word>, addrs: set<nat>, m: seq<Word>, now: nat, t: Tree, tmp: nat, n: seq<Word>)
    requires From(m0, addrs, m, now, t) && t.Node? && t.right.Node?
    requires m[now + 3] == Ptr(tmp) && tmp + 3 < |m| && n == m[now + 3 := m[tmp + 2]][tmp + 2 := Ptr(now)]
    ensures From(m0, addrs, n, tmp, RBTree.RotateLeft(t))
  {
    RotateLeftRep(addrs, m, now, t, tmp, n);
    assert Addrs(RBTree.RotateLeft(t)) == Addrs(t);
    assert Same(m, n, SENTINEL + 1);
    OnlyNodesTransitive(m0, m, n, addrs, {now, tmp}, addrs);
    assert addrs + {now, tmp} == addrs;
  }

  lemma RotateRightRep(addrs: set<nat>, m: seq<Word>, now: nat, t: Tree, tmp: nat, n: seq<Word>)
    requires Rep(m, now, t) && Once(t) && Addrs(t) <= addrs && Spaced(addrs) && t.Node? && t.left.Node?
    requires m[now + 2] == Ptr(tmp) && tmp + 3 < |m| && n == m[now + 2 := m[tmp + 3]][tmp + 3 := Ptr(now)]
    ensures now in addrs && tmp in addrs && OnlyNodes(m, n, {now, tmp})
    ensures Rep(n, tmp, RBTree.RotateRight(t)) && Once(RBTree.RotateRight(t)) && now > SENTINEL + 3
  {
    hide Once, Addrs, Rep;
    RepParts(m, now, t);
    RepParts(m, tmp, t.left);
    RotateRightOnce(t);
    assert now in addrs && tmp in addrs && now != tmp;
    TwoStores(m, now, now + 2, m[tmp + 3], tmp, tmp + 3, Ptr(now), n);
    assert NodeAt(n, now, t.key, t.color) && NodeAt(n, tmp, t.left.key, t.left.color);
    RepApart(m, n, m[now + 3].addr, t.right, {now, tmp}, addrs);
    RepApart(m, n, m[tmp + 2].addr, t.left.left, {now, tmp}, addrs);
    RepApart(m, n, m[tmp + 3].addr, t.left.right, {now, tmp}, addrs);
    RepNode(n, now, RBTree.RotateRight(t).right);
    RepNode(n, tmp, RBTree.RotateRight(t));
  }

  lemma RotateRightInMemory(m0: seq<Word>, addrs: set<nat>, m: seq<Word>, now: nat, t: Tree, tmp: nat, n: seq<Word>)
    requires From(m0, addrs, m, now, t) && t.Node? && t.left.Node?
    requires m[now + 2] == Ptr(tmp) && tmp + 3 < |m| && n == m[now + 2 := m[tmp + 3]][tmp + 3 := Ptr(now)]
    ensures From(m0, addrs, n, tmp, RBTree.RotateRight(t))
  {
    RotateRightRep(addrs, m, now, t, tmp, n);
    assert Addrs(RBTree.RotateRight(t)) == Addrs(t);
    assert Same(m, n, SENTINEL + 1);
    OnlyNodesTransitive(m0, m, n, addrs, {now, tmp}, addrs);
    assert addrs + {now, tmp} == addrs;
  }

  // ----- mm_rotate_left and mm_rotate_right -----

  method RotateLeft(mem: array<Word>, now: nat, ghost t: Tree, ghost m0: seq<Word>, ghost addrs: set<nat>) returns (tmp: nat)
    requires From(m0, addrs, mem[..], now, t) && t.Node? && t.right.Node?
    modifies mem
    ensures From(m0, addrs, mem[..], tmp, RBTree.RotateLeft(t))
  {
    ghost var m := mem[..];
    assert NodeAt(m, now, t.key, t.color);
    assert Rep(m, m[now + 3].addr, t.right);
    tmp := mem[now + 3].addr;
    mem[now + 3] := mem[tmp + 2];
    mem[tmp + 2] := Ptr(now);
    RotateLeftInMemory(m0, addrs, m, now, t, tmp, mem[..]);
  }

  method RotateRight(mem: array<Word>, now: nat, ghost t: Tree, ghost m0: seq<Word>, ghost addrs: set<nat>) returns (tmp: nat)
    requires From(m0, addrs, mem[..], now, t) && t.Node? && t.left.Node?
    modifies mem
    ensures From(m0, addrs, mem[..], tmp, RBTree.RotateRight(t))
  {
    ghost var m := mem[..];
    assert NodeAt(m, now, t.key, t.color);
    assert Rep(m, m[now + 2].addr, t.left);
    tmp := mem[now + 2].addr;
    mem[now + 2] := mem[tmp + 3];
    mem[tmp + 3] := Ptr(now);
    RotateRightInMemory(m0, addrs, m, now, t, tmp, mem[..]);
  }

  // ----- colours -----

  method SetColor(mem: array<Word>, p: nat, c: Color, ghost t: Tree, ghost m0: seq<Word>, ghost addrs: set<nat>)
    requires From(m0, addrs, mem[..], p, t) && (t.Nil? ==> c.Black?)
    modifies mem
    ensures From(m0, addrs, mem[..], p, Paint(t, c))
  {
    ghost var m := mem[..];
    assert m[p + 1].Bits?;
    mem[p + 1] := mem[p + 1].(color := c);
    PaintInMemory(m0, addrs, m, p, t, c, mem[..]);
  }

  method SetLeftColor(mem: array<Word>, now: nat, c: Color, ghost t: Tree, ghost m0: seq<Word>, ghost addrs: set<nat>)
    requires From(m0, addrs, mem[..], now, t) && t.Node? && (t.left.Nil? ==> c.Black?)
    modifies mem
    ensures From(m0, addrs, mem[..], now, t.(left := Paint(t.left, c)))
  {
    ghost var m := mem[..];
    ghost var inner := Addrs(t.left);
    assert NodeAt(m, now, t.key, t.color);
    SetColor(mem, mem[now + 2].addr, c, t.left, m, inner);
    ghost var n := mem[..];
    assert now in addrs && Same(m, n, now + 2) by { NotTouched(addrs, inner, now); }
    assert n == n[now + 2 := Ptr(m[now + 2].addr)];
    ReplaceLeft(m0, addrs, m, now, t, inner, n, m[now + 2].addr, Paint(t.left, c), n);
  }

  method SetRightColor(mem: array<Word>, now: nat, c: Color, ghost t: Tree, ghost m0: seq<Word>, ghost addrs: set<nat>)
    requires From(m0, addrs, mem[..], now, t) && t.Node? && (t.right.Nil? ==> c.Black?)
    modifies mem
    ensures From(m0, addrs, mem[..], now, t.(right := Paint(t.right, c)))
  {
    ghost var m := mem[..];
    ghost var inner := Addrs(t.right);
    assert NodeAt(m, now, t.key, t.color);
    SetColor(mem, mem[now + 3].addr, c, t.right, m, inner);
    ghost var n := mem[..];
    assert now in addrs && Same(m, n, now + 3) by { NotTouched(addrs, inner, now); }
    assert n == n[now + 3 := Ptr(m[now + 3].addr)];
    ReplaceRight(m0, addrs, m, now, t, inner, n, m[now + 3].addr, Paint(t.right, c), n);
  }

  lemma NotTouched(addrs: set<nat>, inner: set<nat>, p: nat)
    requires Spaced(addrs) && inner <= addrs && p in addrs && p !in inner
    ensures !Touches(inner, p + 1) && !Touches(inner, p + 2) && !Touches(inner, p + 3)
  {
    assert forall d: nat :: d in inner ==> d + 4 <= p || p + 4 <= d;
  }

  // ----- mm_search_node -----

  method SearchNode(mem: array<Word>, now: nat, size: nat, ghost t: Tree) returns (r: nat)
    requires TreeAt(mem[..], now, t)
    ensures r == match Search(t, size) { case None => NULL case Some(k) => k.addr }
    decreases t
  {
    ghost var m := mem[..];
    if mem[now + 1].nul {
      return NULL;
    }
    Parts(m, now, t);
    if size <= mem[now + 1].size {
      forall k | k in Keys(t.left) ensures k.addr != NULL { KeyInMemory(m, m[now + 2].addr, t.left, k); }
      r := SearchNode(mem, mem[now + 2].addr, size, t.left);
      if r == NULL {
        r := now;
      }
      return r;
    }
    r := SearchNode(mem, mem[now + 3].addr, size, t.right);
  }

  // ----- mm_insert_node -----

  lemma FromRep(m0: seq<Word>, addrs: set<nat>, m: seq<Word>, p: nat, t: Tree)
    requires From(m0, addrs, m, p, t)
    ensures SentinelAt(m) && Rep(m, p, t)
  {
  }

  // The words that the code reads at a node or at the sentinel.
  lemma Sight(m: seq<Word>, p: nat, t: Tree)
    requires SentinelAt(m) && Rep(m, p, t)
    ensures p + 1 < |m| && m[p + 1].Bits? && (m[p + 1].color.Red? <==> IsRed(t))
    ensures t.Node? ==> p + 3 < |m| && m[p + 2].Ptr? && m[p + 3].Ptr?
    ensures t.Node? ==> Rep(m, m[p + 2].addr, t.left) && Rep(m, m[p + 3].addr, t.right)
  {
  }

  method InsertFixLeft(mem: array<Word>, now: nat, ghost t: Tree, ghost m0: seq<Word>, ghost addrs: set<nat>) returns (r: nat)
    requires From(m0, addrs, mem[..], now, t) && t.Node?
    modifies mem
    ensures From(m0, addrs, mem[..], r, RBTree.InsertFixLeft(t))
  {
    hide From, Rep, SentinelAt;
    r := now;
    ghost var t1 := t;
    ghost var m := mem[..];
    FromRep(m0, addrs, m, now, t);
    Sight(m, now, t);
    Sight(m, m[now + 2].addr, t.left);
    if mem[mem[now + 2].addr + 1].color.Red? {
      Sight(m, m[m[now + 2].addr + 3].addr, t.left.right);
      if mem[mem[mem[now + 2].addr + 3].addr + 1].color.Red? {
        RotateLeftOfLeft(mem, now, t, m0, addrs);
        t1 := t.(left := RBTree.RotateLeft(t.left));
      }
      m := mem[..];
      FromRep(m0, addrs, m, now, t1);
      Sight(m, now, t1);
      Sight(m, m[now + 2].addr, t1.left);
      Sight(m, m[m[now + 2].addr + 2].addr, t1.left.left);
      if mem[mem[mem[now + 2].addr + 2].addr + 1].color.Red? {
        Sight(m, m[now + 3].addr, t1.right);
        if mem[mem[now + 3].addr + 1].color.Red? {
          PaintFamily(mem, now, Black, Red, t1, m0, addrs);
        } else {
          r := RotateRight(mem, now, t1, m0, addrs);
          PaintFamily(mem, r, Red, Black, RBTree.RotateRight(t1), m0, addrs);
        }
      }
    }
  }

  // now->left = mm_rotate_left(now->left)
  method RotateLeftOfLeft(mem: array<Word>, now: nat, ghost t: Tree, ghost m0: seq<Word>, ghost addrs: set<nat>)
    requires From(m0, addrs, mem[..], now, t) && t.Node? && t.left.Node? && t.left.right.Node?
    modifies mem
    ensures From(m0, addrs, mem[..], now, t.(left := RBTree.RotateLeft(t.left)))
  {
    ghost var m := mem[..];
    ghost var inner := Addrs(t.left);
    assert NodeAt(m, now, t.key, t.color);
    var l := RotateLeft(mem, mem[now + 2].addr, t.left, m, inner);
    ghost var m1 := mem[..];
    mem[now + 2] := Ptr(l);
    ReplaceLeft(m0, addrs, m, now, t, inner, m1, l, RBTree.RotateLeft(t.left), mem[..]);
  }

  method InsertFixRight(mem: array<Word>, now: nat, ghost t: Tree, ghost m0: seq<Word>, ghost addrs: set<nat>) returns (r: nat)
    requires From(m0, addrs, mem[..], now, t) && t.Node?
    modifies mem
    ensures From(m0, addrs, mem[..], r, RBTree.InsertFixRight(t))
  {
    hide From, Rep, SentinelAt;
    r := now;
    ghost var t1 := t;
    ghost var m := mem[..];
    FromRep(m0, addrs, m, now, t);
    Sight(m, now, t);
    Sight(m, m[now + 3].addr, t.right);
    if mem[mem[now + 3].addr + 1].color.Red? {
      Sight(m, m[m[now + 3].addr + 2].addr, t.right.left);
      if mem[mem[mem[now + 3].addr + 2].addr + 1].color.Red? {
        RotateRightOfRight(mem, now, t, m0, addrs);
        t1 := t.(right := RBTree.RotateRight(t.right));
      }
      m := mem[..];
      FromRep(m0, addrs, m, now, t1);
      Sight(m, now, t1);
      Sight(m, m[now + 3].addr, t1.right);
      Sight(m, m[m[now + 3].addr + 3].addr, t1.right.right);
      if mem[mem[mem[now + 3].addr + 3].addr + 1].color.Red? {
        Sight(m, m[now + 2].addr, t1.left);
        if mem[mem[now + 2].addr + 1].color.Red? {
          PaintFamily(mem, now, Black, Red, t1, m0, addrs);
        } else {
          r := RotateLeft(mem, now, t1, m0, addrs);
          PaintFamily(mem, r, Red, Black, RBTree.RotateLeft(t1), m0, addrs);
        }
      }
    }
  }

  // now->right = mm_rotate_right(now->right)
  method RotateRightOfRight(mem: array<Word>, now: nat, ghost t: Tree, ghost m0: seq<Word>, ghost addrs: set<nat>)
    requires From(m0, addrs, mem[..], now, t) && t.Node? && t.right.Node? && t.right.left.Node?
    modifies mem
    ensures From(m0, addrs, mem[..], now, t.(right := RBTree.RotateRight(t.right)))
  {
    ghost var m := mem[..];
    ghost var inner := Addrs(t.right);
    assert NodeAt(m, now, t.key, t.color);
    var c := RotateRight(mem, mem[now + 3].addr, t.right, m, inner);
    ghost var m1 := mem[..];
    mem[now + 3] := Ptr(c);
    ReplaceRight(m0, addrs, m, now, t, inner, m1, c, RBTree.RotateRight(t.right), mem[..]);
  }

  // now->left->color = now->right->color = c; now->color = d
  method PaintFamily(mem: array<Word>, now: nat, c: Color, d: Color, ghost t: Tree, ghost m0: seq<Word>, ghost addrs: set<nat>)
    requires From(m0, addrs, mem[..], now, t) && t.Node? && t.left.Node? && t.right.Node?
    modifies mem
    ensures From(m0, addrs, mem[..], now, t.(left := Paint(t.left, c), right := Paint(t.right, c), color := d))
  {
    SetLeftColor(mem, now, c, t, m0, addrs);
    ghost var t1 := t.(left := Paint(t.left, c));
    SetRightColor(mem, now, c, t1, m0, addrs);
    SetColor(mem, now, d, t1.(right := Paint(t.right, c)), m0, addrs);
  }
  // mm_cmp_node
  method CmpNode(mem: array<Word>, x: nat, y: nat) returns (less: bool)
    requires x + 1 < mem.Length && mem[x + 1].Bits? && y + 1 < mem.Length && mem[y + 1].Bits?
    ensures less == Less(Key(mem[x + 1].size, x), Key(mem[y + 1].size, y))
  {
    if mem[x + 1].size == mem[y + 1].size {
      return x < y;
    }
    return mem[x + 1].size < mem[y + 1].size;
  }

  // A segment header that is not in the tree yet.
  ghost predicate Detached(m: seq<Word>, k: Key, addrs: set<nat>) {
    && HeaderAt(m, k)
    && k.addr !in addrs && Spaced(addrs + {k.addr})
  }

  method InsertNode(mem: array<Word>, now: nat, nw: nat, ghost t: Tree, ghost k: Key) returns (r: nat)
    requires TreeAt(mem[..], now, t) && Detached(mem[..], k, Addrs(t)) && nw == k.addr
    modifies mem
    ensures From(old(mem[..]), Addrs(t) + {nw}, mem[..], r, RBTree.InsertNode(t, k))
    decreases t
  {
    ghost var m := mem[..];
    ghost var all := Addrs(t) + {nw};
    if mem[now + 1].nul {
      mem[nw + 2], mem[nw + 3] := Ptr(now), Ptr(now);
      mem[nw + 1] := mem[nw + 1].(color := Red);
      NewLeaf(m, nw, k, mem[..]);
      return nw;
    }
    Parts(m, now, t);
    assert From(m, all, m, now, t);
    var less := CmpNode(mem, nw, now);
    if less {
      SubsetSpaced(Addrs(t.left) + {nw}, all);
      var l := InsertNode(mem, mem[now + 2].addr, nw, t.left, k);
      ghost var m1 := mem[..];
      mem[now + 2] := Ptr(l);
      ghost var lt := RBTree.InsertNode(t.left, k);
      ReplaceLeft(m, all, m, now, t, Addrs(t.left) + {nw}, m1, l, lt, mem[..]);
      r := InsertFixLeft(mem, now, t.(left := lt), m, all);
    } else {
      SubsetSpaced(Addrs(t.right) + {nw}, all);
      var c := InsertNode(mem, mem[now + 3].addr, nw, t.right, k);
      ghost var m1 := mem[..];
      mem[now + 3] := Ptr(c);
      ghost var rt := RBTree.InsertNode(t.right, k);
      ReplaceRight(m, all, m, now, t, Addrs(t.right) + {nw}, m1, c, rt, mem[..]);
      r := InsertFixRight(mem, now, t.(right := rt), m, all);
    }
  }

  lemma SubsetSpaced(a: set<nat>, all: set<nat>)
    requires a <= all && Spaced(all)
    ensures Spaced(a)
  {
  }

  lemma NewLeaf(m: seq<Word>, nw: nat, k: Key, n: seq<Word>)
    requires SentinelAt(m) && Detached(m, k, {}) && nw == k.addr
    requires n == m[nw + 2 := Ptr(SENTINEL)][nw + 3 := Ptr(SENTINEL)][nw + 1 := m[nw + 1].(color := Red)]
    ensures From(m, {nw}, n, nw, Node(Nil, k, Red, Nil))
  {
    assert Rep(n, SENTINEL, Nil);
  }

  // ----- mm_delete_left and mm_delete_right -----

  // *balance is 0 whenever mm_delete_left is called, so it is an out-parameter that starts as false.
  method DeleteLeft(mem: array<Word>, now: nat, ghost t: Tree, ghost m0: seq<Word>, ghost addrs: set<nat>)
    returns (r: nat, balance: bool)
    requires From(m0, addrs, mem[..], now, t) && ShortLeft(t)
    modifies mem
    ensures From(m0, addrs, mem[..], r, RBTree.DeleteLeft(t).tree)
    ensures balance == RBTree.DeleteLeft(t).balance
    decreases IsRed(t.right), 0
  {
    r, balance := now, false;
    ghost var m := mem[..];
    assert Rep(m, m[now + 3].addr, t.right);
    if mem[mem[now + 3].addr + 1].color.Red? {
      r := RotateLeft(mem, now, t, m0, addrs);
      ghost var t1 := RBTree.RotateLeft(t);
      SetColor(mem, r, Black, t1, m0, addrs);
      ghost var t2 := t1.(color := Black);
      SetLeftColor(mem, r, Red, t2, m0, addrs);
      ghost var t3 := t2.(left := Paint(t1.left, Red));
      balance := DeleteLeftOfLeft(mem, r, t3, m0, addrs);
      return;
    }
    assert Rep(m, m[m[now + 3].addr + 2].addr, t.right.left);
    assert Rep(m, m[m[now + 3].addr + 3].addr, t.right.right);
    var nearRed := mem[mem[mem[now + 3].addr + 2].addr + 1].color.Red?;
    var farRed := mem[mem[mem[now + 3].addr + 3].addr + 1].color.Red?;
    if mem[now + 1].color.Black? && !nearRed && !farRed {
      SetRightColor(mem, now, Red, t, m0, addrs);
      return;
    }
    if mem[now + 1].color.Red? && !nearRed && !farRed {
      SetColor(mem, now, Black, t, m0, addrs);
      SetRightColor(mem, now, Red, t.(color := Black), m0, addrs);
      balance := true;
      return;
    }
    r := DeleteLeftEnd(mem, now, t, m0, addrs);
    balance := true;
  }

  // now->left = mm_delete_left(now->left, balance)
  method DeleteLeftOfLeft(mem: array<Word>, now: nat, ghost t: Tree, ghost m0: seq<Word>, ghost addrs: set<nat>) returns (balance: bool)
    requires From(m0, addrs, mem[..], now, t) && t.Node? && ShortLeft(t.left) && !IsRed(t.left.right)
    modifies mem
    ensures From(m0, addrs, mem[..], now, t.(left := RBTree.DeleteLeft(t.left).tree))
    ensures balance == RBTree.DeleteLeft(t.left).balance
    decreases false, 1
  {
    ghost var m := mem[..];
    ghost var inner := Addrs(t.left);
    assert NodeAt(m, now, t.key, t.color);
    var l;
    l, balance := DeleteLeft(mem, mem[now + 2].addr, t.left, m, inner);
    ghost var m1 := mem[..];
    mem[now + 2] := Ptr(l);
    ReplaceLeft(m0, addrs, m, now, t, inner, m1, l, RBTree.DeleteLeft(t.left).tree, mem[..]);
  }

  // The last two cases: a red nephew.
  method DeleteLeftEnd(mem: array<Word>, now: nat, ghost t: Tree, ghost m0: seq<Word>, ghost addrs: set<nat>) returns (r: nat)
    requires From(m0, addrs, mem[..], now, t) && t.Node? && t.right.Node? && !IsRed(t.right)
    requires IsRed(t.right.left) || IsRed(t.right.right)
    modifies mem
    ensures From(m0, addrs, mem[..], r, RBTree.DeleteLeftEnd(t))
  {
    hide From, Rep, SentinelAt;
    ghost var m := mem[..];
    ghost var t1 := t;
    FromRep(m0, addrs, m, now, t);
    Sight(m, now, t);
    Sight(m, m[now + 3].addr, t.right);
    Sight(m, m[m[now + 3].addr + 2].addr, t.right.left);
    Sight(m, m[m[now + 3].addr + 3].addr, t.right.right);
    if mem[mem[mem[now + 3].addr + 2].addr + 1].color.Red? && mem[mem[mem[now + 3].addr + 3].addr + 1].color.Black? {
      ghost var s := RBTree.RotateRight(t.right);
      RotateRightOfRight(mem, now, t, m0, addrs);
      SetRightColor(mem, now, Black, t.(right := s), m0, addrs);
      t1 := t.(right := s.(color := Black));
      SetRightRightColor(mem, now, Red, t1, m0, addrs);
      t1 := t.(right := s.(color := Black, right := Paint(s.right, Red)));
    }
    r := RotateLeft(mem, now, t1, m0, addrs);
    ghost var t2 := RBTree.RotateLeft(t1);
    ghost var m2 := mem[..];
    FromRep(m0, addrs, m2, r, t2);
    Sight(m2, r, t2);
    Sight(m2, m2[r + 2].addr, t2.left);
    SetColor(mem, r, mem[mem[r + 2].addr + 1].color, t2, m0, addrs);
    SetLeftColor(mem, r, Black, t2.(color := t.color), m0, addrs);
    SetRightColor(mem, r, Black, t2.(color := t.color, left := Paint(t2.left, Black)), m0, addrs);
  }

  // now->right->right->color = c
  method SetRightRightColor(mem: array<Word>, now: nat, c: Color, ghost t: Tree, ghost m0: seq<Word>, ghost addrs: set<nat>)
    requires From(m0, addrs, mem[..], now, t) && t.Node? && t.right.Node? && t.right.right.Node?
    modifies mem
    ensures From(m0, addrs, mem[..], now, t.(right := t.right.(right := Paint(t.right.right, c))))
  {
    ghost var m := mem[..];
    ghost var inner := Addrs(t.right);
    assert NodeAt(m, now, t.key, t.color);
    SetRightColor(mem, mem[now + 3].addr, c, t.right, m, inner);
    ghost var n := mem[..];
    assert now in addrs && Same(m, n, now + 3) by { NotTouched(addrs, inner, now); }
    assert n == n[now + 3 := Ptr(m[now + 3].addr)];
    ReplaceRight(m0, addrs, m, now, t, inner, n, m[now + 3].addr, t.right.(right := Paint(t.right.right, c)), n);
  }

  method DeleteRight(mem: array<Word>, now: nat, ghost t: Tree, ghost m0: seq<Word>, ghost addrs: set<nat>)
    returns (r: nat, balance: bool)
    requires From(m0, addrs, mem[..], now, t) && ShortRight(t)
    modifies mem
    ensures From(m0, addrs, mem[..], r, RBTree.DeleteRight(t).tree)
    ensures balance == RBTree.DeleteRight(t).balance
    decreases IsRed(t.left), 0
  {
    r, balance := now, false;
    ghost var m := mem[..];
    assert Rep(m, m[now + 2].addr, t.left);
    if mem[mem[now + 2].addr + 1].color.Red? {
      r := RotateRight(mem, now, t, m0, addrs);
      ghost var t1 := RBTree.RotateRight(t);
      SetColor(mem, r, Black, t1, m0, addrs);
      ghost var t2 := t1.(color := Black);
      SetRightColor(mem, r, Red, t2, m0, addrs);
      ghost var t3 := t2.(right := Paint(t1.right, Red));
      balance := DeleteRightOfRight(mem, r, t3, m0, addrs);
      return;
    }
    assert Rep(m, m[m[now + 2].addr + 3].addr, t.left.right);
    assert Rep(m, m[m[now + 2].addr + 2].addr, t.left.left);
    var nearRed := mem[mem[mem[now + 2].addr + 3].addr + 1].color.Red?;
    var farRed := mem[mem[mem[now + 2].addr + 2].addr + 1].color.Red?;
    if mem[now + 1].color.Black? && !nearRed && !farRed {
      SetLeftColor(mem, now, Red, t, m0, addrs);
      return;
    }
    if mem[now + 1].color.Red? && !nearRed && !farRed {
      SetColor(mem, now, Black, t, m0, addrs);
      SetLeftColor(mem, now, Red, t.(color := Black), m0, addrs);
      balance := true;
      return;
    }
    r := DeleteRightEnd(mem, now, t, m0, addrs);
    balance := true;
  }

  // now->right = mm_delete_right(now->right, balance)
  method DeleteRightOfRight(mem: array<Word>, now: nat, ghost t: Tree, ghost m0: seq<Word>, ghost addrs: set<nat>) returns (balance: bool)
    requires From(m0, addrs, mem[..], now, t) && t.Node? && ShortRight(t.right) && !IsRed(t.right.left)
    modifies mem
    ensures From(m0, addrs, mem[..], now, t.(right := RBTree.DeleteRight(t.right).tree))
    ensures balance == RBTree.DeleteRight(t.right).balance
    decreases false, 1
  {
    ghost var m := mem[..];
    ghost var inner := Addrs(t.right);
    assert NodeAt(m, now, t.key, t.color);
    var c;
    c, balance := DeleteRight(mem, mem[now + 3].addr, t.right, m, inner);
    ghost var m1 := mem[..];
    mem[now + 3] := Ptr(c);
    ReplaceRight(m0, addrs, m, now, t, inner, m1, c, RBTree.DeleteRight(t.right).tree, mem[..]);
  }

  // The last two cases: a red nephew.
  method DeleteRightEnd(mem: array<Word>, now: nat, ghost t: Tree, ghost m0: seq<Word>, ghost addrs: set<nat>) returns (r: nat)
    requires From(m0, addrs, mem[..], now, t) && t.Node? && t.left.Node? && !IsRed(t.left)
    requires IsRed(t.left.right) || IsRed(t.left.left)
    modifies mem
    ensures From(m0, addrs, mem[..], r, RBTree.DeleteRightEnd(t))
  {
    hide From, Rep, SentinelAt;
    ghost var m := mem[..];
    ghost var t1 := t;
    FromRep(m0, addrs, m, now, t);
    Sight(m, now, t);
    Sight(m, m[now + 2].addr, t.left);
    Sight(m, m[m[now + 2].addr + 3].addr, t.left.right);
    Sight(m, m[m[now + 2].addr + 2].addr, t.left.left);
    if mem[mem[mem[now + 2].addr + 3].addr + 1].color.Red? && mem[mem[mem[now + 2].addr + 2].addr + 1].color.Black? {
      ghost var s := RBTree.RotateLeft(t.left);
      RotateLeftOfLeft(mem, now, t, m0, addrs);
      SetLeftColor(mem, now, Black, t.(left := s), m0, addrs);
      t1 := t.(left := s.(color := Black));
      SetLeftLeftColor(mem, now, Red, t1, m0, addrs);
      t1 := t.(left := s.(color := Black, left := Paint(s.left, Red)));
    }
    r := RotateRight(mem, now, t1, m0, addrs);
    ghost var t2 := RBTree.RotateRight(t1);
    ghost var m2 := mem[..];
    FromRep(m0, addrs, m2, r, t2);
    Sight(m2, r, t2);
    Sight(m2, m2[r + 3].addr, t2.right);
    SetColor(mem, r, mem[mem[r + 3].addr + 1].color, t2, m0, addrs);
    SetRightColor(mem, r, Black, t2.(color := t.color), m0, addrs);
    SetLeftColor(mem, r, Black, t2.(color := t.color, right := Paint(t2.right, Black)), m0, addrs);
  }

  // now->left->left->color = c
  method SetLeftLeftColor(mem: array<Word>, now: nat, c: Color, ghost t: Tree, ghost m0: seq<Word>, ghost addrs: set<nat>)
    requires From(m0, addrs, mem[..], now, t) && t.Node? && t.left.Node? && t.left.left.Node?
    modifies mem
    ensures From(m0, addrs, mem[..], now, t.(left := t.left.(left := Paint(t.left.left, c))))
  {
    ghost var m := mem[..];
    ghost var inner := Addrs(t.left);
    assert NodeAt(m, now, t.key, t.color);
    SetLeftColor(mem, mem[now + 2].addr, c, t.left, m, inner);
    ghost var n := mem[..];
    assert now in addrs && Same(m, n, now + 2) by { NotTouched(addrs, inner, now); }
    assert n == n[now + 2 := Ptr(m[now + 2].addr)];
    ReplaceLeft(m0, addrs, m, now, t, inner, n, m[now + 2].addr, t.left.(left := Paint(t.left.left, c)), n);
  }

  // ----- mm_delete_node -----

  // mm_delete_node called with a target: unlink the least node and hand it back.
  method DeleteLeast(mem: array<Word>, now: nat, ghost t: Tree) returns (r: nat, balance: bool, target: nat)
    requires TreeAt(mem[..], now, t) && t.Node? && RedBlack(t)
    modifies mem
    ensures From(old(mem[..]), Addrs(t), mem[..], r, RBTree.DeleteLeast(t).tree)
    ensures balance == RBTree.DeleteLeast(t).balance
    ensures target == LeastKey(t).addr
    decreases t
  {
    ghost var m := mem[..];
    ghost var all := Addrs(t);
    Parts(m, now, t);
    if mem[mem[now + 2].addr + 1].nul {
      target := now;
      balance := mem[now + 1].color.Red? || mem[mem[now + 3].addr + 1].color.Red?;
      r := mem[now + 3].addr;
      SetColor(mem, r, Black, t.right, m, all);
    } else {
      r := now;
      var l;
      l, balance, target := DeleteLeast(mem, mem[now + 2].addr, t.left);
      ghost var m1 := mem[..];
      mem[now + 2] := Ptr(l);
      ghost var d := RBTree.DeleteLeast(t.left);
      ReplaceLeft(m, all, m, now, t, Addrs(t.left), m1, l, d.tree, mem[..]);
      if !balance {
        DeleteLeftRepairs(t.(left := d.tree));
        r, balance := DeleteLeft(mem, now, t.(left := d.tree), m, all);
      }
    }
  }

  // The successor k takes over the colour and the children of the node it replaces; d is what is left of the right subtree.
  lemma Transplant(m: seq<Word>, now: nat, t: Tree, m1: seq<Word>, c: nat, d: Tree, k: Key, n: seq<Word>)
    requires TreeAt(m, now, t) && t.Node?
    requires From(m, Addrs(t.right), m1, c, d) && HeaderAt(m1, k) && k.addr in Addrs(t.right) && k.addr !in Addrs(d)
    requires now + 3 < |m1| && m1[now + 2] == m[now + 2]
    requires n == m1[now + 3 := Ptr(c)][k.addr + 1 := m1[k.addr + 1].(color := t.color)][k.addr + 2 := m1[now + 2]][k.addr + 3 := Ptr(c)]
    ensures From(m, Addrs(t), n, k.addr, Node(t.left, k, t.color, d))
  {
    var all, inner, ptr := Addrs(t), Addrs(t.right), k.addr;
    Parts(m, now, t);
    RepApart(m, m1, m[now + 2].addr, t.left, inner, all);
    TransplantRep(all, m1, now, t.left, d, k, t.color, c, n);
    OnlyNodesTransitive(m, m1, n, inner, {now, ptr}, all);
    OnlyNodesTransitive(m, n, n, inner + {now, ptr}, all, all);
    assert inner + {now, ptr} + all == all;
    assert Same(m1, n, SENTINEL + 1);
  }

  lemma TransplantRep(all: set<nat>, m: seq<Word>, now: nat, l: Tree, r: Tree, k: Key, color: Color, c: nat, n: seq<Word>)
    requires Spaced(all) && Addrs(l) <= all && Addrs(r) <= all && now in all && k.addr in all && now != k.addr
    requires now !in Addrs(l) && now !in Addrs(r) && k.addr !in Addrs(l) && k.addr !in Addrs(r)
    requires now + 3 < |m| && m[now + 2].Ptr? && Rep(m, m[now + 2].addr, l) && Rep(m, c, r)
    requires HeaderAt(m, k)
    requires n == m[now + 3 := Ptr(c)][k.addr + 1 := m[k.addr + 1].(color := color)][k.addr + 2 := m[now + 2]][k.addr + 3 := Ptr(c)]
    ensures OnlyNodes(m, n, {now, k.addr}) && Rep(n, k.addr, Node(l, k, color, r))
  {
    TransplantStores(m, now, k.addr, color, c, n);
    assert NodeAt(n, k.addr, k, color);
    RepApart(m, n, m[now + 2].addr, l, {now, k.addr}, all);
    RepApart(m, n, c, r, {now, k.addr}, all);
  }

  lemma TransplantStores(m: seq<Word>, now: nat, ptr: nat, c: Color, child: nat, n: seq<Word>)
    requires now + 3 < |m| && ptr + 3 < |m| && m[ptr + 1].Bits? && (now + 4 <= ptr || ptr + 4 <= now)
    requires n == m[now + 3 := Ptr(child)][ptr + 1 := m[ptr + 1].(color := c)][ptr + 2 := m[now + 2]][ptr + 3 := Ptr(child)]
    ensures OnlyNodes(m, n, {now, ptr})
    ensures n[ptr + 1] == m[ptr + 1].(color := c) && n[ptr + 2] == m[now + 2] && n[ptr + 3] == Ptr(child)
  {
  }

  method DeleteNode(mem: array<Word>, now: nat, del: nat, ghost t: Tree, ghost k: Key) returns (r: nat, balance: bool)
    requires TreeAt(mem[..], now, t) && RedBlack(t) && OnPath(t, k)
    requires del == k.addr && del + 1 < mem.Length && mem[del + 1].Bits? && mem[del + 1].size == k.size
    modifies mem
    ensures From(old(mem[..]), Addrs(t), mem[..], r, RBTree.DeleteNode(t, k).tree)
    ensures balance == RBTree.DeleteNode(t, k).balance
    decreases t, 1
  {
    ghost var m := mem[..];
    ghost var all := Addrs(t);
    Parts(m, now, t);
    r := now;
    if now == del {
      r, balance := DeleteRoot(mem, now, t);
      return;
    }
    var less := CmpNode(mem, del, now);
    if less {
      r, balance := DeleteInLeft(mem, now, del, t, k);
    } else {
      r, balance := DeleteInRight(mem, now, del, t, k);
    }
  }

  method DeleteInLeft(mem: array<Word>, now: nat, del: nat, ghost t: Tree, ghost k: Key) returns (r: nat, balance: bool)
    requires TreeAt(mem[..], now, t) && RedBlack(t) && OnPath(t, k) && t.key != k && Less(k, t.key)
    requires del == k.addr && del + 1 < mem.Length && mem[del + 1].Bits? && mem[del + 1].size == k.size
    modifies mem
    ensures From(old(mem[..]), Addrs(t), mem[..], r, RBTree.DeleteNode(t, k).tree)
    ensures balance == RBTree.DeleteNode(t, k).balance
    decreases t, 0
  {
    ghost var m := mem[..];
    ghost var all := Addrs(t);
    Parts(m, now, t);
    r := now;
    var l;
    l, balance := DeleteNode(mem, mem[now + 2].addr, del, t.left, k);
    ghost var m1 := mem[..];
    mem[now + 2] := Ptr(l);
    ghost var d := RBTree.DeleteNode(t.left, k);
    ReplaceLeft(m, all, m, now, t, Addrs(t.left), m1, l, d.tree, mem[..]);
    if !balance {
      DeleteLeftRepairs(t.(left := d.tree));
      r, balance := DeleteLeft(mem, now, t.(left := d.tree), m, all);
    }
  }

  method DeleteInRight(mem: array<Word>, now: nat, del: nat, ghost t: Tree, ghost k: Key) returns (r: nat, balance: bool)
    requires TreeAt(mem[..], now, t) && RedBlack(t) && OnPath(t, k) && t.key != k && !Less(k, t.key)
    requires del == k.addr && del + 1 < mem.Length && mem[del + 1].Bits? && mem[del + 1].size == k.size
    modifies mem
    ensures From(old(mem[..]), Addrs(t), mem[..], r, RBTree.DeleteNode(t, k).tree)
    ensures balance == RBTree.DeleteNode(t, k).balance
    decreases t, 0
  {
    ghost var m := mem[..];
    ghost var all := Addrs(t);
    Parts(m, now, t);
    r := now;
    var c;
    c, balance := DeleteNode(mem, mem[now + 3].addr, del, t.right, k);
    ghost var m1 := mem[..];
    mem[now + 3] := Ptr(c);
    ghost var d := RBTree.DeleteNode(t.right, k);
    ReplaceRight(m, all, m, now, t, Addrs(t.right), m1, c, d.tree, mem[..]);
    if !balance {
      DeleteRightRepairs(t.(right := d.tree));
      r, balance := DeleteRight(mem, now, t.(right := d.tree), m, all);
    }
  }

  // now->right = c; ptr takes the colour, left and right of now
  method TakePlace(mem: array<Word>, now: nat, c: nat, ptr: nat, ghost m: seq<Word>, ghost t: Tree, ghost d: Tree, ghost k: Key)
    requires TreeAt(m, now, t) && t.Node? && k.addr == ptr && (now + 4 <= ptr || ptr + 4 <= now)
    requires From(m, Addrs(t.right), mem[..], c, d) && HeaderAt(mem[..], k) && k.addr in Addrs(t.right) && k.addr !in Addrs(d)
    requires now + 3 < mem.Length && mem[now + 1] == m[now + 1] && mem[now + 2] == m[now + 2]
    modifies mem
    ensures From(m, Addrs(t), mem[..], ptr, Node(t.left, k, t.color, d))
  {
    ghost var m1 := mem[..];
    mem[now + 3] := Ptr(c);
    mem[ptr + 1] := mem[ptr + 1].(color := mem[now + 1].color);
    mem[ptr + 2] := mem[now + 2];
    mem[ptr + 3] := mem[now + 3];
    Transplant(m, now, t, m1, c, d, k, mem[..]);
  }

  // The case now == del of mm_delete_node.
  method DeleteRoot(mem: array<Word>, now: nat, ghost t: Tree) returns (r: nat, balance: bool)
    requires TreeAt(mem[..], now, t) && t.Node? && RedBlack(t)
    modifies mem
    ensures From(old(mem[..]), Addrs(t), mem[..], r, RBTree.DeleteNode(t, t.key).tree)
    ensures balance == RBTree.DeleteNode(t, t.key).balance
  {
    ghost var m := mem[..];
    ghost var all := Addrs(t);
    Parts(m, now, t);
    if mem[mem[now + 3].addr + 1].nul {
      balance := mem[now + 1].color.Red? || mem[mem[now + 2].addr + 1].color.Red?;
      r := mem[now + 2].addr;
      SetColor(mem, r, Black, t.left, m, all);
    } else {
      var c, ptr;
      c, balance, ptr := DeleteLeast(mem, mem[now + 3].addr, t.right);
      ghost var m1 := mem[..];
      ghost var d := RBTree.DeleteLeast(t.right).tree;
      SuccessorHeader(m, now, t, m1);
      TakePlace(mem, now, c, ptr, m, t, d, LeastKey(t.right));
      r := ptr;
      if !balance {
        ghost var t1 := Node(t.left, LeastKey(t.right), t.color, d);
        DeleteRightRepairs(t1);
        r, balance := DeleteRight(mem, ptr, t1, m, all);
      }
    }
  }

  lemma SuccessorHeader(m: seq<Word>, now: nat, t: Tree, m1: seq<Word>)
    requires TreeAt(m, now, t) && t.Node? && t.right.Node? && RedBlack(t) && OnlyNodes(m, m1, Addrs(t.right))
    ensures var k := LeastKey(t.right);
      && HeaderAt(m1, k) && k.addr in Addrs(t.right) && k.addr !in Addrs(RBTree.DeleteLeast(t.right).tree)
      && (now + 4 <= k.addr || k.addr + 4 <= now)
    ensures now + 3 < |m1| && m1[now + 1] == m[now + 1] && m1[now + 2] == m[now + 2]
  {
    hide Rep, Addrs;
    var k := LeastKey(t.right);
    Parts(m, now, t);
    SuccessorAddr(m, m[now + 3].addr, t.right);
    RightAddrs(t);
    assert Recoloured(m, m1, k.addr);
    NotTouched(Addrs(t), Addrs(t.right), now);
    assert Same(m, m1, now + 1) && Same(m, m1, now + 2);
  }

  lemma RightAddrs(t: Tree)
    requires t.Node?
    ensures t.key.addr in Addrs(t) && Addrs(t.right) <= Addrs(t)
  {
  }

  lemma SuccessorAddr(m: seq<Word>, p: nat, t: Tree)
    requires Rep(m, p, t) && t.Node? && RedBlack(t) && Once(t)
    ensures var k := LeastKey(t);
      HeaderAt(m, k) && k.addr in Addrs(t) && k.addr !in Addrs(RBTree.DeleteLeast(t).tree)
  {
    DeleteLeastAddrs(t);
    LeastKeyIn(t);
    KeyInMemory(m, p, t, LeastKey(t));
  }

  // ----- mm_check_node -----

  // 1 exactly if every node is in order with its children; then each node is counted once.
  method CheckNode(mem: array<Word>, now: nat, cnt: int, ghost t: Tree) returns (r: int, cnt': int)
    requires TreeAt(mem[..], now, t)
    ensures r == 1 || r == 0
    ensures r == 1 <==> LooksRight(t)
    ensures r == 1 ==> cnt' == cnt + Size(t)
    ensures mem[..] == old(mem[..])
    decreases t
  {
    ghost var m := mem[..];
    if mem[now + 1].nul {
      return 1, cnt;
    }
    Parts(m, now, t);
    var left, right := mem[now + 2].addr, mem[now + 3].addr;
    ChildKeys(m, left, t.left);
    ChildKeys(m, right, t.right);
    cnt' := cnt + 1;
    if !mem[left + 1].nul {
      var bad := CmpNode(mem, now, left);
      if bad { return 0, cnt'; }
    }
    if !mem[right + 1].nul {
      var bad := CmpNode(mem, right, now);
      if bad { return 0, cnt'; }
    }
    if mem[now + 1].color.Red? && (mem[left + 1].color.Red? || mem[right + 1].color.Red?) {
      return 0, cnt';
    }
    var a, b;
    a, cnt' := CheckNode(mem, left, cnt', t.left);
    b, cnt' := CheckNode(mem, right, cnt', t.right);
    r := if a == 1 && b == 1 then 1 else 0;
  }

  lemma ChildKeys(m: seq<Word>, p: nat, t: Tree)
    requires TreeAt(m, p, t)
    ensures p + 1 < |m| && m[p + 1].Bits? && (m[p + 1].nul <==> t.Nil?) && (m[p + 1].color.Red? <==> IsRed(t))
    ensures t.Node? ==> t.key == Key(m[p + 1].size, p) && t.key in Keys(t)
  {
  }
}
