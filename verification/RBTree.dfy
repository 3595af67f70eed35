/**
  The red-black tree of free segments as a value: what the in-place tree code of
  mm.c computes, and the laws a red-black tree promises about it.
  A node is keyed by (size, address), and `Nil` stands for the shared sentinel.
 */
module RBTree {
  import opened Powers

  datatype Color = Black | Red

  datatype Key = Key(size: nat, addr: nat)

  datatype Tree = Nil | Node(left: Tree, key: Key, color: Color, right: Tree)

  // The order of mm_cmp_node: by size, then by address.
  predicate Less(x: Key, y: Key) {
    if x.size == y.size then x.addr < y.addr else x.size < y.size
  }

  predicate IsRed(t: Tree) {
    t.Node? && t.color.Red?
  }

  function Paint(t: Tree, c: Color): Tree {
    if t.Nil? then Nil else t.(color := c)
  }

  function Keys(t: Tree): set<Key> {
    if t.Nil? then {} else Keys(t.left) + {t.key} + Keys(t.right)
  }

  // Binary search order: everything on the left is smaller, everything on the right is larger.
  ghost predicate Ordered(t: Tree) {
    t.Node? ==>
      && Ordered(t.left)
      && Ordered(t.right)
      && (forall k :: k in Keys(t.left) ==> Less(k, t.key))
      && (forall k :: k in Keys(t.right) ==> Less(t.key, k))
  }

  // No red node has a red child.
  predicate NoRedRed(t: Tree) {
    t.Node? ==>
      && NoRedRed(t.left)
      && NoRedRed(t.right)
      && (t.color.Red? ==> !IsRed(t.left) && !IsRed(t.right))
  }

  function BlackHeight(t: Tree): nat {
    if t.Nil? then 0 else BlackHeight(t.left) + if t.color.Black? then 1 else 0
  }

  // Every path from a node down to the sentinel passes the same number of black nodes.
  predicate Balanced(t: Tree) {
    t.Node? ==> Balanced(t.left) && Balanced(t.right) && BlackHeight(t.left) == BlackHeight(t.right)
  }

  predicate RedBlack(t: Tree) {
    Balanced(t) && NoRedRed(t)
  }

  // What mm_check_node looks at: each node beside its own children.
  predicate LooksRight(t: Tree) {
    t.Node? ==>
      && LooksRight(t.left) && LooksRight(t.right)
      && (t.left.Node? ==> !Less(t.key, t.left.key))
      && (t.right.Node? ==> !Less(t.right.key, t.key))
      && (t.color.Red? ==> !IsRed(t.left) && !IsRed(t.right))
  }

  lemma {:induction false} OrderedLooksRight(t: Tree)
    requires Ordered(t) && NoRedRed(t)
    ensures LooksRight(t)
  {
    if t.Node? {
      OrderedLooksRight(t.left);
      OrderedLooksRight(t.right);
      assert t.left.Node? ==> t.left.key in Keys(t.left);
      assert t.right.Node? ==> t.right.key in Keys(t.right);
    }
  }

  // Looking right is less than being a red-black tree: a grandchild on the wrong side of the root goes unnoticed, and
  // so does a path that is too short in black nodes.
  lemma LooksCanDeceive() returns (t: Tree)
    ensures LooksRight(t) && !Ordered(t) && !Balanced(t) && Search(t, 7) == Some(Key(10, 20))
    ensures Key(8, 40) in Keys(t)
  {
    var low := Node(Nil, Key(5, 10), Black, Nil);
    t := Node(low, Key(10, 20), Black, Node(Node(Nil, Key(8, 40), Black, Nil), Key(12, 30), Black, Nil));
    assert Key(8, 40) in Keys(t.right);
  }

  function Size(t: Tree): nat {
    if t.Nil? then 0 else Size(t.left) + 1 + Size(t.right)
  }

  // The number of nodes on the longest path.
  function Height(t: Tree): nat {
    if t.Nil? then 0
    else 1 + if Height(t.left) < Height(t.right) then Height(t.right) else Height(t.left)
  }

  // ----- rotations -----

  function RotateLeft(t: Tree): Tree
    requires t.Node? && t.right.Node?
  {
    t.right.(left := t.(right := t.right.left))
  }

  function RotateRight(t: Tree): Tree
    requires t.Node? && t.left.Node?
  {
    t.left.(right := t.(left := t.left.right))
  }

  // ----- search -----

  datatype Option<T> = None | Some(value: T)

  function Search(t: Tree, size: nat): (r: Option<Key>)
    ensures r.Some? ==> r.value in Keys(t)
  {
    if t.Nil? then None
    else if size <= t.key.size then
      var smaller := Search(t.left, size);
      if smaller.None? then Some(t.key) else smaller
    else Search(t.right, size)
  }

  // The (size, address)-least key of `keys` among those of at least the given size; none if no key is large enough.
  ghost predicate BestFit(keys: set<Key>, size: nat, r: Option<Key>) {
    match r
    case None => forall k :: k in keys ==> k.size < size
    case Some(best) =>
      && best in keys
      && size <= best.size
      && forall k :: k in keys && size <= k.size && k != best ==> Less(best, k)
  }

  lemma {:induction false} SearchIsBestFit(t: Tree, size: nat)
    requires Ordered(t)
    ensures BestFit(Keys(t), size, Search(t, size))
  {
    if t.Node? {
      SearchIsBestFit(t.left, size);
      SearchIsBestFit(t.right, size);
    }
  }

  // A best fit is unique, so BestFit determines what search returns.
  lemma BestFitUnique(keys: set<Key>, size: nat, r: Option<Key>, s: Option<Key>)
    requires BestFit(keys, size, r) && BestFit(keys, size, s)
    ensures r == s
  {
    if r.Some? && s.Some? {
      assert r != s ==> Less(r.value, s.value);
    }
  }

  // ----- insertion -----

  // The rebalancing after the left subtree has received a node.
  function InsertFixLeft(t: Tree): Tree
    requires t.Node?
  {
    if !IsRed(t.left) then t
    else
      var t1 := if IsRed(t.left.right) then t.(left := RotateLeft(t.left)) else t;
      if !IsRed(t1.left.left) then t1
      else if IsRed(t1.right) then
        t1.(left := Paint(t1.left, Black), right := Paint(t1.right, Black), color := Red)
      else
        var t2 := RotateRight(t1);
        t2.(left := Paint(t2.left, Red), right := Paint(t2.right, Red), color := Black)
  }

  function InsertFixRight(t: Tree): Tree
    requires t.Node?
  {
    if !IsRed(t.right) then t
    else
      var t1 := if IsRed(t.right.left) then t.(right := RotateRight(t.right)) else t;
      if !IsRed(t1.right.right) then t1
      else if IsRed(t1.left) then
        t1.(left := Paint(t1.left, Black), right := Paint(t1.right, Black), color := Red)
      else
        var t2 := RotateLeft(t1);
        t2.(left := Paint(t2.left, Red), right := Paint(t2.right, Red), color := Black)
  }

  function InsertNode(t: Tree, k: Key): (r: Tree)
    ensures r.Node?
  {
    if t.Nil? then Node(Nil, k, Red, Nil)
    else if Less(k, t.key) then InsertFixLeft(t.(left := InsertNode(t.left, k)))
    else InsertFixRight(t.(right := InsertNode(t.right, k)))
  }

  function Insert(t: Tree, k: Key): Tree {
    Paint(InsertNode(t, k), Black)
  }

  // r holds the same keys as t, and is in search order if t is.
  ghost predicate Reshapes(t: Tree, r: Tree) {
    Keys(r) == Keys(t) && (Ordered(t) ==> Ordered(r))
  }

  lemma RotateLeftReshapes(t: Tree)
    requires t.Node? && t.right.Node?
    ensures Reshapes(t, RotateLeft(t))
  {
    var r := RotateLeft(t);
    assert Keys(r.left) == Keys(t.left) + {t.key} + Keys(t.right.left);
    if Ordered(t) {
      assert Ordered(t.right);
      assert t.right.key in Keys(t.right);
      assert Keys(t.right.left) <= Keys(t.right);
      assert Ordered(r.left);
      assert Ordered(r);
    }
  }

  lemma RotateRightReshapes(t: Tree)
    requires t.Node? && t.left.Node?
    ensures Reshapes(t, RotateRight(t))
  {
    var r := RotateRight(t);
    assert Keys(r.right) == Keys(t.left.right) + {t.key} + Keys(t.right);
    if Ordered(t) {
      assert Ordered(t.left);
      assert t.left.key in Keys(t.left);
      assert Keys(t.left.right) <= Keys(t.left);
      assert Ordered(r.right);
      assert Ordered(r);
    }
  }

  // Replacing the subtrees by reshaped ones, and recolouring, reshapes the tree.
  lemma PartsReshape(t: Tree, l: Tree, r: Tree, c: Color)
    requires t.Node? && Reshapes(t.left, l) && Reshapes(t.right, r)
    ensures Reshapes(t, Node(l, t.key, c, r))
  {
  }

  lemma PaintReshapes(t: Tree, c: Color)
    ensures Reshapes(t, Paint(t, c))
  {
  }

  lemma InsertFixLeftReshapes(t: Tree)
    requires t.Node?
    ensures Reshapes(t, InsertFixLeft(t))
  {
    if IsRed(t.left) {
      if IsRed(t.left.right) { RotateLeftReshapes(t.left); }
      var t1 := if IsRed(t.left.right) then t.(left := RotateLeft(t.left)) else t;
      PartsReshape(t, t1.left, t.right, t.color);
      if IsRed(t1.left.left) {
        var t2 := if IsRed(t1.right) then t1 else RotateRight(t1);
        if !IsRed(t1.right) { RotateRightReshapes(t1); }
        var c := if IsRed(t1.right) then Black else Red;
        PaintReshapes(t2.left, c);
        PaintReshapes(t2.right, c);
        PartsReshape(t2, Paint(t2.left, c), Paint(t2.right, c), InsertFixLeft(t).color);
      }
    }
  }

  lemma InsertFixRightReshapes(t: Tree)
    requires t.Node?
    ensures Reshapes(t, InsertFixRight(t))
  {
    if IsRed(t.right) {
      if IsRed(t.right.left) { RotateRightReshapes(t.right); }
      var t1 := if IsRed(t.right.left) then t.(right := RotateRight(t.right)) else t;
      PartsReshape(t, t.left, t1.right, t.color);
      if IsRed(t1.right.right) {
        var t2 := if IsRed(t1.left) then t1 else RotateLeft(t1);
        if !IsRed(t1.left) { RotateLeftReshapes(t1); }
        var c := if IsRed(t1.left) then Black else Red;
        PaintReshapes(t2.left, c);
        PaintReshapes(t2.right, c);
        PartsReshape(t2, Paint(t2.left, c), Paint(t2.right, c), InsertFixRight(t).color);
      }
    }
  }

  // Insertion adds exactly the new key and keeps the search order.
  lemma {:induction false} InsertNodeKeys(t: Tree, k: Key)
    requires Ordered(t) && k !in Keys(t)
    ensures Keys(InsertNode(t, k)) == Keys(t) + {k}
    ensures Ordered(InsertNode(t, k))
  {
    if t.Node? {
      if Less(k, t.key) {
        InsertNodeKeys(t.left, k);
        InsertFixLeftReshapes(t.(left := InsertNode(t.left, k)));
      } else {
        InsertNodeKeys(t.right, k);
        InsertFixRightReshapes(t.(right := InsertNode(t.right, k)));
      }
    }
  }

  // A red-red pair, if there is one, is at the root.
  predicate RedRedOnlyAtRoot(t: Tree) {
    t.Node? ==> NoRedRed(t.left) && NoRedRed(t.right)
  }

  lemma RotateLeftBalances(t: Tree)
    requires t.Node? && t.right.Node? && Balanced(t) && IsRed(t.right)
    ensures var r := RotateLeft(t);
      && Balanced(r.left) && Balanced(r.right)
      && BlackHeight(r.left) == BlackHeight(t)
      && BlackHeight(r.right) == BlackHeight(t.left)
  {
    assert Balanced(t.right) && Balanced(t.right.left);
  }

  lemma RotateRightBalances(t: Tree)
    requires t.Node? && t.left.Node? && Balanced(t) && IsRed(t.left)
    ensures var r := RotateRight(t);
      && Balanced(r.left) && Balanced(r.right)
      && BlackHeight(r.right) == BlackHeight(t)
      && BlackHeight(r.left) == BlackHeight(t.right)
  {
    assert Balanced(t.left) && Balanced(t.left.right);
  }

  lemma InsertFixLeftBalances(t: Tree)
    requires t.Node? && Balanced(t)
    requires NoRedRed(t.right) && RedRedOnlyAtRoot(t.left)
    requires t.left.Node? && t.left.left.Node? && t.left.right.Node? ==> !(IsRed(t.left) && IsRed(t.left.left) && IsRed(t.left.right))
    requires IsRed(t) ==> NoRedRed(t.left) && !IsRed(t.right)
    ensures var r := InsertFixLeft(t);
      && Balanced(r) && BlackHeight(r) == BlackHeight(t)
      && RedRedOnlyAtRoot(r)
      && (IsRed(t) ==> IsRed(r) && r == t)
      && (!IsRed(t) ==> NoRedRed(r))
  {
    if IsRed(t.left) {
      if IsRed(t.left.right) { RotateLeftBalances(t.left); }
      var t1 := if IsRed(t.left.right) then t.(left := RotateLeft(t.left)) else t;
      assert Balanced(t1.left) && Balanced(t1) && BlackHeight(t1) == BlackHeight(t);
      if IsRed(t1.left.left) {
        RotateRightBalances(t1);
        assert NoRedRed(InsertFixLeft(t).left) && NoRedRed(InsertFixLeft(t).right);
      }
    }
  }

  lemma InsertFixRightBalances(t: Tree)
    requires t.Node? && Balanced(t)
    requires NoRedRed(t.left) && RedRedOnlyAtRoot(t.right)
    requires t.right.Node? && t.right.left.Node? && t.right.right.Node? ==> !(IsRed(t.right) && IsRed(t.right.left) && IsRed(t.right.right))
    requires IsRed(t) ==> NoRedRed(t.right) && !IsRed(t.left)
    ensures var r := InsertFixRight(t);
      && Balanced(r) && BlackHeight(r) == BlackHeight(t)
      && RedRedOnlyAtRoot(r)
      && (IsRed(t) ==> IsRed(r) && r == t)
      && (!IsRed(t) ==> NoRedRed(r))
  {
    if IsRed(t.right) {
      if IsRed(t.right.left) { RotateRightBalances(t.right); }
      var t1 := if IsRed(t.right.left) then t.(right := RotateRight(t.right)) else t;
      assert Balanced(t1.right) && Balanced(t1) && BlackHeight(t1) == BlackHeight(t);
      if IsRed(t1.right.right) {
        RotateLeftBalances(t1);
        assert NoRedRed(InsertFixRight(t).left) && NoRedRed(InsertFixRight(t).right);
      }
    }
  }

  // Insertion keeps the black height; a red-red pair can remain only at the root, and only if that root was red.
  lemma {:induction false} InsertNodeBalances(t: Tree, k: Key)
    requires RedBlack(t)
    ensures Balanced(InsertNode(t, k)) && BlackHeight(InsertNode(t, k)) == BlackHeight(t)
    ensures RedRedOnlyAtRoot(InsertNode(t, k))
    ensures !NoRedRed(InsertNode(t, k)) ==> IsRed(t)
    ensures IsRed(t) ==> IsRed(InsertNode(t, k)) && !(IsRed(InsertNode(t, k).left) && IsRed(InsertNode(t, k).right))
  {
    if t.Node? {
      if Less(k, t.key) {
        InsertNodeBalances(t.left, k);
        InsertFixLeftBalances(t.(left := InsertNode(t.left, k)));
      } else {
        InsertNodeBalances(t.right, k);
        InsertFixRightBalances(t.(right := InsertNode(t.right, k)));
      }
    }
  }

  lemma InsertIsRedBlack(t: Tree, k: Key)
    requires RedBlack(t) && Ordered(t) && k !in Keys(t)
    ensures RedBlack(Insert(t, k)) && !IsRed(Insert(t, k))
    ensures Ordered(Insert(t, k)) && Keys(Insert(t, k)) == Keys(t) + {k}
  {
    InsertNodeBalances(t, k);
    InsertNodeKeys(t, k);
    var r := InsertNode(t, k);
    assert Keys(Insert(t, k)) == Keys(r);
  }

  // ----- deletion -----

  // What a deletion leaves: the tree, and whether its black height is what it was before.
  datatype Deletion = Deletion(tree: Tree, balance: bool)

  // The left subtree is one black node short of the right one.
  predicate ShortLeft(t: Tree) {
    && t.Node?
    && RedBlack(t.left) && RedBlack(t.right)
    && BlackHeight(t.right) == BlackHeight(t.left) + 1
    && !IsRed(t.left)
    && (IsRed(t) ==> !IsRed(t.right))
  }

  predicate ShortRight(t: Tree) {
    && t.Node?
    && RedBlack(t.left) && RedBlack(t.right)
    && BlackHeight(t.left) == BlackHeight(t.right) + 1
    && !IsRed(t.right)
    && (IsRed(t) ==> !IsRed(t.left))
  }

  function DeleteLeft(t: Tree): Deletion
    requires ShortLeft(t)
    decreases IsRed(t.right)
  {
    if IsRed(t.right) then
      var t1 := RotateLeft(t);
      var d := DeleteLeft(Paint(t1.left, Red));
      Deletion(t1.(color := Black, left := d.tree), d.balance)
    else if !IsRed(t) && !IsRed(t.right.left) && !IsRed(t.right.right) then
      Deletion(t.(right := Paint(t.right, Red)), false)
    else if IsRed(t) && !IsRed(t.right.left) && !IsRed(t.right.right) then
      Deletion(t.(color := Black, right := Paint(t.right, Red)), true)
    else
      Deletion(DeleteLeftEnd(t), true)
  }

  // The sibling has a red child: one or two rotations finish the repair.
  function DeleteLeftEnd(t: Tree): Tree
    requires t.Node? && t.right.Node?
    requires IsRed(t.right.left) || IsRed(t.right.right)
  {
    var t1 :=
      if !IsRed(t.right.right) then
        var s := RotateRight(t.right);
        t.(right := s.(color := Black, right := Paint(s.right, Red)))
      else t;
    var t2 := RotateLeft(t1);
    t2.(color := t.color, left := Paint(t2.left, Black), right := Paint(t2.right, Black))
  }

  function DeleteRight(t: Tree): Deletion
    requires ShortRight(t)
    decreases IsRed(t.left)
  {
    if IsRed(t.left) then
      var t1 := RotateRight(t);
      var d := DeleteRight(Paint(t1.right, Red));
      Deletion(t1.(color := Black, right := d.tree), d.balance)
    else if !IsRed(t) && !IsRed(t.left.left) && !IsRed(t.left.right) then
      Deletion(t.(left := Paint(t.left, Red)), false)
    else if IsRed(t) && !IsRed(t.left.left) && !IsRed(t.left.right) then
      Deletion(t.(color := Black, left := Paint(t.left, Red)), true)
    else
      Deletion(DeleteRightEnd(t), true)
  }

  function DeleteRightEnd(t: Tree): Tree
    requires t.Node? && t.left.Node?
    requires IsRed(t.left.left) || IsRed(t.left.right)
  {
    var t1 :=
      if !IsRed(t.left.left) then
        var s := RotateLeft(t.left);
        t.(left := s.(color := Black, left := Paint(s.left, Red)))
      else t;
    var t2 := RotateRight(t1);
    t2.(color := t.color, left := Paint(t2.left, Black), right := Paint(t2.right, Black))
  }

  // The whole contract of a repair: a red-black tree whose black height is h, or h - 1 with a black root,
  // and a black root stays black.
  predicate Repaired(d: Deletion, wasRed: bool, h: nat) {
    && RedBlack(d.tree)
    && BlackHeight(d.tree) + (if d.balance then 0 else 1) == h
    && (!d.balance || !wasRed ==> !IsRed(d.tree))
  }

  lemma DeleteLeftEndRepairs(t: Tree)
    requires ShortLeft(t) && !IsRed(t.right)
    requires IsRed(t.right.left) || IsRed(t.right.right)
    ensures Repaired(Deletion(DeleteLeftEnd(t), true), IsRed(t), BlackHeight(t.right) + if IsRed(t) then 0 else 1)
  {
    var r := DeleteLeftEnd(t);
    assert RedBlack(t.right.left) && RedBlack(t.right.right);
    assert IsRed(t.right.left) ==> RedBlack(t.right.left.left) && RedBlack(t.right.left.right);
    assert RedBlack(r.left);
    assert RedBlack(r.right);
  }

  lemma DeleteRightEndRepairs(t: Tree)
    requires ShortRight(t) && !IsRed(t.left)
    requires IsRed(t.left.left) || IsRed(t.left.right)
    ensures Repaired(Deletion(DeleteRightEnd(t), true), IsRed(t), BlackHeight(t.left) + if IsRed(t) then 0 else 1)
  {
    var r := DeleteRightEnd(t);
    assert RedBlack(t.left.left) && RedBlack(t.left.right);
    assert IsRed(t.left.right) ==> RedBlack(t.left.right.left) && RedBlack(t.left.right.right);
    assert RedBlack(r.left);
    assert RedBlack(r.right);
  }

  // The repair of a left subtree that lost a black node; started at a red node it always restores the height.
  lemma {:induction false} DeleteLeftRepairs(t: Tree)
    requires ShortLeft(t)
    ensures Repaired(DeleteLeft(t), IsRed(t), BlackHeight(t.right) + if IsRed(t) then 0 else 1)
    ensures IsRed(t) ==> DeleteLeft(t).balance
    decreases IsRed(t.right)
  {
    if IsRed(t.right) {
      assert RedBlack(t.right.left) && RedBlack(t.right.right);
      DeleteLeftRepairs(Paint(RotateLeft(t).left, Red));
    } else if IsRed(t.right.left) || IsRed(t.right.right) {
      DeleteLeftEndRepairs(t);
    } else {
      assert RedBlack(Paint(t.right, Red));
    }
  }

  lemma {:induction false} DeleteRightRepairs(t: Tree)
    requires ShortRight(t)
    ensures Repaired(DeleteRight(t), IsRed(t), BlackHeight(t.left) + if IsRed(t) then 0 else 1)
    ensures IsRed(t) ==> DeleteRight(t).balance
    decreases IsRed(t.left)
  {
    if IsRed(t.left) {
      assert RedBlack(t.left.left) && RedBlack(t.left.right);
      DeleteRightRepairs(Paint(RotateRight(t).right, Red));
    } else if IsRed(t.left.left) || IsRed(t.left.right) {
      DeleteRightEndRepairs(t);
    } else {
      assert RedBlack(Paint(t.left, Red));
    }
  }

  // Neither repair changes which keys the tree holds, or their order.
  lemma {:induction false} DeleteLeftReshapes(t: Tree)
    requires ShortLeft(t)
    ensures Reshapes(t, DeleteLeft(t).tree)
    decreases IsRed(t.right)
  {
    if IsRed(t.right) {
      var t1 := RotateLeft(t);
      var short := Paint(t1.left, Red);
      RotateLeftReshapes(t);
      DeleteLeftReshapes(short);
      PaintReshapes(t1.left, Red);
      PartsReshape(t1, DeleteLeft(short).tree, t1.right, Black);
    } else if IsRed(t.right.left) || IsRed(t.right.right) {
      DeleteLeftEndReshapes(t);
    } else {
      PaintReshapes(t.right, Red);
      PartsReshape(t, t.left, Paint(t.right, Red), Black);
    }
  }

  lemma DeleteLeftEndReshapes(t: Tree)
    requires t.Node? && t.right.Node?
    requires IsRed(t.right.left) || IsRed(t.right.right)
    ensures Reshapes(t, DeleteLeftEnd(t))
  {
    var t1 := t;
    if !IsRed(t.right.right) {
      var s := RotateRight(t.right);
      RotateRightReshapes(t.right);
      PaintReshapes(s.right, Red);
      PartsReshape(s, s.left, Paint(s.right, Red), Black);
      t1 := t.(right := s.(color := Black, right := Paint(s.right, Red)));
      PartsReshape(t, t.left, t1.right, t.color);
    }
    var t2 := RotateLeft(t1);
    RotateLeftReshapes(t1);
    PaintReshapes(t2.left, Black);
    PaintReshapes(t2.right, Black);
    PartsReshape(t2, Paint(t2.left, Black), Paint(t2.right, Black), t.color);
  }

  lemma {:induction false} DeleteRightReshapes(t: Tree)
    requires ShortRight(t)
    ensures Reshapes(t, DeleteRight(t).tree)
    decreases IsRed(t.left)
  {
    if IsRed(t.left) {
      var t1 := RotateRight(t);
      var short := Paint(t1.right, Red);
      RotateRightReshapes(t);
      DeleteRightReshapes(short);
      PaintReshapes(t1.right, Red);
      PartsReshape(t1, t1.left, DeleteRight(short).tree, Black);
    } else if IsRed(t.left.left) || IsRed(t.left.right) {
      DeleteRightEndReshapes(t);
    } else {
      PaintReshapes(t.left, Red);
      PartsReshape(t, Paint(t.left, Red), t.right, Black);
    }
  }

  lemma DeleteRightEndReshapes(t: Tree)
    requires t.Node? && t.left.Node?
    requires IsRed(t.left.left) || IsRed(t.left.right)
    ensures Reshapes(t, DeleteRightEnd(t))
  {
    var t1 := t;
    if !IsRed(t.left.left) {
      var s := RotateLeft(t.left);
      RotateLeftReshapes(t.left);
      PaintReshapes(s.left, Red);
      PartsReshape(s, Paint(s.left, Red), s.right, Black);
      t1 := t.(left := s.(color := Black, left := Paint(s.left, Red)));
      PartsReshape(t, t1.left, t.right, t.color);
    }
    var t2 := RotateRight(t1);
    RotateRightReshapes(t1);
    PaintReshapes(t2.left, Black);
    PaintReshapes(t2.right, Black);
    PartsReshape(t2, Paint(t2.left, Black), Paint(t2.right, Black), t.color);
  }

  // ----- deletion of a node -----

  // A node whose other child is the sentinel gives way to its child, painted black.
  lemma BlackenedChild(t: Tree, child: Tree)
    requires t.Node? && RedBlack(t)
    requires (child == t.left && t.right.Nil?) || (child == t.right && t.left.Nil?)
    ensures Repaired(Deletion(Paint(child, Black), IsRed(t) || IsRed(child)), IsRed(t), BlackHeight(t))
  {
    assert RedBlack(child);
  }

  function LeastKey(t: Tree): Key
    requires t.Node?
  {
    if t.left.Nil? then t.key else LeastKey(t.left)
  }

  // Deletion with a target: take the least node out of the tree.
  function DeleteLeast(t: Tree): (d: Deletion)
    requires t.Node? && RedBlack(t)
    ensures Repaired(d, IsRed(t), BlackHeight(t))
  {
    if t.left.Nil? then
      BlackenedChild(t, t.right); Deletion(Paint(t.right, Black), IsRed(t) || IsRed(t.right))
    else
      var d := DeleteLeast(t.left);
      var t1 := t.(left := d.tree);
      if d.balance then Deletion(t1, true)
      else DeleteLeftRepairs(t1); DeleteLeft(t1)
  }

  // Descending by comparisons from the root meets k.
  predicate OnPath(t: Tree, k: Key) {
    t.Node? && (t.key == k || OnPath(if Less(k, t.key) then t.left else t.right, k))
  }

  lemma {:induction false} OrderedOnPath(t: Tree, k: Key)
    requires Ordered(t) && k in Keys(t)
    ensures OnPath(t, k)
  {
    if t.key != k {
      assert k in Keys(t.right) ==> Less(t.key, k);
      OrderedOnPath(if Less(k, t.key) then t.left else t.right, k);
    }
  }

  function DeleteNode(t: Tree, k: Key): (d: Deletion)
    requires RedBlack(t) && OnPath(t, k)
    ensures Repaired(d, IsRed(t), BlackHeight(t))
  {
    if t.key == k then
      if t.right.Nil? then
        BlackenedChild(t, t.left); Deletion(Paint(t.left, Black), IsRed(t) || IsRed(t.left))
      else
        var d := DeleteLeast(t.right);
        var t1 := Node(t.left, LeastKey(t.right), t.color, d.tree);
        if d.balance then Deletion(t1, true)
        else DeleteRightRepairs(t1); DeleteRight(t1)
    else if Less(k, t.key) then
      var d := DeleteNode(t.left, k);
      var t1 := t.(left := d.tree);
      if d.balance then Deletion(t1, true)
      else DeleteLeftRepairs(t1); DeleteLeft(t1)
    else
      var d := DeleteNode(t.right, k);
      var t1 := t.(right := d.tree);
      if d.balance then Deletion(t1, true)
      else DeleteRightRepairs(t1); DeleteRight(t1)
  }

  function Delete(t: Tree, k: Key): Tree
    requires RedBlack(t) && OnPath(t, k)
  {
    Paint(DeleteNode(t, k).tree, Black)
  }

  lemma {:induction false} LeastKeyIsLeast(t: Tree)
    requires t.Node? && Ordered(t)
    ensures LeastKey(t) in Keys(t)
    ensures forall k :: k in Keys(t) && k != LeastKey(t) ==> Less(LeastKey(t), k)
  {
    if t.left.Node? { LeastKeyIsLeast(t.left); }
  }

  lemma {:induction false} DeleteLeastKeys(t: Tree)
    requires t.Node? && RedBlack(t) && Ordered(t)
    ensures Keys(DeleteLeast(t).tree) == Keys(t) - {LeastKey(t)}
    ensures Ordered(DeleteLeast(t).tree)
  {
    LeastKeyIsLeast(t);
    if t.left.Nil? {
      PaintReshapes(t.right, Black);
    } else {
      LeastKeyIsLeast(t.left);
      DeleteLeastKeys(t.left);
      var d := DeleteLeast(t.left);
      var t1 := t.(left := d.tree);
      if !d.balance { DeleteLeftReshapes(t1); }
    }
  }

  lemma {:induction false} LeastKeyIn(t: Tree)
    requires t.Node?
    ensures LeastKey(t) in Keys(t)
  {
    if t.left.Node? { LeastKeyIn(t.left); }
  }

  // Taking k out of the subtree that the comparison points to takes it out of the tree.
  lemma TakenFromPart(t: Tree, l: Tree, r: Tree, k: Key)
    requires t.Node? && Ordered(t) && Ordered(l) && Ordered(r) && k != t.key
    requires if Less(k, t.key) then Keys(l) == Keys(t.left) - {k} && r == t.right else Keys(r) == Keys(t.right) - {k} && l == t.left
    ensures Ordered(Node(l, t.key, t.color, r)) && Keys(Node(l, t.key, t.color, r)) == Keys(t) - {k}
  {
    assert Less(k, t.key) ==> k !in Keys(t.right);
    assert !Less(k, t.key) ==> k !in Keys(t.left);
  }

  lemma OrderedParts(t: Tree)
    requires t.Node? && Ordered(t)
    ensures Ordered(t.left) && Ordered(t.right)
  {
  }

  // Deletion takes out exactly the given key and keeps the search order.
  lemma {:induction false} DeleteNodeKeys(t: Tree, k: Key)
    requires RedBlack(t) && Ordered(t) && OnPath(t, k)
    ensures k in Keys(t) && Keys(DeleteNode(t, k).tree) == Keys(t) - {k}
    ensures Ordered(DeleteNode(t, k).tree)
  {
    hide Ordered, DeleteLeft, DeleteRight, DeleteLeast, Less;
    OrderedParts(t);
    if t.key == k {
      DeleteRootKeys(t);
    } else if Less(k, t.key) {
      DeleteNodeKeys(t.left, k);
      var d := DeleteNode(t.left, k);
      var t1 := t.(left := d.tree);
      TakenFromPart(t, d.tree, t.right, k);
      if !d.balance { DeleteLeftReshapes(t1); }
    } else {
      DeleteNodeKeys(t.right, k);
      var d := DeleteNode(t.right, k);
      var t1 := t.(right := d.tree);
      TakenFromPart(t, t.left, d.tree, k);
      if !d.balance { DeleteRightReshapes(t1); }
    }
  }

  // Deleting the root puts its successor in its place.
  lemma {:induction false} DeleteRootKeys(t: Tree)
    requires t.Node? && RedBlack(t) && Ordered(t)
    ensures Keys(DeleteNode(t, t.key).tree) == Keys(t) - {t.key}
    ensures Ordered(DeleteNode(t, t.key).tree)
  {
    if t.right.Nil? {
      PaintReshapes(t.left, Black);
    } else {
      LeastKeyIsLeast(t.right);
      DeleteLeastKeys(t.right);
      var d := DeleteLeast(t.right);
      var t1 := Node(t.left, LeastKey(t.right), t.color, d.tree);
      assert Less(t.key, LeastKey(t.right));
      assert Ordered(t1);
      assert Keys(t1) == Keys(t) - {t.key};
      if !d.balance { DeleteRightReshapes(t1); }
    }
  }

  lemma {:induction false} DeleteIsRedBlack(t: Tree, k: Key)
    requires RedBlack(t) && Ordered(t) && k in Keys(t)
    ensures OnPath(t, k)
    ensures RedBlack(Delete(t, k)) && !IsRed(Delete(t, k))
    ensures Ordered(Delete(t, k)) && Keys(Delete(t, k)) == Keys(t) - {k}
  {
    OrderedOnPath(t, k);
    DeleteNodeKeys(t, k);
    PaintReshapes(DeleteNode(t, k).tree, Black);
  }

  // ----- depth -----

  // How many nodes the descents of mm_search_node, mm_insert_node and mm_delete_node pass through.
  function SearchDepth(t: Tree, size: nat): nat {
    if t.Nil? then 0 else 1 + SearchDepth(if size <= t.key.size then t.left else t.right, size)
  }

  function InsertDepth(t: Tree, k: Key): nat {
    if t.Nil? then 0 else 1 + InsertDepth(if Less(k, t.key) then t.left else t.right, k)
  }

  function LeastDepth(t: Tree): nat {
    if t.Nil? then 0 else 1 + LeastDepth(t.left)
  }

  function DeleteDepth(t: Tree, k: Key): nat {
    if t.Nil? then 0
    else if t.key == k then 1 + LeastDepth(t.right)
    else 1 + DeleteDepth(if Less(k, t.key) then t.left else t.right, k)
  }

  lemma {:induction false} DepthsWithinHeight(t: Tree, k: Key, size: nat)
    ensures SearchDepth(t, size) <= Height(t) && InsertDepth(t, k) <= Height(t)
    ensures LeastDepth(t) <= Height(t) && DeleteDepth(t, k) <= Height(t)
  {
    if t.Node? {
      DepthsWithinHeight(t.left, k, size);
      DepthsWithinHeight(t.right, k, size);
    }
  }

  lemma {:induction false} SizeFromBlackHeight(t: Tree)
    requires Balanced(t)
    ensures Pow2(BlackHeight(t)) <= Size(t) + 1
  {
    if t.Node? {
      SizeFromBlackHeight(t.left);
      SizeFromBlackHeight(t.right);
    }
  }

  lemma {:induction false} HeightFromBlackHeight(t: Tree)
    requires RedBlack(t)
    ensures Height(t) <= 2 * BlackHeight(t) + if IsRed(t) then 1 else 0
  {
    if t.Node? {
      HeightFromBlackHeight(t.left);
      HeightFromBlackHeight(t.right);
    }
  }

  // The height of a tree of n nodes with a black root is at most 2 log2(n + 1), stated without logarithms.
  lemma HeightIsLogarithmic(t: Tree)
    requires RedBlack(t) && !IsRed(t)
    ensures Pow2(Height(t)) <= (Size(t) + 1) * (Size(t) + 1)
  {
    SizeFromBlackHeight(t);
    HeightFromBlackHeight(t);
    Pow2Monotone(Height(t), 2 * BlackHeight(t));
    Pow2Adds(BlackHeight(t), BlackHeight(t));
    SquareMonotone(Pow2(BlackHeight(t)), Size(t) + 1);
  }

  lemma SquareMonotone(b: nat, n: nat)
    requires b <= n
    ensures b * b <= n * n
  {
    assert b * b <= b * n;
    assert b * n <= n * n;
  }
}
