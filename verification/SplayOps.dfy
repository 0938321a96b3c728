/**
 The top-down splay loop with its rotations and links
 (src/iccpd/include/openbsd_tree.h, lines 92-130 and 224-263).
 */
module SplayOps {
  import opened SplayTree

  lemma RotationKeeps(l: Tree, m: Node, x: Tree, n: Node, r: Tree)
    ensures Inorder(Branch(l, m, Branch(x, n, r))) == Inorder(Branch(Branch(l, m, x), n, r))
    ensures Nodes(Branch(l, m, Branch(x, n, r))) == Nodes(Branch(Branch(l, m, x), n, r))
  {
  }

  // `left` is where the next node of the left tree `lt` is to be linked; `dummy.right` leads to it.
  ghost predicate OpenLeftTree(dummy: Node, left: Node, lt: Tree)
    reads if lt.Branch? then AllButRightmost(lt) else {}, (if lt.Branch? then {Rightmost(lt)} else {})`left, dummy`right
  {
    if lt.Leaf? then left == dummy else left == Rightmost(lt) && RepOpenRight(dummy.right, lt)
  }

  ghost predicate OpenRightTree(dummy: Node, right: Node, rt: Tree)
    reads if rt.Branch? then AllButLeftmost(rt) else {}, (if rt.Branch? then {Leftmost(rt)} else {})`right, dummy`left
  {
    if rt.Leaf? then right == dummy else right == Leftmost(rt) && RepOpenLeft(dummy.left, rt)
  }

  // The three trees of the splay loop.  The key lies between the cuts `a` and `b`: the keys of the
  // left tree are at most `a`, and those of the right tree at least `b`.
  ghost predicate Around(lt: Tree, t: Tree, rt: Tree, lo: int, a: int, b: int, hi: int) {
    Ordered(lt, lo, a + 1) && Ordered(t, a, b) && Ordered(rt, b - 1, hi)
  }

  ghost function AllNodes(lt: Tree, t: Tree, rt: Tree): set<Node> {
    Nodes(lt) + Nodes(t) + Nodes(rt)
  }

  ghost function AllInorder(lt: Tree, t: Tree, rt: Tree): seq<Node> {
    Inorder(lt) + Inorder(t) + Inorder(rt)
  }

  // The end of the left tree is a node of it, or the dummy.
  lemma OpenEnds(dummy: Node, left: Node, right: Node, lt: Tree, rt: Tree, lo: int, a: int, b: int, hi: int)
    requires OpenLeftTree(dummy, left, lt) && OpenRightTree(dummy, right, rt)
    requires Ordered(lt, lo, a + 1) && Ordered(rt, b - 1, hi)
    ensures lt.Branch? ==> left in Nodes(lt) && left !in AllButRightmost(lt)
                           && Nodes(lt) == AllButRightmost(lt) + {left}
    ensures rt.Branch? ==> right in Nodes(rt) && right !in AllButLeftmost(rt)
                           && Nodes(rt) == AllButLeftmost(rt) + {right}
    ensures Within(lt, lo, a + 1) && Within(rt, b - 1, hi)
  {
    if lt.Branch? {
      RightmostLast(lt, lo, a + 1);
    }
    if rt.Branch? {
      LeftmostFirst(rt, b - 1, hi);
    }
    OrderedWithin(lt, lo, a + 1);
    OrderedWithin(rt, b - 1, hi);
  }

  // `SPLAY_LINKRIGHT`: the root and its left subtree become the end of the left tree.
  method LinkRight(root: Node, dummy: Node, left: Node, right: Node,
                   ghost lt: Tree, ghost t: Tree, ghost rt: Tree, ghost lo: int, ghost a: int, ghost b: int,
                   ghost hi: int)
    returns (root': Node?, left': Node, ghost lt': Tree)
    requires t.Branch? && Rep(root, t) && Around(lt, t, rt, lo, a, b, hi)
    requires OpenLeftTree(dummy, left, lt) && OpenRightTree(dummy, right, rt) && dummy !in AllNodes(lt, t, rt)
    modifies left`right
    ensures root' == t.node.right && Rep(root', t.right) && left' == root
    ensures lt' == PlugRight(lt, Branch(t.left, t.node, Leaf))
    ensures OpenLeftTree(dummy, left', lt') && OpenRightTree(dummy, right, rt)
  {
    OpenEnds(dummy, left, right, lt, rt, lo, a, b, hi);
    OrderedWithin(t, a, b);
    left.right := root;
    left' := root;
    root' := root.right;
    lt' := PlugRight(lt, Branch(t.left, t.node, Leaf));
    if lt.Branch? {
      ExtendRight(dummy.right, lt, root, t.left);
    }
  }

  // `SPLAY_LINKLEFT`: the root and its right subtree become the start of the right tree.
  method LinkLeft(root: Node, dummy: Node, left: Node, right: Node,
                  ghost lt: Tree, ghost t: Tree, ghost rt: Tree, ghost lo: int, ghost a: int, ghost b: int,
                  ghost hi: int)
    returns (root': Node?, right': Node, ghost rt': Tree)
    requires t.Branch? && Rep(root, t) && Around(lt, t, rt, lo, a, b, hi)
    requires OpenLeftTree(dummy, left, lt) && OpenRightTree(dummy, right, rt) && dummy !in AllNodes(lt, t, rt)
    modifies right`left
    ensures root' == t.node.left && Rep(root', t.left) && right' == root
    ensures rt' == PlugLeft(rt, Branch(Leaf, t.node, t.right))
    ensures OpenLeftTree(dummy, left, lt) && OpenRightTree(dummy, right', rt')
  {
    OpenEnds(dummy, left, right, lt, rt, lo, a, b, hi);
    OrderedWithin(t, a, b);
    right.left := root;
    right' := root;
    root' := root.left;
    rt' := PlugLeft(rt, Branch(Leaf, t.node, t.right));
    if rt.Branch? {
      ExtendLeft(dummy.left, rt, root, t.right);
    }
  }

  lemma AfterLinkLeft(lt: Tree, t: Tree, rt: Tree, lo: int, a: int, b: int, hi: int)
    requires Around(lt, t, rt, lo, a, b, hi) && t.Branch?
    ensures var rt' := PlugLeft(rt, Branch(Leaf, t.node, t.right));
            && Around(lt, t.left, rt', lo, a, t.node.key, hi)
            && AllNodes(lt, t.left, rt') == AllNodes(lt, t, rt) && AllInorder(lt, t.left, rt') == AllInorder(lt, t, rt)
  {
    var x := Branch(Leaf, t.node, t.right);
    PlugLeftInorder(rt, x);
    PlugLeftOrdered(rt, x, t.node.key - 1, b, hi);
    var i, j, k, l := Inorder(lt), Inorder(t.left), Inorder(x), Inorder(rt);
    assert j + k == Inorder(t);
    assert i + j + (k + l) == i + (j + k) + l;
  }

  lemma AfterLinkRight(lt: Tree, t: Tree, rt: Tree, lo: int, a: int, b: int, hi: int)
    requires Around(lt, t, rt, lo, a, b, hi) && t.Branch?
    ensures var lt' := PlugRight(lt, Branch(t.left, t.node, Leaf));
            && Around(lt', t.right, rt, lo, t.node.key, b, hi)
            && AllNodes(lt', t.right, rt) == AllNodes(lt, t, rt)
            && AllInorder(lt', t.right, rt) == AllInorder(lt, t, rt)
  {
    var x := Branch(t.left, t.node, Leaf);
    PlugRightInorder(lt, x);
    PlugRightOrdered(lt, x, lo, a, t.node.key + 1);
    var i, j, k, l := Inorder(lt), Inorder(x), Inorder(t.right), Inorder(rt);
    assert j + k == Inorder(t);
    assert i + j + k + l == i + (j + k) + l;
  }

  // The splay loop between two turns.
  ghost predicate Looping(root: Node?, dummy: Node, lt: Tree, t: Tree, rt: Tree, lo: int, a: int, b: int, hi: int)
    reads Nodes(t)
  {
    t.Branch? && Rep(root, t) && Around(lt, t, rt, lo, a, b, hi) && dummy !in AllNodes(lt, t, rt)
  }

  // Two stages of the loop hold the same nodes in the same order.
  ghost predicate SameAll(lt: Tree, t: Tree, rt: Tree, lt': Tree, t': Tree, rt': Tree) {
    AllNodes(lt, t, rt) == AllNodes(lt', t', rt') && AllInorder(lt, t, rt) == AllInorder(lt', t', rt')
  }

  // `SPLAY_ROTATE_RIGHT`: `tmp` is the left child of `root`.
  method RotateRight(root: Node, tmp: Node, ghost t: Tree, ghost lo: int, ghost hi: int) returns (ghost t': Tree)
    requires t.Branch? && t.left.Branch? && Ordered(t, lo, hi) && Rep(root, t) && tmp == t.left.node
    modifies root`left, tmp`right
    ensures t' == Branch(t.left.left, tmp, Branch(t.left.right, root, t.right))
    ensures Rep(tmp, t') && Ordered(t', lo, hi)
  {
    OrderedWithin(t.left.left, lo, tmp.key);
    OrderedWithin(t.left.right, tmp.key, root.key);
    OrderedWithin(t.right, root.key, hi);
    root.left := tmp.right;
    tmp.right := root;
    t' := Branch(t.left.left, tmp, Branch(t.left.right, root, t.right));
  }

  // `SPLAY_ROTATE_LEFT`: `tmp` is the right child of `root`.
  method RotateLeft(root: Node, tmp: Node, ghost t: Tree, ghost lo: int, ghost hi: int) returns (ghost t': Tree)
    requires t.Branch? && t.right.Branch? && Ordered(t, lo, hi) && Rep(root, t) && tmp == t.right.node
    modifies root`right, tmp`left
    ensures t' == Branch(Branch(t.left, root, t.right.left), tmp, t.right.right)
    ensures Rep(tmp, t') && Ordered(t', lo, hi)
  {
    OrderedWithin(t.left, lo, root.key);
    OrderedWithin(t.right.left, root.key, tmp.key);
    OrderedWithin(t.right.right, tmp.key, hi);
    root.right := tmp.left;
    tmp.left := root;
    t' := Branch(Branch(t.left, root, t.right.left), tmp, t.right.right);
  }

  // A rotation in the splay loop leaves the side trees alone.
  method TurnRight(root: Node, tmp: Node, dummy: Node, left: Node, right: Node,
                   ghost lt: Tree, ghost t: Tree, ghost rt: Tree, ghost lo: int, ghost a: int, ghost b: int,
                   ghost hi: int)
    returns (ghost t': Tree)
    requires Looping(root, dummy, lt, t, rt, lo, a, b, hi) && t.left.Branch? && tmp == t.left.node
    requires OpenLeftTree(dummy, left, lt) && OpenRightTree(dummy, right, rt)
    modifies root`left, tmp`right
    ensures t' == Branch(t.left.left, tmp, Branch(t.left.right, root, t.right))
    ensures Looping(tmp, dummy, lt, t', rt, lo, a, b, hi) && SameAll(lt, t, rt, lt, t', rt)
    ensures OpenLeftTree(dummy, left, lt) && OpenRightTree(dummy, right, rt)
  {
    Apart(tmp, dummy, lt, t, rt, lo, a, b, hi);
    SideFrames(lt, rt);
    assert allocated(Nodes(lt)) && allocated(Nodes(rt));
    t' := RotateRight(root, tmp, t, a, b);
    RotationKeeps(t.left.left, tmp, t.left.right, root, t.right);
  }

  method TurnLeft(root: Node, tmp: Node, dummy: Node, left: Node, right: Node,
                  ghost lt: Tree, ghost t: Tree, ghost rt: Tree, ghost lo: int, ghost a: int, ghost b: int,
                  ghost hi: int)
    returns (ghost t': Tree)
    requires Looping(root, dummy, lt, t, rt, lo, a, b, hi) && t.right.Branch? && tmp == t.right.node
    requires OpenLeftTree(dummy, left, lt) && OpenRightTree(dummy, right, rt)
    modifies root`right, tmp`left
    ensures t' == Branch(Branch(t.left, root, t.right.left), tmp, t.right.right)
    ensures Looping(tmp, dummy, lt, t', rt, lo, a, b, hi) && SameAll(lt, t, rt, lt, t', rt)
    ensures OpenLeftTree(dummy, left, lt) && OpenRightTree(dummy, right, rt)
  {
    Apart(tmp, dummy, lt, t, rt, lo, a, b, hi);
    SideFrames(lt, rt);
    assert allocated(Nodes(lt)) && allocated(Nodes(rt));
    t' := RotateLeft(root, tmp, t, a, b);
    RotationKeeps(t.left, root, t.right.left, tmp, t.right.right);
  }

  // The root and its child are not in the side trees.
  lemma Apart(tmp: Node, dummy: Node, lt: Tree, t: Tree, rt: Tree, lo: int, a: int, b: int, hi: int)
    requires t.Branch? && Around(lt, t, rt, lo, a, b, hi) && dummy !in AllNodes(lt, t, rt)
    requires (t.left.Branch? && tmp == t.left.node) || (t.right.Branch? && tmp == t.right.node)
    ensures t.node !in Nodes(lt) && t.node !in Nodes(rt) && tmp !in Nodes(lt) && tmp !in Nodes(rt)
    ensures dummy != t.node && dummy != tmp
  {
    OrderedWithin(lt, lo, a + 1);
    OrderedWithin(t, a, b);
    OrderedWithin(rt, b - 1, hi);
    assert tmp in Nodes(t.left) || tmp in Nodes(t.right);
  }

  lemma SideFrames(lt: Tree, rt: Tree)
    ensures lt.Branch? ==> Nodes(lt) == AllButRightmost(lt) + {Rightmost(lt)}
    ensures rt.Branch? ==> Nodes(rt) == AllButLeftmost(rt) + {Leftmost(rt)}
  {
    if lt.Branch? {
      RightmostLast(lt, 0, 0);
    }
    if rt.Branch? {
      LeftmostFirst(rt, 0, 0);
    }
  }

  // One turn of the splay loop for a key smaller than the root's.
  method StepLeft(root: Node, key: int, dummy: Node, left: Node, right: Node,
                  ghost lt: Tree, ghost t: Tree, ghost rt: Tree, ghost lo: int, ghost a: int, ghost b: int,
                  ghost hi: int)
    returns (root': Node, right': Node, stop: bool, ghost t': Tree, ghost rt': Tree, ghost b': int)
    requires Looping(root, dummy, lt, t, rt, lo, a, b, hi) && a < key < root.key
    requires OpenLeftTree(dummy, left, lt) && OpenRightTree(dummy, right, rt)
    modifies Nodes(t), right`left
    ensures Looping(root', dummy, lt, t', rt', lo, a, b', hi) && SameAll(lt, t, rt, lt, t', rt') && a < key < b'
    ensures OpenLeftTree(dummy, left, lt) && OpenRightTree(dummy, right', rt')
    ensures if stop then key < t'.node.key && t'.left.Leaf? else t' == t.left || (t.left.Branch? && t' == t.left.left)
  {
    root', right', stop, t', rt', b' := root, right, true, t, rt, b;
    var tmp := root.left;
    assert Rep(tmp, t.left);
    if tmp == null {
      return;
    }
    if key < tmp.key {
      assert tmp in Nodes(t.left);
      t' := TurnRight(root, tmp, dummy, left, right, lt, t, rt, lo, a, b, hi);
      root' := tmp;
      assert Rep(root'.left, t'.left);
      if root'.left == null {
        return;
      }
    }
    AfterLinkLeft(lt, t', rt, lo, a, b, hi);
    b' := t'.node.key;
    var next;
    next, right', rt' := LinkLeft(root', dummy, left, right, lt, t', rt, lo, a, b, hi);
    root', stop, t' := next, false, t'.left;
  }

  // One turn of the splay loop for a key larger than the root's.
  method StepRight(root: Node, key: int, dummy: Node, left: Node, right: Node,
                   ghost lt: Tree, ghost t: Tree, ghost rt: Tree, ghost lo: int, ghost a: int, ghost b: int,
                   ghost hi: int)
    returns (root': Node, left': Node, stop: bool, ghost t': Tree, ghost lt': Tree, ghost a': int)
    requires Looping(root, dummy, lt, t, rt, lo, a, b, hi) && root.key < key < b
    requires OpenLeftTree(dummy, left, lt) && OpenRightTree(dummy, right, rt)
    modifies Nodes(t), left`right
    ensures Looping(root', dummy, lt', t', rt, lo, a', b, hi) && SameAll(lt, t, rt, lt', t', rt) && a' < key < b
    ensures OpenLeftTree(dummy, left', lt') && OpenRightTree(dummy, right, rt)
    ensures if stop then t'.node.key < key && t'.right.Leaf? else t' == t.right
                                                                  || (t.right.Branch? && t' == t.right.right)
  {
    root', left', stop, t', lt', a' := root, left, true, t, lt, a;
    assert a < root.key;
    var tmp := root.right;
    assert Rep(tmp, t.right);
    if tmp == null {
      return;
    }
    if tmp.key < key {
      assert tmp in Nodes(t.right);
      t' := TurnLeft(root, tmp, dummy, left, right, lt, t, rt, lo, a, b, hi);
      root' := tmp;
      assert Rep(root'.right, t'.right);
      if root'.right == null {
        return;
      }
    }
    AfterLinkRight(lt, t', rt, lo, a, b, hi);
    a' := t'.node.key;
    var next;
    next, left', lt' := LinkRight(root', dummy, left, right, lt, t', rt, lo, a, b, hi);
    root', stop, t' := next, false, t'.right;
  }

  // ----- towards the smallest or the largest key -----

  // One turn of the loop of `name##_SPLAY_MINMAX` towards the smallest key.
  method StepMin(root: Node, dummy: Node, right: Node, ghost t: Tree, ghost rt: Tree, ghost lo: int, ghost b: int,
                 ghost hi: int)
    returns (root': Node, right': Node, stop: bool, ghost t': Tree, ghost rt': Tree, ghost b': int)
    requires Looping(root, dummy, Leaf, t, rt, lo, lo, b, hi) && OpenRightTree(dummy, right, rt)
    modifies Nodes(t), right`left
    ensures Looping(root', dummy, Leaf, t', rt', lo, lo, b', hi) && SameAll(Leaf, t, rt, Leaf, t', rt')
    ensures OpenRightTree(dummy, right', rt')
    ensures if stop then t'.left.Leaf? else t.left.Branch? && t' == t.left.left
  {
    root', right', stop, t', rt', b' := root, right, true, t, rt, b;
    var tmp := root.left;
    assert Rep(tmp, t.left);
    if tmp == null {
      return;
    }
    assert tmp in Nodes(t.left);
    t' := TurnRight(root, tmp, dummy, dummy, right, Leaf, t, rt, lo, lo, b, hi);
    root' := tmp;
    assert Rep(root'.left, t'.left);
    if root'.left == null {
      return;
    }
    AfterLinkLeft(Leaf, t', rt, lo, lo, b, hi);
    b' := t'.node.key;
    var next;
    next, right', rt' := LinkLeft(root', dummy, dummy, right, Leaf, t', rt, lo, lo, b, hi);
    root', stop, t' := next, false, t'.left;
  }

  // One turn towards the largest key.
  method StepMax(root: Node, dummy: Node, left: Node, ghost lt: Tree, ghost t: Tree, ghost lo: int, ghost a: int,
                 ghost hi: int)
    returns (root': Node, left': Node, stop: bool, ghost lt': Tree, ghost t': Tree, ghost a': int)
    requires Looping(root, dummy, lt, t, Leaf, lo, a, hi, hi) && OpenLeftTree(dummy, left, lt)
    modifies Nodes(t), left`right
    ensures Looping(root', dummy, lt', t', Leaf, lo, a', hi, hi) && SameAll(lt, t, Leaf, lt', t', Leaf)
    ensures OpenLeftTree(dummy, left', lt')
    ensures if stop then t'.right.Leaf? else t.right.Branch? && t' == t.right.right
  {
    root', left', stop, t', lt', a' := root, left, true, t, lt, a;
    var tmp := root.right;
    assert Rep(tmp, t.right);
    if tmp == null {
      return;
    }
    assert tmp in Nodes(t.right);
    t' := TurnLeft(root, tmp, dummy, left, dummy, lt, t, Leaf, lo, a, hi, hi);
    root' := tmp;
    assert Rep(root'.right, t'.right);
    if root'.right == null {
      return;
    }
    AfterLinkRight(lt, t', Leaf, lo, a, hi, hi);
    a' := t'.node.key;
    var next;
    next, left', lt' := LinkRight(root', dummy, left, dummy, lt, t', Leaf, lo, a, hi, hi);
    root', stop, t' := next, false, t'.right;
  }

  // Closes the left tree with the left subtree of the root.
  method CloseLeftTree(root: Node, dummy: Node, left: Node, right: Node,
                       ghost lt: Tree, ghost t: Tree, ghost rt: Tree, ghost lo: int, ghost a: int, ghost b: int,
                       ghost hi: int)
    requires Looping(root, dummy, lt, t, rt, lo, a, b, hi)
    requires OpenLeftTree(dummy, left, lt) && OpenRightTree(dummy, right, rt)
    modifies left`right
    ensures Rep(dummy.right, PlugRight(lt, t.left)) && Rep(root, t) && OpenRightTree(dummy, right, rt)
  {
    OpenEnds(dummy, left, right, lt, rt, lo, a, b, hi);
    OrderedWithin(t, a, b);
    ghost var l := root.left;
    assert Rep(l, t.left);
    left.right := root.left;
    assert Rep(l, t.left);
    if lt.Branch? {
      CloseRight(dummy.right, lt, t.left);
    }
  }

  // Closes the right tree with the right subtree of the root.
  method CloseRightTree(root: Node, dummy: Node, right: Node,
                        ghost x: Tree, ghost t: Tree, ghost rt: Tree, ghost a: int, ghost b: int, ghost hi: int)
    requires t.Branch? && Rep(root, t) && Ordered(t, a, b) && Ordered(rt, b - 1, hi)
             && dummy !in Nodes(t) + Nodes(rt) + Nodes(x)
    requires OpenRightTree(dummy, right, rt) && Rep(dummy.right, x) && Nodes(x) !! Nodes(rt)
    modifies right`left
    ensures Rep(dummy.right, x) && Rep(dummy.left, PlugLeft(rt, t.right))
  {
    if rt.Branch? {
      LeftmostFirst(rt, b - 1, hi);
    }
    OrderedWithin(rt, b - 1, hi);
    OrderedWithin(t, a, b);
    ghost var r := root.right;
    assert Rep(r, t.right);
    right.left := root.right;
    assert Rep(r, t.right);
    if rt.Branch? {
      CloseLeft(dummy.left, rt, t.right);
    }
  }

  // `SPLAY_ASSEMBLE`: the two side trees become the subtrees of the root.
  method Assemble(root: Node, dummy: Node, left: Node, right: Node,
                  ghost lt: Tree, ghost t: Tree, ghost rt: Tree, ghost lo: int, ghost a: int, ghost b: int,
                  ghost hi: int)
    returns (ghost t': Tree)
    requires Looping(root, dummy, lt, t, rt, lo, a, b, hi)
    requires OpenLeftTree(dummy, left, lt) && OpenRightTree(dummy, right, rt)
    modifies left`right, right`left, root
    ensures t' == Branch(PlugRight(lt, t.left), root, PlugLeft(rt, t.right)) && Rep(root, t')
    ensures Ordered(t', lo, hi) && Nodes(t') == AllNodes(lt, t, rt) && Inorder(t') == AllInorder(lt, t, rt)
  {
    ghost var l, r := PlugRight(lt, t.left), PlugLeft(rt, t.right);
    AssembledApart(lt, t, rt, lo, a, b, hi);
    CloseLeftTree(root, dummy, left, right, lt, t, rt, lo, a, b, hi);
    CloseRightTree(root, dummy, right, l, t, rt, a, b, hi);
    root.left := dummy.right;
    root.right := dummy.left;
    t' := Branch(l, root, r);
    AssembledOrder(lt, t, rt, lo, a, b, hi);
    AssembledNodes(lt, t, rt);
  }

  lemma AssembledApart(lt: Tree, t: Tree, rt: Tree, lo: int, a: int, b: int, hi: int)
    requires Around(lt, t, rt, lo, a, b, hi) && t.Branch?
    ensures Nodes(PlugRight(lt, t.left)) == Nodes(lt) + Nodes(t.left) && Nodes(PlugRight(lt, t.left)) !! Nodes(rt)
    ensures Nodes(PlugLeft(rt, t.right)) == Nodes(rt) + Nodes(t.right)
    ensures t.node !in Nodes(PlugRight(lt, t.left)) && t.node !in Nodes(PlugLeft(rt, t.right))
  {
    PlugRightInorder(lt, t.left);
    PlugLeftInorder(rt, t.right);
    OrderedWithin(lt, lo, a + 1);
    OrderedWithin(rt, b - 1, hi);
    OrderedWithin(t.left, a, t.node.key);
    OrderedWithin(t.right, t.node.key, b);
  }

  lemma AssembledOrder(lt: Tree, t: Tree, rt: Tree, lo: int, a: int, b: int, hi: int)
    requires Around(lt, t, rt, lo, a, b, hi) && t.Branch?
    ensures Ordered(PlugRight(lt, t.left), lo, t.node.key) && Ordered(PlugLeft(rt, t.right), t.node.key, hi)
    ensures lo < t.node.key < hi
  {
    PlugRightOrdered(lt, t.left, lo, a, t.node.key);
    PlugLeftOrdered(rt, t.right, t.node.key, b, hi);
    OrderedWithin(PlugRight(lt, t.left), lo, t.node.key);
    OrderedWithin(PlugLeft(rt, t.right), t.node.key, hi);
  }

  lemma AssembledNodes(lt: Tree, t: Tree, rt: Tree)
    requires t.Branch?
    ensures var t' := Branch(PlugRight(lt, t.left), t.node, PlugLeft(rt, t.right));
            Nodes(t') == AllNodes(lt, t, rt) && Inorder(t') == AllInorder(lt, t, rt)
  {
    PlugRightInorder(lt, t.left);
    PlugLeftInorder(rt, t.right);
    Regroup(Inorder(lt), Inorder(t.left), [t.node], Inorder(t.right), Inorder(rt));
  }

  lemma Regroup(i: seq<Node>, j: seq<Node>, m: seq<Node>, k: seq<Node>, l: seq<Node>)
    ensures i + j + m + (k + l) == i + (j + m + k) + l
  {
  }
}
