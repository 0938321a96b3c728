/**
 The splay tree as a whole: splaying, insertion, removal and search keep the nodes in key order,
 so a splay tree behaves like a sorted set (src/iccpd/include/openbsd_tree.h, lines 132-306).
 */
module SplaySet {
  import opened SplayTree
  import opened SplayOps

  ghost predicate IsSearchTree(t: Tree) {
    exists lo, hi :: Ordered(t, lo, hi)
  }

  // The key lies between the keys of the two subtrees: the root has the key, or is next to it.
  ghost predicate SplitBy(t: Tree, key: int) {
    t.Branch? && (forall n :: n in Nodes(t.left) ==> n.key < key) && (forall n :: n in Nodes(t.right) ==> key < n.key)
  }

  lemma SplitWhenDone(lt: Tree, t: Tree, rt: Tree, lo: int, a: int, b: int, hi: int, key: int)
    requires Around(lt, t, rt, lo, a, b, hi) && t.Branch? && a < key < b
    requires Done(t, key)
    ensures SplitBy(Branch(PlugRight(lt, t.left), t.node, PlugLeft(rt, t.right)), key)
  {
    PlugRightInorder(lt, t.left);
    PlugLeftInorder(rt, t.right);
    OrderedWithin(lt, lo, a + 1);
    OrderedWithin(rt, b - 1, hi);
    OrderedWithin(t.left, a, t.node.key);
    OrderedWithin(t.right, t.node.key, b);
  }

  // The ends of the side trees are nodes of these trees, or the dummy.
  lemma Ends(dummy: Node, left: Node, right: Node, lt: Tree, rt: Tree)
    requires OpenLeftTree(dummy, left, lt) && OpenRightTree(dummy, right, rt)
    ensures left in Nodes(lt) + {dummy} && right in Nodes(rt) + {dummy}
  {
    SideFrames(lt, rt);
  }

  // One turn of the splay loop, for a key that is not the root's.
  method Step(root: Node, key: int, dummy: Node, left: Node, right: Node,
              ghost lt: Tree, ghost t: Tree, ghost rt: Tree, ghost lo: int, ghost a: int, ghost b: int, ghost hi: int)
    returns (root': Node, left': Node, right': Node, stop: bool,
             ghost lt': Tree, ghost t': Tree, ghost rt': Tree, ghost a': int, ghost b': int)
    requires Looping(root, dummy, lt, t, rt, lo, a, b, hi) && a < key < b && root.key != key
    requires OpenLeftTree(dummy, left, lt) && OpenRightTree(dummy, right, rt)
    modifies AllNodes(lt, t, rt), dummy
    ensures Looping(root', dummy, lt', t', rt', lo, a', b', hi) && a' < key < b' && SameAll(lt, t, rt, lt', t', rt')
    ensures OpenLeftTree(dummy, left', lt') && OpenRightTree(dummy, right', rt')
    ensures if stop then Done(t', key) else Subtree(t', t)
  {
    Ends(dummy, left, right, lt, rt);
    left', right', lt', rt', a', b' := left, right, lt, rt, a, b;
    if key < root.key {
      root', right', stop, t', rt', b' := StepLeft(root, key, dummy, left, right, lt, t, rt, lo, a, b, hi);
    } else {
      root', left', stop, t', lt', a' := StepRight(root, key, dummy, left, right, lt, t, rt, lo, a, b, hi);
    }
  }

  ghost predicate Done(t: Tree, key: int) {
    t.Branch? && (t.node.key == key || (key < t.node.key && t.left.Leaf?) || (t.node.key < key && t.right.Leaf?))
  }

  // `s` is a proper subtree of `t`, one or two levels down.
  ghost predicate Subtree(s: Tree, t: Tree) {
    t.Branch? && (s == t.left || s == t.right || (t.left.Branch? && s == t.left.left)
                  || (t.right.Branch? && s == t.right.right))
  }

  lemma SameAllTransitive(lt: Tree, t: Tree, rt: Tree, lt': Tree, t': Tree, rt': Tree, lt'': Tree, t'': Tree,
                          rt'': Tree)
    requires SameAll(lt, t, rt, lt', t', rt') && SameAll(lt', t', rt', lt'', t'', rt'')
    ensures SameAll(lt, t, rt, lt'', t'', rt'')
  {
  }

  // The splay loop.
  method Loop(root0: Node, key: int, dummy: Node, ghost t0: Tree, ghost lo: int, ghost hi: int)
    returns (root: Node, left: Node, right: Node, ghost lt: Tree, ghost t: Tree, ghost rt: Tree, ghost a: int,
             ghost b: int)
    requires Looping(root0, dummy, Leaf, t0, Leaf, lo, lo, hi, hi) && lo < key < hi
    modifies Nodes(t0), dummy
    ensures Looping(root, dummy, lt, t, rt, lo, a, b, hi) && a < key < b && Done(t, key)
    ensures OpenLeftTree(dummy, left, lt) && OpenRightTree(dummy, right, rt)
    ensures AllNodes(lt, t, rt) == Nodes(t0) && AllInorder(lt, t, rt) == Inorder(t0)
  {
    root, left, right := root0, dummy, dummy;
    lt, t, rt, a, b := Leaf, t0, Leaf, lo, hi;
    var stop := false;
    while !stop && root.key != key
      invariant Looping(root, dummy, lt, t, rt, lo, a, b, hi) && a < key < b && SameAll(Leaf, t0, Leaf, lt, t, rt)
      invariant OpenLeftTree(dummy, left, lt) && OpenRightTree(dummy, right, rt)
      invariant stop ==> Done(t, key)
      decreases !stop, t
    {
      ghost var lt0, t1, rt0 := lt, t, rt;
      root, left, right, stop, lt, t, rt, a, b := Step(root, key, dummy, left, right, lt, t, rt, lo, a, b, hi);
      SameAllTransitive(Leaf, t0, Leaf, lt0, t1, rt0, lt, t, rt);
    }
    assert AllInorder(Leaf, t0, Leaf) == Inorder(t0);
  }

  // `name##_SPLAY` of a non-empty tree: the node with the key, or one next to it, comes to the root.
  method Splay(root0: Node, key: int, ghost t0: Tree, ghost lo: int, ghost hi: int) returns (root: Node, ghost t': Tree)
    requires t0.Branch? && Rep(root0, t0) && Ordered(t0, lo, hi) && lo < key < hi
    modifies Nodes(t0)
    ensures Rep(root, t') && Ordered(t', lo, hi) && SplitBy(t', key)
    ensures Inorder(t') == Inorder(t0) && Nodes(t') == Nodes(t0)
  {
    assert allocated(Nodes(t0));
    var dummy := new Node(0);
    var left, right;
    ghost var lt, t, rt, a, b;
    root, left, right, lt, t, rt, a, b := Loop(root0, key, dummy, t0, lo, hi);
    Ends(dummy, left, right, lt, rt);
    t' := Assemble(root, dummy, left, right, lt, t, rt, lo, a, b, hi);
    SplitWhenDone(lt, t, rt, lo, a, b, hi, key);
  }

  // `name##_SPLAY_MINMAX` with a negative argument: the smallest key comes to the root.
  method SplayMin(root0: Node, ghost t0: Tree, ghost lo: int, ghost hi: int) returns (root: Node, ghost t': Tree)
    requires t0.Branch? && Rep(root0, t0) && Ordered(t0, lo, hi)
    modifies Nodes(t0)
    ensures t'.Branch? && t'.left == Leaf && Rep(root, t') && Ordered(t', lo, hi)
    ensures Inorder(t') == Inorder(t0) && Nodes(t') == Nodes(t0)
  {
    root := root0;
    assert allocated(Nodes(t0));
    OrderedWithin(t0, lo, hi);
    var dummy := new Node(0);
    var right, stop := dummy, false;
    ghost var t, rt, b := t0, Leaf, hi;
    while !stop
      invariant Looping(root, dummy, Leaf, t, rt, lo, lo, b, hi) && SameAll(Leaf, t0, Leaf, Leaf, t, rt)
      invariant OpenRightTree(dummy, right, rt) && fresh(dummy)
      invariant stop ==> t.left.Leaf?
      decreases !stop, t
    {
      Ends(dummy, dummy, right, Leaf, rt);
      ghost var t1, rt1 := t, rt;
      root, right, stop, t, rt, b := StepMin(root, dummy, right, t, rt, lo, b, hi);
      SameAllTransitive(Leaf, t0, Leaf, Leaf, t1, rt1, Leaf, t, rt);
    }
    Ends(dummy, dummy, right, Leaf, rt);
    t' := Assemble(root, dummy, dummy, right, Leaf, t, rt, lo, lo, b, hi);
    assert AllInorder(Leaf, t0, Leaf) == Inorder(t0);
  }

  // `name##_SPLAY_MINMAX` with a positive argument: the largest key comes to the root.
  method SplayMax(root0: Node, ghost t0: Tree, ghost lo: int, ghost hi: int) returns (root: Node, ghost t': Tree)
    requires t0.Branch? && Rep(root0, t0) && Ordered(t0, lo, hi)
    modifies Nodes(t0)
    ensures t'.Branch? && t'.right == Leaf && Rep(root, t') && Ordered(t', lo, hi)
    ensures Inorder(t') == Inorder(t0) && Nodes(t') == Nodes(t0)
  {
    root := root0;
    assert allocated(Nodes(t0));
    OrderedWithin(t0, lo, hi);
    var dummy := new Node(0);
    var left, stop := dummy, false;
    ghost var lt, t, a := Leaf, t0, lo;
    while !stop
      invariant Looping(root, dummy, lt, t, Leaf, lo, a, hi, hi) && SameAll(Leaf, t0, Leaf, lt, t, Leaf)
      invariant OpenLeftTree(dummy, left, lt) && fresh(dummy)
      invariant stop ==> t.right.Leaf?
      decreases !stop, t
    {
      Ends(dummy, left, dummy, lt, Leaf);
      ghost var t1, lt1 := t, lt;
      root, left, stop, lt, t, a := StepMax(root, dummy, left, lt, t, lo, a, hi);
      SameAllTransitive(Leaf, t0, Leaf, lt1, t1, Leaf, lt, t, Leaf);
    }
    Ends(dummy, left, dummy, lt, Leaf);
    t' := Assemble(root, dummy, left, dummy, lt, t, Leaf, lo, a, hi, hi);
    assert AllInorder(Leaf, t0, Leaf) == Inorder(t0);
  }

  // ----- sorted lists of nodes -----

  ghost predicate SortedKeys(s: seq<Node>) {
    forall i, j :: 0 <= i < j < |s| ==> s[i].key < s[j].key
  }

  // `e` put where its key belongs.
  ghost function WithNode(s: seq<Node>, e: Node): seq<Node> {
    if s == [] || e.key < s[0].key then [e] + s else [s[0]] + WithNode(s[1..], e)
  }

  // The list without the nodes that have the key.
  ghost function WithoutKey(s: seq<Node>, key: int): seq<Node> {
    if s == [] then [] else (if s[0].key == key then [] else [s[0]]) + WithoutKey(s[1..], key)
  }

  ghost predicate AllLess(s: seq<Node>, key: int) {
    forall i :: 0 <= i < |s| ==> s[i].key < key
  }

  ghost predicate AllMore(s: seq<Node>, key: int) {
    forall i :: 0 <= i < |s| ==> key < s[i].key
  }

  lemma {:induction false} WithNodeSplit(s: seq<Node>, e: Node, t: seq<Node>)
    requires AllLess(s, e.key) && AllMore(t, e.key)
    ensures WithNode(s + t, e) == s + [e] + t
  {
    if s == [] {
      assert s + t == t;
    } else {
      WithNodeSplit(s[1..], e, t);
      assert (s + t)[1..] == s[1..] + t;
    }
  }

  lemma {:induction false} WithoutKeyAbsent(s: seq<Node>, key: int)
    requires forall i :: 0 <= i < |s| ==> s[i].key != key
    ensures WithoutKey(s, key) == s
  {
    if s == [] {
    } else {
      WithoutKeyAbsent(s[1..], key);
    }
  }

  lemma {:induction false} WithoutKeySplit(s: seq<Node>, n: Node, t: seq<Node>)
    requires AllLess(s, n.key) && AllMore(t, n.key)
    ensures WithoutKey(s + [n] + t, n.key) == s + t
  {
    if s == [] {
      assert (s + [n] + t)[1..] == t && s + t == t;
      WithoutKeyAbsent(t, n.key);
    } else {
      WithoutKeySplit(s[1..], n, t);
      assert (s + [n] + t)[1..] == s[1..] + [n] + t;
      assert s + t == [s[0]] + (s[1..] + t);
    }
  }

  lemma {:induction false} InorderWithin(t: Tree, lo: int, hi: int)
    requires Ordered(t, lo, hi)
    ensures AllMore(Inorder(t), lo) && AllLess(Inorder(t), hi) && SortedKeys(Inorder(t))
  {
    match t
    case Leaf =>
    case Branch(l, n, r) =>
      InorderWithin(l, lo, n.key);
      InorderWithin(r, n.key, hi);
  }

  lemma {:induction false} InorderNodes(t: Tree)
    ensures forall i :: 0 <= i < |Inorder(t)| ==> Inorder(t)[i] in Nodes(t)
  {
    match t
    case Leaf =>
    case Branch(l, m, r) =>
      InorderNodes(l);
      InorderNodes(r);
  }

  ghost predicate HasKey(s: seq<Node>, key: int) {
    exists i :: 0 <= i < |s| && s[i].key == key
  }

  // What a splayed tree tells of its nodes in order.
  lemma SplitInorder(t: Tree, key: int)
    requires SplitBy(t, key)
    ensures AllLess(Inorder(t.left), key) && AllMore(Inorder(t.right), key)
    ensures Inorder(t) == Inorder(t.left) + [t.node] + Inorder(t.right)
    ensures HasKey(Inorder(t), key) <==> t.node.key == key
  {
    InorderNodes(t.left);
    InorderNodes(t.right);
    SplitHasKey(Inorder(t.left), t.node, Inorder(t.right), key);
  }

  lemma SplitHasKey(s: seq<Node>, n: Node, t: seq<Node>, key: int)
    requires AllLess(s, key) && AllMore(t, key)
    ensures HasKey(s + [n] + t, key) <==> n.key == key
  {
    var all := s + [n] + t;
    assert all[|s|] == n;
    assert forall i :: 0 <= i < |all| && i != |s| ==> all[i] in s || all[i] in t;
  }

  lemma {:induction false} OrderedCap(t: Tree, lo: int, hi: int, cap: int)
    requires Ordered(t, lo, hi) && lo < cap && forall n :: n in Nodes(t) ==> n.key < cap
    ensures Ordered(t, lo, cap)
  {
    match t
    case Leaf =>
    case Branch(l, n, r) =>
      assert n in Nodes(t);
      OrderedCap(r, n.key, hi, cap);
  }

  lemma {:induction false} OrderedFloor(t: Tree, lo: int, hi: int, floor: int)
    requires Ordered(t, lo, hi) && floor < hi && forall n :: n in Nodes(t) ==> floor < n.key
    ensures Ordered(t, floor, hi)
  {
    match t
    case Leaf =>
    case Branch(l, n, r) =>
      assert n in Nodes(t);
      OrderedFloor(l, lo, n.key, floor);
  }

  // The tree with a new root between the two subtrees of a splayed tree.
  ghost function NewRoot(t: Tree, e: Node): Tree
    requires t.Branch?
  {
    if e.key < t.node.key then Branch(t.left, e, Branch(Leaf, t.node, t.right))
    else Branch(Branch(t.left, t.node, Leaf), e, t.right)
  }

  lemma NewRootOrdered(t: Tree, e: Node)
    requires IsSearchTree(t) && SplitBy(t, e.key) && e.key != t.node.key
    ensures IsSearchTree(NewRoot(t, e))
  {
    var lo, hi :| Ordered(t, lo, hi);
    var lo', hi' := if lo < e.key then lo else e.key - 1, if e.key < hi then hi else e.key + 1;
    OrderedWiden(t, lo, hi, lo', hi');
    if e.key < t.node.key {
      OrderedCap(t.left, lo', t.node.key, e.key);
      assert Ordered(Branch(Leaf, t.node, t.right), e.key, hi');
    } else {
      OrderedFloor(t.right, t.node.key, hi', e.key);
      assert Ordered(Branch(t.left, t.node, Leaf), lo', e.key);
    }
    assert Ordered(NewRoot(t, e), lo', hi');
  }

  lemma NewRootInorder(t: Tree, e: Node)
    requires SplitBy(t, e.key) && e.key != t.node.key
    ensures Inorder(NewRoot(t, e)) == WithNode(Inorder(t), e) && Nodes(NewRoot(t, e)) == Nodes(t) + {e}
  {
    SplitInorder(t, e.key);
    WithNodeBeside(Inorder(t.left), t.node, Inorder(t.right), e);
    NewRootList(t.left, t.node, t.right, e);
    NewRootNodes(t.left, t.node, t.right, e);
  }

  lemma NewRootList(l: Tree, n: Node, r: Tree, e: Node)
    ensures Inorder(Branch(l, e, Branch(Leaf, n, r))) == Inorder(l) + [e] + ([n] + Inorder(r))
    ensures Inorder(Branch(Branch(l, n, Leaf), e, r)) == Inorder(l) + [n] + [e] + Inorder(r)
  {
    InorderNoLeft(n, r);
    InorderNoRight(l, n);
  }

  lemma NewRootNodes(l: Tree, n: Node, r: Tree, e: Node)
    ensures Nodes(Branch(l, e, Branch(Leaf, n, r))) == Nodes(l) + {n} + Nodes(r) + {e}
    ensures Nodes(Branch(Branch(l, n, Leaf), e, r)) == Nodes(l) + {n} + Nodes(r) + {e}
  {
    assert Nodes(Branch(Leaf, n, r)) == {n} + Nodes(r);
    assert Nodes(Branch(l, n, Leaf)) == Nodes(l) + {n};
  }

  lemma InorderNoLeft(n: Node, r: Tree)
    ensures Inorder(Branch(Leaf, n, r)) == [n] + Inorder(r)
  {
    assert [] + [n] == [n];
  }

  lemma InorderNoRight(l: Tree, n: Node)
    ensures Inorder(Branch(l, n, Leaf)) == Inorder(l) + [n]
  {
  }

  lemma WithNodeBeside(s: seq<Node>, n: Node, u: seq<Node>, e: Node)
    requires AllLess(s, e.key) && AllMore(u, e.key) && n.key != e.key
    ensures WithNode(s + [n] + u, e) == if e.key < n.key then s + [e] + ([n] + u) else s + [n] + [e] + u
  {
    if e.key < n.key {
      WithNodeSplit(s, e, [n] + u);
      assert s + [n] + u == s + ([n] + u);
    } else {
      WithNodeSplit(s + [n], e, u);
    }
  }

  // The left subtree of the removed node, splayed for the removed key, has no right child.
  lemma NothingRight(l: Tree, key: int)
    requires SplitBy(l, key) && forall n :: n in Nodes(l) ==> n.key < key
    ensures l.right == Leaf
  {
    assert l.right.Branch? ==> l.right.node in Nodes(l.right);
  }

  lemma RemoveOrdered(l: Tree, key: int, r: Tree, lo: int, hi: int)
    requires l.Branch? && l.right == Leaf && Ordered(l, lo, key) && Ordered(r, key, hi)
    ensures IsSearchTree(Branch(l.left, l.node, r))
  {
    OrderedWiden(r, key, hi, l.node.key, hi);
    OrderedWithin(r, key, hi);
    assert Ordered(Branch(l.left, l.node, r), lo, hi);
  }

  lemma WithoutKeyOther(s: seq<Node>, key: int)
    requires !HasKey(s, key)
    ensures WithoutKey(s, key) == s
  {
    WithoutKeyAbsent(s, key);
  }

  // ----- the operations -----

  class Head {
    var root: Node?
    ghost var tree: Tree

    // The nodes in key order.
    ghost function Contents(): seq<Node>
      reads this
    {
      Inorder(tree)
    }

    ghost predicate Valid()
      reads this, Nodes(tree)
    {
      Rep(root, tree) && IsSearchTree(tree)
    }

    // `SPLAY_INIT`
    constructor ()
      ensures Valid() && Contents() == [] && Nodes(tree) == {}
    {
      root, tree := null, Leaf;
      new;
      assert Ordered(tree, 0, 1);
    }

    method SplayTo(key: int)
      requires Valid() && root != null
      modifies this, Nodes(tree)
      ensures Valid() && root != null && SplitBy(tree, key)
      ensures Contents() == old(Contents()) && Nodes(tree) == old(Nodes(tree))
    {
      ghost var lo, hi :| Ordered(tree, lo, hi);
      ghost var lo', hi' := if lo < key then lo else key - 1, if key < hi then hi else key + 1;
      OrderedWiden(tree, lo, hi, lo', hi');
      root, tree := Splay(root, key, tree, lo', hi');
    }

    // `name##_SPLAY_FIND`
    method Find(key: int) returns (r: Node?)
      requires Valid()
      modifies this, Nodes(tree)
      ensures Valid() && Contents() == old(Contents()) && Nodes(tree) == old(Nodes(tree))
      ensures r != null <==> HasKey(Contents(), key)
      ensures r != null ==> r.key == key && r in Nodes(tree)
    {
      if root == null {
        return null;
      }
      SplayTo(key);
      SplitInorder(tree, key);
      return if key == root.key then root else null;
    }

    // `name##_SPLAY_INSERT`
    method Insert(elm: Node) returns (r: Node?)
      requires Valid()
      modifies this, Nodes(tree), elm
      ensures Valid()
      ensures r != null <==> HasKey(old(Contents()), elm.key)
      ensures r != null ==> r.key == elm.key && Contents() == old(Contents()) && Nodes(tree) == old(Nodes(tree))
      ensures elm in old(Nodes(tree)) ==> r == elm
      ensures r == null ==> Contents() == WithNode(old(Contents()), elm) && Nodes(tree) == old(Nodes(tree)) + {elm}
    {
      if root == null {
        elm.left, elm.right := null, null;
        tree := Branch(Leaf, elm, Leaf);
        assert Ordered(tree, elm.key - 1, elm.key + 1);
      } else {
        SplayTo(elm.key);
        SplitInorder(tree, elm.key);
        if elm.key == root.key {
          return root;
        }
        assert elm !in Nodes(tree);
        PutOnTop(elm);
      }
      root := elm;
      return null;
    }

    // Makes the splayed tree the subtrees of `elm`.
    method PutOnTop(elm: Node)
      requires Valid() && root != null && elm !in Nodes(tree) && SplitBy(tree, elm.key) && elm.key != root.key
      modifies this`tree, root, elm
      ensures Rep(elm, tree) && IsSearchTree(tree)
      ensures Contents() == WithNode(old(Contents()), elm) && Nodes(tree) == old(Nodes(tree)) + {elm}
    {
      NewRootOrdered(tree, elm);
      NewRootInorder(tree, elm);
      ghost var l, r := tree.left, tree.right;
      assert root !in Nodes(l) && root !in Nodes(r) by {
        var lo, hi :| Ordered(tree, lo, hi);
        OrderedWithin(l, lo, root.key);
        OrderedWithin(r, root.key, hi);
      }
      if elm.key < root.key {
        elm.left := root.left;
        elm.right := root;
        root.left := null;
      } else {
        elm.right := root.right;
        elm.left := root;
        root.right := null;
      }
      assert Rep(root, if elm.key < root.key then Branch(Leaf, root, r) else Branch(l, root, Leaf));
      tree := NewRoot(tree, elm);
    }

    // `name##_SPLAY_NEXT`: the node after `elm` in key order.
    method Next(elm: Node) returns (r: Node?, ghost s: seq<Node>, ghost t: seq<Node>)
      requires Valid() && elm in Nodes(tree)
      modifies this, Nodes(tree)
      ensures Valid() && Contents() == old(Contents()) && Nodes(tree) == old(Nodes(tree))
      ensures Contents() == s + [elm] + t && r == if t == [] then null else t[0]
    {
      SplayTo(elm.key);
      assert elm == root;
      s, t := Inorder(tree.left), Inorder(tree.right);
      assert Rep(elm.right, tree.right) && allocated(Nodes(tree));
      if elm.right != null {
        r := First(elm.right, tree.right);
      } else {
        r := null;
      }
    }

    // `SPLAY_MIN` and `SPLAY_MAX`: the first and the last node in key order.
    method Min() returns (r: Node?)
      requires Valid()
      modifies this, Nodes(tree)
      ensures Valid() && Contents() == old(Contents()) && Nodes(tree) == old(Nodes(tree))
      ensures r == if Contents() == [] then null else Contents()[0]
    {
      if root == null {
        return null;
      }
      ghost var lo, hi :| Ordered(tree, lo, hi);
      root, tree := SplayMin(root, tree, lo, hi);
      return root;
    }

    method Max() returns (r: Node?)
      requires Valid()
      modifies this, Nodes(tree)
      ensures Valid() && Contents() == old(Contents()) && Nodes(tree) == old(Nodes(tree))
      ensures r == if Contents() == [] then null else Contents()[|Contents()| - 1]
    {
      if root == null {
        return null;
      }
      ghost var lo, hi :| Ordered(tree, lo, hi);
      root, tree := SplayMax(root, tree, lo, hi);
      return root;
    }

    // `name##_SPLAY_REMOVE`: takes out the node with the key of `elm`, if any, and returns `elm` then.
    method Remove(elm: Node) returns (r: Node?)
      requires Valid()
      modifies this, Nodes(tree)
      ensures Valid() && Nodes(tree) <= old(Nodes(tree))
      ensures r == if HasKey(old(Contents()), elm.key) then elm else null
      ensures Contents() == WithoutKey(old(Contents()), elm.key)
    {
      if root == null {
        return null;
      }
      SplayTo(elm.key);
      SplitInorder(tree, elm.key);
      if elm.key != root.key {
        WithoutKeyOther(Contents(), elm.key);
        return null;
      }
      WithoutKeySplit(Inorder(tree.left), root, Inorder(tree.right));
      CutRoot();
      return elm;
    }

    // Joins the two subtrees of the root.
    method CutRoot()
      requires Valid() && root != null && SplitBy(tree, root.key)
      modifies this, Nodes(tree)
      ensures Valid() && Nodes(tree) <= old(Nodes(tree))
      ensures Contents() == old(Inorder(tree.left) + Inorder(tree.right))
    {
      ghost var lo, hi :| Ordered(tree, lo, hi);
      ghost var l, n, r := tree.left, tree.node, tree.right;
      assert Rep(root.left, l) && Rep(root.right, r);
      if root.left == null {
        root, tree := root.right, r;
        assert Ordered(tree, n.key, hi);
        assert [] + Inorder(r) == Inorder(r);
      } else {
        OrderedWithin(l, lo, n.key);
        root, tree := Join(root.left, root.right, root.key, l, r, lo, hi);
      }
    }
  }

  // The first node in order: as far left as possible.
  method First(n: Node, ghost t: Tree) returns (r: Node)
    requires t.Branch? && Rep(n, t)
    ensures Inorder(t) != [] && r == Inorder(t)[0]
  {
    r := n;
    ghost var u := t;
    while r.left != null
      invariant u.Branch? && Rep(r, u) && Inorder(t) != [] && Inorder(u) != [] && Inorder(u)[0] == Inorder(t)[0]
      decreases u
    {
      assert Rep(r.left, u.left);
      r, u := r.left, u.left;
    }
    assert Rep(r.left, u.left);
  }

  // Splays the left subtree of a removed node, and hangs the right subtree below its new root.
  method Join(left: Node, right: Node?, key: int, ghost l: Tree, ghost r: Tree, ghost lo: int, ghost hi: int)
    returns (root: Node, ghost t: Tree)
    requires l.Branch? && Rep(left, l) && Rep(right, r) && Ordered(l, lo, key) && Ordered(r, key, hi)
    modifies Nodes(l)
    ensures Rep(root, t) && IsSearchTree(t) && Nodes(t) == Nodes(l) + Nodes(r) && Inorder(t) == Inorder(l) + Inorder(r)
  {
    OrderedWithin(l, lo, key);
    OrderedWithin(r, key, hi);
    OrderedWiden(l, lo, key, lo, key + 1);
    assert allocated(Nodes(r));
    ghost var l';
    root, l' := Splay(left, key, l, lo, key + 1);
    NothingRight(l', key);
    OrderedCap(l', lo, key + 1, key);
    RemoveOrdered(l', key, r, lo, hi);
    InorderNoRight(l'.left, l'.node);
    OrderedWithin(l'.left, lo, l'.node.key);
    assert Rep(root.left, l'.left) && Rep(right, r);
    root.right := right;
    t := Branch(l'.left, l'.node, r);
  }

  // ----- every run agrees with a set of keys -----

  ghost function KeySet(s: seq<Node>): set<int> {
    if s == [] then {} else {s[0].key} + KeySet(s[1..])
  }

  lemma {:induction false} HasKeyInSet(s: seq<Node>, key: int)
    ensures HasKey(s, key) <==> key in KeySet(s)
  {
    if s == [] {
    } else {
      HasKeyInSet(s[1..], key);
      if HasKey(s[1..], key) {
        var i :| 0 <= i < |s[1..]| && s[1..][i].key == key;
        assert s[i + 1].key == key;
      }
      if HasKey(s, key) && s[0].key != key {
        var i :| 0 <= i < |s| && s[i].key == key;
        assert s[1..][i - 1].key == key;
      }
    }
  }

  lemma {:induction false} WithNodeSet(s: seq<Node>, e: Node)
    ensures KeySet(WithNode(s, e)) == KeySet(s) + {e.key}
  {
    if s == [] || e.key < s[0].key {
      assert ([e] + s)[1..] == s;
    } else {
      WithNodeSet(s[1..], e);
      assert ([s[0]] + WithNode(s[1..], e))[1..] == WithNode(s[1..], e);
    }
  }

  lemma {:induction false} WithoutKeySet(s: seq<Node>, key: int)
    ensures KeySet(WithoutKey(s, key)) == KeySet(s) - {key}
  {
    if s == [] {
    } else {
      WithoutKeySet(s[1..], key);
      if s[0].key != key {
        assert ([s[0]] + WithoutKey(s[1..], key))[1..] == WithoutKey(s[1..], key);
      } else {
        assert WithoutKey(s, key) == WithoutKey(s[1..], key);
      }
    }
  }

  datatype Op = Insert(key: int) | Remove(key: int) | Find(key: int)

  // What an operation does to a set of keys.
  ghost function Apply(s: set<int>, op: Op): set<int> {
    match op
    case Insert(k) => s + {k}
    case Remove(k) => s - {k}
    case Find(_) => s
  }

  // What the operations make of the empty set.
  ghost function After(ops: seq<Op>): set<int> {
    if ops == [] then {} else Apply(After(ops[..|ops| - 1]), ops[|ops| - 1])
  }

  lemma AfterMore(ops: seq<Op>, i: nat)
    requires i < |ops|
    ensures After(ops[..i + 1]) == Apply(After(ops[..i]), ops[i])
  {
    assert ops[..i + 1][..i] == ops[..i];
  }

  // Runs the operations on an empty tree; each answer says whether the key was there.
  method Run(ops: seq<Op>) returns (answers: seq<bool>)
    ensures |answers| == |ops|
    ensures forall i :: 0 <= i < |ops| ==> answers[i] == (ops[i].key in After(ops[..i]))
  {
    var head := new Head();
    answers := [];
    for i := 0 to |ops|
      invariant head.Valid() && fresh(head) && KeySet(head.Contents()) == After(ops[..i])
      invariant forall n :: n in Nodes(head.tree) ==> fresh(n)
      invariant |answers| == i && forall j :: 0 <= j < i ==> answers[j] == (ops[j].key in After(ops[..j]))
    {
      AfterMore(ops, i);
      var answer := Perform(head, ops[i], After(ops[..i]));
      answers := answers + [answer];
    }
  }

  // One operation on a tree that holds the keys of a set.
  method Perform(head: Head, op: Op, ghost keys: set<int>) returns (answer: bool)
    requires head.Valid() && KeySet(head.Contents()) == keys
    modifies head, Nodes(head.tree)
    ensures head.Valid() && forall n :: n in Nodes(head.tree) ==> n in old(Nodes(head.tree)) || fresh(n)
    ensures answer == (op.key in keys)
    ensures KeySet(head.Contents()) == Apply(keys, op)
  {
    ghost var s := head.Contents();
    HasKeyInSet(s, op.key);
    match op
    case Insert(k) =>
      assert allocated(Nodes(head.tree));
      var elm := new Node(k);
      WithNodeSet(s, elm);
      var r := head.Insert(elm);
      answer := r != null;
    case Remove(k) =>
      assert allocated(Nodes(head.tree));
      var elm := new Node(k);
      WithoutKeySet(s, k);
      var r := head.Remove(elm);
      answer := r != null;
    case Find(k) =>
      var r := head.Find(k);
      answer := r != null;
  }
}
