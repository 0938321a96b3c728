/**
 The shape of a splay tree on the heap: nodes linked by `left` and `right`, and the tree value
 that such a linked structure represents (src/iccpd/include/openbsd_tree.h).
 */
module SplayTree {

  class Node {
    const key: int
    var left: Node?
    var right: Node?

    constructor (key: int)
      ensures this.key == key && left == null && right == null
    {
      this.key, left, right := key, null, null;
    }
  }

  datatype Tree = Leaf | Branch(left: Tree, node: Node, right: Tree)

  ghost function Nodes(t: Tree): set<Node> {
    match t
    case Leaf => {}
    case Branch(l, n, r) => Nodes(l) + {n} + Nodes(r)
  }

  ghost function Inorder(t: Tree): seq<Node> {
    match t
    case Leaf => []
    case Branch(l, n, r) => Inorder(l) + [n] + Inorder(r)
  }

  // The linked structure at `n` represents `t`.
  ghost predicate Rep(n: Node?, t: Tree)
    reads Nodes(t)
  {
    match t
    case Leaf => n == null
    case Branch(l, m, r) => n == m && Rep(m.left, l) && Rep(m.right, r)
  }

  // A binary search tree with all keys strictly between `lo` and `hi`.
  ghost predicate Ordered(t: Tree, lo: int, hi: int) {
    match t
    case Leaf => lo < hi
    case Branch(l, n, r) => lo < n.key < hi && Ordered(l, lo, n.key) && Ordered(r, n.key, hi)
  }

  ghost predicate Within(t: Tree, lo: int, hi: int) {
    forall n :: n in Nodes(t) ==> lo < n.key < hi
  }

  lemma {:induction false} OrderedWithin(t: Tree, lo: int, hi: int)
    requires Ordered(t, lo, hi)
    ensures Within(t, lo, hi) && lo < hi
  {
    match t
    case Leaf =>
    case Branch(l, n, r) =>
      OrderedWithin(l, lo, n.key);
      OrderedWithin(r, n.key, hi);
  }

  lemma {:induction false} OrderedWiden(t: Tree, lo: int, hi: int, lo': int, hi': int)
    requires Ordered(t, lo, hi) && lo' <= lo && hi <= hi'
    ensures Ordered(t, lo', hi')
  {
    match t
    case Leaf =>
    case Branch(l, n, r) =>
      OrderedWiden(l, lo, n.key, lo', n.key);
      OrderedWiden(r, n.key, hi, n.key, hi');
  }

  // ----- trees under construction -----

  // The tree `t` with its rightmost leaf replaced by `x`.
  ghost function PlugRight(t: Tree, x: Tree): Tree {
    match t
    case Leaf => x
    case Branch(l, n, r) => Branch(l, n, PlugRight(r, x))
  }

  ghost function PlugLeft(t: Tree, x: Tree): Tree {
    match t
    case Leaf => x
    case Branch(l, n, r) => Branch(PlugLeft(l, x), n, r)
  }

  ghost function Rightmost(t: Tree): Node
    requires t.Branch?
  {
    if t.right.Leaf? then t.node else Rightmost(t.right)
  }

  ghost function Leftmost(t: Tree): Node
    requires t.Branch?
  {
    if t.left.Leaf? then t.node else Leftmost(t.left)
  }

  // All nodes but the rightmost, or the leftmost.
  ghost function AllButRightmost(t: Tree): set<Node>
    requires t.Branch?
  {
    Nodes(t.left) + if t.right.Leaf? then {} else {t.node} + AllButRightmost(t.right)
  }

  ghost function AllButLeftmost(t: Tree): set<Node>
    requires t.Branch?
  {
    Nodes(t.right) + if t.left.Leaf? then {} else {t.node} + AllButLeftmost(t.left)
  }

  // The structure at `n` represents `t`, except that nothing is known of the `right` field of the
  // rightmost node.
  ghost predicate RepOpenRight(n: Node?, t: Tree)
    requires t.Branch?
    reads AllButRightmost(t), Rightmost(t)`left
  {
    && n == t.node && Rep(t.node.left, t.left)
    && (t.right.Branch? ==> RepOpenRight(t.node.right, t.right))
  }

  ghost predicate RepOpenLeft(n: Node?, t: Tree)
    requires t.Branch?
    reads AllButLeftmost(t), Leftmost(t)`right
  {
    && n == t.node && Rep(t.node.right, t.right)
    && (t.left.Branch? ==> RepOpenLeft(t.node.left, t.left))
  }

  lemma {:induction false} PlugRightInorder(t: Tree, x: Tree)
    ensures Inorder(PlugRight(t, x)) == Inorder(t) + Inorder(x)
    ensures Nodes(PlugRight(t, x)) == Nodes(t) + Nodes(x)
  {
    match t
    case Leaf =>
    case Branch(l, n, r) => PlugRightInorder(r, x);
  }

  lemma {:induction false} PlugLeftInorder(t: Tree, x: Tree)
    ensures Inorder(PlugLeft(t, x)) == Inorder(x) + Inorder(t)
    ensures Nodes(PlugLeft(t, x)) == Nodes(t) + Nodes(x)
  {
    match t
    case Leaf =>
    case Branch(l, n, r) => PlugLeftInorder(l, x);
  }

  lemma {:induction false} PlugRightOrdered(t: Tree, x: Tree, lo: int, cut: int, hi: int)
    requires Ordered(t, lo, cut + 1) && Ordered(x, cut, hi)
    ensures Ordered(PlugRight(t, x), lo, hi)
  {
    match t
    case Leaf => OrderedWiden(x, cut, hi, lo, hi);
    case Branch(l, n, r) => PlugRightOrdered(r, x, n.key, cut, hi);
  }

  lemma {:induction false} PlugLeftOrdered(t: Tree, x: Tree, lo: int, cut: int, hi: int)
    requires Ordered(t, cut - 1, hi) && Ordered(x, lo, cut)
    ensures Ordered(PlugLeft(t, x), lo, hi)
  {
    match t
    case Leaf => OrderedWiden(x, lo, cut, lo, hi);
    case Branch(l, n, r) => PlugLeftOrdered(l, x, lo, cut, n.key);
  }

  lemma {:induction false} RightmostLast(t: Tree, lo: int, hi: int)
    requires t.Branch?
    ensures Nodes(t) == AllButRightmost(t) + {Rightmost(t)}
    ensures Ordered(t, lo, hi) ==> Rightmost(t) !in AllButRightmost(t)
  {
    if Ordered(t, lo, hi) {
      OrderedWithin(t.left, lo, t.node.key);
      OrderedWithin(t.right, t.node.key, hi);
    }
    if t.right.Branch? {
      RightmostLast(t.right, t.node.key, hi);
    }
  }

  lemma {:induction false} LeftmostFirst(t: Tree, lo: int, hi: int)
    requires t.Branch?
    ensures Nodes(t) == AllButLeftmost(t) + {Leftmost(t)}
    ensures Ordered(t, lo, hi) ==> Leftmost(t) !in AllButLeftmost(t)
  {
    if Ordered(t, lo, hi) {
      OrderedWithin(t.left, lo, t.node.key);
      OrderedWithin(t.right, t.node.key, hi);
    }
    if t.left.Branch? {
      LeftmostFirst(t.left, lo, t.node.key);
    }
  }

  // Once the open field leads to `x`, the structure represents the tree with `x` plugged in.
  lemma {:induction false} CloseRight(n: Node?, t: Tree, x: Tree)
    requires t.Branch? && RepOpenRight(n, t) && Rep(Rightmost(t).right, x)
    ensures Rep(n, PlugRight(t, x))
  {
    if t.right.Leaf? {
    } else {
      CloseRight(t.node.right, t.right, x);
    }
  }

  lemma {:induction false} CloseLeft(n: Node?, t: Tree, x: Tree)
    requires t.Branch? && RepOpenLeft(n, t) && Rep(Leftmost(t).left, x)
    ensures Rep(n, PlugLeft(t, x))
  {
    if t.left.Leaf? {
    } else {
      CloseLeft(t.node.left, t.left, x);
    }
  }

  // Once the open field leads to a new node `m`, the field `right` of `m` is the open one.
  lemma {:induction false} ExtendRight(n: Node?, t: Tree, m: Node, l: Tree)
    requires t.Branch? && RepOpenRight(n, t) && Rightmost(t).right == m && Rep(m.left, l)
    ensures var t' := PlugRight(t, Branch(l, m, Leaf)); t'.Branch? && RepOpenRight(n, t') && Rightmost(t') == m
  {
    if t.right.Leaf? {
    } else {
      ExtendRight(t.node.right, t.right, m, l);
    }
  }

  lemma {:induction false} ExtendLeft(n: Node?, t: Tree, m: Node, r: Tree)
    requires t.Branch? && RepOpenLeft(n, t) && Leftmost(t).left == m && Rep(m.right, r)
    ensures var t' := PlugLeft(t, Branch(Leaf, m, r)); t'.Branch? && RepOpenLeft(n, t') && Leftmost(t') == m
  {
    if t.left.Leaf? {
    } else {
      ExtendLeft(t.node.left, t.left, m, r);
    }
  }
}
