/** The compression tree as linked nodes that are rotated and spliced in place. */
module HuffmanNodes {
  import opened Bytes
  import opened HuffmanTree
  import opened HuffmanCodes

  class CNode {
    var left: CNode?
    var right: CNode?
    var c: Byte

    ghost var tree: Tree
    ghost var repr: set<CNode>

    /** The node and those below it form `tree`, sharing nothing. */
    ghost predicate Valid()
      reads this, repr
      decreases repr
      ensures Valid() ==> this in repr && tree.Node?
    {
      && this in repr && tree.Node? && tree.c == c
      && (left == null <==> tree.left.Nil?) && (right == null <==> tree.right.Nil?)
      && (left != null ==> left in repr && left.repr <= repr - {this} && left.Valid() && left.tree == tree.left)
      && (right != null ==> right in repr && right.repr <= repr - {this} && right.Valid() && right.tree == tree.right)
      && (left != null && right != null ==> left.repr !! right.repr)
    }

    constructor Leaf(ch: Byte)
      ensures Valid() && fresh(repr) && tree == HuffmanTree.Leaf(ch)
    {
      left, right, c := null, null, ch;
      tree, repr := HuffmanTree.Leaf(ch), {this};
    }

    constructor Join(l: CNode?, r: CNode?, ch: Byte)
      requires (l != null ==> l.Valid()) && (r != null ==> r.Valid())
      requires l != null && r != null ==> l.repr !! r.repr
      ensures Valid() && tree == Node(TreeOf(l), ch, TreeOf(r)) && fresh(repr - ReprOf(l) - ReprOf(r))
      ensures repr == {this} + ReprOf(l) + ReprOf(r)
    {
      left, right, c := l, r, ch;
      tree := Node(TreeOf(l), ch, TreeOf(r));
      repr := {this} + ReprOf(l) + ReprOf(r);
    }
  }

  ghost function TreeOf(n: CNode?): Tree
    reads n
  {
    if n == null then Nil else n.tree
  }

  ghost function ReprOf(n: CNode?): set<CNode>
    reads n
  {
    if n == null then {} else n.repr
  }

  // ----- Squashing

  /** The left child comes up and the node goes down on the right. */
  method RotateRight(node: CNode)
    requires node.Valid() && node.tree.left.Node?
    modifies node.repr
    ensures node.Valid() && node.repr == old(node.repr)
    ensures var t := old(node.tree);
            node.tree == Node(t.left.left, t.c, Node(t.left.right, t.left.c, t.right))
  {
    ghost var t := node.tree;
    var temp, l := node.right, node.left;
    assert l.Valid();
    node.right := node.left;
    node.left := l.left;
    l.left := l.right;
    l.right := temp;
    l.tree := Node(t.left.right, t.left.c, t.right);
    l.repr := {l} + ReprOf(l.left) + ReprOf(l.right);
    node.tree := Node(t.left.left, t.c, l.tree);
    assert l.Valid();
  }

  method RotateLeft(node: CNode)
    requires node.Valid() && node.tree.right.Node?
    modifies node.repr
    ensures node.Valid() && node.repr == old(node.repr)
    ensures var t := old(node.tree);
            node.tree == Node(Node(t.left, t.right.c, t.right.left), t.c, t.right.right)
  {
    ghost var t := node.tree;
    var temp, r := node.left, node.right;
    assert r.Valid();
    node.left := node.right;
    node.right := r.right;
    r.right := r.left;
    r.left := temp;
    r.tree := Node(t.left, t.right.c, t.right.left);
    r.repr := {r} + ReprOf(r.left) + ReprOf(r.right);
    node.tree := Node(r.tree, t.c, t.right.right);
    assert r.Valid();
  }

  /** Squash the tree below `node`, and say how deep it is. */
  method FixTreeDepth(node: CNode?, height: int, zeros: int) returns (depth: int)
    requires node != null ==> node.Valid() && Full(node.tree)
    requires 0 <= zeros <= 7
    modifies ReprOf(node)
    ensures node != null ==> node.Valid() && node.repr == old(node.repr)
    ensures Squashed(TreeOf(node), depth) == FixDepth(old(TreeOf(node)), height, zeros)
    decreases Size(TreeOf(node)), 2
  {
    if node == null {
      return height + if zeros > 2 then 1 else 0;
    }
    ghost var t := node.tree;
    ghost var l, r := FixDepth(t.left, LeftHeight(height, zeros), (zeros + 1) % 8), FixDepth(t.right, height + 1, 0);
    FixDepthFull(t, height, zeros);
    if !IsLeaf(t) {
      FixDepthFull(t.left, LeftHeight(height, zeros), (zeros + 1) % 8);
      FixDepthFull(t.right, height + 1, 0);
    }
    var a, b := FixBothSides(node, height, zeros);
    hide FixDepth, Full, Leaves;
    depth := Balance(node, a, b, height, zeros, l, r);
  }

  /** The second half of `FixTreeDepth`, after both sides have been squashed. */
  method Balance(node: CNode, a0: int, b0: int, height: int, zeros: int, ghost l: Squashed,
          ghost r: Squashed) returns (depth: int)
    requires node.Valid() && 0 <= zeros <= 7 && RotationSafe(l, r)
    requires node.tree == Node(l.tree, node.c, r.tree) && a0 == l.depth && b0 == r.depth
    requires (l.tree.Node? ==> Full(l.tree)) && (r.tree.Node? ==> Full(r.tree)) && (l.tree.Node? <==> r.tree.Node?)
    modifies node.repr
    ensures node.Valid() && node.repr == old(node.repr)
    ensures Squashed(node.tree, depth) == Rebalance(l, r, old(node.c), height, zeros)
    decreases Size(node.tree), 1
  {
    hide FixDepth;
    var a, b := a0, b0;
    if a > CODE_BITS && b < a - 1 {
      RotateRight(node);
      RotationSize(l.tree, node.c, r.tree);
      a, b := FixBothSides(node, height, zeros);
    } else if b > CODE_BITS && a < b - 1 {
      RotateLeft(node);
      RotationSize(r.tree, node.c, l.tree);
      a, b := FixBothSides(node, height, zeros);
    }
    return if a > b then a else b;
  }

  lemma RotationSize(x: Tree, c: Byte, y: Tree)
    requires x.Node?
    ensures Size(Node(x.left, c, Node(x.right, x.c, y))) == Size(Node(x, c, y))
    ensures Size(Node(Node(y, x.c, x.left), c, x.right)) == Size(Node(y, c, x))
  {
  }

  method FixBothSides(node: CNode, height: int, zeros: int) returns (a: int, b: int)
    requires node.Valid() && 0 <= zeros <= 7
    requires (node.tree.left.Node? ==> Full(node.tree.left)) && (node.tree.right.Node? ==> Full(node.tree.right))
    modifies node.repr
    ensures node.Valid() && node.repr == old(node.repr)
    ensures var t := old(node.tree);
            var l, r := FixDepth(t.left, LeftHeight(height, zeros), (zeros + 1) % 8), FixDepth(t.right, height + 1, 0);
            node.tree == Node(l.tree, t.c, r.tree) && a == l.depth && b == r.depth
    decreases Size(node.tree), 0
  {
    a := FixTreeDepth(node.left, height + 1 + (if zeros == 7 then 1 else 0), (zeros + 1) % 8);
    b := FixTreeDepth(node.right, height + 1, 0);
    node.tree := Node(TreeOf(node.left), node.c, TreeOf(node.right));
  }

  // ----- Splicing

  /** Move what `node` holds into a new node, which becomes its right child. */
  method SpliceOne(node: CNode) returns (ctop: CNode)
    requires node.Valid()
    modifies node
    ensures node.Valid() && node.tree == Splice(old(node.tree)) && node.repr == old(node.repr) + {ctop}
    ensures fresh(ctop) && node.right == ctop && ctop.tree == old(node.tree)
  {
    ctop := new CNode.Join(node.left, node.right, node.c);
    node.left, node.right := null, ctop;
    node.tree := Splice(node.tree);
    node.repr := node.repr + {ctop};
  }

  method ForceFirstOne(node: CNode, count: nat)
    requires node.Valid()
    modifies node.repr
    ensures node.Valid() && node.tree == ForceOne(old(node.tree), count) && fresh(node.repr - old(node.repr))
    decreases node.tree
  {
    if node.left != null && count < 4 {
      ForceFirstOne(node.left, count + 1);
      node.tree := Node(node.left.tree, node.c, TreeOf(node.right));
      node.repr := node.repr + node.left.repr;
    } else {
      var ctop := SpliceOne(node);
    }
  }

  /** Ones along the left edge from `node` on, and in what hangs off it. */
  method AddOnesBelow(node: CNode, count: nat)
    requires node.Valid()
    modifies node.repr
    ensures node.Valid() && node.tree == AddOnes(old(node.tree), count) && fresh(node.repr - old(node.repr))
    decreases node.tree, 0
  {
    ghost var t := node.tree;
    if node.right != null {
      AddOnesBelow(node.right, 0);
      node.tree := Node(t.left, t.c, node.right.tree);
      node.repr := node.repr + node.right.repr;
    }
    if count >= 7 || (count >= 3 && node.left == null && node.right == null) {
      AddOnesLeft(node, 1);
      var ctop := SpliceOne(node);
    } else {
      AddOnesLeft(node, count + 1);
    }
  }

  method AddOnesLeft(node: CNode, count: nat)
    requires node.Valid()
    modifies node.repr
    ensures node.Valid() && fresh(node.repr - old(node.repr))
    ensures node.tree == Node(AddOnes(old(node.tree).left, count), old(node.tree).c, old(node.tree).right)
    decreases node.tree.left, 1
  {
    if node.left != null {
      AddOnesBelow(node.left, count);
      node.tree := Node(node.left.tree, node.c, TreeOf(node.right));
      node.repr := node.repr + node.left.repr;
    }
  }

  /** Go `n` steps down the left edge, adding nodes where it ends, and leave
      end-of-string there. */
  method AddEosBelow(node: CNode, n: nat)
    requires node.Valid()
    modifies node.repr
    ensures node.Valid() && node.tree == AddEos(old(node.tree), n) && fresh(node.repr - old(node.repr))
    decreases n
  {
    if n > 0 {
      if node.left == null {
        var ctop := new CNode.Leaf(EOS);
        node.left := ctop;
        node.tree := Node(ctop.tree, node.c, TreeOf(node.right));
        node.repr := node.repr + ctop.repr;
      }
      AddEosBelow(node.left, n - 1);
      node.tree := Node(node.left.tree, node.c, TreeOf(node.right));
      node.repr := node.repr + node.left.repr;
    }
  }

  /** Parts 4(d) and 4(e) of building the tree. */
  method FinishTree(root: CNode)
    requires root.Valid()
    modifies root.repr
    ensures root.Valid() && root.tree == Finish(old(root.tree)) && fresh(root.repr - old(root.repr))
  {
    ForceFirstOne(root, 0);
    AddOnesBelow(root, 0);
    AddEosBelow(root, 8);
  }
}
