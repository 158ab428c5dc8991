/** The Huffman tree: squashing it, keeping long runs of zeros out of its
    codes, and adding the code for the end of a string. */
module HuffmanTree {
  import opened Bytes

  const EOS: Byte := 0
  const CODE_BITS := 25
  const TABLE_SIZE := 256

  datatype Tree = Nil | Node(left: Tree, c: Byte, right: Tree)

  predicate IsLeaf(t: Tree) {
    t.Node? && t.left.Nil? && t.right.Nil?
  }

  function Leaf(c: Byte): Tree {
    Node(Nil, c, Nil)
  }

  /** The characters at the leaves, from left to right. */
  function Leaves(t: Tree): seq<Byte> {
    match t
    case Nil => []
    case Node(l, c, r) => if IsLeaf(t) then [c] else Leaves(l) + Leaves(r)
  }

  /** Every node has two children or none. */
  predicate Full(t: Tree) {
    t.Node? && (IsLeaf(t) || (Full(t.left) && Full(t.right)))
  }

  function Size(t: Tree): nat {
    match t
    case Nil => 0
    case Node(l, _, r) => 1 + Size(l) + Size(r)
  }

  // ----- Codes

  /** A code is a path from the root: false goes left, true goes right. */
  type Code = seq<bool>

  function At(t: Tree, p: Code): Tree {
    if p == [] || t.Nil? then t else At(if p[0] then t.right else t.left, p[1..])
  }

  /** `p` leads to a leaf with character `c`. */
  predicate IsCode(t: Tree, p: Code, c: Byte) {
    IsLeaf(At(t, p)) && At(t, p).c == c
  }

  function Zeros(n: nat): Code {
    seq(n, _ => false)
  }

  function LeadingZeros(p: Code): nat {
    if p == [] || p[0] then 0 else 1 + LeadingZeros(p[1..])
  }

  /** Eight zeros in a row somewhere. */
  ghost predicate EightZeros(p: Code) {
    exists i :: ZerosAt(p, i)
  }

  predicate ZerosAt(p: Code, i: int) {
    0 <= i && i + 8 <= |p| && p[i..i + 8] == Zeros(8)
  }

  /** No code is the beginning of another one. */
  lemma {:induction false} PrefixFree(t: Tree, p: Code, q: Code, c: Byte, d: Byte)
    requires IsCode(t, p, c) && IsCode(t, q, d) && p <= q
    ensures p == q && c == d
  {
    if p != [] {
      PrefixFree(if p[0] then t.right else t.left, p[1..], q[1..], c, d);
    } else if q != [] {
      assert At(t, q) == At(if q[0] then t.right else t.left, q[1..]);
    }
  }

  // ----- Squashing

  /** A tree and its depth measure. */
  datatype Squashed = Squashed(tree: Tree, depth: int)

  /** The squashed tree and its depth.  `height` and `zeros` count the bits and
      the zeros on the way to `t`. */
  function FixDepth(t: Tree, height: int, zeros: int): (r: Squashed)
    ensures Size(r.tree) == Size(t)
    decreases Size(t), 3
  {
    if t.Nil? then Squashed(t, height + (if zeros > 2 then 1 else 0))
    else Rebalance(FixDepth(t.left, LeftHeight(height, zeros), (zeros + 1) % 8), FixDepth(t.right, height + 1, 0), t.c, height, zeros)
  }

  /** Rotate towards the shallower side, once, if the other one is too deep. */
  function Rebalance(l: Squashed, r: Squashed, c: Byte, height: int, zeros: int): (s: Squashed)
    ensures Size(s.tree) == 1 + Size(l.tree) + Size(r.tree)
    decreases 1 + Size(l.tree) + Size(r.tree), 2
  {
    if TooDeep(l, r) && l.tree.Node? then FixSides(l.tree.left, Node(l.tree.right, l.tree.c, r.tree), c, height, zeros)
    else if TooDeep(r, l) && r.tree.Node? then FixSides(Node(l.tree, r.tree.c, r.tree.left), r.tree.right, c, height, zeros)
    else Squashed(Node(l.tree, c, r.tree), Max(l.depth, r.depth))
  }

  /** `x` is beyond the code limit and more than one deeper than `y`. */
  predicate TooDeep(x: Squashed, y: Squashed) {
    x.depth > CODE_BITS && y.depth < x.depth - 1
  }

  /** Both sides once more, after a rotation. */
  function FixSides(left: Tree, right: Tree, c: Byte, height: int, zeros: int): (r: Squashed)
    ensures Size(r.tree) == 1 + Size(left) + Size(right)
    decreases 1 + Size(left) + Size(right), 1
  {
    var l := FixDepth(left, LeftHeight(height, zeros), (zeros + 1) % 8);
    var r := FixDepth(right, height + 1, 0);
    Squashed(Node(l.tree, c, r.tree), Max(l.depth, r.depth))
  }

  function LeftHeight(height: int, zeros: int): int {
    height + 1 + (if zeros == 7 then 1 else 0)
  }

  function Max(a: int, b: int): int {
    if a > b then a else b
  }

  /** A rotation at a node has all the subtrees that it moves. */
  predicate RotationSafe(l: Squashed, r: Squashed) {
    && (TooDeep(l, r) ==> l.tree.Node? && l.tree.left.Node? && l.tree.right.Node?)
    && (TooDeep(r, l) ==> r.tree.Node? && r.tree.left.Node? && r.tree.right.Node?)
  }

  /** Squashing keeps a tree full and its leaves in order; the measure it gives
      is more than the bits on the way; and at each node it never rotates a leaf
      or around one, although it does not look. */
  lemma {:induction false} FixDepthFull(t: Tree, height: int, zeros: int)
    requires Full(t) && 0 <= zeros <= 7
    ensures var s := FixDepth(t, height, zeros);
            && Full(s.tree) && Leaves(s.tree) == Leaves(t) && (IsLeaf(s.tree) <==> IsLeaf(t))
            && s.depth >= height + 1
            && (IsLeaf(t) ==> s.depth == LeafMeasure(height, zeros))
    ensures RotationSafe(FixDepth(t.left, LeftHeight(height, zeros), (zeros + 1) % 8), FixDepth(t.right, height + 1, 0))
    decreases Size(t), 3
  {
    var l, r := FixDepth(t.left, LeftHeight(height, zeros), (zeros + 1) % 8), FixDepth(t.right, height + 1, 0);
    if IsLeaf(t) {
      assert l == Squashed(Nil, LeafMeasure(height, zeros)) && r == Squashed(Nil, height + 1);
    } else {
      FixDepthFull(t.left, LeftHeight(height, zeros), (zeros + 1) % 8);
      FixDepthFull(t.right, height + 1, 0);
      LeafMeasureSmall(height, zeros);
      assert FixDepth(t, height, zeros) == Rebalance(l, r, t.c, height, zeros);
      assert l.depth >= height + 2 && r.depth >= height + 2;
      hide FixDepth, LeafMeasure, LeftHeight;
      RebalanceFull(l, r, t.c, height, zeros);
    }
  }

  lemma {:induction false} RebalanceFull(l: Squashed, r: Squashed, c: Byte, height: int, zeros: int)
    requires Full(l.tree) && Full(r.tree) && RotationSafe(l, r) && l.depth >= height + 1 && 0 <= zeros <= 7
    ensures var s := Rebalance(l, r, c, height, zeros);
            && Full(s.tree) && !IsLeaf(s.tree) && Leaves(s.tree) == Leaves(l.tree) + Leaves(r.tree) && s.depth >= height + 1
    decreases 1 + Size(l.tree) + Size(r.tree), 2
  {
    hide FixSides;
    if TooDeep(l, r) {
      var x := l.tree;
      FixSidesFull(x.left, Node(x.right, x.c, r.tree), c, height, zeros);
      assert Leaves(x.left) + (Leaves(x.right) + Leaves(r.tree)) == (Leaves(x.left) + Leaves(x.right)) + Leaves(r.tree);
    } else if TooDeep(r, l) {
      var x := r.tree;
      FixSidesFull(Node(l.tree, x.c, x.left), x.right, c, height, zeros);
      assert Leaves(l.tree) + (Leaves(x.left) + Leaves(x.right)) == (Leaves(l.tree) + Leaves(x.left)) + Leaves(x.right);
    }
  }

  lemma {:induction false} FixSidesFull(left: Tree, right: Tree, c: Byte, height: int, zeros: int)
    requires Full(left) && Full(right) && 0 <= zeros <= 7
    ensures var s := FixSides(left, right, c, height, zeros);
            Full(s.tree) && !IsLeaf(s.tree) && Leaves(s.tree) == Leaves(left) + Leaves(right) && s.depth >= height + 1
    decreases 1 + Size(left) + Size(right), 1
  {
    FixDepthFull(left, LeftHeight(height, zeros), (zeros + 1) % 8);
    FixDepthFull(right, height + 1, 0);
  }

  /** A leaf just below cannot be far enough below its sibling to be rotated. */
  lemma LeafMeasureSmall(height: int, zeros: int)
    requires 0 <= zeros <= 7
    ensures LeafMeasure(LeftHeight(height, zeros), (zeros + 1) % 8) <= height + 3
    ensures LeafMeasure(height + 1, 0) == height + 2
  {
  }

  /** The measure of a leaf. */
  function LeafMeasure(height: int, zeros: int): int {
    LeftHeight(height, zeros) + (if (zeros + 1) % 8 > 2 then 1 else 0)
  }
}
