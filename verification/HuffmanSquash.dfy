/** When squashing changes a tree, and that it makes long codes short. */
module HuffmanSquash {
  import opened Bytes
  import opened HuffmanTree
  import opened HuffmanCodes
  import opened HuffmanDepth
  import opened HuffmanLength

  // ----- Which trees are left alone

  /** One measure is beyond the code limit and more than one above the other. */
  predicate Lopsided(a: int, b: int) {
    (a > CODE_BITS && b < a - 1) || (b > CODE_BITS && a < b - 1)
  }

  /** No node of the tree is lopsided where it is. */
  predicate Level(t: Tree, height: int, zeros: int) {
    t.Node? ==>
      && !Lopsided(Measured(t.left, LeftHeight(height, zeros), (zeros + 1) % 8), Measured(t.right, height + 1, 0))
      && Level(t.left, LeftHeight(height, zeros), (zeros + 1) % 8) && Level(t.right, height + 1, 0)
  }

  lemma {:induction false} LevelStays(t: Tree, height: int, zeros: int)
    requires Level(t, height, zeros)
    ensures FixDepth(t, height, zeros) == Squashed(t, Measured(t, height, zeros))
    decreases t
  {
    FixDepthIs(t, height, zeros);
    hide FixDepth, FixSides;
    if t.Node? {
      LevelStays(t.left, LeftHeight(height, zeros), (zeros + 1) % 8);
      LevelStays(t.right, height + 1, 0);
    }
  }

  /** A rotation takes leaves from one side to the other. */
  lemma RotationShows(l: Squashed, r: Squashed, c: Byte, height: int, zeros: int)
    requires Full(l.tree) && Full(r.tree) && RotationSafe(l, r) && 0 <= zeros <= 7
    ensures var s := Rebalance(l, r, c, height, zeros).tree;
            if Lopsided(l.depth, r.depth) then s.Node? && |Leaves(s.left)| != |Leaves(l.tree)| else s == Node(l.tree, c, r.tree)
  {
    hide FixSides;
    if TooDeep(l, r) {
      var x := l.tree;
      SidesLeaves(x.left, Node(x.right, x.c, r.tree), c, height, zeros);
      SomeLeaves(x.right);
    } else if TooDeep(r, l) {
      var x := r.tree;
      SidesLeaves(Node(l.tree, x.c, x.left), x.right, c, height, zeros);
      SomeLeaves(x.left);
    }
  }

  lemma SomeLeaves(t: Tree)
    requires Full(t)
    ensures |Leaves(t)| > 0
  {
  }

  lemma SidesLeaves(left: Tree, right: Tree, c: Byte, height: int, zeros: int)
    requires Full(left) && 0 <= zeros <= 7
    ensures var s := FixSides(left, right, c, height, zeros).tree; s.Node? && Leaves(s.left) == Leaves(left)
  {
    FixDepthFull(left, LeftHeight(height, zeros), (zeros + 1) % 8);
    hide FixDepth, Leaves, Full;
  }

  /** Squashing leaves a tree alone if and only if it has no lopsided node. */
  lemma {:induction false} LeftAlone(t: Tree, height: int, zeros: int)
    requires Full(t) && 0 <= zeros <= 7
    ensures FixDepth(t, height, zeros).tree == t <==> Level(t, height, zeros)
    decreases t
  {
    if Level(t, height, zeros) {
      LevelStays(t, height, zeros);
    } else if IsLeaf(t) {
      LeafLevel(t, height, zeros);
    } else {
      var h, z := LeftHeight(height, zeros), (zeros + 1) % 8;
      FixDepthIs(t, height, zeros);
      FixDepthFull(t.left, h, z);
      FixDepthFull(t.right, height + 1, 0);
      FixDepthFull(t, height, zeros);
      LeftAlone(t.left, h, z);
      LeftAlone(t.right, height + 1, 0);
      DepthIsMeasure(t.left, h, z);
      DepthIsMeasure(t.right, height + 1, 0);
      hide FixDepth, Rebalance, Leaves, Full, Measured;
      RotationShows(FixDepth(t.left, h, z), FixDepth(t.right, height + 1, 0), t.c, height, zeros);
    }
  }

  lemma LeafLevel(t: Tree, height: int, zeros: int)
    requires IsLeaf(t) && 0 <= zeros <= 7
    ensures Level(t, height, zeros) && Measured(t, height, zeros) == LeafMeasure(height, zeros)
  {
  }

  // ----- A chain that is too long is squashed to one that is not

  function Join(a: Tree, b: Tree): Tree {
    Node(a, 0, b)
  }

  const ONE := Leaf(1)

  /** Chains of one, two and three nodes, and a few trees of more. */
  const P := Join(ONE, ONE)
  const Q := Join(ONE, P)
  const R := Join(ONE, Q)
  const QP := Join(Q, P)

  /** A node that is not lopsided keeps its sides. */
  lemma Keep(a: Tree, b: Tree, height: int, zeros: nat, l: Squashed, r: Squashed)
    requires zeros <= 6 && FixDepth(a, height + 1, zeros + 1) == l && FixDepth(b, height + 1, 0) == r && !Lopsided(l.depth, r.depth)
    ensures FixDepth(Join(a, b), height, zeros) == Squashed(Join(l.tree, r.tree), Max(l.depth, r.depth))
  {
    FixDepthIs(Join(a, b), height, zeros);
    hide FixDepth, FixSides;
  }

  /** One that is too deep on its right is turned to the left. */
  lemma TurnLeft(a: Tree, b: Tree, height: int, zeros: nat, l: Squashed, r: Squashed, l': Squashed, r': Squashed)
    requires zeros <= 6 && FixDepth(a, height + 1, zeros + 1) == l && FixDepth(b, height + 1, 0) == r
    requires TooDeep(r, l) && r.tree.Node? && r.tree.c == 0
    requires FixDepth(Join(l.tree, r.tree.left), height + 1, zeros + 1) == l' && FixDepth(r.tree.right, height + 1, 0) == r'
    ensures FixDepth(Join(a, b), height, zeros) == Squashed(Join(l'.tree, r'.tree), Max(l'.depth, r'.depth))
  {
    FixDepthIs(Join(a, b), height, zeros);
    hide FixDepth;
  }

  lemma TurnRight(a: Tree, b: Tree, height: int, zeros: nat, l: Squashed, r: Squashed, l': Squashed, r': Squashed)
    requires zeros <= 6 && FixDepth(a, height + 1, zeros + 1) == l && FixDepth(b, height + 1, 0) == r
    requires TooDeep(l, r) && l.tree.Node? && l.tree.c == 0
    requires FixDepth(l.tree.left, height + 1, zeros + 1) == l' && FixDepth(Join(l.tree.right, r.tree), height + 1, 0) == r'
    ensures FixDepth(Join(a, b), height, zeros) == Squashed(Join(l'.tree, r'.tree), Max(l'.depth, r'.depth))
  {
    FixDepthIs(Join(a, b), height, zeros);
    hide FixDepth;
  }

  /** The small trees stay as they are. */
  lemma SmallOnes(h: int, z: nat)
    requires z <= 4
    ensures FixDepth(ONE, h, z) == Squashed(ONE, h + if z >= 2 then 2 else 1)
    ensures z <= 3 ==> FixDepth(P, h, z) == Squashed(P, h + if z >= 1 then 3 else 2)
    ensures z <= 3 ==> FixDepth(Q, h, z) == Squashed(Q, h + 3)
  {
    OneStays(h, z);
    OneStays(h + 1, z + 1);
    OneStays(h + 1, 0);
    OneStays(h + 2, 1);
    OneStays(h + 2, 0);
    hide FixDepth;
    Keep(ONE, ONE, h, z, Squashed(ONE, h + if z >= 1 then 3 else 2), Squashed(ONE, h + 2));
    Keep(ONE, ONE, h + 1, 0, Squashed(ONE, h + 3), Squashed(ONE, h + 3));
    Keep(ONE, P, h, z, Squashed(ONE, h + if z >= 1 then 3 else 2), Squashed(P, h + 3));
  }

  lemma OneStays(h: int, z: nat)
    requires z <= 6
    ensures FixDepth(ONE, h, z) == Squashed(ONE, h + if z >= 2 then 2 else 1)
  {
    LeafLevel(ONE, h, z);
    LevelStays(ONE, h, z);
    hide FixDepth, Level, Measured;
  }

  lemma MiddleOnes(h: int, z: nat)
    requires z <= 2
    ensures z >= 1 ==> FixDepth(R, h, z) == Squashed(R, h + 4)
    ensures FixDepth(QP, h, z) == Squashed(QP, h + 4)
  {
    hide FixDepth;
    SmallOnes(h + 1, z + 1);
    SmallOnes(h + 1, 0);
    if z >= 1 { Keep(ONE, Q, h, z, Squashed(ONE, h + 3), Squashed(Q, h + 4)); }
    Keep(Q, P, h, z, Squashed(Q, h + 4), Squashed(P, h + 3));
  }

  /** A chain of four nodes takes two turns. */
  lemma ThreeTurned(h: int)
    requires h >= 22
    ensures FixDepth(R, h, 0) == Squashed(Join(P, P), h + 4)
  {
    hide FixDepth;
    SmallOnes(h + 1, 1);
    SmallOnes(h + 1, 0);
    TurnLeft(ONE, Q, h, 0, Squashed(ONE, h + 2), Squashed(Q, h + 4), Squashed(P, h + 4), Squashed(P, h + 3));
  }

  lemma FourTurned(h: int, z: nat)
    requires h >= 21 && 1 <= z <= 2
    ensures FixDepth(Join(ONE, R), h, z) == Squashed(QP, h + 4)
  {
    hide FixDepth;
    ThreeTurned(h + 1);
    SmallOnes(h + 1, z + 1);
    SmallOnes(h + 1, 0);
    TurnLeft(ONE, R, h, z, Squashed(ONE, h + 3), Squashed(Join(P, P), h + 5), Squashed(Q, h + 4), Squashed(P, h + 3));
  }

  /** What a leaf and the left part of the squashed chain of `k - 1` nodes are
      squashed to: the left part of that of `k`. */
  function Part(k: nat): Tree {
    match k
    case 2 => ONE
    case 3 => P
    case 4 => Q
    case 5 => R
    case 6 => QP
    case 7 => Join(R, P)
    case 8 => Join(P, QP)
    case 9 => Join(Q, QP)
    case 10 => Join(R, QP)
    case _ => Join(QP, QP)
  }

  /** How deep it gets. */
  function PartDepth(k: nat): nat {
    if k <= 4 then 3 else if k <= 6 then 4 else 5
  }

  lemma PartsGrow(k: nat, h: int)
    requires 3 <= k <= 11 && h >= if k <= 7 then 21 else 20
    ensures FixDepth(Join(ONE, Part(k - 1)), h, 1) == Squashed(Part(k), h + PartDepth(k))
  {
    if k <= 7 { PartsGrowFirst(k, h); } else { PartsGrowLast(k, h); }
  }

  lemma PartsGrowFirst(k: nat, h: int)
    requires 3 <= k <= 7 && h >= 21
    ensures FixDepth(Join(ONE, Part(k - 1)), h, 1) == Squashed(Part(k), h + PartDepth(k))
  {
    hide FixDepth;
    SmallOnes(h, 1);
    SmallOnes(h + 1, 0);
    SmallOnes(h + 1, 2);
    MiddleOnes(h, 1);
    MiddleOnes(h + 1, 0);
    MiddleOnes(h + 1, 2);
    if k == 6 {
      FourTurned(h, 1);
    } else if k == 7 {
      TurnLeft(ONE, QP, h, 1, Squashed(ONE, h + 3), Squashed(QP, h + 5), Squashed(R, h + 5), Squashed(P, h + 3));
    }
  }

  lemma PartsGrowLast(k: nat, h: int)
    requires 8 <= k <= 11 && h >= 20
    ensures FixDepth(Join(ONE, Part(k - 1)), h, 1) == Squashed(Part(k), h + 5)
  {
    hide FixDepth;
    SmallOnes(h + 1, 2);
    MiddleOnes(h + 1, 0);
    MiddleOnes(h + 1, 2);
    PartStays(k, h + 1);
    var l, r := Squashed(ONE, h + 3), Squashed(QP, h + 5);
    if k == 8 {
      TurnLeft(ONE, Part(7), h, 1, l, Squashed(Join(ONE, QP), h + 6), Squashed(P, h + 4), r);
    } else if k == 9 {
      TurnLeft(ONE, Part(8), h, 1, l, Squashed(Part(8), h + 6), Squashed(Q, h + 4), r);
    } else if k == 10 {
      TurnLeft(ONE, Part(9), h, 1, l, Squashed(Part(9), h + 6), Squashed(R, h + 5), r);
    } else {
      FourTurned(h + 1, 2);
      TurnLeft(ONE, Part(10), h, 1, l, Squashed(Part(10), h + 6), Squashed(QP, h + 5), r);
    }
  }

  /** The part before, one further down, stays as it is, but that the first one
      is turned to the right. */
  lemma PartStays(k: nat, h: int)
    requires 8 <= k <= 11 && h >= 21
    ensures FixDepth(Part(k - 1), h, 0) == Squashed(if k == 8 then Join(ONE, QP) else Part(k - 1), h + 5)
  {
    hide FixDepth;
    SmallOnes(h + 1, 0);
    SmallOnes(h + 1, 1);
    MiddleOnes(h + 1, 0);
    MiddleOnes(h + 1, 1);
    if k == 8 {
      TurnRight(R, P, h, 0, Squashed(R, h + 5), Squashed(P, h + 3), Squashed(ONE, h + 2), Squashed(QP, h + 5));
    } else if k == 9 {
      Keep(P, QP, h, 0, Squashed(P, h + 4), Squashed(QP, h + 5));
    } else if k == 10 {
      Keep(Q, QP, h, 0, Squashed(Q, h + 4), Squashed(QP, h + 5));
    } else {
      Keep(R, QP, h, 0, Squashed(R, h + 5), Squashed(QP, h + 5));
    }
  }

  lemma OnesNext(k: nat)
    ensures Chain(Ones(k + 1)) == Join(ONE, Chain(Ones(k)))
  {
    assert Ones(k + 1)[1..] == Ones(k);
  }

  /** How many of its nodes are turned. */
  function Turned(n: nat): nat
    requires 26 <= n <= 30
  {
    if n == 26 then 6 else n - 19
  }

  /** The lowest nodes of a chain of `n` are squashed, as long as what they come
      to is over the limit. */
  lemma {:induction false} LowestSquashed(k: nat, n: nat)
    requires 26 <= n <= 30 && 2 <= k <= Turned(n)
    ensures FixDepth(Chain(Ones(k)), n - k, 0) == Squashed(Join(Part(k), P), n - k + if k == 2 then 3 else PartDepth(k) + 1)
  {
    hide FixDepth, Chain, Ones, Part;
    OnesNext(k - 1);
    if k == 2 {
      TwoIs();
      SmallOnes(n - 2, 0);
    } else {
      LowestSquashed(k - 1, n);
      SmallOnes(n - k + 1, 0);
      SmallOnes(n - k + 1, 1);
      PartsGrow(k, n - k + 1);
      TurnLeft(ONE, Chain(Ones(k - 1)), n - k, 0, Squashed(ONE, n - k + 2),
               Squashed(Join(Part(k - 1), P), n - k + 1 + if k == 3 then 3 else PartDepth(k - 1) + 1),
               Squashed(Part(k), n - k + 1 + PartDepth(k)), Squashed(P, n - k + 3));
    }
  }

  lemma TwoIs()
    ensures Chain(Ones(2)) == Join(Part(2), P) == Q
  {
    OnesNext(0);
    OnesNext(1);
    assert Ones(0) == [];
  }

  /** What they come to. */
  function Bottom(n: nat): Tree
    requires 26 <= n <= 30
  {
    Join(Part(Turned(n)), P)
  }

  /** A chain of `k` leaves down to `t`. */
  function Comb(k: nat, t: Tree): Tree {
    if k == 0 then t else Join(ONE, Comb(k - 1, t))
  }

  /** With that, all of it is within the limit. */
  lemma {:induction false} RestStays(k: nat, n: nat, zeros: nat)
    requires 26 <= n <= 30 && Turned(n) <= k <= n && (zeros == 0 || (zeros == 2 && Turned(n) < k))
    ensures FixDepth(Chain(Ones(k)), n - k, zeros) == Squashed(Comb(k - Turned(n), Bottom(n)), CODE_BITS)
    decreases k
  {
    hide FixDepth, Chain, Ones, Part;
    if k == Turned(n) {
      LowestSquashed(k, n);
    } else {
      OnesNext(k - 1);
      RestStays(k - 1, n, 0);
      SmallOnes(n - k + 1, zeros + 1);
      Keep(ONE, Chain(Ones(k - 1)), n - k, zeros, Squashed(ONE, n - k + 1 + if zeros == 0 then 1 else 2),
           Squashed(Comb(k - 1 - Turned(n), Bottom(n)), CODE_BITS));
    }
  }

  lemma {:induction false} CombOnes(k: nat, t: Tree)
    ensures Depth(AddOnes(Comb(k, t), 0)) <= k + Depth(AddOnes(t, 0))
  {
    if k > 0 { CombOnes(k - 1, t); }
  }

  lemma CombFits(k: nat, t: Tree)
    requires k > 0 && t.Node? && k + Depth(AddOnes(t, 0)) <= CODE_BITS
    ensures ShortCodes(Finish(Comb(k, t)), 0)
  {
    var u := ForceOne(Comb(k, t), 0);
    CombOnes(k - 1, t);
    ForcedComb(k, t);
    AddOnesRoot(u);
    hide Depth, AddOnes, AddEos, ShortCodes, ForceOne, Comb;
    AddEosDepth(AddOnes(u, 0), 8);
    DepthShort(Finish(Comb(k, t)), 0);
  }

  lemma ForcedComb(k: nat, t: Tree)
    requires k > 0
    ensures var d := Depth(AddOnes(Comb(k - 1, t), 0));
            Depth(AddOnes(ForceOne(Comb(k, t), 0), 0)) <= 1 + if d > 1 then d else 1
  {
    var rest := Comb(k - 1, t);
    assert ForceOne(ONE, 1) == Node(Nil, 1, ONE);
    assert ForceOne(Comb(k, t), 0) == Join(Node(Nil, 1, ONE), rest);
    assert AddOnes(ONE, 0) == ONE;
    assert AddOnes(Node(Nil, 1, ONE), 1) == Node(Nil, 1, ONE);
    assert AddOnes(Join(Node(Nil, 1, ONE), rest), 0) == Join(Node(Nil, 1, ONE), AddOnes(rest, 0));
    assert Depth(ONE) == 0 && Depth(Node(Nil, 1, ONE)) == 1;
    hide AddOnes;
  }

  lemma BottomDepth(n: nat)
    requires 26 <= n <= 30
    ensures Depth(Bottom(n)) <= if n == 26 then 4 else 5
  {
    hide Depth;
    SmallDepths();
    JoinDepth(P, QP);
    JoinDepth(Q, QP);
    JoinDepth(R, QP);
    JoinDepth(QP, QP);
    JoinDepth(Part(Turned(n)), P);
  }

  lemma SmallDepths()
    ensures Depth(P) == 1 && Depth(Q) == 2 && Depth(R) == 3 && Depth(QP) == 3
  {
    assert Depth(ONE) == 0;
    hide Depth;
    JoinDepth(ONE, ONE);
    JoinDepth(ONE, P);
    JoinDepth(ONE, Q);
    JoinDepth(Q, P);
  }

  lemma JoinDepth(a: Tree, b: Tree)
    requires a.Node?
    ensures Depth(Join(a, b)) == 1 + if Depth(a) >= Depth(b) then Depth(a) else Depth(b)
  {
  }

  /** A chain of 26 to 30 nodes has a code that is too long as it stands, and is
      squashed to a tree that has none. */
  lemma ChainSquashed(n: nat)
    requires 26 <= n <= 30
    ensures var t, s := Chain(Ones(n)), FixDepth(Chain(Ones(n)), 0, 2);
            && t.Node? && !ShortCodes(Finish(t), 0)
            && s.depth == CODE_BITS && s.tree.Node? && ShortCodes(Finish(s.tree), 0)
  {
    LongAsItStands(n);
    RestStays(n, n, 2);
    BottomDepth(n);
    AddOnesDepth(Bottom(n), 0);
    hide FixDepth, Depth, AddOnes, Finish, ShortCodes, Chain, Ones, Part;
    CombFits(n - Turned(n), Bottom(n));
  }

  lemma LongAsItStands(n: nat)
    requires n > CODE_BITS
    ensures Chain(Ones(n)).Node? && !ShortCodes(Finish(Chain(Ones(n))), 0)
  {
    var t, p := Chain(Ones(n)), Ones(n);
    ChainCode(p);
    OnesMeasure(n, 0);
    OnesNext(n - 1);
    assert p[0] && EdgeLength(t, 0) > 0;
    assert Forced(p, EdgeLength(t, 0)) == p;
    hide Stuffed, Chain, Finish, ShortCodes, Full, IsCode;
    ShortCodesExactly(t);
    assert |FinishedCode(t, p)| == n;
  }
}
