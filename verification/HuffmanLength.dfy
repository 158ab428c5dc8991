/** How long the finished codes are: exactly which ones are put into a code, and
    what the depth that squashing measures says of it. */
module HuffmanLength {
  import opened Bytes
  import opened HuffmanTree
  import opened HuffmanCodes
  import opened HuffmanDepth

  // ----- What becomes of a code

  /** A one after the first `e` bits, if they are all zeros. */
  function Forced(p: Code, e: nat): Code {
    if e == 0 then [true] + p
    else if p == [] || p[0] then p
    else [false] + Forced(p[1..], e - 1)
  }

  /** A one after each seven zeros, and one at the end after three or more.
      `count` is the number of zeros in front. */
  function Stuffed(p: Code, count: nat): Code
    decreases |p|, count
  {
    if count >= 7 then [true] + Stuffed(p, 0)
    else if p == [] then if count >= 3 then [true] else []
    else [p[0]] + Stuffed(p[1..], if p[0] then 0 else count + 1)
  }

  /** The code in the finished tree of what has code `p` in `t`. */
  function FinishedCode(t: Tree, p: Code): Code {
    Stuffed(Forced(p, EdgeLength(t, 0)), 0)
  }

  lemma AtStep(t: Tree, p: Code)
    ensures p != [] && t.Node? ==> At(t, p) == At(if p[0] then t.right else t.left, p[1..])
    ensures t.Nil? ==> At(t, p).Nil?
    ensures p == [] ==> At(t, p) == t
    ensures p != [] && IsLeaf(t) ==> At(t, p).Nil?
  {
    assert p != [] ==> At(Nil, p[1..]).Nil?;
  }

  lemma StepRight(t: Tree, p: Code)
    requires t.Node?
    ensures At(t, [true] + p) == At(t.right, p)
  {
    assert ([true] + p)[1..] == p;
  }

  lemma StepLeft(t: Tree, p: Code)
    requires t.Node?
    ensures At(t, [false] + p) == At(t.left, p)
  {
    assert ([false] + p)[1..] == p;
  }

  // ----- Forcing the one

  lemma {:induction false} ForcedCode(t: Tree, count: nat, p: Code, c: Byte)
    requires Full(t) && IsCode(t, p, c)
    ensures IsCode(ForceOne(t, count), Forced(p, EdgeLength(t, count)), c)
    decreases t
  {
    var u := ForceOne(t, count);
    AtStep(t, p);
    if count < 4 && t.left.Node? {
      if p[0] {
        AtStep(u, p);
      } else {
        ForcedCode(t.left, count + 1, p[1..], c);
        StepLeft(u, Forced(p[1..], EdgeLength(t.left, count + 1)));
      }
    } else {
      StepRight(u, p);
    }
  }

  lemma {:induction false} ForcedBack(t: Tree, count: nat, q: Code, c: Byte) returns (p: Code)
    requires Full(t) && IsCode(ForceOne(t, count), q, c)
    ensures IsCode(t, p, c) && q == Forced(p, EdgeLength(t, count))
    decreases t
  {
    var u := ForceOne(t, count);
    AtStep(u, q);
    if count < 4 && t.left.Node? {
      if q[0] {
        p := q;
        AtStep(t, p);
      } else {
        p := ForcedBack(t.left, count + 1, q[1..], c);
        StepLeft(t, p);
        p := [false] + p;
      }
    } else {
      p := q[1..];
      AtStep(u.left, p);
    }
  }

  // ----- Adding ones

  /** A node with ones added in what is below it. */
  function Below(t: Tree, count: nat): Tree
    requires t.Node?
  {
    Node(AddOnes(t.left, count + 1), t.c, AddOnes(t.right, 0))
  }

  lemma AddOnesIs(t: Tree, count: nat)
    requires t.Node?
    ensures AddOnes(t, count) == if count >= 7 || (count >= 3 && IsLeaf(t)) then Splice(Below(t, 0)) else Below(t, count)
    ensures IsLeaf(Below(t, 0)) <==> IsLeaf(t)
    ensures IsLeaf(Below(t, count)) <==> IsLeaf(t)
  {
    AddOnesLeaves(t.left, 1);
    AddOnesLeaves(t.left, count + 1);
    AddOnesLeaves(t.right, 0);
  }

  lemma {:induction false} StuffedCode(t: Tree, count: nat, p: Code, c: Byte)
    requires IsCode(t, p, c)
    ensures IsCode(AddOnes(t, count), Stuffed(p, count), c)
    decreases t, 1
  {
    AtStep(t, p);
    AddOnesIs(t, count);
    if count >= 7 {
      StuffedBelow(t, 0, p, c);
      StepRight(AddOnes(t, count), Stuffed(p, 0));
    } else if p == [] {
      StuffedBelow(t, 0, p, c);
      StepRight(AddOnes(t, count), []);
    } else {
      StuffedBelow(t, count, p, c);
    }
  }

  lemma {:induction false} StuffedBelow(t: Tree, count: nat, p: Code, c: Byte)
    requires IsCode(t, p, c) && t.Node? && count < 7 && (p == [] ==> count == 0)
    ensures IsCode(Below(t, count), Stuffed(p, count), c)
    decreases t, 0
  {
    AtStep(t, p);
    AddOnesIs(t, count);
    if p != [] {
      var k := if p[0] then 0 else count + 1;
      StuffedCode(if p[0] then t.right else t.left, k, p[1..], c);
      if p[0] { StepRight(Below(t, count), Stuffed(p[1..], k)); } else { StepLeft(Below(t, count), Stuffed(p[1..], k)); }
    }
  }

  lemma {:induction false} StuffedBack(t: Tree, count: nat, q: Code, c: Byte) returns (p: Code)
    requires IsCode(AddOnes(t, count), q, c)
    ensures IsCode(t, p, c) && q == Stuffed(p, count)
    decreases t, 1
  {
    AtStep(AddOnes(t, count), q);
    AddOnesIs(t, count);
    if count >= 7 || (count >= 3 && IsLeaf(t)) {
      p := StuffedBelowBack(t, 0, q[1..], c);
    } else {
      p := StuffedBelowBack(t, count, q, c);
    }
  }

  lemma {:induction false} StuffedBelowBack(t: Tree, count: nat, q: Code, c: Byte) returns (p: Code)
    requires t.Node? && count < 7 && IsCode(Below(t, count), q, c)
    ensures IsCode(t, p, c) && (p == [] <==> IsLeaf(t)) && q == if p == [] then [] else Stuffed(p, count)
    decreases t, 0
  {
    AtStep(Below(t, count), q);
    AddOnesIs(t, count);
    p := [];
    if !IsLeaf(t) {
      p := StuffedBack(if q[0] then t.right else t.left, if q[0] then 0 else count + 1, q[1..], c);
      if q[0] { StepRight(t, p); } else { StepLeft(t, p); }
      p := [q[0]] + p;
    }
  }

  // ----- The finished codes

  /** The codes of the finished tree are exactly the codes of the tree with the
      ones put in, and eight zeros for end-of-string. */
  lemma FinishedCodes(t: Tree, q: Code, c: Byte)
    requires Full(t)
    ensures t.Node?
    ensures IsCode(Finish(t), q, c) <==>
            (q == Zeros(8) && c == EOS) || exists p :: IsCode(t, p, c) && q == FinishedCode(t, p)
  {
    FullHasBoth(t);
    FinishCodes(t, q, c);
    hide Full, Finish, AddEos, Sound;
    var f := ForceOne(t, 0);
    if IsCode(AddOnes(f, 0), q, c) {
      var p := StuffedBack(f, 0, q, c);
      p := ForcedBack(t, 0, p, c);
    }
    forall p | IsCode(t, p, c) ensures IsCode(AddOnes(f, 0), FinishedCode(t, p), c) {
      ForcedCode(t, 0, p, c);
      StuffedCode(f, 0, Forced(p, EdgeLength(t, 0)), c);
    }
  }

  /** Which code that is does not depend on the rest of the tree: with four zeros
      in front or more it gets a one after four, and if it is shorter and has
      nothing but zeros, at its end. */
  lemma FinishedCodeIs(t: Tree, p: Code, c: Byte)
    requires Full(t) && IsCode(t, p, c)
    ensures var z := LeadingZeros(p);
            FinishedCode(t, p) ==
            Stuffed(if |p| >= 4 && z >= 4 then Zeros(4) + [true] + p[4..] else if z == |p| then Zeros(z) + [true] else p, 0)
  {
    ForcedIs(t, 0, p, c);
    hide Stuffed;
  }

  lemma {:induction false} ForcedIs(t: Tree, count: nat, p: Code, c: Byte)
    requires Full(t) && IsCode(t, p, c) && count <= 4
    ensures var z, n := LeadingZeros(p), 4 - count;
            Forced(p, EdgeLength(t, count)) ==
            if |p| >= n && z >= n then Zeros(n) + [true] + p[n..] else if z == |p| then Zeros(z) + [true] else p
    decreases t
  {
    AtStep(t, p);
    LeadingZerosLength(p);
    if count < 4 && t.left.Node? && !p[0] {
      ForcedIs(t.left, count + 1, p[1..], c);
      LeadingZerosLength(p[1..]);
      OneMoreZero(p, LeadingZeros(p), 4 - count);
      hide IsCode, Full, At;
    }
  }

  lemma OneMoreZero(p: Code, z: nat, n: nat)
    requires p != [] && !p[0] && n > 0 && z > 0
    ensures n <= |p| ==> [false] + (Zeros(n - 1) + [true] + p[1..][n - 1..]) == Zeros(n) + [true] + p[n..]
    ensures [false] + (Zeros(z - 1) + [true]) == Zeros(z) + [true] && [false] + p[1..] == p
  {
  }

  lemma {:induction false} LeadingZerosLength(p: Code)
    ensures LeadingZeros(p) <= |p|
  {
    if p != [] && !p[0] { LeadingZerosLength(p[1..]); }
  }

  lemma {:induction false} LongCode(t: Tree, depth: nat) returns (p: Code)
    requires !ShortCodes(t, depth)
    ensures IsLeaf(At(t, p)) && depth + |p| > CODE_BITS
    decreases t
  {
    p := [];
    if !IsLeaf(t) {
      if !ShortCodes(t.left, depth + 1) {
        p := LongCode(t.left, depth + 1);
        StepLeft(t, p);
        p := [false] + p;
      } else {
        p := LongCode(t.right, depth + 1);
        StepRight(t, p);
        p := [true] + p;
      }
    }
  }

  lemma {:induction false} ShortCodesLength(t: Tree, depth: nat, p: Code, c: Byte)
    requires ShortCodes(t, depth) && IsCode(t, p, c)
    ensures depth + |p| <= CODE_BITS
    decreases t
  {
    AtStep(t, p);
    if p != [] {
      ShortCodesLength(if p[0] then t.right else t.left, depth + 1, p[1..], c);
    }
  }

  /** Every code of `t` is short enough with the ones that are put in. */
  ghost predicate FinishedShort(t: Tree) {
    forall p, c :: IsCode(t, p, c) ==> |FinishedCode(t, p)| <= CODE_BITS
  }

  /** Exactly when the finished tree has no code that is too long. */
  lemma ShortCodesExactly(t: Tree)
    requires Full(t)
    ensures t.Node? && (ShortCodes(Finish(t), 0) <==> FinishedShort(t))
  {
    FullHasBoth(t);
    hide Full, Finish, FinishedCode, ShortCodes;
    if ShortCodes(Finish(t), 0) {
      forall p, c | IsCode(t, p, c) ensures |FinishedCode(t, p)| <= CODE_BITS {
        FinishedCodes(t, FinishedCode(t, p), c);
        ShortCodesLength(Finish(t), 0, FinishedCode(t, p), c);
      }
    } else {
      var q := LongCode(Finish(t), 0);
      FinishedCodes(t, q, At(Finish(t), q).c);
    }
  }

  // ----- What squashing measures

  /** What is measured along a code. */
  function PathMeasure(p: Code, height: int, zeros: int): int {
    if p == [] then LeafMeasure(height, zeros)
    else if p[0] then PathMeasure(p[1..], height + 1, 0)
    else PathMeasure(p[1..], LeftHeight(height, zeros), (zeros + 1) % 8)
  }

  /** The depth that squashing gives is the measure of the tree it gives. */
  lemma {:induction false} DepthIsMeasure(t: Tree, height: int, zeros: int)
    ensures FixDepth(t, height, zeros).depth == Measured(FixDepth(t, height, zeros).tree, height, zeros)
    decreases Size(t), 2
  {
    FixDepthIs(t, height, zeros);
    hide FixDepth;
    if t.Node? {
      var l, r := FixDepth(t.left, LeftHeight(height, zeros), (zeros + 1) % 8), FixDepth(t.right, height + 1, 0);
      DepthIsMeasure(t.left, LeftHeight(height, zeros), (zeros + 1) % 8);
      DepthIsMeasure(t.right, height + 1, 0);
      hide FixSides;
      if TooDeep(l, r) && l.tree.Node? {
        SidesMeasure(l.tree.left, Node(l.tree.right, l.tree.c, r.tree), t.c, height, zeros);
      } else if TooDeep(r, l) && r.tree.Node? {
        SidesMeasure(Node(l.tree, r.tree.c, r.tree.left), r.tree.right, t.c, height, zeros);
      }
    }
  }

  lemma {:induction false} SidesMeasure(left: Tree, right: Tree, c: Byte, height: int, zeros: int)
    ensures FixSides(left, right, c, height, zeros).depth == Measured(FixSides(left, right, c, height, zeros).tree, height, zeros)
    decreases 1 + Size(left) + Size(right), 1
  {
    hide FixDepth;
    DepthIsMeasure(left, LeftHeight(height, zeros), (zeros + 1) % 8);
    DepthIsMeasure(right, height + 1, 0);
  }

  lemma {:induction false} PathMeasured(t: Tree, height: int, zeros: int, p: Code, c: Byte)
    requires IsCode(t, p, c) && 0 <= zeros <= 7
    ensures PathMeasure(p, height, zeros) <= Measured(t, height, zeros)
    decreases t
  {
    AtStep(t, p);
    if p != [] {
      PathMeasured(if p[0] then t.right else t.left, if p[0] then height + 1 else LeftHeight(height, zeros), if p[0] then 0 else (zeros + 1) % 8, p[1..], c);
    }
  }

  // ----- How much longer a finished code can be

  /** The ones that are put in are those that are measured, and at most one more
      in eight bits. */
  lemma {:induction false} StuffedMeasure(p: Code, count: nat, height: int, zeros: nat)
    requires count <= 7 && zeros <= 7
    ensures 8 * (|Stuffed(p, count)| - (PathMeasure(p, height, zeros) - height - 1)) <= |p| + count + if zeros < count then 7 else 0
    decreases |p|
  {
    if p != [] {
      if p[0] { StuffedMeasure(p[1..], 0, height + 1, 0); }
      else { StuffedMeasure(p[1..], if count == 7 then 1 else count + 1, LeftHeight(height, zeros), (zeros + 1) % 8); }
    }
  }

  lemma {:induction false} PathMeasureLength(p: Code, height: int, zeros: nat)
    requires zeros <= 7
    ensures PathMeasure(p, height, zeros) >= height + |p| + 1
    decreases |p|
  {
    if p != [] {
      PathMeasureLength(p[1..], if p[0] then height + 1 else LeftHeight(height, zeros), if p[0] then 0 else (zeros + 1) % 8);
    }
  }

  /** A forced one adds at most one more: the measure starts at two zeros. */
  lemma {:induction false} ForcedMeasure(p: Code, e: nat, count: nat, height: int)
    requires count + e <= 4
    ensures 8 * (|Stuffed(Forced(p, e), count)| - (PathMeasure(p, height, count + 2) - height)) <= if |p| >= e then |p| - e else 0
    decreases e
  {
    if e == 0 {
      StuffedMeasure(p, 0, height, count + 2);
      assert ([true] + p)[1..] == p;
    } else if p == [] {
    } else if p[0] {
      StuffedMeasure(p[1..], 0, height + 1, 0);
    } else {
      ForcedMeasure(p[1..], e - 1, count + 1, height + 1);
      assert ([false] + Forced(p[1..], e - 1))[1..] == Forced(p[1..], e - 1);
    }
  }

  /** How much longer than the measure of the tree a finished code can be. */
  lemma FinishedMeasure(t: Tree, p: Code, c: Byte)
    requires Full(t) && IsCode(t, p, c)
    ensures 8 * (|FinishedCode(t, p)| - Measured(t, 0, 2)) <= Measured(t, 0, 2) - 2
  {
    var e := EdgeLength(t, 0);
    AtStep(t, p);
    ForceOneEdge(t, 0);
    ForcedMeasure(p, e, 0, 0);
    PathMeasured(t, 0, 2, p, c);
    PathMeasureLength(p, 0, 2);
  }

  /** So a tree squashed to the limit has codes of at most two bits more, and
      one squashed to two bits less than the limit has none that is too long. */
  lemma SquashedFits(t: Tree)
    requires Full(t)
    ensures var s := FixDepth(t, 0, 2);
            && s.tree.Node?
            && (s.depth <= CODE_BITS ==> forall p, c :: IsCode(s.tree, p, c) ==> |FinishedCode(s.tree, p)| <= s.depth + 2)
            && (s.depth <= CODE_BITS - 2 ==> ShortCodes(Finish(s.tree), 0))
  {
    var s := FixDepth(t, 0, 2);
    FixDepthFull(t, 0, 2);
    DepthIsMeasure(t, 0, 2);
    ShortCodesExactly(s.tree);
    hide FixDepth, Measured, Finish, FinishedCode, Full, ShortCodes;
    forall p, c | s.depth <= CODE_BITS && IsCode(s.tree, p, c) ensures |FinishedCode(s.tree, p)| <= s.depth + 2 {
      FinishedMeasure(s.tree, p, c);
    }
  }

  // ----- A tree that is squashed and still has a code that is too long

  /** A tree with one long code, and a leaf beside each node on the way. */
  function Chain(p: Code): (t: Tree)
    ensures Full(t)
  {
    if p == [] then Leaf(1)
    else if p[0] then Node(Leaf(1), 0, Chain(p[1..]))
    else Node(Chain(p[1..]), 0, Leaf(1))
  }

  lemma {:induction false} ChainCode(p: Code)
    ensures IsCode(Chain(p), p, 1)
  {
    AtStep(Chain(p), p);
    if p != [] { ChainCode(p[1..]); }
  }

  /** The measure of a chain that ends in two ones is that of its code. */
  lemma {:induction false} ChainMeasure(p: Code, height: int, zeros: nat)
    requires zeros <= 7 && p != [] && p[|p| - 1] && if |p| == 1 then zeros == 0 else p[|p| - 2]
    ensures Measured(Chain(p), height, zeros) == PathMeasure(p, height, zeros)
    decreases |p|
  {
    var h, z := if p[0] then height + 1 else LeftHeight(height, zeros), if p[0] then 0 else (zeros + 1) % 8;
    LeafMeasured(1, LeftHeight(height, zeros), (zeros + 1) % 8);
    LeafMeasured(1, height + 1, 0);
    if |p| == 1 {
      assert Chain(p[1..]) == Leaf(1);
    } else {
      ChainMeasure(p[1..], h, z);
      PathMeasureLength(p[1..], h, z);
    }
  }

  lemma LeafMeasured(c: Byte, height: int, zeros: nat)
    requires zeros <= 7
    ensures Measured(Leaf(c), height, zeros) == LeafMeasure(height, zeros)
  {
  }

  /** A run of at most seven zeros, with the one that ends it. */
  lemma {:induction false} RunMeasure(n: nat, p: Code, height: int, zeros: nat)
    requires zeros + n <= 7
    ensures PathMeasure(Zeros(n) + [true] + p, height, zeros) == PathMeasure(p, height + n + 1, 0)
    decreases n
  {
    var q := Zeros(n) + [true] + p;
    if n == 0 {
      assert q[1..] == p;
    } else {
      assert q[1..] == Zeros(n - 1) + [true] + p;
      RunMeasure(n - 1, p, height + 1, zeros + 1);
    }
  }

  lemma {:induction false} RunStuffed(n: nat, p: Code, count: nat)
    requires count + n <= 7
    ensures |Stuffed(Zeros(n) + [true] + p, count)| == n + 1 + (if count + n == 7 then 1 else 0) + |Stuffed(p, 0)|
    decreases n
  {
    var q := Zeros(n) + [true] + p;
    if n == 0 {
      assert q[1..] == p;
    } else {
      assert q[1..] == Zeros(n - 1) + [true] + p;
      RunStuffed(n - 1, p, count + 1);
    }
  }

  function Ones(n: nat): Code {
    seq(n, _ => true)
  }

  lemma {:induction false} OnesMeasure(n: nat, height: int)
    ensures PathMeasure(Ones(n), height, 0) == height + n + 1 && |Stuffed(Ones(n), 0)| == n
  {
    if n > 0 {
      assert Ones(n)[1..] == Ones(n - 1);
      OnesMeasure(n - 1, height + 1);
    }
  }

  lemma {:induction false} RunForced(n: nat, p: Code)
    ensures Forced(Zeros(n) + p, n) == Zeros(n) + [true] + p
  {
    if n == 0 {
      assert Zeros(0) + p == p;
    } else {
      assert (Zeros(n) + p)[1..] == Zeros(n - 1) + p;
      RunForced(n - 1, p);
    }
  }

  lemma {:induction false} ChainEdge(n: nat, p: Code, count: nat)
    requires count + n == 4
    ensures EdgeLength(Chain(Zeros(n) + p), count) == n
    decreases n
  {
    if n > 0 {
      assert (Zeros(n) + p)[1..] == Zeros(n - 1) + p;
      ChainEdge(n - 1, p, count + 1);
    }
  }

  /** Seven zeros twice, and `n` ones. */
  function TwoRuns(n: nat): Code {
    Zeros(7) + [true] + (Zeros(7) + [true] + Ones(n))
  }

  lemma TwoRunsLength(n: nat)
    ensures |Stuffed(TwoRuns(n), 0)| == 18 + n && forall h: int :: PathMeasure(TwoRuns(n), h, 0) == h + n + 17
  {
    hide Stuffed, PathMeasure;
    var p := Zeros(7) + [true] + Ones(n);
    OnesMeasure(n, 0);
    RunStuffed(7, p, 0);
    RunStuffed(7, Ones(n), 0);
    forall h: int ensures PathMeasure(TwoRuns(n), h, 0) == h + n + 17 {
      RunMeasure(7, p, h, 0);
      RunMeasure(7, Ones(n), h + 8, 0);
      OnesMeasure(n, h + 16);
    }
  }

  /** Four zeros in front of that. */
  function LongPath(n: nat): Code {
    Zeros(4) + [true] + TwoRuns(n)
  }

  lemma LongPathLength(n: nat)
    ensures PathMeasure(LongPath(n), 0, 2) == n + 22
    ensures |Stuffed(Forced(LongPath(n), 4), 0)| == n + 24
  {
    hide Stuffed, PathMeasure, Forced;
    TwoRunsLength(n);
    RunMeasure(4, TwoRuns(n), 0, 2);
    assert LongPath(n) == Zeros(4) + ([true] + TwoRuns(n));
    RunForced(4, [true] + TwoRuns(n));
    RunStuffed(4, [true] + TwoRuns(n), 0);
    RunStuffed(0, TwoRuns(n), 0);
    assert Zeros(0) + [true] + TwoRuns(n) == [true] + TwoRuns(n);
  }

  lemma LongPathEnds(n: nat)
    requires n >= 2
    ensures var p := LongPath(n); |p| > 2 && p[|p| - 1] && p[|p| - 2]
    ensures LongPath(n) == Zeros(4) + ([true] + TwoRuns(n))
  {
  }

  /** Trees that are within the limit as squashing measures it, so that they are
      not rotated, and have a code that is too long once ones are put in. */
  lemma SquashedTooLong(n: nat)
    requires 2 <= n <= 3
    ensures var t := Chain(LongPath(n));
            && FixDepth(t, 0, 2) == Squashed(t, CODE_BITS - 3 + n)
            && IsCode(t, LongPath(n), 1) && |FinishedCode(t, LongPath(n))| == CODE_BITS - 1 + n
            && t.Node? && !ShortCodes(Finish(t), 0)
  {
    var p := LongPath(n);
    ChainCode(p);
    LongPathEnds(n);
    LongPathLength(n);
    ChainMeasure(p, 0, 2);
    FixDepthWithin(Chain(p), 0, 2);
    ChainEdge(4, [true] + TwoRuns(n), 0);
    ShortCodesExactly(Chain(p));
    hide Chain, FixDepth, Finish, ShortCodes, Measured, Full, LongPath, Forced, Stuffed, EdgeLength, IsCode, PathMeasure;
  }
}
