/** When the codes come out short enough: how deep the joined tree may be, and
    for which counts it is no deeper. */
module HuffmanDepth {
  import opened Bytes
  import opened HuffmanTree
  import opened HuffmanCodes
  import opened HuffmanTable

  /** Initialisation gives up when some leaf below is deeper than a code may be
      long. */
  predicate ShortCodes(t: Tree, depth: nat)
    decreases t
  {
    t.Node? ==> if IsLeaf(t) then depth <= CODE_BITS else ShortCodes(t.left, depth + 1) && ShortCodes(t.right, depth + 1)
  }

  /** The length of the longest code. */
  function Depth(t: Tree): nat {
    if t.Nil? || IsLeaf(t) then 0 else 1 + if Depth(t.left) >= Depth(t.right) then Depth(t.left) else Depth(t.right)
  }

  // ----- What squashing, the ones and end-of-string do to a shallow tree

  const SAFE_DEPTH := 20

  lemma FixDepthIs(t: Tree, height: int, zeros: int)
    ensures FixDepth(t, height, zeros) ==
            if t.Nil? then Squashed(t, height + (if zeros > 2 then 1 else 0))
            else Rebalance(FixDepth(t.left, LeftHeight(height, zeros), (zeros + 1) % 8), FixDepth(t.right, height + 1, 0), t.c, height, zeros)
  {
    hide Rebalance;
  }

  /** The measure of a tree that is not rotated. */
  function Measured(t: Tree, height: int, zeros: int): int {
    if t.Nil? then height + (if zeros > 2 then 1 else 0)
    else Max(Measured(t.left, LeftHeight(height, zeros), (zeros + 1) % 8), Measured(t.right, height + 1, 0))
  }

  /** A tree that measures no more than the limit is not squashed. */
  lemma {:induction false} FixDepthWithin(t: Tree, height: int, zeros: int)
    requires Measured(t, height, zeros) <= CODE_BITS
    ensures FixDepth(t, height, zeros) == Squashed(t, Measured(t, height, zeros))
    decreases t
  {
    FixDepthIs(t, height, zeros);
    hide FixDepth, FixSides;
    if t.Node? {
      FixDepthWithin(t.left, LeftHeight(height, zeros), (zeros + 1) % 8);
      FixDepthWithin(t.right, height + 1, 0);
    }
  }

  /** What is measured is little more than the length of the longest code. */
  lemma {:induction false} MeasuredShallow(t: Tree, height: nat, zeros: nat)
    requires Full(t) && zeros <= 7
    ensures Measured(t, height, zeros) <= height + Depth(t) + (zeros + Depth(t)) / 8 + 2
  {
    if !IsLeaf(t) {
      MeasuredShallow(t.left, LeftHeight(height, zeros), (zeros + 1) % 8);
      MeasuredShallow(t.right, height + 1, 0);
    }
  }

  lemma {:induction false} ForceOneDepth(t: Tree, count: nat)
    requires t.Node?
    ensures Depth(ForceOne(t, count)) <= Depth(t) + 1
    decreases t
  {
    if count < 4 && t.left.Node? { ForceOneDepth(t.left, count + 1); }
  }

  /** A one is added for every six zeros or so. */
  lemma {:induction false} AddOnesDepth(t: Tree, count: nat)
    requires count <= 7
    ensures Depth(AddOnes(t, count)) <= Depth(t) + (Depth(t) + count + 3) / 6
    decreases t
  {
    if t.Node? && !IsLeaf(t) {
      AddOnesDepth(t.right, 0);
      AddOnesDepth(t.left, 1);
      if count < 7 { AddOnesDepth(t.left, count + 1); }
    }
  }

  lemma {:induction false} AddEosDepth(t: Tree, n: nat)
    requires t.Node?
    ensures Depth(AddEos(t, n)) <= if Depth(t) >= n then Depth(t) else n
    decreases n
  {
    if n > 0 { AddEosDepth(if t.left.Nil? then Leaf(EOS) else t.left, n - 1); }
  }

  lemma {:induction false} DepthShort(t: Tree, depth: nat)
    requires depth + Depth(t) <= CODE_BITS
    ensures ShortCodes(t, depth)
    decreases t
  {
    if t.Node? && !IsLeaf(t) {
      DepthShort(t.left, depth + 1);
      DepthShort(t.right, depth + 1);
    }
  }

  /** A tree of at most this depth is left as it is by squashing, and its codes
      are still short enough with everything that is then added to them. */
  lemma ShallowFits(t: Tree)
    requires Full(t) && Depth(t) <= SAFE_DEPTH
    ensures FixDepth(t, 0, 2).tree == t && ShortCodes(Finish(t), 0)
  {
    MeasuredShallow(t, 0, 2);
    FixDepthWithin(t, 0, 2);
    hide FixDepth, Measured, ForceOne, AddOnes, AddEos, Depth, ShortCodes;
    var u := ForceOne(t, 0);
    ForceOneDepth(t, 0);
    AddOnesDepth(u, 0);
    AddOnesRoot(u);
    AddEosDepth(AddOnes(u, 0), 8);
    DepthShort(Finish(t), 0);
  }

  // ----- How deep a cheapest tree can be

  /** No tree with the same leaves takes fewer bits. */
  ghost predicate Cheapest(w: Counts, t: Tree) {
    Full(t) && forall u: Tree :: Full(u) && multiset(Leaves(u)) == multiset(Leaves(t)) ==> Bits(w, t) <= Bits(w, u)
  }

  function Side(t: Tree, right: bool): Tree
    requires t.Node?
  {
    if right then t.right else t.left
  }

  /** The side on which the longest code is. */
  predicate DeepRight(t: Tree)
    requires t.Node?
  {
    Depth(t.left) < Depth(t.right)
  }

  /** Parts of a cheapest tree are cheapest too. */
  lemma CheapestPart(w: Counts, t: Tree, right: bool)
    requires Cheapest(w, t) && !IsLeaf(t)
    ensures Cheapest(w, Side(t, right))
  {
    var part := Side(t, right);
    forall u: Tree | Full(u) && multiset(Leaves(u)) == multiset(Leaves(part)) ensures Bits(w, part) <= Bits(w, u) {
      var v := if right then Node(t.left, t.c, u) else Node(u, t.c, t.right);
      FullHasBoth(t);
      FullHasBoth(u);
      SameWeight(w, u, part);
      assert multiset(Leaves(v)) == multiset(Leaves(t)) && Full(v);
    }
  }

  lemma FullHasBoth(t: Tree)
    requires Full(t)
    ensures t.Node? && (!IsLeaf(t) ==> Full(t.left) && Full(t.right))
  {
  }

  lemma {:induction false} WeightIsSum(w: Counts, t: Tree)
    ensures Weight(w, t) == Total(w, Leaves(t))
  {
    if t.Node? && !IsLeaf(t) {
      WeightIsSum(w, t.left);
      WeightIsSum(w, t.right);
      TotalConcat(w, Leaves(t.left), Leaves(t.right));
    }
  }

  /** The counts of some characters, added up. */
  function Total(w: Counts, cs: seq<Byte>): nat {
    if cs == [] then 0 else w[cs[0]] + Total(w, cs[1..])
  }

  lemma {:induction false} TotalConcat(w: Counts, a: seq<Byte>, b: seq<Byte>)
    ensures Total(w, a + b) == Total(w, a) + Total(w, b)
  {
    if a == [] {
      assert a + b == b;
    } else {
      assert (a + b)[1..] == a[1..] + b;
      TotalConcat(w, a[1..], b);
    }
  }

  lemma {:induction false} TotalOrder(w: Counts, a: seq<Byte>, b: seq<Byte>)
    requires multiset(a) == multiset(b)
    ensures Total(w, a) == Total(w, b)
  {
    if a == [] {
      assert |multiset(b)| == 0;
    } else {
      var p, q := RemoveOne(a, b);
      TotalOrder(w, a[1..], p + q);
      TotalConcat(w, p, [a[0]] + q);
      TotalConcat(w, p, q);
      assert ([a[0]] + q)[1..] == q;
    }
  }

  lemma SameWeight(w: Counts, t: Tree, u: Tree)
    requires multiset(Leaves(t)) == multiset(Leaves(u))
    ensures Weight(w, t) == Weight(w, u)
  {
    WeightIsSum(w, t);
    WeightIsSum(w, u);
    TotalOrder(w, Leaves(t), Leaves(u));
  }

  /** In a cheapest tree a tree weighs no less than either part of the tree
      beside it: otherwise the two could change places. */
  lemma UncleHeavier(w: Counts, t: Tree, right: bool, deep: bool)
    requires Cheapest(w, t) && !IsLeaf(t) && Side(t, right).Node? && !IsLeaf(Side(t, right))
    ensures Weight(w, Side(t, !right)) >= Weight(w, Side(Side(t, right), deep))
  {
    var y, z := Side(t, right), Side(t, !right);
    NodeIs(w, t, right);
    NodeIs(w, y, deep);
    var x, o := Side(y, deep), Side(y, !deep);
    var v := Node(z, t.c, o);
    var u := Node(v, t.c, x);
    FullHasBoth(z);
    FullHasBoth(o);
    FullHasBoth(x);
    NodeIs(w, v, true);
    NodeIs(w, u, true);
    BagOrder(multiset(Leaves(x)), multiset(Leaves(o)), multiset(Leaves(z)));
    hide Leaves, Bits, Weight, Full;
    assert multiset(Leaves(u)) == multiset(Leaves(t));
    assert Bits(w, t) <= Bits(w, u);
  }

  /** What a node has of its two sides, in either order. */
  lemma NodeIs(w: Counts, t: Tree, right: bool)
    requires Full(t) && !IsLeaf(t)
    ensures var y, z := Side(t, right), Side(t, !right);
            && Full(y) && Full(z) && multiset(Leaves(t)) == multiset(Leaves(y)) + multiset(Leaves(z))
            && Weight(w, t) == Weight(w, y) + Weight(w, z)
            && Bits(w, t) == Bits(w, y) + Bits(w, z) + Weight(w, y) + Weight(w, z)
  {
    FullHasBoth(t);
    assert multiset(Leaves(t)) == multiset(Leaves(t.left)) + multiset(Leaves(t.right));
  }

  lemma BagOrder(x: multiset<Byte>, o: multiset<Byte>, z: multiset<Byte>)
    ensures (x + o) + z == x + (o + z)
  {
  }

  function Fib(n: nat): nat {
    if n < 2 then n else Fib(n - 1) + Fib(n - 2)
  }

  /** The least a cheapest tree can weigh that has a code of `n` bits and no
      count below `m`. */
  function Least(m: nat, n: nat): nat {
    m * Fib(n + 2)
  }

  lemma LeastNext(m: nat, n: nat)
    ensures Least(m, n + 2) == Least(m, n + 1) + Least(m, n)
    ensures Least(m, 1) == m + m && Least(m, 0) == m
  {
    assert Fib(n + 4) == Fib(n + 3) + Fib(n + 2);
    assert Fib(3) == 2 && Fib(2) == 1;
  }

  predicate AllAtLeast(w: Counts, t: Tree, m: nat) {
    forall c :: c in Leaves(t) ==> w[c] >= m
  }

  /** What the two sides of a node come to. */
  lemma Sides(w: Counts, t: Tree, m: nat)
    requires Cheapest(w, t) && !IsLeaf(t) && AllAtLeast(w, t, m)
    ensures t.Node? && Side(t, true).Node? && Side(t, false).Node? && Depth(t) == 1 + Depth(Side(t, DeepRight(t)))
    ensures Weight(w, t) == Weight(w, Side(t, true)) + Weight(w, Side(t, false))
    ensures AllAtLeast(w, Side(t, true), m) && AllAtLeast(w, Side(t, false), m)
    ensures Size(Side(t, true)) < Size(t) && Size(Side(t, false)) < Size(t)
    ensures Depth(t) == 1 ==> IsLeaf(Side(t, true)) && IsLeaf(Side(t, false))
  {
    FullHasBoth(t);
    hide Bits;
  }

  /** The deeper a cheapest tree is, the more it weighs. */
  lemma {:induction false} DeepIsHeavy(w: Counts, t: Tree, m: nat)
    requires Cheapest(w, t) && AllAtLeast(w, t, m)
    ensures Weight(w, t) >= Least(m, Depth(t))
    decreases Size(t), 1
  {
    hide *;
    if IsLeaf(t) {
      LeafHeavy(w, t, m);
    } else {
      Sides(w, t, m);
      CheapestPart(w, t, DeepRight(t));
      DeepIsHeavy(w, Side(t, DeepRight(t)), m);
      if IsLeaf(Side(t, DeepRight(t))) { TwoLeavesHeavy(w, t, m); } else { NephewHeavy(w, t, m); }
    }
  }

  lemma LeafHeavy(w: Counts, t: Tree, m: nat)
    requires IsLeaf(t) && AllAtLeast(w, t, m)
    ensures Weight(w, t) >= Least(m, Depth(t))
  {
    assert Leaves(t)[0] == t.c;
    LeastNext(m, 0);
  }

  lemma TwoLeavesHeavy(w: Counts, t: Tree, m: nat)
    requires Cheapest(w, t) && AllAtLeast(w, t, m) && !IsLeaf(t) && t.Node? && IsLeaf(Side(t, DeepRight(t)))
    ensures Weight(w, t) >= Least(m, Depth(t))
  {
    hide *;
    Sides(w, t, m);
    LeafDepth(Side(t, DeepRight(t)));
    LeafHeavy(w, Side(t, true), m);
    LeafHeavy(w, Side(t, false), m);
    LeafDepth(Side(t, true));
    LeafDepth(Side(t, false));
    LeastNext(m, 0);
  }

  /** The shallower side weighs no less than a part of the deeper one. */
  lemma {:induction false} NephewHeavy(w: Counts, t: Tree, m: nat)
    requires Cheapest(w, t) && AllAtLeast(w, t, m) && !IsLeaf(t) && t.Node? && !IsLeaf(Side(t, DeepRight(t)))
    requires Weight(w, Side(t, DeepRight(t))) >= Least(m, Depth(Side(t, DeepRight(t))))
    ensures Weight(w, t) >= Least(m, Depth(t))
    decreases Size(t), 0
  {
    hide *;
    var deep := DeepRight(t);
    var y := Side(t, deep);
    Sides(w, t, m);
    CheapestPart(w, t, deep);
    Sides(w, y, m);
    CheapestPart(w, y, DeepRight(y));
    UncleHeavier(w, t, deep, DeepRight(y));
    DeepIsHeavy(w, Side(y, DeepRight(y)), m);
    LeastNext(m, Depth(Side(y, DeepRight(y))));
  }

  lemma LeafDepth(t: Tree)
    ensures IsLeaf(t) ==> Depth(t) == 0
  {
  }

  // ----- Counts for which it is shallow

  /** The least of the counts of characters. */
  lemma {:induction false} LeastCount(w: Counts, n: nat) returns (k: nat)
    requires 1 <= n <= 255
    ensures 1 <= k <= n && forall c :: 1 <= c <= n ==> w[c] >= w[k]
  {
    k := 1;
    if n > 1 {
      k := LeastCount(w, n - 1);
      if w[n] < w[k] { k := n; }
    }
  }

  /** No character is so rare that it makes up less than one in Fib(23), or
      28657, of all there are. */
  predicate NoneRare(w: Counts) {
    forall c :: 1 <= c <= 255 ==> Total(w, AllChars()) < w[c] * 28657
  }

  lemma {:induction false} CharsRange(n: nat)
    requires n <= 255
    ensures forall c :: c in Chars(n) ==> 1 <= c <= n
  {
    if n > 0 { CharsRange(n - 1); }
  }

  lemma {:induction false} FibGrows(m: nat, n: nat)
    requires m <= n
    ensures Fib(m) <= Fib(n)
    decreases n
  {
    if m < n { FibGrows(m, n - 1); }
  }

  /** So for counts like that, the joined tree is shallow. */
  lemma NoneRareShallow(w: Counts)
    requires NoneRare(w)
    ensures Depth(HuffmanTreeOf(w)) <= SAFE_DEPTH
  {
    var t := HuffmanTreeOf(w);
    HuffmanOptimalTree(w);
    var k := LeastCount(w, 255);
    LeastOfTree(w, t, k);
    hide *;
    DeepIsHeavy(w, t, w[k]);
    if Depth(t) > SAFE_DEPTH { RareLeast(w, k, Depth(t)); }
  }

  lemma RareLeast(w: Counts, k: nat, n: nat)
    requires NoneRare(w) && 1 <= k <= 255 && n > SAFE_DEPTH
    ensures Total(w, AllChars()) < Least(w[k], n)
  {
    hide Total, AllChars, NoneRare, Fib, Least;
    FibFrom(n + 2);
    NoneRareAt(w, k);
    Scale(w[k], n);
  }

  lemma NoneRareAt(w: Counts, k: nat)
    requires NoneRare(w) && 1 <= k <= 255
    ensures Total(w, AllChars()) < w[k] * 28657
  {
    hide Total, AllChars;
  }

  lemma FibFrom(n: nat)
    requires n >= 23
    ensures Fib(n) >= 28657
  {
    FibIs();
    hide Fib;
    FibGrows(23, n);
  }

  lemma Scale(m: nat, n: nat)
    requires 28657 <= Fib(n + 2)
    ensures m * 28657 <= Least(m, n)
  {
    hide Fib;
  }

  lemma LeastOfTree(w: Counts, t: Tree, k: nat)
    requires ForAllChars(t) && (forall u: Tree :: ForAllChars(u) ==> Bits(w, t) <= Bits(w, u))
    requires 1 <= k <= 255 && forall c :: 1 <= c <= 255 ==> w[c] >= w[k]
    ensures Cheapest(w, t) && AllAtLeast(w, t, w[k]) && Weight(w, t) == Total(w, AllChars())
  {
    hide Bits, Chars, Leaves, Full, Total, Weight;
    CharsRange(255);
    WeightIsSum(w, t);
    TotalOrder(w, Leaves(t), AllChars());
    forall c | c in Leaves(t) ensures w[c] >= w[k] {
      assert c in multiset(Leaves(t));
      assert c in AllChars();
    }
  }

  lemma FibIs()
    ensures Fib(23) == 28657
  {
  }
}
