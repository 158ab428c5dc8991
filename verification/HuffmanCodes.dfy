/** Splicing ones into the tree so that no code makes a long run of zeros, and
    adding the end-of-string code of eight zeros. */
module HuffmanCodes {
  import opened Bytes
  import opened HuffmanTree

  /** The node keeps its place with a copy of itself as its right child. */
  function Splice(t: Tree): Tree
    requires t.Node?
  {
    Node(Nil, t.c, t)
  }

  /** A one at the fifth position on the left edge, or where the edge ends. */
  function ForceOne(t: Tree, count: nat): Tree
    requires t.Node?
    decreases t
  {
    if count < 4 && t.left.Node? then t.(left := ForceOne(t.left, count + 1)) else Splice(t)
  }

  /** Ones along the left edge of `t` and in everything to its right.  `count`
      is the number of zeros that lead to `t`. */
  function AddOnes(t: Tree, count: nat): Tree
    decreases t
  {
    if t.Nil? then Nil else
      var right := AddOnes(t.right, 0);
      if count >= 7 || (count >= 3 && IsLeaf(t)) then Splice(Node(AddOnes(t.left, 1), t.c, right))
      else Node(AddOnes(t.left, count + 1), t.c, right)
  }

  /** End-of-string `n` steps down the left edge, which is made longer if it is
      too short. */
  function AddEos(t: Tree, n: nat): Tree
    requires t.Node?
    decreases n
  {
    if n == 0 then t else t.(left := AddEos(if t.left.Nil? then Leaf(EOS) else t.left, n - 1))
  }

  /** What is done to the squashed tree. */
  function Finish(t: Tree): Tree
    requires t.Node?
  {
    AddOnesRoot(ForceOne(t, 0));
    AddEos(AddOnes(ForceOne(t, 0), 0), 8)
  }

  lemma AddOnesRoot(t: Tree)
    ensures t.Node? ==> AddOnes(t, 0).Node?
  {
  }

  // ----- Leaves survive

  lemma {:induction false} ForceOneLeaves(t: Tree, count: nat)
    requires Full(t)
    ensures Leaves(ForceOne(t, count)) == Leaves(t)
    decreases t
  {
    if count < 4 && t.left.Node? { ForceOneLeaves(t.left, count + 1); }
  }

  lemma {:induction false} AddOnesLeaves(t: Tree, count: nat)
    ensures Leaves(AddOnes(t, count)) == Leaves(t)
    ensures AddOnes(t, count).Nil? <==> t.Nil?
    decreases t
  {
    if t.Node? {
      AddOnesLeaves(t.right, 0);
      AddOnesLeaves(t.left, 1);
      AddOnesLeaves(t.left, count + 1);
      assert [] + Leaves(t) == Leaves(t);
    }
  }

  // ----- The left edge

  /** Going left `d` times leads to a node with something on its right only. */
  predicate Edge(t: Tree, d: nat)
    decreases d
  {
    t.Node? && if d == 0 then t.left.Nil? && t.right.Node? else t.left.Node? && Edge(t.left, d - 1)
  }

  /** The length of the left edge after a one has been forced into it. */
  function EdgeLength(t: Tree, count: nat): nat
    decreases t
  {
    if count < 4 && t.Node? && t.left.Node? then 1 + EdgeLength(t.left, count + 1) else 0
  }

  lemma {:induction false} ForceOneEdge(t: Tree, count: nat)
    requires t.Node? && count <= 4
    ensures Edge(ForceOne(t, count), EdgeLength(t, count)) && EdgeLength(t, count) <= 4 - count
    decreases t
  {
    if count < 4 && t.left.Node? { ForceOneEdge(t.left, count + 1); }
  }

  lemma {:induction false} AddOnesEdge(t: Tree, count: nat, d: nat)
    requires Edge(t, d) && count + d <= 6
    ensures Edge(AddOnes(t, count), d)
    decreases d
  {
    AddOnesLeaves(t.right, 0);
    if d > 0 { AddOnesEdge(t.left, count + 1, d - 1); }
  }

  // ----- Runs of zeros

  /** With `z` zeros in front: at most seven zeros in a row anywhere below, and
      at most two at the end of a code. */
  predicate FewZeros(t: Tree, z: nat) {
    t.Node? ==>
      if IsLeaf(t) then z <= 2
      else FewZeros(t.right, 0) && (t.left.Node? ==> z + 1 <= 7 && FewZeros(t.left, z + 1))
  }

  lemma {:induction false} AddOnesFewZeros(t: Tree, count: nat)
    requires count <= 7
    ensures FewZeros(AddOnes(t, count), count)
    decreases t
  {
    if t.Node? {
      AddOnesLeaves(t.left, 1);
      AddOnesLeaves(t.left, count + 1);
      AddOnesLeaves(t.right, 0);
      AddOnesFewZeros(t.right, 0);
      AddOnesFewZeros(t.left, 1);
      if count < 7 { AddOnesFewZeros(t.left, count + 1); }
    }
  }

  /** A tree whose codes keep the zeros few. */
  predicate Sound(t: Tree) {
    FewZeros(t, 0) && exists d: nat :: d <= 4 && Edge(t, d)
  }

  lemma OnesSound(t: Tree)
    requires t.Node?
    ensures Sound(AddOnes(ForceOne(t, 0), 0))
  {
    ForceOneEdge(t, 0);
    AddOnesEdge(ForceOne(t, 0), 0, EdgeLength(t, 0));
    AddOnesFewZeros(ForceOne(t, 0), 0);
  }

  // ----- The codes

  /** The zeros in front of a code, and `z` more, never make eight in a row. */
  predicate Runs(p: Code, z: int)
    decreases p
  {
    z <= 7 && (p != [] ==> if p[0] then Runs(p[1..], 0) else Runs(p[1..], z + 1))
  }

  /** Where a code leads, few zeros have come in a row, and few at its end. */
  lemma {:induction false} FewZerosCode(t: Tree, z: nat, p: Code)
    requires FewZeros(t, z) && z <= 7 && IsLeaf(At(t, p))
    ensures Runs(p, z)
    ensures EndZeros(p, z) <= 2
    decreases p
  {
    if p != [] {
      var child := if p[0] then t.right else t.left;
      assert At(t, p) == At(child, p[1..]) && At(Nil, p[1..]) == Nil;
      FewZerosCode(child, if p[0] then 0 else z + 1, p[1..]);
    }
  }

  /** The zeros at the end of `p` when `z` zeros come before it. */
  function EndZeros(p: Code, z: nat): nat
    decreases p
  {
    if p == [] then z else EndZeros(p[1..], if p[0] then 0 else z + 1)
  }

  lemma {:induction false} EdgeCode(t: Tree, d: nat, p: Code)
    requires Edge(t, d) && IsLeaf(At(t, p))
    ensures LeadingZeros(p) <= d && LeadingZeros(p) < |p|
    decreases p
  {
    if p != [] && !p[0] {
      assert At(t, p) == At(t.left, p[1..]);
      if d > 0 { EdgeCode(t.left, d - 1, p[1..]); }
    }
  }

  /** Every code of the tree before end-of-string is added contains a one, starts
      with at most four zeros, ends with at most two, and has at most seven in
      a row. */
  lemma SoundCode(t: Tree, p: Code, c: Byte)
    requires Sound(t) && IsCode(t, p, c)
    ensures LeadingZeros(p) <= 4 && LeadingZeros(p) < |p| && EndZeros(p, 0) <= 2 && Runs(p, 0)
  {
    var d: nat :| d <= 4 && Edge(t, d);
    EdgeCode(t, d, p);
    FewZerosCode(t, 0, p);
  }

  // ----- Adding end-of-string

  lemma {:induction false} EosChain(n: nat, p: Code)
    ensures IsLeaf(At(AddEos(Leaf(EOS), n), p)) <==> p == Zeros(n)
    ensures At(AddEos(Leaf(EOS), n), Zeros(n)) == Leaf(EOS)
    decreases n, |p|
  {
    var t := AddEos(Leaf(EOS), n);
    if n > 0 {
      assert t == Node(AddEos(Leaf(EOS), n - 1), EOS, Nil);
      assert Zeros(n)[1..] == Zeros(n - 1);
      EosChain(n - 1, Zeros(n - 1));
      if p != [] {
        assert At(t, p) == At(if p[0] then Nil else t.left, p[1..]);
        EosChain(n - 1, p[1..]);
        assert p == [p[0]] + p[1..] && Zeros(n) == [false] + Zeros(n - 1);
      }
    } else if p != [] {
      assert At(t, p) == At(Nil, p[1..]);
    }
  }

  /** The new tree has the old codes, and `n` zeros for end-of-string. */
  lemma {:induction false} AddEosCodes(t: Tree, d: nat, n: nat, p: Code)
    requires Edge(t, d) && d < n
    ensures IsLeaf(At(AddEos(t, n), p)) <==> IsLeaf(At(t, p)) || p == Zeros(n)
    ensures IsLeaf(At(t, p)) ==> At(AddEos(t, n), p) == At(t, p) && p != Zeros(n)
    ensures p == Zeros(n) ==> At(AddEos(t, n), p) == Leaf(EOS)
    decreases n, |p|
  {
    var t' := AddEos(t, n);
    assert Zeros(n)[1..] == Zeros(n - 1);
    if p != [] {
      assert At(t', p) == At(if p[0] then t'.right else t'.left, p[1..]);
      assert At(t, p) == At(if p[0] then t.right else t.left, p[1..]);
      assert p == [p[0]] + p[1..] && Zeros(n) == [false] + Zeros(n - 1);
      if !p[0] {
        if d > 0 { AddEosCodes(t.left, d - 1, n - 1, p[1..]); } else { EosChain(n - 1, p[1..]); }
      }
    }
  }

  /** The codes of the finished tree: those of the tree with its ones, and
      exactly eight zeros for end-of-string. */
  lemma FinishCodes(t: Tree, p: Code, c: Byte)
    requires t.Node?
    ensures var u := AddOnes(ForceOne(t, 0), 0);
            && Sound(u)
            && (IsCode(Finish(t), p, c) <==> IsCode(u, p, c) || (p == Zeros(8) && c == EOS))
            && (IsCode(u, p, c) ==> p != Zeros(8))
  {
    var u := AddOnes(ForceOne(t, 0), 0);
    OnesSound(t);
    AddOnesRoot(ForceOne(t, 0));
    var d: nat :| d <= 4 && Edge(u, d);
    AddEosCodes(u, d, 8, p);
  }

  // ----- Texts in code

  /** A code that may be used for a character: it has a one, at most four zeros
      in front, at most two at the end, at most seven in a row. */
  predicate GoodCode(p: Code) {
    LeadingZeros(p) <= 4 && LeadingZeros(p) < |p| && EndZeros(p, 0) <= 2 && Runs(p, 0)
  }

  function Concat(codes: seq<Code>): Code {
    if codes == [] then [] else codes[0] + Concat(codes[1..])
  }

  lemma {:induction false} RunsMore(p: Code, z: nat, y: nat)
    requires Runs(p, y) && LeadingZeros(p) < |p| && LeadingZeros(p) + z <= 7
    ensures Runs(p, z) && EndZeros(p, z) == EndZeros(p, y)
    decreases p
  {
    if p != [] && !p[0] { RunsMore(p[1..], z + 1, y + 1); }
  }

  lemma {:induction false} RunsConcat(p: Code, q: Code, z: nat)
    requires Runs(p, z) && Runs(q, EndZeros(p, z))
    ensures Runs(p + q, z)
    decreases p
  {
    if p == [] {
      assert p + q == q;
    } else {
      assert (p + q)[0] == p[0] && (p + q)[1..] == p[1..] + q;
      RunsConcat(p[1..], q, if p[0] then 0 else z + 1);
    }
  }

  /** Good codes one after another still have few zeros in a row. */
  lemma {:induction false} StreamRuns(codes: seq<Code>, z: nat)
    requires z <= 2 && forall i :: 0 <= i < |codes| ==> GoodCode(codes[i])
    ensures Runs(Concat(codes), z)
  {
    if codes != [] {
      var p := codes[0];
      RunsMore(p, z, 0);
      StreamRuns(codes[1..], EndZeros(p, 0));
      RunsConcat(p, Concat(codes[1..]), z);
    }
  }

  lemma {:induction false} RunsBound(p: Code, z: nat, k: nat)
    requires Runs(p, z) && k <= |p| && forall j :: 0 <= j < k ==> !p[j]
    ensures z + k <= 7
    decreases k
  {
    if k > 0 { RunsBound(p[1..], z + 1, k - 1); }
  }

  lemma {:induction false} RunsNoZeros(p: Code, z: nat, i: nat)
    requires Runs(p, z) && i + 8 <= |p|
    ensures !ZerosAt(p, i)
    decreases i
  {
    if i == 0 {
      if ZerosAt(p, 0) {
        assert forall j :: 0 <= j < 8 ==> p[j] == p[0..8][j];
        RunsBound(p, z, 8);
      }
    } else {
      assert p[1..][i - 1..i - 1 + 8] == p[i..i + 8];
      RunsNoZeros(p[1..], if p[0] then 0 else z + 1, i - 1);
    }
  }

  /** No text in code has eight zeros in a row anywhere. */
  lemma StreamNoEightZeros(codes: seq<Code>)
    requires forall i :: 0 <= i < |codes| ==> GoodCode(codes[i])
    ensures !EightZeros(Concat(codes))
  {
    StreamRuns(codes, 0);
    forall i | 0 <= i && i + 8 <= |Concat(codes)| ensures !ZerosAt(Concat(codes), i) {
      RunsNoZeros(Concat(codes), 0, i);
    }
  }
}
