/** The table of trees from which the compression tree is joined: what stays
    true of it while it is sorted and its lightest trees are joined. */
module HuffmanTable {
  import opened Bytes
  import opened HuffmanTree
  import opened HuffmanOptimal

  /** How often each character occurs. */
  type Counts = w: seq<nat> | |w| == 256 witness seq(256, _ => 0)

  datatype Item = Item(freq: nat, tree: Tree)

  /** The characters other than end-of-string. */
  function Chars(n: nat): seq<Byte>
    requires n <= 255
  {
    if n == 0 then [] else Chars(n - 1) + [n]
  }

  function AllChars(): seq<Byte> {
    Chars(255)
  }

  function Weight(w: Counts, t: Tree): nat {
    match t
    case Nil => 0
    case Node(l, c, r) => if IsLeaf(t) then w[c] else Weight(w, l) + Weight(w, r)
  }

  /** The number of bits the tree takes for a text with these counts. */
  function Bits(w: Counts, t: Tree): nat {
    match t
    case Nil => 0
    case Node(l, c, r) => if IsLeaf(t) then 0 else Bits(w, l) + Bits(w, r) + Weight(w, l) + Weight(w, r)
  }

  /** A full tree with each character at exactly one leaf. */
  predicate ForAllChars(t: Tree) {
    Full(t) && multiset(Leaves(t)) == multiset(AllChars())
  }

  // ----- A forest

  function LeafBag(items: seq<Item>): multiset<Byte> {
    if items == [] then multiset{} else multiset(Leaves(items[0].tree)) + LeafBag(items[1..])
  }

  function FreqBag(items: seq<Item>): multiset<nat> {
    if items == [] then multiset{} else multiset{items[0].freq} + FreqBag(items[1..])
  }

  function ForestBits(w: Counts, items: seq<Item>): nat {
    if items == [] then 0 else Bits(w, items[0].tree) + ForestBits(w, items[1..])
  }

  lemma {:induction false} ForestConcat(w: Counts, a: seq<Item>, b: seq<Item>)
    ensures LeafBag(a + b) == LeafBag(a) + LeafBag(b)
    ensures FreqBag(a + b) == FreqBag(a) + FreqBag(b)
    ensures ForestBits(w, a + b) == ForestBits(w, a) + ForestBits(w, b)
  {
    if a == [] {
      assert a + b == b;
    } else {
      assert (a + b)[1..] == a[1..] + b;
      ForestConcat(w, a[1..], b);
    }
  }

  lemma ForestOne(w: Counts, x: Item)
    ensures LeafBag([x]) == multiset(Leaves(x.tree)) && FreqBag([x]) == multiset{x.freq} && ForestBits(w, [x]) == Bits(w, x.tree)
  {
    assert [x][1..] == [];
  }

  /** No tree `u` over the same characters does better than the forest could
      still do: some tree on top of the forest is as good as `u`. */
  ghost predicate Bounded(w: Counts, items: seq<Item>, u: Tree) {
    exists x: WTree :: multiset(Weights(x)) == FreqBag(items) && ForestBits(w, items) + Cost(x) <= Bits(w, u)
  }

  /** Every character is in the forest once, the frequencies are right, and the
      cheapest tree can still be reached. */
  ghost predicate ForestOk(w: Counts, items: seq<Item>) {
    && (forall i :: 0 <= i < |items| ==> Weighed(w, items[i]))
    && LeafBag(items) == multiset(AllChars())
    && (forall u: Tree :: ForAllChars(u) ==> Bounded(w, items, u))
  }

  predicate Sorted(items: seq<Item>) {
    forall i, j :: 0 <= i < j < |items| ==> items[i].freq >= items[j].freq
  }

  function SwapItems(items: seq<Item>, k: nat): seq<Item>
    requires 0 < k < |items|
  {
    items[..k - 1] + [items[k], items[k - 1]] + items[k + 1..]
  }

  lemma SwapKeepsForest(w: Counts, items: seq<Item>, k: nat)
    requires 0 < k < |items| && ForestOk(w, items)
    ensures ForestOk(w, SwapItems(items, k))
  {
    hide LeafBag, FreqBag, ForestBits, AllChars, ForestOk;
    var a, x, y, b := items[..k - 1], items[k - 1], items[k], items[k + 1..];
    var items' := SwapItems(items, k);
    assert items == a + ([x] + ([y] + b)) && items' == a + ([y] + ([x] + b));
    ForestConcat(w, a, [x] + ([y] + b));
    ForestConcat(w, [x], [y] + b);
    ForestConcat(w, [y], b);
    ForestConcat(w, a, [y] + ([x] + b));
    ForestConcat(w, [y], [x] + b);
    ForestConcat(w, [x], b);
    SameForest(w, items, items');
  }

  lemma SameForest(w: Counts, items: seq<Item>, items': seq<Item>)
    requires ForestOk(w, items)
    requires LeafBag(items') == LeafBag(items) && FreqBag(items') == FreqBag(items) && ForestBits(w, items') == ForestBits(w, items)
    requires forall x :: x in items' ==> x in items
    ensures ForestOk(w, items')
  {
    hide LeafBag, FreqBag, ForestBits, AllChars;
    forall u: Tree | ForAllChars(u) ensures Bounded(w, items', u) {
      assert Bounded(w, items, u);
    }
    forall i | 0 <= i < |items'| ensures Weighed(w, items'[i]) {
      assert items'[i] in items;
    }
  }

  // ----- Joining

  /** The last two trees joined; `c` is whatever the new node's character is. */
  function MergeLast(items: seq<Item>, c: Byte): seq<Item>
    requires |items| >= 2
  {
    var n, x, y := |items|, items[|items| - 2], items[|items| - 1];
    items[..n - 2] + [Join(x, y, c)]
  }

  function Join(x: Item, y: Item, c: Byte): Item {
    Item(x.freq + y.freq, Node(y.tree, c, x.tree))
  }

  predicate Weighed(w: Counts, x: Item) {
    Full(x.tree) && x.freq == Weight(w, x.tree)
  }

  /** Joining the two lightest trees of a sorted forest keeps it right. */
  lemma MergeKeepsForest(w: Counts, items: seq<Item>, c: Byte)
    requires |items| >= 2 && ForestOk(w, items) && Sorted(items)
    ensures ForestOk(w, MergeLast(items, c))
  {
    hide ForestOk, Sorted, LeafBag, FreqBag;
    var x, y, a := items[|items| - 2], items[|items| - 1], items[..|items| - 2];
    LastTwo(w, items);
    JoinKeepsForest(w, a, x, y, c);
  }

  /** The last two items of a sorted forest are its lightest. */
  lemma LastTwo(w: Counts, items: seq<Item>)
    requires |items| >= 2 && ForestOk(w, items) && Sorted(items)
    ensures var x, y, a := items[|items| - 2], items[|items| - 1], items[..|items| - 2];
            && items == a + ([x] + [y]) && Weighed(w, x) && Weighed(w, y) && y.freq <= x.freq
            && forall v :: v in FreqBag(a) ==> x.freq <= v
  {
    hide LeafBag, FreqBag, Weighed, Bounded;
    var x, y, a := items[|items| - 2], items[|items| - 1], items[..|items| - 2];
    forall i | 0 <= i < |a| ensures x.freq <= a[i].freq { assert a[i] == items[i]; }
    assert Weighed(w, x) && Weighed(w, y);
    FreqsAbove(w, a, x.freq);
  }

  lemma JoinKeepsForest(w: Counts, a: seq<Item>, x: Item, y: Item, c: Byte)
    requires ForestOk(w, a + ([x] + [y])) && Weighed(w, x) && Weighed(w, y) && y.freq <= x.freq
    requires forall v :: v in FreqBag(a) ==> x.freq <= v
    ensures ForestOk(w, a + [Join(x, y, c)])
  {
    hide LeafBag, FreqBag, ForestBits, AllChars, Bounded, ForAllChars, Weighed;
    var items, items' := a + ([x] + [y]), a + [Join(x, y, c)];
    JoinIs(w, x, y, c);
    MergeTotals(w, a, x, y, c);
    forall u: Tree | ForAllChars(u) ensures Bounded(w, items', u) {
      MergeBounded(w, a, x, y, c, u);
    }
    forall i | 0 <= i < |items'| ensures Weighed(w, items'[i]) {
      assert i < |a| ==> items'[i] == items[i];
    }
  }

  lemma JoinIs(w: Counts, x: Item, y: Item, c: Byte)
    requires Weighed(w, x) && Weighed(w, y)
    ensures Weighed(w, Join(x, y, c))
    ensures multiset(Leaves(Join(x, y, c).tree)) == multiset(Leaves(x.tree)) + multiset(Leaves(y.tree))
    ensures Bits(w, Join(x, y, c).tree) == Bits(w, x.tree) + Bits(w, y.tree) + x.freq + y.freq
  {
  }

  lemma MergeTotals(w: Counts, a: seq<Item>, x: Item, y: Item, c: Byte)
    requires Weighed(w, x) && Weighed(w, y)
    ensures LeafBag(a + [Join(x, y, c)]) == LeafBag(a + ([x] + [y]))
    ensures FreqBag(a + ([x] + [y])) == FreqBag(a) + (multiset{x.freq} + multiset{y.freq})
    ensures FreqBag(a + [Join(x, y, c)]) == FreqBag(a) + multiset{x.freq + y.freq}
    ensures ForestBits(w, a + [Join(x, y, c)]) == ForestBits(w, a + ([x] + [y])) + x.freq + y.freq
  {
    hide LeafBag, FreqBag, ForestBits, Bits, Weighed, Leaves;
    JoinIs(w, x, y, c);
    ForestConcat(w, a, [x] + [y]);
    ForestConcat(w, [x], [y]);
    ForestConcat(w, a, [Join(x, y, c)]);
    ForestOne(w, x);
    ForestOne(w, y);
    ForestOne(w, Join(x, y, c));
  }

  lemma MergeBounded(w: Counts, a: seq<Item>, x: Item, y: Item, c: Byte, u: Tree)
    requires Weighed(w, x) && Weighed(w, y) && y.freq <= x.freq
    requires forall v :: v in FreqBag(a) ==> x.freq <= v
    requires Bounded(w, a + ([x] + [y]), u)
    ensures Bounded(w, a + [Join(x, y, c)], u)
  {
    hide *;
    MergeTotals(w, a, x, y, c);
    BoundStep(w, a + ([x] + [y]), a + [Join(x, y, c)], u, FreqBag(a), y.freq, x.freq);
  }

  lemma BoundStep(w: Counts, items: seq<Item>, items': seq<Item>, u: Tree, rest: multiset<nat>, a: nat, b: nat)
    requires FreqBag(items) == rest + (multiset{b} + multiset{a}) && FreqBag(items') == rest + multiset{b + a}
    requires ForestBits(w, items') == ForestBits(w, items) + b + a
    requires a <= b && forall v :: v in rest ==> b <= v
    requires Bounded(w, items, u)
    ensures Bounded(w, items', u)
  {
    hide *;
    var t := BoundOf(w, items, u);
    var t' := JoinedTree(t, rest, a, b);
    BoundBy(w, items', u, t');
  }

  lemma BoundOf(w: Counts, items: seq<Item>, u: Tree) returns (t: WTree)
    requires Bounded(w, items, u)
    ensures multiset(Weights(t)) == FreqBag(items) && ForestBits(w, items) + Cost(t) <= Bits(w, u)
  {
    t :| multiset(Weights(t)) == FreqBag(items) && ForestBits(w, items) + Cost(t) <= Bits(w, u);
  }

  lemma BoundBy(w: Counts, items: seq<Item>, u: Tree, t: WTree)
    requires multiset(Weights(t)) == FreqBag(items) && ForestBits(w, items) + Cost(t) <= Bits(w, u)
    ensures Bounded(w, items, u)
  {
  }

  lemma JoinedTree(t: WTree, rest: multiset<nat>, a: nat, b: nat) returns (t': WTree)
    requires multiset(Weights(t)) == rest + (multiset{b} + multiset{a}) && a <= b && forall v :: v in rest ==> b <= v
    ensures multiset(Weights(t')) == rest + multiset{b + a} && Cost(t') + a + b <= Cost(t)
  {
    LastTwoLeast(rest, multiset(Weights(t)), a, b);
    hide *;
    t' := ExchangeTwoLeast(t, a, b);
    BagStep(multiset(Weights(t)), rest, multiset(Weights(t')), a, b);
  }

  lemma {:induction false} FreqsAbove(w: Counts, a: seq<Item>, f: nat)
    requires forall i :: 0 <= i < |a| ==> f <= a[i].freq
    ensures forall v :: v in FreqBag(a) ==> f <= v
  {
    if a != [] { FreqsAbove(w, a[1..], f); }
  }

  lemma LastTwoLeast(rest: multiset<nat>, all: multiset<nat>, a: nat, b: nat)
    requires all == rest + (multiset{b} + multiset{a}) && a <= b && forall v :: v in rest ==> b <= v
    ensures TwoLeast(all, a, b)
  {
    assert all - multiset{a} == rest + multiset{b};
  }

  lemma BagStep(all: multiset<nat>, rest: multiset<nat>, joined: multiset<nat>, a: nat, b: nat)
    requires all == rest + (multiset{b} + multiset{a})
    requires joined == all - Bag([a, b]) + Bag([a + b])
    ensures joined == rest + multiset{b + a}
  {
    assert Bag([a, b]) == multiset{b} + multiset{a} && Bag([a + b]) == multiset{a + b};
    assert rest + (multiset{b} + multiset{a}) - (multiset{b} + multiset{a}) == rest;
  }

  // ----- The beginning and the end

  /** The tree of weights of a tree of characters. */
  function WeightTree(w: Counts, t: Tree): WTree
    requires Full(t)
  {
    if IsLeaf(t) then WLeaf(w[t.c]) else WNode(WeightTree(w, t.left), WeightTree(w, t.right))
  }

  function Look(w: Counts, cs: seq<Byte>): seq<nat> {
    seq(|cs|, i requires 0 <= i < |cs| => w[cs[i]])
  }

  lemma {:induction false} WeightTreeIs(w: Counts, t: Tree)
    requires Full(t)
    ensures Weights(WeightTree(w, t)) == Look(w, Leaves(t))
    ensures Sum(WeightTree(w, t)) == Weight(w, t) && Cost(WeightTree(w, t)) == Bits(w, t)
  {
    if !IsLeaf(t) {
      WeightTreeIs(w, t.left);
      WeightTreeIs(w, t.right);
    }
  }

  lemma LookConcat(w: Counts, a: seq<Byte>, b: seq<Byte>)
    ensures Look(w, a + b) == Look(w, a) + Look(w, b)
  {
  }

  lemma {:induction false} LookBag(w: Counts, a: seq<Byte>, b: seq<Byte>)
    requires multiset(a) == multiset(b)
    ensures multiset(Look(w, a)) == multiset(Look(w, b))
  {
    if a == [] {
      assert |b| == |multiset(b)| == 0;
    } else {
      var p, q := RemoveOne(a, b);
      var x := [a[0]];
      hide Look;
      LookBag(w, a[1..], p + q);
      LookConcat(w, p, q);
      LookParts(w, x, a[1..], p, q);
      LookPieces(w, a, b, Look(w, x), Look(w, a[1..]), Look(w, p), Look(w, q));
    }
  }

  /** Where the first of `a` is in `b`. */
  lemma RemoveOne(a: seq<Byte>, b: seq<Byte>) returns (p: seq<Byte>, q: seq<Byte>)
    requires a != [] && multiset(a) == multiset(b)
    ensures b == p + ([a[0]] + q) && a == [a[0]] + a[1..] && multiset(a[1..]) == multiset(p + q)
  {
    assert a[0] in multiset(b);
    var k :| 0 <= k < |b| && b[k] == a[0];
    p, q := b[..k], b[k + 1..];
    assert b == p + ([a[0]] + q) && a == [a[0]] + a[1..];
    BagWithout(a[1..], p, q, a[0]);
  }

  lemma LookParts(w: Counts, x: seq<Byte>, rest: seq<Byte>, p: seq<Byte>, q: seq<Byte>)
    ensures Look(w, x + rest) == Look(w, x) + Look(w, rest)
    ensures Look(w, p + (x + q)) == Look(w, p) + (Look(w, x) + Look(w, q))
  {
    LookConcat(w, x, rest);
    LookConcat(w, p, x + q);
    LookConcat(w, x, q);
  }

  lemma LookPieces(w: Counts, a: seq<Byte>, b: seq<Byte>, x: seq<nat>, rest: seq<nat>, p: seq<nat>, q: seq<nat>)
    requires Look(w, a) == x + rest && Look(w, b) == p + (x + q) && multiset(rest) == multiset(p + q)
    ensures multiset(Look(w, a)) == multiset(Look(w, b))
  {
    hide Look;
  }

  lemma BagWithout(a: seq<Byte>, p: seq<Byte>, q: seq<Byte>, x: Byte)
    requires multiset([x] + a) == multiset(p + ([x] + q))
    ensures multiset(a) == multiset(p + q)
  {
    assert multiset(p + ([x] + q)) == multiset{x} + multiset(p + q);
    assert multiset([x] + a) == multiset{x} + multiset(a);
    forall y: Byte ensures multiset(a)[y] == multiset(p + q)[y] {
      assert (multiset{x} + multiset(a))[y] == (multiset{x} + multiset(p + q))[y];
    }
  }

  /** The items the table starts with: one leaf for each character up to `n`. */
  function Singles(w: Counts, n: nat): seq<Item>
    requires n <= 255
  {
    if n == 0 then [] else Singles(w, n - 1) + [Item(w[n], Leaf(n))]
  }

  lemma {:induction false} SinglesAt(w: Counts, n: nat)
    requires n <= 255
    ensures |Singles(w, n)| == n && forall i :: 0 <= i < n ==> Singles(w, n)[i] == Item(w[i + 1], Leaf(i + 1))
  {
    if n > 0 { SinglesAt(w, n - 1); }
  }

  lemma {:induction false} SinglesAre(w: Counts, n: nat)
    requires n <= 255
    ensures LeafBag(Singles(w, n)) == multiset(Chars(n))
    ensures FreqBag(Singles(w, n)) == multiset(Look(w, Chars(n)))
    ensures ForestBits(w, Singles(w, n)) == 0
  {
    if n > 0 {
      SinglesAre(w, n - 1);
      SinglesNext(w, n, Singles(w, n - 1), Chars(n - 1));
    }
  }

  lemma SinglesNext(w: Counts, n: nat, rest: seq<Item>, cs: seq<Byte>)
    requires 0 < n <= 255 && LeafBag(rest) == multiset(cs) && FreqBag(rest) == multiset(Look(w, cs)) && ForestBits(w, rest) == 0
    ensures var all := rest + [Item(w[n], Leaf(n))];
            LeafBag(all) == multiset(cs + [n]) && FreqBag(all) == multiset(Look(w, cs + [n])) && ForestBits(w, all) == 0
  {
    var x := Item(w[n], Leaf(n));
    ForestConcat(w, rest, [x]);
    ForestOne(w, x);
    LookConcat(w, cs, [n]);
    assert Look(w, [n]) == [w[n]];
    BagSnoc(Look(w, cs), w[n]);
    BagSnoc(cs, n);
    assert Leaves(x.tree) == [n] && multiset([n]) == multiset{n};
    hide LeafBag, FreqBag, ForestBits, Look;
  }

  lemma BagSnoc<T>(s: seq<T>, x: T)
    ensures multiset(s + [x]) == multiset(s) + multiset{x}
  {
  }

  lemma SinglesForest(w: Counts, n: nat)
    requires n == 255
    ensures ForestOk(w, Singles(w, n))
  {
    hide LeafBag, FreqBag, ForestBits, Chars, Look, Singles, Bounded;
    SinglesAt(w, n);
    SinglesAre(w, n);
    forall u: Tree | ForAllChars(u) ensures Bounded(w, Singles(w, n), u) {
      SinglesBounded(w, n, u);
    }
    forall i | 0 <= i < n ensures Weighed(w, Singles(w, n)[i]) {
      assert Singles(w, n)[i] == Item(w[i + 1], Leaf(i + 1));
    }
  }

  lemma SinglesBounded(w: Counts, n: nat, u: Tree)
    requires n == 255 && ForAllChars(u)
    ensures Bounded(w, Singles(w, n), u)
  {
    hide LeafBag, FreqBag, ForestBits, Chars, Look, Singles, Weights, Cost, Bits, Leaves, Full;
    SinglesAre(w, n);
    WeightTreeIs(w, u);
    LookBag(w, Leaves(u), Chars(n));
    assert multiset(Weights(WeightTree(w, u))) == FreqBag(Singles(w, n));
  }

  /** When one tree is left, it holds all characters, and no other tree for them
      takes fewer bits. */
  lemma LastTreeOptimal(w: Counts, x: Item)
    requires ForestOk(w, [x])
    ensures ForAllChars(x.tree)
    ensures forall u: Tree :: ForAllChars(u) ==> Bits(w, x.tree) <= Bits(w, u)
  {
    ForestOne(w, x);
    forall u: Tree | ForAllChars(u) ensures Bits(w, x.tree) <= Bits(w, u) {
      assert Bounded(w, [x], u);
    }
    assert [x][0] == x;
  }

  // ----- Sorting and joining, with end-of-string at place 0 left out of it

  /** Move the item at `k` to the front past all that are less frequent, and with
      `evenEqual` past those that are as frequent too. */
  function Sift(items: seq<Item>, k: nat, evenEqual: bool): (r: seq<Item>)
    requires k < |items|
    ensures |r| == |items|
    decreases k
  {
    if k > 1 && (items[k - 1].freq < items[k].freq || (evenEqual && items[k - 1].freq == items[k].freq))
    then Sift(SwapItems(items, k), k - 1, evenEqual) else items
  }

  /** Insertion sort of the items from place `k` on into those before. */
  function SortFrom(items: seq<Item>, k: nat): (r: seq<Item>)
    ensures |r| == |items|
    decreases |items| - k
  {
    if k >= |items| then items else SortFrom(Sift(items, k, false), k + 1)
  }

  /** Join the last two items and put the result where it belongs. */
  function JoinOnce(items: seq<Item>): (r: seq<Item>)
    requires |items| >= 2
    ensures |r| == |items| - 1
  {
    Sift(MergeLast(items, EOS), |items| - 2, true)
  }

  /** Join until one item is left beside that at place 0. */
  function JoinAll(items: seq<Item>): (r: seq<Item>)
    requires |items| >= 2
    ensures |r| == 2
    decreases |items|
  {
    if |items| == 2 then items else JoinAll(JoinOnce(items))
  }

  /** The table at the start: end-of-string at place 0, then the characters. */
  function FirstTable(w: Counts): seq<Item> {
    [Item(w[0], Leaf(EOS))] + Singles(w, 255)
  }

  /** The tree that joining ends up with. */
  function HuffmanTreeOf(w: Counts): Tree {
    SinglesAt(w, 255);
    JoinAll(SortFrom(FirstTable(w), 2))[1].tree
  }

  /** Sorted by falling frequency, but for the item at `k`, which may have to go
      further to the front. */
  predicate SortedBut(items: seq<Item>, k: int) {
    && (forall i, j :: 0 <= i < j < |items| && i != k && j != k ==> items[i].freq >= items[j].freq)
    && (forall j :: 0 <= k < j < |items| ==> items[k].freq >= items[j].freq)
  }

  lemma SwapTail(items: seq<Item>, k: nat)
    requires 1 < k < |items|
    ensures SwapItems(items, k)[1..] == SwapItems(items[1..], k - 1) && SwapItems(items, k)[0] == items[0]
    ensures SwapItems(items, k)[k + 1..] == items[k + 1..]
    ensures |SwapItems(items, k)| == |items|
  {
  }

  lemma SwapAt(items: seq<Item>, k: nat, i: nat)
    requires 0 < k < |items| && i < |items|
    ensures |SwapItems(items, k)| == |items|
    ensures SwapItems(items, k)[i] == items[if i == k then k - 1 else if i == k - 1 then k else i]
  {
  }

  lemma {:induction false} SiftKeeps(w: Counts, items: seq<Item>, k: nat, evenEqual: bool)
    requires k < |items| && ForestOk(w, items[1..])
    ensures ForestOk(w, Sift(items, k, evenEqual)[1..])
    decreases k
  {
    hide ForestOk, SwapItems;
    if k > 1 {
      SwapTail(items, k);
      SwapKeepsForest(w, items[1..], k - 1);
      SiftKeeps(w, SwapItems(items, k), k - 1, evenEqual);
    }
  }

  lemma SwapSorted(items: seq<Item>, k: nat, last: nat)
    requires 1 < k <= last < |items| && SortedBut(items[1..last + 1], k - 1) && items[k - 1].freq <= items[k].freq
    ensures SortedBut(SwapItems(items, k)[1..last + 1], k - 2)
  {
    hide SwapItems;
    SwapAt(items, k, 0);
    var fs, gs := items[1..last + 1], SwapItems(items, k)[1..last + 1];
    forall i | 0 <= i < |gs| ensures gs[i] == fs[Exchanged(k - 1, i)] {
      SwapAt(items, k, i + 1);
    }
  }

  /** Where the item at `i` was before those at `k` and in front of it changed places. */
  function Exchanged(k: int, i: int): int {
    if i == k then k - 1 else if i == k - 1 then k else i
  }

  lemma {:induction false} SiftSorts(items: seq<Item>, k: nat, last: nat, evenEqual: bool)
    requires 1 <= k <= last < |items| && SortedBut(items[1..last + 1], k - 1)
    ensures Sorted(Sift(items, k, evenEqual)[1..last + 1])
    decreases k
  {
    if k > 1 && (items[k - 1].freq < items[k].freq || (evenEqual && items[k - 1].freq == items[k].freq)) {
      SwapSorted(items, k, last);
      hide SortedBut, SwapItems;
      SiftSorts(SwapItems(items, k), k - 1, last, evenEqual);
    } else {
      var fs := items[1..last + 1];
      assert k > 1 ==> fs[k - 2].freq >= fs[k - 1].freq;
    }
  }

  lemma {:induction false} SortFromSorts(w: Counts, items: seq<Item>, k: nat)
    requires 2 <= k <= |items| && Sorted(items[1..k]) && ForestOk(w, items[1..])
    ensures Sorted(SortFrom(items, k)[1..]) && ForestOk(w, SortFrom(items, k)[1..])
    decreases |items| - k
  {
    hide ForestOk, Sift;
    if k < |items| {
      LastUnsorted(items, k);
      SiftSorts(items, k, k, false);
      SiftKeeps(w, items, k, false);
      hide Sorted, SortedBut;
      SortFromSorts(w, Sift(items, k, false), k + 1);
    } else {
      assert items[1..k] == items[1..];
    }
  }

  lemma LastUnsorted(items: seq<Item>, k: nat)
    requires 2 <= k < |items| && Sorted(items[1..k])
    ensures SortedBut(items[1..k + 1], k - 1)
  {
    assert items[1..k + 1] == items[1..k] + [items[k]];
  }

  lemma JoinOnceKeeps(w: Counts, items: seq<Item>)
    requires |items| >= 3 && Sorted(items[1..]) && ForestOk(w, items[1..])
    ensures Sorted(JoinOnce(items)[1..]) && ForestOk(w, JoinOnce(items)[1..])
  {
    hide ForestOk, SortedBut, Sift;
    var merged, k := MergeLast(items, EOS), |items| - 2;
    MergeKeepsForest(w, items[1..], EOS);
    MergedTail(items);
    SiftKeeps(w, merged, k, true);
    SiftSorts(merged, k, k, true);
    assert JoinOnce(items)[1..k + 1] == JoinOnce(items)[1..];
  }

  lemma MergedTail(items: seq<Item>)
    requires |items| >= 3 && Sorted(items[1..])
    ensures var merged, k := MergeLast(items, EOS), |items| - 2;
            merged[1..] == MergeLast(items[1..], EOS) && merged[1..k + 1] == merged[1..] && SortedBut(merged[1..], k - 1)
  {
    var merged, k := MergeLast(items, EOS), |items| - 2;
    forall i, j | 0 <= i < j < |merged[1..]| && i != k - 1 && j != k - 1 ensures merged[1..][i].freq >= merged[1..][j].freq {
      assert merged[1..][i] == items[1..][i] && merged[1..][j] == items[1..][j];
    }
  }

  lemma {:induction false} JoinAllKeeps(w: Counts, items: seq<Item>)
    requires |items| >= 2 && Sorted(items[1..]) && ForestOk(w, items[1..])
    ensures ForestOk(w, JoinAll(items)[1..])
    decreases |items|
  {
    hide ForestOk, JoinOnce, Sorted;
    if |items| > 2 {
      JoinOnceKeeps(w, items);
      JoinAllKeeps(w, JoinOnce(items));
    }
  }

  /** The joined tree has each character at exactly one leaf and, of all trees
      that do, takes the fewest bits for a text with the given counts. */
  lemma HuffmanOptimalTree(w: Counts)
    ensures ForAllChars(HuffmanTreeOf(w))
    ensures forall u: Tree :: ForAllChars(u) ==> Bits(w, HuffmanTreeOf(w)) <= Bits(w, u)
  {
    var first := FirstTable(w);
    FirstTableOk(w, first, 255);
    hide *;
    SortFromSorts(w, first, 2);
    JoinAllKeeps(w, SortFrom(first, 2));
    LastOf(w, JoinAll(SortFrom(first, 2)));
    JoinedTreeIs(w);
  }

  lemma FirstTableOk(w: Counts, first: seq<Item>, n: nat)
    requires n == 255 && first == [Item(w[0], Leaf(EOS))] + Singles(w, n)
    ensures |first| >= 2 && Sorted(first[1..2]) && ForestOk(w, first[1..])
  {
    hide ForestOk, Singles;
    SinglesAt(w, n);
    SinglesForest(w, n);
    assert first[1..] == Singles(w, n);
  }

  lemma LastOf(w: Counts, last: seq<Item>)
    requires |last| == 2 && ForestOk(w, last[1..])
    ensures ForAllChars(last[1].tree)
    ensures forall u: Tree :: ForAllChars(u) ==> Bits(w, last[1].tree) <= Bits(w, u)
  {
    hide ForestOk, ForAllChars, Bits;
    assert last[1..] == [last[1]];
    LastTreeOptimal(w, last[1]);
  }

  lemma JoinedTreeIs(w: Counts)
    ensures |FirstTable(w)| == 256 && HuffmanTreeOf(w) == JoinAll(SortFrom(FirstTable(w), 2))[1].tree
  {
    hide SortFrom, JoinAll;
    SinglesAt(w, 255);
  }
}
