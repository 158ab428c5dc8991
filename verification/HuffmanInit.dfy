/** Building the compression tree from character counts: the table of trees is
    sorted, its last two trees are joined until one is left, and that one is
    squashed and finished. */
module HuffmanInit {
  import opened HuffmanTree
  import opened HuffmanCodes
  import opened HuffmanNodes
  import opened HuffmanTable

  datatype Entry = Entry(freq: nat, node: CNode)

  /** The first entries of the table show `items`, as trees in order that share
      no nodes. */
  ghost predicate Shows(es: seq<Entry>, items: seq<Item>)
    reads set i | 0 <= i < |es| :: es[i].node
    reads set i, n | 0 <= i < |es| && n in es[i].node.repr :: n
  {
    && |items| <= |es|
    && (forall i :: 0 <= i < |items| ==> es[i].node.Valid() && es[i].freq == items[i].freq && es[i].node.tree == items[i].tree)
    && (forall i, j :: 0 <= i < j < |items| ==> es[i].node.repr !! es[j].node.repr)
  }

  function Swapped(es: seq<Entry>, k: nat): seq<Entry>
    requires 0 < k < |es|
  {
    es[k := es[k - 1]][k - 1 := es[k]]
  }

  lemma SwapShows(es: seq<Entry>, items: seq<Item>, k: nat)
    requires 0 < k < |items| && Shows(es, items)
    ensures Shows(Swapped(es, k), SwapItems(items, k)) && |SwapItems(items, k)| == |items|
  {
    var fs := Swapped(es, k);
    forall i, j | 0 <= i < j < |items| ensures fs[i].node.repr !! fs[j].node.repr {
      var p := if i == k then k - 1 else if i == k - 1 then k else i;
      var q := if j == k then k - 1 else if j == k - 1 then k else j;
      assert p < q || q < p;
    }
  }

  lemma ShowsFreqs(es: seq<Entry>, items: seq<Item>)
    requires Shows(es, items)
    ensures |items| <= |es| && forall i :: 0 <= i < |items| ==> es[i].freq == items[i].freq
  {
  }

  method SwapEntries(table: array<Entry>, k: nat, ghost items: seq<Item>)
    requires 0 < k < |items| && Shows(table[..], items) && k < table.Length
    modifies table
    ensures Shows(table[..], SwapItems(items, k)) && |SwapItems(items, k)| == |items|
    ensures multiset(table[..]) == old(multiset(table[..]))
  {
    ghost var es := table[..];
    SwapShows(es, items, k);
    hide SwapItems;
    table[k], table[k - 1] := table[k - 1], table[k];
    assert table[..] == Swapped(es, k);
  }

  /** The inner loop of sorting, and of putting a joined tree back. */
  method MoveUp(table: array<Entry>, k: nat, evenEqual: bool, ghost items: seq<Item>)
    requires k < |items| && Shows(table[..], items)
    modifies table
    ensures Shows(table[..], Sift(items, k, evenEqual))
    ensures multiset(table[..]) == old(multiset(table[..]))
  {
    hide Shows, SwapItems, Sift;
    var count := k;
    ghost var now := items;
    ShowsFreqs(table[..], now);
    while count > 1 && (table[count - 1].freq < table[count].freq || (evenEqual && table[count - 1].freq == table[count].freq))
      invariant 0 <= count <= k && |now| == |items|
      invariant Shows(table[..], now) && Sift(now, count, evenEqual) == Sift(items, k, evenEqual)
      invariant |now| <= table.Length && forall i :: 0 <= i < |now| ==> table[i].freq == now[i].freq
      invariant multiset(table[..]) == old(multiset(table[..]))
    {
      SiftStep(now, count, evenEqual);
      SwapEntries(table, count, now);
      now := SwapItems(now, count);
      ShowsFreqs(table[..], now);
      count := count - 1;
    }
    SiftStep(now, count, evenEqual);
  }

  lemma SiftStep(items: seq<Item>, k: nat, evenEqual: bool)
    requires k < |items|
    ensures Sift(items, k, evenEqual) ==
            if k > 1 && (items[k - 1].freq < items[k].freq || (evenEqual && items[k - 1].freq == items[k].freq))
            then Sift(SwapItems(items, k), k - 1, evenEqual) else items
  {
    hide SwapItems;
  }

  /** All nodes of the table are in `pool`. */
  ghost predicate Within(es: seq<Entry>, pool: set<CNode>)
    reads set i | 0 <= i < |es| :: es[i].node
  {
    forall i :: 0 <= i < |es| ==> es[i].node in pool && es[i].node.repr <= pool
  }

  lemma SameEntries(es: seq<Entry>, fs: seq<Entry>, pool: set<CNode>)
    requires multiset(es) == multiset(fs) && Within(es, pool)
    ensures Within(fs, pool)
  {
    forall i | 0 <= i < |fs| ensures fs[i].node in pool && fs[i].node.repr <= pool {
      assert fs[i] in multiset(es);
    }
  }

  // ----- The steps

  method EmptyTable() returns (table: array<Entry>, ghost pool: set<CNode>)
    ensures fresh(table) && fresh(pool) && table.Length == TABLE_SIZE
    ensures Shows(table[..], []) && Within(table[..], pool)
  {
    var dummy := new CNode.Leaf(EOS);
    table := new Entry[TABLE_SIZE](_ => Entry(0, dummy));
    pool := {dummy} + dummy.repr;
  }

  /** Parts 1 to 3: a leaf for each character, with its count. */
  method FillTable(w: Counts) returns (table: array<Entry>, ghost pool: set<CNode>)
    ensures fresh(table) && fresh(pool) && table.Length == TABLE_SIZE
    ensures Shows(table[..], FirstTable(w)) && Within(table[..], pool)
  {
    hide FirstTable, Shows, Within;
    table, pool := EmptyTable();
    var i := 0;
    ghost var items: seq<Item> := [];
    while i < TABLE_SIZE
      invariant 0 <= i <= TABLE_SIZE && |items| == i && fresh(table) && fresh(pool)
      invariant forall k :: 0 <= k < i ==> items[k] == Item(w[k], Leaf(k))
      invariant Shows(table[..], items) && Within(table[..], pool)
    {
      pool := AddLeaf(table, i, w[i], items, pool);
      items := items + [Item(w[i], Leaf(i))];
      i := i + 1;
    }
    FirstTableAt(w, items);
  }

  lemma FirstTableAt(w: Counts, items: seq<Item>)
    requires |items| == TABLE_SIZE && forall k :: 0 <= k < TABLE_SIZE ==> items[k] == Item(w[k], Leaf(k))
    ensures items == FirstTable(w)
  {
    SinglesAt(w, 255);
    hide Singles;
  }

  method AddLeaf(table: array<Entry>, i: nat, freq: nat, ghost items: seq<Item>,
          ghost pool: set<CNode>) returns (ghost pool': set<CNode>)
    requires i < TABLE_SIZE && i == |items| < table.Length && Shows(table[..], items) && Within(table[..], pool)
    modifies table
    ensures fresh(pool' - pool) && pool <= pool'
    ensures Shows(table[..], items + [Item(freq, Leaf(i))]) && Within(table[..], pool')
  {
    var node := new CNode.Leaf(i);
    table[i] := Entry(freq, node);
    pool' := pool + node.repr;
  }

  /** Part 4(a). */
  method SortTable(table: array<Entry>, ghost items: seq<Item>, ghost pool: set<CNode>)
    requires table.Length == |items| == TABLE_SIZE && Shows(table[..], items) && Within(table[..], pool)
    modifies table
    ensures Shows(table[..], SortFrom(items, 2)) && Within(table[..], pool)
  {
    var indx := 2;
    ghost var now := items;
    while indx < TABLE_SIZE
      invariant 2 <= indx <= TABLE_SIZE && |now| == TABLE_SIZE
      invariant Shows(table[..], now) && Within(table[..], pool)
      invariant SortFrom(now, indx) == SortFrom(items, 2)
    {
      ghost var es := table[..];
      MoveUp(table, indx, false, now);
      SameEntries(es, table[..], pool);
      now := Sift(now, indx, false);
      indx := indx + 1;
    }
  }

  /** One joining step: the trees at `indx` and before it become one. */
  method JoinEntries(table: array<Entry>, indx: nat, ghost items: seq<Item>,
          ghost pool: set<CNode>) returns (ghost pool': set<CNode>)
    requires 1 <= indx < table.Length && |items| == indx + 1 && Shows(table[..], items) && Within(table[..], pool)
    modifies table
    ensures Shows(table[..], MergeLast(items, EOS)) && Within(table[..], pool')
    ensures fresh(pool' - pool) && pool <= pool'
    ensures indx == 1 ==> table[1] == old(table[1])
  {
    var node := new CNode.Join(table[indx].node, table[indx - 1].node, EOS);
    pool' := pool + node.repr;
    table[indx - 1] := Entry(table[indx - 1].freq + table[indx].freq, node);
  }

  /** Part 4(b).  The last step joins the whole tree with end-of-string, in the
      entry of end-of-string; the tree itself stays where it was. */
  method JoinTable(table: array<Entry>, ghost items: seq<Item>,
          ghost pool: set<CNode>) returns (ghost pool': set<CNode>)
    requires table.Length == |items| == TABLE_SIZE && Shows(table[..], items) && Within(table[..], pool)
    modifies table
    ensures table[1].node.Valid() && table[1].node.tree == JoinAll(items)[1].tree
    ensures table[1].node.repr <= pool' && fresh(pool' - pool)
  {
    hide Shows, Within, Sift, MergeLast, JoinAll;
    var indx := TABLE_SIZE - 1;
    ghost var now := items;
    pool' := pool;
    while indx > 1
      invariant 1 <= indx < TABLE_SIZE && |now| == indx + 1
      invariant Shows(table[..], now) && Within(table[..], pool') && fresh(pool' - pool) && pool <= pool'
      invariant JoinAll(now) == JoinAll(items)
    {
      JoinStep(now);
      pool' := JoinEntries(table, indx, now, pool');
      ghost var es := table[..];
      MoveUp(table, indx - 1, true, MergeLast(now, EOS));
      SameEntries(es, table[..], pool');
      now := JoinOnce(now);
      indx := indx - 1;
    }
    JoinStep(now);
    pool' := JoinEos(table, now, pool');
  }

  lemma JoinStep(items: seq<Item>)
    requires |items| >= 2
    ensures JoinAll(items) == if |items| == 2 then items else JoinAll(JoinOnce(items))
    ensures |MergeLast(items, EOS)| == |items| - 1
  {
    hide Sift;
  }

  /** The last step, which leaves the tree at 1 as it is. */
  method JoinEos(table: array<Entry>, ghost items: seq<Item>, ghost pool: set<CNode>) returns (ghost pool': set<CNode>)
    requires 2 == |items| <= table.Length && Shows(table[..], items) && Within(table[..], pool)
    modifies table
    ensures table[1].node.Valid() && table[1].node.tree == items[1].tree
    ensures table[1].node.repr <= pool' && fresh(pool' - pool)
  {
    pool' := JoinEntries(table, 1, items, pool);
  }

  /** The counts are taken from the database file as it is on disk, and put right
      for characters that are special there. */
  function Adjusted(raw: Counts): Counts {
    var w1 := raw[']' as int := raw['[' as int]];
    var w2 := if w1[255] > 0 then w1[255 := w1[255] - 1] else w1;
    w2[10 := w2[10] / 16]
  }

  /** A closing bracket counts as often as an opening one, a newline a sixteenth
      as often, character 255 once less, and every other as it was counted. */
  lemma AdjustedCounts(raw: Counts)
    ensures var w := Adjusted(raw);
            && w[']' as int] == w['[' as int] == raw['[' as int]
            && 16 * w[10] <= raw[10] < 16 * w[10] + 16
            && (if raw[255] > 0 then w[255] + 1 == raw[255] else w[255] == 0)
            && forall c :: 0 <= c < 255 && c != ']' as int && c != 10 ==> w[c] == raw[c]
  {
  }

  /** The tree with which everything is compressed. */
  function CompressionTree(raw: Counts): Tree {
    SquashedTree(raw).tree
  }

  function SquashedTree(raw: Counts): Squashed {
    FixDepth(HuffmanTreeOf(Adjusted(raw)), 0, 2)
  }

  /** Parts 4(c) to 4(e). */
  method SquashAndFinish(root: CNode)
    requires root.Valid() && Full(root.tree)
    modifies root.repr
    ensures root.Valid() && fresh(root.repr - old(root.repr))
    ensures FixDepth(old(root.tree), 0, 2).tree.Node?
    ensures root.tree == Finish(FixDepth(old(root.tree), 0, 2).tree)
  {
    hide FixDepth, Finish, Full, Leaves;
    FixDepthFull(root.tree, 0, 2);
    var depth := FixTreeDepth(root, 0, 2);
    FinishTree(root);
  }

  /** Parts 1 to 4(b): the tree before it is squashed. */
  method JoinedTree(raw: Counts) returns (root: CNode)
    ensures root.Valid() && fresh(root.repr) && root.tree == HuffmanTreeOf(Adjusted(raw))
  {
    ghost var w := Adjusted(raw);
    var table, pool := FillTable(Adjusted(raw));
    JoinedTreeIs(w);
    hide FirstTable, SortFrom, JoinAll, HuffmanTreeOf, Shows, Within, Adjusted;
    SortTable(table, FirstTable(w), pool);
    ghost var pool' := JoinTable(table, SortFrom(FirstTable(w), 2), pool);
    root := table[1].node;
  }

  /** Parts 1 to 4 of `huff_init_compress`. */
  method BuildTree(raw: Counts) returns (ctop: CNode)
    ensures ctop.Valid() && fresh(ctop.repr) && ForAllChars(CompressionTree(raw))
    ensures ctop.tree == Finish(CompressionTree(raw))
  {
    ctop := JoinedTree(raw);
    HuffmanOptimalTree(Adjusted(raw));
    SquashedIsFull(raw);
    hide Finish, FixDepth, Full, Leaves, Adjusted, HuffmanTreeOf;
    SquashAndFinish(ctop);
  }

  lemma SquashedIsFull(raw: Counts)
    ensures ForAllChars(CompressionTree(raw))
  {
    HuffmanOptimalTree(Adjusted(raw));
    FixDepthFull(HuffmanTreeOf(Adjusted(raw)), 0, 2);
  }
}
