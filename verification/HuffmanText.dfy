/** Compressing and decompressing with the tree as linked nodes and the codes in
    two arrays, bit by bit. */
module HuffmanText {
  import opened Bytes
  import opened HuffmanTree
  import opened HuffmanCodes
  import opened HuffmanCodec
  import opened HuffmanNodes
  import opened HuffmanTable
  import opened HuffmanInit
  import opened HuffmanDepth
  import opened HuffmanLength
  import opened HuffmanSquash

  // ----- The code table

  /** The table filled in from the leaves below `t`, which `path` leads to. */
  function BuildTable(t: Tree, path: Code, tab: Table): Table
    decreases t
  {
    match t
    case Nil => tab
    case Node(l, c, r) =>
      if IsLeaf(t) then tab[c := path]
      else BuildTable(r, path + [true], BuildTable(l, path + [false], tab))
  }

  function NoCodes(): Table {
    seq(TABLE_SIZE, _ => [])
  }

  /** A character of the tree gets the path to one of its leaves, and any other
      keeps what it had. */
  lemma {:induction false} BuiltCode(t: Tree, path: Code, tab: Table, c: Byte) returns (p: Code)
    ensures c in Leaves(t) ==> IsCode(t, p, c) && BuildTable(t, path, tab)[c] == path + p
    ensures c !in Leaves(t) ==> BuildTable(t, path, tab)[c] == tab[c]
    decreases t
  {
    p := [];
    if t.Node? && !IsLeaf(t) {
      var tab' := BuildTable(t.left, path + [false], tab);
      var p1 := BuiltCode(t.left, path + [false], tab, c);
      var p2 := BuiltCode(t.right, path + [true], tab', c);
      if c in Leaves(t.right) {
        p := [true] + p2;
        assert p[1..] == p2 && path + [true] + p2 == path + p;
      } else {
        p := [false] + p1;
        assert p[1..] == p1 && path + [false] + p1 == path + p;
      }
    } else if c in Leaves(t) {
      assert path + p == path;
    }
  }

  /** A character at one leaf has one code. */
  lemma {:induction false} OneCode(t: Tree, p: Code, q: Code, c: Byte)
    requires multiset(Leaves(t))[c] == 1 && IsCode(t, p, c) && IsCode(t, q, c)
    ensures p == q
    decreases t
  {
    LongCode(t, p);
    LongCode(t, q);
    if !IsLeaf(t) {
      hide At;
      var child := if p[0] then t.right else t.left;
      CodeOfLeaf(child, p[1..], c);
      CodeOfLeaf(if q[0] then t.right else t.left, q[1..], c);
      assert multiset(Leaves(t)) == multiset(Leaves(t.left)) + multiset(Leaves(t.right));
      OneCode(child, p[1..], q[1..], c);
      assert p == [p[0]] + p[1..] && q == [q[0]] + q[1..];
    }
  }

  /** Where the first bit of a code leads. */
  lemma LongCode(t: Tree, p: Code)
    requires IsLeaf(At(t, p))
    ensures t.Node? && (IsLeaf(t) <==> p == []) && (p != [] ==> At(t, p) == At(if p[0] then t.right else t.left, p[1..]))
  {
    if p != [] { assert At(Nil, p[1..]) == Nil; }
  }

  lemma {:induction false} CodeOfLeaf(t: Tree, p: Code, c: Byte)
    requires IsCode(t, p, c)
    ensures c in multiset(Leaves(t))
  {
    if p != [] {
      assert forall r: Code :: At(Nil, r) == Nil;
      CodeOfLeaf(if p[0] then t.right else t.left, p[1..], c);
    }
  }

  lemma {:induction false} EosChainLeaves(n: nat)
    ensures Leaves(AddEos(Leaf(EOS), n)) == [EOS]
  {
    if n > 0 {
      assert AddEos(Leaf(EOS), n) == Node(AddEos(Leaf(EOS), n - 1), EOS, Nil);
      EosChainLeaves(n - 1);
    }
  }

  lemma {:induction false} AddEosLeaves(t: Tree, d: nat, n: nat)
    requires Edge(t, d) && d < n
    ensures Leaves(AddEos(t, n)) == [EOS] + Leaves(t)
    decreases n
  {
    if d == 0 { EosChainLeaves(n - 1); } else { AddEosLeaves(t.left, d - 1, n - 1); }
  }

  /** The finished tree has end-of-string at its first leaf, and after it the
      leaves it had before. */
  lemma FinishLeaves(t: Tree)
    requires Full(t)
    ensures Leaves(Finish(t)) == [EOS] + Leaves(t)
  {
    var u := AddOnes(ForceOne(t, 0), 0);
    ForceOneLeaves(t, 0);
    AddOnesLeaves(ForceOne(t, 0), 0);
    OnesSound(t);
    var d: nat :| d <= 4 && Edge(u, d);
    AddEosLeaves(u, d, 8);
  }

  lemma {:induction false} CharsCount(n: nat, c: Byte)
    requires n <= 255
    ensures multiset(Chars(n))[c] == if 1 <= c <= n then 1 else 0
  {
    if n > 0 {
      CharsCount(n - 1, c);
      assert multiset(Chars(n)) == multiset(Chars(n - 1)) + multiset{n};
    }
  }

  /** The table built from the finished tree. */
  function CodeTable(t: Tree): Table
    requires t.Node?
  {
    BuildTable(Finish(t), [], NoCodes())
  }

  /** Every byte labels exactly one leaf of the finished tree, and the table
      holds the path to it; for end-of-string that is eight zeros. */
  lemma TableComplete(t: Tree, c: Byte)
    requires ForAllChars(t)
    ensures multiset(Leaves(Finish(t)))[c] == 1
    ensures IsCode(Finish(t), CodeTable(t)[c], c)
    ensures forall p :: IsCode(Finish(t), p, c) ==> p == CodeTable(t)[c]
    ensures CodeTable(t)[EOS] == Zeros(8)
  {
    FullHasBoth(t);
    hide Leaves, Finish, BuildTable, At, Full, IsCode, AllChars, CodeTable;
    LeafOnce(t, 255, c);
    LeafOnce(t, 255, EOS);
    TableHasCode(t, c);
    TableHasCode(t, EOS);
    FinishCodes(t, Zeros(8), EOS);
    forall q | IsCode(Finish(t), q, c) ensures q == CodeTable(t)[c] { OneCode(Finish(t), q, CodeTable(t)[c], c); }
    OneCode(Finish(t), CodeTable(t)[EOS], Zeros(8), EOS);
  }

  lemma TableHasCode(t: Tree, c: Byte)
    requires t.Node? && c in Leaves(Finish(t))
    ensures IsCode(Finish(t), CodeTable(t)[c], c)
  {
    hide Leaves, Finish, BuildTable, IsCode;
    var p := BuiltCode(Finish(t), [], NoCodes(), c);
    assert [] + p == p;
  }

  lemma LeafOnce(t: Tree, n: nat, c: Byte)
    requires n == 255 && ForAllChars(t)
    ensures multiset(Leaves(Finish(t)))[c] == 1 && c in Leaves(Finish(t))
  {
    hide Chars, Leaves, Finish, Full;
    CharsCount(n, c);
    FinishLeaves(t);
    assert multiset(Leaves(t)) == multiset(Chars(n));
    assert multiset([EOS] + Leaves(t)) == multiset{EOS} + multiset(Leaves(t));
  }

  /** The arrays hold the codes of `tab` as numbers and lengths. */
  predicate HoldTable(ctable: array<nat>, ltable: array<nat>, tab: Table)
    reads ctable, ltable
  {
    && ctable.Length == TABLE_SIZE && ltable.Length == TABLE_SIZE
    && forall c: Byte :: ctable[c] == Value(tab[c]) && ltable[c] == |tab[c]|
  }

  lemma ValueSnoc(path: Code, bit: bool)
    ensures Value(path + [bit]) == Value(path) + (if bit then Pow2(|path|) else 0)
  {
    ValueConcat(path, [bit]);
    assert [bit][1..] == [];
    assert Value([bit]) == if bit then 1 else 0;
  }

  /** Fill the table from the leaves below `root`.  It stops, with `ok` false,
      at a code that is too long. */
  method BuildCtable(root: CNode, code: nat, numbits: nat, ctable: array<nat>, ltable: array<nat>,
          ghost path: Code, ghost tab: Table)
      returns (ok: bool)
    requires root.Valid() && HoldTable(ctable, ltable, tab) && ctable != ltable
    requires code == Value(path) && numbits == |path|
    modifies ctable, ltable
    ensures ok == ShortCodes(root.tree, numbits)
    ensures ok ==> HoldTable(ctable, ltable, BuildTable(root.tree, path, tab))
    decreases root.tree
  {
    if root.left == null && root.right == null {
      ctable[root.c] := code;
      ltable[root.c] := numbits;
      return numbits <= CODE_BITS;
    }
    hide HoldTable, Value;
    ok := true;
    ghost var tab' := tab;
    if root.left != null {
      ValueSnoc(path, false);
      ok := BuildCtable(root.left, code, numbits + 1, ctable, ltable, path + [false], tab);
      tab' := BuildTable(root.tree.left, path + [false], tab);
    }
    if ok && root.right != null {
      ValueSnoc(path, true);
      ok := BuildCtable(root.right, code + Pow2(numbits), numbits + 1, ctable, ltable, path + [true], tab');
    }
  }

  /** The whole of `huff_init_compress`.  When it returns, the arrays hold the
      code table of the tree, and no code is longer than CODE_BITS.  It gives up
      exactly if the ones make some code of the squashed tree too long, and never
      if squashing leaves two bits for them. */
  method HuffInitCompress(raw: Counts) returns (ok: bool, ctop: CNode, ctable: array<nat>, ltable: array<nat>)
    ensures ctop.Valid() && ForAllChars(CompressionTree(raw)) && ctop.tree == Finish(CompressionTree(raw))
    ensures ok == ShortCodes(ctop.tree, 0) == FinishedShort(CompressionTree(raw))
    ensures SquashedTree(raw).depth <= CODE_BITS - 2 ==> ok
    ensures CompressionTree(raw) == HuffmanTreeOf(Adjusted(raw)) <==> Level(HuffmanTreeOf(Adjusted(raw)), 0, 2)
    ensures ok ==> HoldTable(ctable, ltable, CodeTable(CompressionTree(raw)))
    ensures ok ==> forall c: Byte {:trigger ltable[c]} :: 0 < ltable[c] <= CODE_BITS
    ensures Depth(HuffmanTreeOf(Adjusted(raw))) <= SAFE_DEPTH ==> ok && CompressionTree(raw) == HuffmanTreeOf(Adjusted(raw))
    ensures NoneRare(Adjusted(raw)) ==> ok
  {
    hide CompressionTree, ShortCodes, Finish, BuildTable, Leaves, AllChars, Value, Depth, NoneRare, HuffmanTreeOf, Adjusted,
      FinishedShort, SquashedTree, Level;
    InitShallow(raw);
    ctop := BuildTree(raw);
    InitShort(raw);
    ctable, ltable := EmptyTables();
    ok := BuildCtable(ctop, 0, 0, ctable, ltable, [], NoCodes());
    if ok { HeldLengths(CompressionTree(raw), ctable, ltable); }
  }

  /** A joined tree that is shallow enough, as it is when no character is rare,
      is taken as it is and gives codes that are short enough. */
  lemma InitShallow(raw: Counts)
    ensures var t := HuffmanTreeOf(Adjusted(raw));
            t.Node? && (Depth(t) <= SAFE_DEPTH ==> CompressionTree(raw) == t && ShortCodes(Finish(t), 0))
    ensures NoneRare(Adjusted(raw)) ==> Depth(HuffmanTreeOf(Adjusted(raw))) <= SAFE_DEPTH
  {
    var t := HuffmanTreeOf(Adjusted(raw));
    JoinedFull(Adjusted(raw));
    hide Finish, HuffmanTreeOf, Adjusted, Depth, NoneRare, Full;
    if Depth(t) <= SAFE_DEPTH { ShallowFits(t); }
    if NoneRare(Adjusted(raw)) { NoneRareShallow(Adjusted(raw)); }
  }

  /** Which squashed trees give codes that are short enough. */
  lemma InitShort(raw: Counts)
    requires ForAllChars(CompressionTree(raw))
    ensures CompressionTree(raw).Node? && (ShortCodes(Finish(CompressionTree(raw)), 0) <==> FinishedShort(CompressionTree(raw)))
    ensures SquashedTree(raw).depth <= CODE_BITS - 2 ==> ShortCodes(Finish(CompressionTree(raw)), 0)
    ensures CompressionTree(raw) == HuffmanTreeOf(Adjusted(raw)) <==> Level(HuffmanTreeOf(Adjusted(raw)), 0, 2)
  {
    JoinedFull(Adjusted(raw));
    ShortCodesExactly(CompressionTree(raw));
    SquashedFits(HuffmanTreeOf(Adjusted(raw)));
    LeftAlone(HuffmanTreeOf(Adjusted(raw)), 0, 2);
    hide Finish, Level, HuffmanTreeOf, Adjusted, Full, FixDepth, ShortCodes, FinishedShort, Leaves, AllChars;
  }

  lemma JoinedFull(w: Counts)
    ensures Full(HuffmanTreeOf(w)) && HuffmanTreeOf(w).Node?
  {
    HuffmanOptimalTree(w);
    FullHasBoth(HuffmanTreeOf(w));
    hide HuffmanTreeOf, Bits, Leaves, AllChars, Full;
  }

  method EmptyTables() returns (ctable: array<nat>, ltable: array<nat>)
    ensures fresh(ctable) && fresh(ltable) && ctable != ltable && HoldTable(ctable, ltable, NoCodes()) && Value([]) == 0
  {
    ctable, ltable := new nat[TABLE_SIZE](_ => 0), new nat[TABLE_SIZE](_ => 0);
  }

  lemma HeldLengths(t: Tree, ctable: array<nat>, ltable: array<nat>)
    requires ForAllChars(t) && ShortCodes(Finish(t), 0) && HoldTable(ctable, ltable, CodeTable(t))
    ensures forall c: Byte {:trigger ltable[c]} :: 0 < ltable[c] <= CODE_BITS
  {
    hide Finish, BuildTable, Leaves, AllChars, Value, ShortCodes, CodeTable;
    forall c: Byte ensures 0 < ltable[c] <= CODE_BITS {
      assert ltable[c] == |CodeTable(t)[c]|;
      CodeLengths(t, c);
    }
  }

  lemma CodeLengths(t: Tree, c: Byte)
    requires ForAllChars(t) && ShortCodes(Finish(t), 0)
    ensures 0 < |CodeTable(t)[c]| <= CODE_BITS
  {
    TableComplete(t, c);
    FinishCodes(t, CodeTable(t)[c], c);
    ShortCodesLength(Finish(t), 0, CodeTable(t)[c], c);
    if c != EOS { SoundCode(AddOnes(ForceOne(t, 0), 0), CodeTable(t)[c], c); }
  }

  // ----- Compressing

  lemma {:induction false} EncodeSnoc(tab: Table, s: Text, c: Byte)
    ensures Encode(tab, s + [c]) == Encode(tab, s) + tab[c]
  {
    if s == [] {
      assert Encode(tab, [] + [c]) == tab[c] + Encode(tab, []);
    } else {
      assert (s + [c])[1..] == s[1..] + [c];
      EncodeSnoc(tab, s[1..], c);
    }
  }

  /** The C string at `i` ends where the walk along it does. */
  lemma {:induction false} CStringStep(mem: Text, i: nat, s: Text)
    requires i < |mem| && CStringAt(mem, 0) == s + CStringAt(mem, i)
    ensures mem[i] != 0 ==> CStringAt(mem, 0) == s + [mem[i]] + CStringAt(mem, i + 1)
    ensures mem[i] == 0 ==> CStringAt(mem, 0) == s
  {
  }

  /** Part 1: how many bits the text will take. */
  method CountBits(mem: Text, ltable: array<nat>, ctable: array<nat>, ghost tab: Table) returns (bits: nat)
    requires HoldTable(ctable, ltable, tab) && 0 in mem
    ensures bits == |Encode(tab, CStringAt(mem, 0))|
  {
    bits := 0;
    var p := 0;
    ghost var s: Text := [];
    ghost var z :| 0 <= z < |mem| && mem[z] == 0;
    while mem[p] != 0
      invariant 0 <= p <= z && CStringAt(mem, 0) == s + CStringAt(mem, p)
      invariant bits == |Encode(tab, s)|
      decreases z - p
    {
      CStringStep(mem, p, s);
      EncodeSnoc(tab, s, mem[p]);
      bits := bits + ltable[mem[p]];
      s := s + [mem[p]];
      p := p + 1;
    }
    CStringStep(mem, p, s);
  }

  /** `n` bytes of the code `e` are in the buffer, and the rest of it is on the
      stage. */
  ghost predicate Packing(e: Code, buf: array<Byte>, n: nat, stage: nat)
    reads buf
  {
    n <= buf.Length && CHAR_BITS * n <= |e| && buf[..n] == Pack(e[..CHAR_BITS * n]) && stage == Value(e[CHAR_BITS * n..])
  }

  lemma PackSnoc(e: Code, n: nat)
    requires CHAR_BITS * (n + 1) <= |e|
    ensures var byte := e[CHAR_BITS * n..CHAR_BITS * (n + 1)];
            && Pack(e[..CHAR_BITS * (n + 1)]) == Pack(e[..CHAR_BITS * n]) + [ByteOf(byte)]
            && Value(e[CHAR_BITS * n..]) == Value(byte) + 256 * Value(e[CHAR_BITS * (n + 1)..])
  {
    var byte, rest := e[CHAR_BITS * n..CHAR_BITS * (n + 1)], e[CHAR_BITS * (n + 1)..];
    assert e[..CHAR_BITS * (n + 1)] == e[..CHAR_BITS * n] + byte;
    PackConcat(e[..CHAR_BITS * n], byte);
    assert byte[..CHAR_BITS] == byte && byte[CHAR_BITS..] == [];
    assert Pack(byte) == [ByteOf(byte)];
    assert e[CHAR_BITS * n..] == byte + rest;
    ValueConcat(byte, rest);
    assert Pow2(8) == 256;
  }

  /** Put a full byte of the stage into the buffer. */
  method EmitByte(buf: array<Byte>, n: nat, stage: nat, ghost e: Code) returns (stage': nat)
    requires Packing(e, buf, n, stage) && CHAR_BITS * (n + 1) <= |e| && n < buf.Length
    modifies buf
    ensures Packing(e, buf, n + 1, stage')
  {
    PackSnoc(e, n);
    ghost var byte := e[CHAR_BITS * n..CHAR_BITS * (n + 1)];
    assert Value(byte) == ByteOf(byte) < 256;
    hide Pack, Value;
    buf[n] := stage % 256;
    stage' := stage / 256;
    assert buf[..n + 1] == buf[..n] + [buf[n]];
  }

  lemma StageCode(e: Code, n: nat, p: Code, stage: nat)
    requires CHAR_BITS * n <= |e| && stage == Value(e[CHAR_BITS * n..])
    ensures Value((e + p)[CHAR_BITS * n..]) == stage + Value(p) * Pow2(|e| - CHAR_BITS * n)
    ensures (e + p)[..CHAR_BITS * n] == e[..CHAR_BITS * n]
  {
    assert (e + p)[CHAR_BITS * n..] == e[CHAR_BITS * n..] + p;
    ValueConcat(e[CHAR_BITS * n..], p);
  }

  lemma {:induction false} Pow2Grows(m: nat, n: nat)
    requires m <= n
    ensures Pow2(m) <= Pow2(n)
  {
    if m < n { Pow2Grows(m, n - 1); }
  }

  /** What is on the stage fits 32 bits. */
  lemma StageFits(e: Code, n: nat)
    requires CHAR_BITS * n <= |e| < CHAR_BITS * n + CODE_BITS + CHAR_BITS
    ensures Value(e[CHAR_BITS * n..]) < 0x1_0000_0000
  {
    ValueBound(e[CHAR_BITS * n..]);
    Pow2Grows(|e| - CHAR_BITS * n, 32);
    assert Pow2(32) == 0x1_0000_0000 by { assert Pow2(8) == 256 && Pow2(16) == 65536; assert Pow2(20) == 0x10_0000 && Pow2(26) == 0x400_0000; }
  }

  /** Put one code on the stage, and the full bytes of the stage into the
      buffer. */
  method PutCode(buf: array<Byte>, n: nat, stage: nat, bits: nat, code: nat, length: nat, ghost e: Code, ghost p: Code)
      returns (n': nat, stage': nat, bits': nat)
    requires Packing(e, buf, n, stage) && bits == |e| - CHAR_BITS * n < CHAR_BITS
    requires code == Value(p) && length == |p| <= CODE_BITS && |e + p| <= CHAR_BITS * buf.Length
    modifies buf
    ensures Packing(e + p, buf, n', stage') && bits' == |e + p| - CHAR_BITS * n' < CHAR_BITS
  {
    StageCode(e, n, p, stage);
    StageFits(e + p, n);
    n', stage', bits' := n, stage + code * Pow2(bits), bits + length;
    hide Pack, Value, Pow2;
    assert stage' < 0x1_0000_0000;
    while bits' >= CHAR_BITS
      invariant Packing(e + p, buf, n', stage') && bits' == |e + p| - CHAR_BITS * n'
      decreases bits'
    {
      stage' := EmitByte(buf, n', stage', e + p);
      n', bits' := n' + 1, bits' - CHAR_BITS;
    }
  }

  lemma {:induction false} ValuePadded(p: Code, k: nat)
    ensures Value(p + Zeros(k)) == Value(p)
  {
    ValueConcat(p, Zeros(k));
    ZeroValue(Zeros(k));
  }

  lemma PackingPadded(e: Code, buf: array<Byte>, n: nat, stage: nat)
    requires Packing(e, buf, n, stage)
    ensures Packing(Padded(e), buf, n, stage)
  {
    var k := NeededLength(|e|) * CHAR_BITS - |e|;
    assert Padded(e)[..CHAR_BITS * n] == e[..CHAR_BITS * n];
    assert Padded(e)[CHAR_BITS * n..] == e[CHAR_BITS * n..] + Zeros(k);
    ValuePadded(e[CHAR_BITS * n..], k);
  }

  /** The last bytes: what is on the stage, and end-of-string. */
  method PutEos(buf: array<Byte>, n0: nat, stage0: nat, bits0: nat, length: nat, ghost e: Code)
    requires Packing(e, buf, n0, stage0) && bits0 == |e| - CHAR_BITS * n0 && length == 8
    requires buf.Length == NeededLength(|e|)
    modifies buf
    ensures buf[..] == Pack(Padded(e))
  {
    PackingPadded(e, buf, n0, stage0);
    hide Pack, Value, Padded;
    var n: nat, stage: nat, bits := n0, stage0, bits0 + length + CHAR_BITS - 1;
    while bits >= CHAR_BITS
      invariant n <= buf.Length && Packing(Padded(e), buf, n, stage) && bits / CHAR_BITS == buf.Length - n
    {
      stage := EmitByte(buf, n, stage, Padded(e));
      n, bits := n + 1, bits - CHAR_BITS;
    }
    assert Padded(e)[..CHAR_BITS * n] == Padded(e);
    assert buf[..n] == buf[..];
  }

  lemma {:induction false} EncodePrefix(tab: Table, s: Text, rest: Text)
    ensures |Encode(tab, s + rest)| >= |Encode(tab, s)|
  {
    if s == [] {
      assert s + rest == rest;
    } else {
      assert (s + rest)[1..] == s[1..] + rest;
      EncodePrefix(tab, s[1..], rest);
    }
  }

  lemma FirstZero(mem: Text) returns (z: nat)
    requires 0 in mem
    ensures z < |mem| && mem[z] == 0
  {
    z :| 0 <= z < |mem| && mem[z] == 0;
  }

  /** A buffer of the size needed, with nothing packed into it. */
  method NewBuffer(mem: Text, ctable: array<nat>, ltable: array<nat>, ghost tab: Table) returns (buf: array<Byte>)
    requires HoldTable(ctable, ltable, tab) && 0 in mem
    ensures fresh(buf) && buf.Length == NeededLength(|Encode(tab, CStringAt(mem, 0))|)
    ensures Encode(tab, []) == [] && Packing([], buf, 0, 0)
    ensures CStringAt(mem, 0) == [] + CStringAt(mem, 0)
  {
    var total := CountBits(mem, ltable, ctable, tab);
    buf := new Byte[NeededLength(total)](_ => 0);
    hide CStringAt;
  }

  /** Compress the C string at the start of `mem`. */
  method HuffTextCompress(mem: Text, ctable: array<nat>, ltable: array<nat>,
          ghost tab: Table) returns (buf: array<Byte>)
    requires HoldTable(ctable, ltable, tab) && 0 in mem
    requires |tab[EOS]| == 8 && forall c: Byte {:trigger tab[c]} :: |tab[c]| <= CODE_BITS
    ensures buf[..] == Compressed(tab, CStringAt(mem, 0))
  {
    hide Encode, CStringAt, Packing, HoldTable, NeededLength;
    ghost var text, s: Text := CStringAt(mem, 0), [];
    ghost var z := FirstZero(mem);
    buf := NewBuffer(mem, ctable, ltable, tab);
    var p, n, stage, bits := 0, 0, 0, 0;
    while mem[p] != 0
      invariant 0 <= p <= z && text == s + CStringAt(mem, p)
      invariant buf.Length == NeededLength(|Encode(tab, text)|) && fresh(buf) && HoldTable(ctable, ltable, tab)
      invariant Packing(Encode(tab, s), buf, n, stage) && bits == |Encode(tab, s)| - CHAR_BITS * n < CHAR_BITS
      decreases z - p
    {
      NextCharacter(mem, p, s, tab, text);
      HeldCode(ctable, ltable, tab, mem[p]);
      n, stage, bits := PutCode(buf, n, stage, bits, ctable[mem[p]], ltable[mem[p]], Encode(tab, s), tab[mem[p]]);
      s := s + [mem[p]];
      p := p + 1;
    }
    CStringStep(mem, p, s);
    HeldCode(ctable, ltable, tab, EOS);
    PutEos(buf, n, stage, bits, ltable[EOS], Encode(tab, s));
  }

  lemma HeldCode(ctable: array<nat>, ltable: array<nat>, tab: Table, c: Byte)
    requires HoldTable(ctable, ltable, tab)
    ensures ctable.Length == ltable.Length == TABLE_SIZE && ctable[c] == Value(tab[c]) && ltable[c] == |tab[c]|
  {
  }

  /** One more character still fits the buffer that was made for all of them. */
  lemma NextCharacter(mem: Text, p: nat, s: Text, tab: Table, text: Text)
    requires p < |mem| && mem[p] != 0 && text == CStringAt(mem, 0) == s + CStringAt(mem, p)
    ensures text == (s + [mem[p]]) + CStringAt(mem, p + 1)
    ensures Encode(tab, s + [mem[p]]) == Encode(tab, s) + tab[mem[p]]
    ensures |Encode(tab, s) + tab[mem[p]]| <= CHAR_BITS * NeededLength(|Encode(tab, text)|)
  {
    hide Encode, CStringAt;
    CStringStep(mem, p, s);
    EncodeSnoc(tab, s, mem[p]);
    EncodePrefix(tab, s + [mem[p]], CStringAt(mem, p + 1));
  }

  // ----- Decompressing

  /** How decompressing comes to an end. */
  datatype Ending = Returned | AtNoChild | PastInput

  function EndingOf(d: Decoded): Ending {
    match d
    case Done(_) => Returned
    case NoChild => AtNoChild
    case Overrun => PastInput
  }

  /** Decompress the C string at the start of `mem` into `buf`.  Where the C
      code would follow a null pointer or read past `mem`, it ends and says so. */
  method HuffTextUncompress(ctop: CNode, mem: Text, buf: array<Byte>) returns (ending: Ending)
    requires ctop.Valid() && buf.Length >= 2
    modifies buf
    ensures ending == EndingOf(Uncompressed(ctop.tree, mem, buf.Length))
    ensures ending.Returned? ==> CStringAt(buf[..], 0) == CStringAt(Uncompressed(ctop.tree, mem, buf.Length).out + [EOS], 0)
  {
    buf[0] := 0;
    if |mem| == 0 || mem[0] == 0 {
      return Returned;
    }
    var p, node, b: nat := 0, ctop, 0;
    ghost var all := Uncompressed(ctop.tree, mem, buf.Length);
    while p < |mem|
      invariant p <= |mem| && node.Valid() && b + 1 < buf.Length
      invariant Walk(ctop.tree, mem, buf.Length, p * CHAR_BITS, node.tree, buf[..b]) == all
    {
      var bitpos := 0;
      while bitpos < CHAR_BITS
        invariant 0 <= bitpos <= CHAR_BITS && p < |mem| && node.Valid() && b + 1 < buf.Length
        invariant Walk(ctop.tree, mem, buf.Length, p * CHAR_BITS + bitpos, node.tree, buf[..b]) == all
      {
        var end;
        node, b, end := WalkTree(ctop, node, mem, p, bitpos, buf, b, all);
        if end.Some? {
          return end.value;
        }
        bitpos := bitpos + 1;
      }
      p := p + 1;
    }
    return PastInput;
  }

  /** One step of the walk: bit `bitpos` of byte `p`. */
  method WalkTree(ctop: CNode, from: CNode, mem: Text, p: nat, bitpos: nat, buf: array<Byte>, b0: nat,
          ghost all: Decoded)
      returns (node: CNode, b: nat, end: Option<Ending>)
    requires ctop.Valid() && from.Valid() && p < |mem| && bitpos < CHAR_BITS && b0 + 1 < buf.Length
    requires Walk(ctop.tree, mem, buf.Length, p * CHAR_BITS + bitpos, from.tree, buf[..b0]) == all
    modifies buf
    ensures end.Some? ==> end.value == EndingOf(all)
    ensures end == Some(Returned) ==> CStringAt(buf[..], 0) == CStringAt(all.out + [EOS], 0)
    ensures end.None? ==> node.Valid() && b + 1 < buf.Length
    ensures end.None? ==> Walk(ctop.tree, mem, buf.Length, p * CHAR_BITS + bitpos + 1, node.tree, buf[..b]) == all
  {
    ghost var out := buf[..b0];
    node, b, end := from, b0, None;
    assert BitAt(mem, p * CHAR_BITS + bitpos) == Bit(mem[p], bitpos);
    var child := if Bit(mem[p], bitpos) then from.right else from.left;
    if child == null {
      end := Some(AtNoChild);
      return;
    }
    node := child;
    if node.left == null && node.right == null {
      buf[b] := node.c;
      b := b + 1;
      assert buf[..b] == out + [node.c];
      if mem[p] == 0 || b >= buf.Length - 1 {
        buf[b] := EOS;
        assert buf[..b + 1] == out + [node.c] + [EOS];
        SameString(buf[..], out + [node.c] + [EOS], b + 1);
        end := Some(Returned);
        return;
      }
      if node.c == EOS {
        assert all.out[b - 1] == EOS;
        SameString(buf[..], all.out + [EOS], b);
        end := Some(Returned);
        return;
      }
      node := ctop;
    }
  }

  /** C strings that are the same up to a zero are the same. */
  lemma SameString(x: Text, y: Text, n: nat)
    requires 0 < n <= |x| && n <= |y| && x[..n] == y[..n] && x[n - 1] == 0
    ensures CStringAt(x, 0) == CStringAt(y, 0)
  {
    assert forall i :: 0 <= i < n ==> x[i] == y[i] by { assert forall i :: 0 <= i < n ==> x[i] == x[..n][i] && y[i] == y[..n][i]; }
    SameFrom(x, y, n, 0);
  }

  lemma {:induction false} SameFrom(x: Text, y: Text, n: nat, i: nat)
    requires i < n <= |x| && n <= |y| && x[n - 1] == 0 && forall j :: 0 <= j < n ==> x[j] == y[j]
    ensures CStringAt(x, i) == CStringAt(y, i)
    decreases n - i
  {
    if x[i] != 0 { SameFrom(x, y, n, i + 1); }
  }

  // ----- All together

  /** With any database to take counts from: a text that fits the buffer comes
      back from being compressed, stored and decompressed. */
  lemma HuffmanRoundTrip(raw: Counts, size: nat, s: Text)
    requires NulFree(s) && |s| < size
    ensures CompressionTree(raw).Node?
    ensures var t := CompressionTree(raw);
            var d := Uncompressed(Finish(t), Stored(Compressed(CodeTable(t), s)), size);
            d.Done? && CStringAt(d.out + [EOS], 0) == s
  {
    SquashedIsFull(raw);
    var t := CompressionTree(raw);
    hide CompressionTree, CodeTable;
    forall c: Byte | c != EOS ensures IsCode(Finish(t), CodeTable(t)[c], c) { TableComplete(t, c); }
    RoundTrip(t, CodeTable(t), size, s);
  }
}
