/** Packing codes into bytes and walking the tree to get the text back. */
module HuffmanCodec {
  import opened Bytes
  import opened HuffmanTree
  import opened HuffmanCodes

  const CHAR_BITS := 8

  // ----- Numbers as bits, lowest first

  function Pow2(n: nat): (p: nat)
    ensures p >= 1
  {
    if n == 0 then 1 else 2 * Pow2(n - 1)
  }

  function Value(p: Code): nat {
    if p == [] then 0 else (if p[0] then 1 else 0) + 2 * Value(p[1..])
  }

  function Bit(v: nat, k: nat): bool {
    if k == 0 then v % 2 == 1 else Bit(v / 2, k - 1)
  }

  lemma {:induction false} ValueBound(p: Code)
    ensures Value(p) < Pow2(|p|)
  {
    if p != [] { ValueBound(p[1..]); }
  }

  lemma {:induction false} ValueConcat(p: Code, q: Code)
    ensures Value(p + q) == Value(p) + Value(q) * Pow2(|p|)
  {
    if p == [] {
      assert p + q == q;
    } else {
      assert (p + q)[0] == p[0] && (p + q)[1..] == p[1..] + q;
      ValueConcat(p[1..], q);
      var bit := if p[0] then 1 else 0;
      assert Value(p + q) == bit + 2 * Value(p[1..] + q) && Value(p) == bit + 2 * Value(p[1..]) && Pow2(|p|) == 2 * Pow2(|p[1..]|);
      hide Value, Pow2;
      OneBitMore(bit, Value(p[1..]), Value(q), Pow2(|p[1..]|));
    }
  }

  lemma OneBitMore(bit: nat, x: nat, y: nat, k: nat)
    ensures bit + 2 * (x + y * k) == (bit + 2 * x) + y * (2 * k)
  {
    assert y * (2 * k) == 2 * (y * k);
  }

  lemma {:induction false} BitOfValue(p: Code, k: nat)
    requires k < |p|
    ensures Bit(Value(p), k) == p[k]
  {
    assert Value(p) / 2 == Value(p[1..]);
    if k > 0 { BitOfValue(p[1..], k - 1); }
  }

  lemma {:induction false} ZeroValue(p: Code)
    ensures Value(p) == 0 <==> forall k :: 0 <= k < |p| ==> !p[k]
  {
    if p != [] {
      ZeroValue(p[1..]);
      assert forall k :: 1 <= k < |p| ==> p[k] == p[1..][k - 1];
    }
  }

  // ----- Bytes of bits

  function ByteOf(p: Code): Byte
    requires |p| == CHAR_BITS
  {
    ValueBound(p);
    assert Pow2(8) == 256;
    Value(p)
  }

  function Pack(p: Code): (b: seq<Byte>)
    requires |p| % CHAR_BITS == 0
    ensures |b| * CHAR_BITS == |p|
  {
    if p == [] then [] else [ByteOf(p[..CHAR_BITS])] + Pack(p[CHAR_BITS..])
  }

  /** Bit `k` of a run of bytes. */
  function BitAt(b: seq<Byte>, k: nat): bool
    requires k < |b| * CHAR_BITS
  {
    Bit(b[k / CHAR_BITS], k % CHAR_BITS)
  }

  lemma {:induction false} PackedByte(p: Code, i: nat)
    requires |p| % CHAR_BITS == 0 && (i + 1) * CHAR_BITS <= |p|
    ensures Pack(p)[i] == ByteOf(p[i * CHAR_BITS..(i + 1) * CHAR_BITS])
  {
    if i > 0 {
      PackedByte(p[CHAR_BITS..], i - 1);
      assert p[CHAR_BITS..][(i - 1) * CHAR_BITS..i * CHAR_BITS] == p[i * CHAR_BITS..(i + 1) * CHAR_BITS];
    }
  }

  lemma PackedBit(p: Code, k: nat)
    requires |p| % CHAR_BITS == 0 && k < |p|
    ensures BitAt(Pack(p), k) == p[k]
  {
    var i := k / CHAR_BITS;
    PackedByte(p, i);
    BitOfValue(p[i * CHAR_BITS..(i + 1) * CHAR_BITS], k % CHAR_BITS);
  }

  lemma {:induction false} PackConcat(p: Code, q: Code)
    requires |p| % CHAR_BITS == 0 && |q| % CHAR_BITS == 0
    ensures Pack(p + q) == Pack(p) + Pack(q)
  {
    if p == [] {
      assert p + q == q;
    } else {
      hide Value;
      assert (p + q)[..CHAR_BITS] == p[..CHAR_BITS] && (p + q)[CHAR_BITS..] == p[CHAR_BITS..] + q;
      PackConcat(p[CHAR_BITS..], q);
    }
  }

  // ----- Compressing

  /** The code of each character. */
  type Table = t: seq<Code> | |t| == TABLE_SIZE witness seq(TABLE_SIZE, _ => [])

  function Encode(tab: Table, s: Text): Code {
    if s == [] then [] else tab[s[0]] + Encode(tab, s[1..])
  }

  /** The length of the output, as computed before compressing. */
  function NeededLength(bits: nat): nat {
    (bits + CHAR_BITS * 2 - 1) / CHAR_BITS
  }

  /** The bits of the text, filled up with zeros. */
  function Padded(p: Code): (q: Code)
    ensures |q| == NeededLength(|p|) * CHAR_BITS
  {
    p + Zeros(NeededLength(|p|) * CHAR_BITS - |p|)
  }

  function Compressed(tab: Table, s: Text): seq<Byte> {
    Pack(Padded(Encode(tab, s)))
  }

  /** What is left of a string when it has been stored by its length as a C
      string and fetched again. */
  function Stored(b: seq<Byte>): seq<Byte> {
    CStringAt(b, 0) + [0]
  }

  // ----- Decompressing

  /** Done, or the decoder stepped to a child that is not there, or it read past
      the end of its input. */
  datatype Decoded = Done(out: Text) | NoChild | Overrun

  /** The decoder at bit `k` of its input `b`, at `node` of tree `t`, having put
      `out` into its buffer of `size` bytes. */
  function Walk(t: Tree, b: seq<Byte>, size: nat, k: nat, node: Tree, out: Text): Decoded
    requires t.Node? && node.Node?
    decreases |b| * CHAR_BITS - k
  {
    if k >= |b| * CHAR_BITS then Overrun
    else
      var child := if BitAt(b, k) then node.right else node.left;
      if child.Nil? then NoChild
      else if !IsLeaf(child) then Walk(t, b, size, k + 1, child, out)
      else AtLeaf(t, b, size, k, child.c, out)
  }

  /** At a leaf: put its character into the buffer, and stop at the last byte of
      the input, when the buffer is full, or at end-of-string. */
  function AtLeaf(t: Tree, b: seq<Byte>, size: nat, k: nat, c: Byte, out: Text): Decoded
    requires t.Node? && k < |b| * CHAR_BITS
    decreases |b| * CHAR_BITS - k, 0
  {
    var out' := out + [c];
    if b[k / CHAR_BITS] == 0 || |out'| + 1 >= size || c == EOS then Done(out')
    else Walk(t, b, size, k + 1, t, out')
  }

  function Uncompressed(t: Tree, b: seq<Byte>, size: nat): Decoded
    requires t.Node?
  {
    if b == [] || b[0] == 0 then Done([]) else Walk(t, b, size, 0, t, [])
  }

  // ----- The round trip

  /** A table that goes with the finished tree of `t`. */
  predicate TableFits(t: Tree, tab: Table)
    requires t.Node?
  {
    forall c: Byte {:trigger tab[c]} :: c != EOS ==> IsCode(Finish(t), tab[c], c)
  }

  /** The codes of characters are good. */
  lemma TableGood(t: Tree, tab: Table, c: Byte)
    requires t.Node? && TableFits(t, tab) && c != EOS
    ensures GoodCode(tab[c])
  {
    FinishCodes(t, tab[c], c);
    SoundCode(AddOnes(ForceOne(t, 0), 0), tab[c], c);
  }

  /** Walking down the bits of a code ends at its leaf. */
  lemma {:induction false} WalkCode(t: Tree, b: seq<Byte>, size: nat, k: nat, node: Tree, out: Text, p: Code, c: Byte)
    requires t.Node? && IsCode(node, p, c) && p != []
    requires k + |p| <= |b| * CHAR_BITS && forall i :: 0 <= i < |p| ==> BitAt(b, k + i) == p[i]
    ensures Walk(t, b, size, k, node, out) == AtLeaf(t, b, size, k + |p| - 1, c, out)
    decreases |p|
  {
    var child := if p[0] then node.right else node.left;
    assert BitAt(b, k + 0) == p[0];
    assert At(node, p) == At(child, p[1..]) && At(Nil, p[1..]) == Nil;
    if |p| > 1 {
      assert IsLeaf(child) ==> At(child, p[1..]) == At(Nil, p[1..][1..]);
      forall i | 0 <= i < |p[1..]| ensures BitAt(b, k + 1 + i) == p[1..][i] {
        assert BitAt(b, k + (i + 1)) == p[i + 1];
      }
      WalkCode(t, b, size, k + 1, child, out, p[1..], c);
    }
  }

  /** The bits of `b` from `k` on are `p` and then zeros. */
  predicate BitsFrom(b: seq<Byte>, k: nat, p: Code) {
    && k + |p| <= |b| * CHAR_BITS
    && (forall i {:trigger p[i]} :: 0 <= i < |p| ==> BitAt(b, k + i) == p[i])
    && (forall j {:trigger BitAt(b, j)} :: k + |p| <= j < |b| * CHAR_BITS ==> !BitAt(b, j))
  }

  /** A C string together with its zero. */
  predicate Terminated(b: seq<Byte>) {
    |b| > 0 && b[|b| - 1] == 0 && NulFree(b[..|b| - 1])
  }

  lemma {:induction false} ZeroBits(k: nat)
    ensures !Bit(0, k)
  {
    if k > 0 { ZeroBits(k - 1); }
  }

  /** What follows a character cannot all be in the terminating zero byte. */
  lemma {:induction false} LaterCodeHasOne(b: seq<Byte>, k: nat, p: Code, rest: Code)
    requires Terminated(b) && BitsFrom(b, k, p + rest) && LeadingZeros(p) < |p|
    ensures k < (|b| - 1) * CHAR_BITS
  {
    var j := LeadingZeros(p);
    FirstOne(p);
    assert (p + rest)[j] == p[j];
    if k >= (|b| - 1) * CHAR_BITS {
      assert (k + j) / CHAR_BITS == |b| - 1;
      ZeroBits((k + j) % CHAR_BITS);
    }
  }

  lemma {:induction false} FirstOne(p: Code)
    requires LeadingZeros(p) < |p|
    ensures p[LeadingZeros(p)]
  {
    if !p[0] { FirstOne(p[1..]); }
  }

  lemma BitsAfter(b: seq<Byte>, k: nat, p: Code, rest: Code)
    requires BitsFrom(b, k, p + rest)
    ensures BitsFrom(b, k + |p|, rest)
    ensures forall i :: 0 <= i < |p| ==> BitAt(b, k + i) == p[i]
  {
    forall i | 0 <= i < |rest| ensures BitAt(b, k + |p| + i) == rest[i] {
      assert (p + rest)[|p| + i] == rest[i];
    }
    forall i | 0 <= i < |p| ensures BitAt(b, k + i) == p[i] {
      assert (p + rest)[i] == p[i];
    }
  }

  /** Decoding the bits of `s` adds `s` to the buffer, and at most an end-of-
      string after it. */
  lemma {:induction false} WalkText(t: Tree, tab: Table, b: seq<Byte>, size: nat, k: nat, out: Text, s: Text)
    requires t.Node? && TableFits(t, tab) && Finish(t).Node?
    requires Terminated(b) && BitsFrom(b, k, Encode(tab, s)) && NulFree(s)
    requires |out| + |s| < size && s != []
    ensures Walk(Finish(t), b, size, k, Finish(t), out) in {Done(out + s), Done(out + s + [EOS])}
    decreases |s|
  {
    var root, c, p, rest := Finish(t), s[0], tab[s[0]], Encode(tab, s[1..]);
    var e := k + |p|;
    TableGood(t, tab, c);
    BitsAfter(b, k, p, rest);
    WalkCode(root, b, size, k, root, out, p, c);
    var out' := out + [c];
    assert out' + s[1..] == out + s;
    if s[1..] != [] {
      TableGood(t, tab, s[1]);
      LaterCodeHasOne(b, e, tab[s[1]], Encode(tab, s[1..][1..]));
      assert b[(e - 1) / CHAR_BITS] != 0 by { assert b[(e - 1) / CHAR_BITS] == b[..|b| - 1][(e - 1) / CHAR_BITS]; }
      WalkText(t, tab, b, size, e, out', s[1..]);
      return;
    }
    assert out' == out + s;
    if b[(e - 1) / CHAR_BITS] != 0 && |out'| + 1 < size {
      assert e <= (|b| - 1) * CHAR_BITS;
      FinishCodes(t, Zeros(8), EOS);
      WalkCode(root, b, size, e, root, out', Zeros(8), EOS);
    }
  }

  // ----- What survives storing

  lemma CompressedBit(tab: Table, s: Text, k: nat)
    requires k < NeededLength(|Encode(tab, s)|) * CHAR_BITS
    ensures BitAt(Compressed(tab, s), k) == (k < |Encode(tab, s)| && Encode(tab, s)[k])
  {
    PackedBit(Padded(Encode(tab, s)), k);
  }

  lemma {:induction false} EncodeIsConcat(tab: Table, s: Text)
    ensures Encode(tab, s) == Concat(seq(|s|, i requires 0 <= i < |s| => tab[s[i]]))
  {
    if s != [] {
      EncodeIsConcat(tab, s[1..]);
      assert seq(|s|, i requires 0 <= i < |s| => tab[s[i]])[1..] == seq(|s[1..]|, i requires 0 <= i < |s[1..]| => tab[s[1..][i]]);
    }
  }

  /** No whole byte of code is zero. */
  lemma FullByteNotZero(t: Tree, tab: Table, s: Text, i: nat)
    requires t.Node? && TableFits(t, tab) && NulFree(s)
    requires (i + 1) * CHAR_BITS <= |Encode(tab, s)|
    ensures Compressed(tab, s)[i] != 0
  {
    CodeNoEightZeros(t, tab, s);
    var p := Encode(tab, s);
    hide Encode, Padded, Value, TableFits, NulFree, EightZeros;
    PaddedStart(p);
    var eight := Padded(p)[i * CHAR_BITS..(i + 1) * CHAR_BITS];
    assert eight == p[i * CHAR_BITS..i * CHAR_BITS + 8];
    PackedByte(Padded(p), i);
    ZeroValue(eight);
    if eight == Zeros(8) { EightHere(p, i * CHAR_BITS); }
  }

  lemma EightHere(p: Code, i: nat)
    requires i + 8 <= |p| && p[i..i + 8] == Zeros(8)
    ensures EightZeros(p)
  {
    assert ZerosAt(p, i);
  }

  lemma CodeNoEightZeros(t: Tree, tab: Table, s: Text)
    requires t.Node? && TableFits(t, tab) && NulFree(s)
    ensures !EightZeros(Encode(tab, s))
  {
    var codes := seq(|s|, i requires 0 <= i < |s| => tab[s[i]]);
    EncodeIsConcat(tab, s);
    hide GoodCode, TableFits, Encode, EightZeros;
    forall j | 0 <= j < |codes| ensures GoodCode(codes[j]) { TableGood(t, tab, s[j]); }
    StreamNoEightZeros(codes);
  }

  lemma PaddedStart(p: Code)
    ensures p <= Padded(p)
  {
  }

  /** A C string ends at its first zero. */
  lemma {:induction false} CStringEnds(b: seq<Byte>, i: nat, z: nat)
    requires i <= z < |b| && b[z] == 0 && forall j :: i <= j < z ==> b[j] != 0
    ensures CStringAt(b, i) == b[i..z]
    decreases z - i
  {
    if i < z {
      CStringEnds(b, i + 1, z);
      assert b[i..z] == [b[i]] + b[i + 1..z];
    }
  }

  lemma {:induction false} FirstZero(b: seq<Byte>, i: nat) returns (z: nat)
    requires i < |b| && b[|b| - 1] == 0
    ensures i <= z < |b| && b[z] == 0 && forall j :: i <= j < z ==> b[j] != 0
    decreases |b| - i
  {
    if b[i] == 0 { z := i; } else { z := FirstZero(b, i + 1); }
  }

  lemma LastByteZero(tab: Table, s: Text)
    ensures var all := Compressed(tab, s); |all| > 0 && all[|all| - 1] == 0
  {
    var p := Encode(tab, s);
    var last := |Compressed(tab, s)| - 1;
    PackedByte(Padded(p), last);
    ZeroValue(Padded(p)[last * CHAR_BITS..(last + 1) * CHAR_BITS]);
    hide Encode, Value;
  }

  /** The compressed bytes are the fewest that the code of the text and eight
      zeros fit in. */
  lemma CompressedLength(tab: Table, s: Text, n: nat)
    ensures n * CHAR_BITS >= |Encode(tab, s)| + CHAR_BITS <==> n >= |Compressed(tab, s)|
  {
    hide Encode;
  }

  /** What is stored is a beginning of the compressed bytes, with all the code. */
  lemma StoredIs(t: Tree, tab: Table, s: Text)
    requires t.Node? && TableFits(t, tab) && NulFree(s)
    ensures var b, all := Stored(Compressed(tab, s)), Compressed(tab, s);
            b <= all && Terminated(b) && |Encode(tab, s)| < |b| * CHAR_BITS
  {
    hide Encode, Compressed, TableFits, CStringAt;
    var all := Compressed(tab, s);
    LastByteZero(tab, s);
    var z := FirstZero(all, 0);
    CStringEnds(all, 0, z);
    assert Stored(all) == all[..z + 1];
    if (z + 1) * CHAR_BITS <= |Encode(tab, s)| { FullByteNotZero(t, tab, s, z); }
  }

  /** No byte is stored after the last one that has code in it, but the zero. */
  lemma StoredLength(t: Tree, tab: Table, s: Text)
    requires t.Node? && TableFits(t, tab) && NulFree(s)
    ensures (|Stored(Compressed(tab, s))| - 1) * CHAR_BITS < |Encode(tab, s)| + CHAR_BITS
  {
    StoredIs(t, tab, s);
    var b := Stored(Compressed(tab, s));
    if |b| >= 2 {
      var i: nat := |b| - 2;
      assert b[..|b| - 1][i] == Compressed(tab, s)[i] != 0;
      if i * CHAR_BITS >= |Encode(tab, s)| { ZerosBehind(tab, s, i); }
    }
  }

  /** The bytes behind the code are zero. */
  lemma ZerosBehind(tab: Table, s: Text, i: nat)
    requires |Encode(tab, s)| <= i * CHAR_BITS && i < |Compressed(tab, s)|
    ensures Compressed(tab, s)[i] == 0
  {
    var p := Encode(tab, s);
    hide Encode, Value;
    PackedByte(Padded(p), i);
    ZeroValue(Padded(p)[i * CHAR_BITS..(i + 1) * CHAR_BITS]);
  }

  lemma StoredBits(tab: Table, s: Text, b: seq<Byte>)
    requires b <= Compressed(tab, s) && |Encode(tab, s)| < |b| * CHAR_BITS
    ensures BitsFrom(b, 0, Encode(tab, s))
  {
    var p, all := Encode(tab, s), Compressed(tab, s);
    forall k | 0 <= k < |b| * CHAR_BITS ensures BitAt(b, k) == (k < |p| && p[k]) {
      CompressedBit(tab, s, k);
      assert b[k / CHAR_BITS] == all[k / CHAR_BITS];
    }
    hide Encode, Compressed, BitAt;
  }

  /** Storing keeps a beginning of the compressed bytes that holds all the code,
      and puts a zero byte at its end. */
  lemma StoredKeepsCode(t: Tree, tab: Table, s: Text)
    requires t.Node? && TableFits(t, tab) && NulFree(s)
    ensures var b, p := Stored(Compressed(tab, s)), Encode(tab, s);
            Terminated(b) && BitsFrom(b, 0, p) && (b[0] == 0 <==> s == [])
  {
    hide Stored, Value;
    var b := Stored(Compressed(tab, s));
    StoredIs(t, tab, s);
    StoredBits(tab, s, b);
    if s != [] {
      TableGood(t, tab, s[0]);
      LaterCodeHasOne(b, 0, tab[s[0]], Encode(tab, s[1..]));
    }
  }

  /** The round trip: compressing, storing as a C string and decompressing gives
      the text back, for every text that fits the buffer; the decoder always
      finds the child it steps to, and stops no later than at the zero byte. */
  lemma RoundTrip(t: Tree, tab: Table, size: nat, s: Text)
    requires t.Node? && TableFits(t, tab) && NulFree(s) && |s| < size
    ensures var d := Uncompressed(Finish(t), Stored(Compressed(tab, s)), size);
            d.Done? && CStringAt(d.out + [EOS], 0) == s
  {
    var b := Stored(Compressed(tab, s));
    StoredKeepsCode(t, tab, s);
    if s != [] {
      WalkText(t, tab, b, size, 0, [], s);
      assert [] + s == s;
    }
    var d := Uncompressed(Finish(t), b, size);
    CStringEnds(d.out + [EOS], 0, |s|);
  }
}
