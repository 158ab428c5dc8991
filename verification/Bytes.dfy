/** Bytes, C strings, and ints as they are in memory.  The server is built with
    unsigned chars, so a char is a number from 0 to 255, and a C string is a run
    of non-zero ones. */
module Bytes {
  type Byte = b: int | 0 <= b < 256

  type Text = seq<Byte>

  /** The size of the server's text buffers. */
  const BUFFER_LEN := 8192

  datatype Option<+T> = None | Some(value: T)

  /** True of the texts that a C string can hold. */
  predicate NulFree(s: Text) {
    0 !in s
  }

  /** The C string that starts at `i`: everything before the first zero. */
  function CStringAt(s: Text, i: int): (t: Text)
    decreases |s| - i
  {
    if i < 0 || i >= |s| || s[i] == 0 then [] else [s[i]] + CStringAt(s, i + 1)
  }

  lemma {:induction false} CStringAtFinds(s: Text, i: nat, t: Text)
    requires NulFree(t)
    requires i + |t| < |s|
    requires s[i..i + |t|] == t && s[i + |t|] == 0
    ensures CStringAt(s, i) == t
    decreases |t|
  {
    if |t| > 0 {
      assert s[i] == t[0];
      assert s[i + 1..i + 1 + |t[1..]|] == t[1..];
      CStringAtFinds(s, i + 1, t[1..]);
    }
  }

  // ----- Numbers in memory

  /** The `n` lowest bytes of a number, lowest first. */
  function Digits(u: nat, n: nat): (b: seq<Byte>)
    ensures |b| == n
  {
    if n == 0 then [] else [u % 256] + Digits(u / 256, n - 1)
  }

  function Number(b: seq<Byte>): nat {
    if b == [] then 0 else b[0] + 256 * Number(b[1..])
  }

  function Power256(n: nat): nat {
    if n == 0 then 1 else 256 * Power256(n - 1)
  }

  lemma {:induction false} NumberOfDigits(u: nat, n: nat)
    requires u < Power256(n)
    ensures Number(Digits(u, n)) == u
  {
    if n > 0 { NumberOfDigits(u / 256, n - 1); }
  }

  const INT_LIMIT := 0x8000_0000

  predicate IsInt(i: int) {
    -INT_LIMIT <= i < INT_LIMIT
  }

  /** The four bytes of a two's-complement int, lowest first. */
  function EncodeInt(i: int): (b: seq<Byte>)
    ensures |b| == 4
  {
    Digits(i % 0x1_0000_0000, 4)
  }

  function DecodeInt(b: seq<Byte>): int
    requires |b| == 4
  {
    var u := Number(b);
    if u >= INT_LIMIT then u - 0x1_0000_0000 else u
  }

  /** An int that is stored and read back is the same. */
  lemma DecodeEncode(i: int)
    requires IsInt(i)
    ensures DecodeInt(EncodeInt(i)) == i
  {
    assert Power256(2) == 0x1_0000 && Power256(4) == 0x1_0000_0000;
    NumberOfDigits(i % 0x1_0000_0000, 4);
  }
}
